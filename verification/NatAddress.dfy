/** Where the two copies of every NAT block lie: segments come in pairs, a bit per block says which one is current. */
module NatAddress {
  import opened Arith

  /** current_nat_addr for block `off` of the NAT, whose bit is `second`; u is the number of blocks in a segment. */
  function Current(base: nat, u: nat, off: nat, second: bool): nat
    requires u >= 1
  {
    base + off * 2 - off % u + if second then u else 0
  }

  /** Exclusive or with a power of two, as arithmetic. */
  function Flip(x: nat, u: nat): int
    requires u >= 1
  {
    if x / u % 2 == 0 then x + u else x - u
  }

  /** next_nat_addr */
  function Next(base: nat, u: nat, addr: nat): int
    requires u >= 1 && base <= addr
  {
    Flip(addr - base, u) + base
  }

  /** For the 512-block segments of the device the exclusive or of the source is that arithmetic. */
  lemma FlipIsXor(x: bv32)
    ensures x & 512 == 0 ==> x ^ 512 == x + 512
    ensures x & 512 != 0 ==> x ^ 512 == x - 512
  {
  }

  /** A copy lies at its block's place in one of the two segments of its pair. */
  lemma Layout(base: nat, u: nat, off: nat, second: bool)
    requires u >= 1
    ensures var a := Current(base, u, off, second) - base; var s := if second then 1 else 0;
            a >= 0 && a / u == 2 * (off / u) + s && a % u == off % u
  {
    var q, r, s := off / u, off % u, if second then 1 else 0;
    var x := Whole(off, u);
    Offset(base, u, off, second, x);
    Double(q, s, u);
    DivIs(2 * x + s * u + r, 2 * q + s, r, u);
  }

  lemma Whole(off: nat, u: nat) returns (x: nat)
    requires u >= 1
    ensures x == off / u * u && off == x + off % u
  {
    MulLe(0, off / u, u);
    x := off / u * u;
  }

  lemma Offset(base: nat, u: nat, off: nat, second: bool, x: nat)
    requires u >= 1 && off == x + off % u
    ensures Current(base, u, off, second) - base == 2 * x + (if second then 1 else 0) * u + off % u
  {
  }

  lemma Double(q: int, s: int, u: int)
    ensures (2 * q + s) * u == 2 * (q * u) + s * u
  {
  }

  /** The next address of a block is its other copy, and the next of that is the first again. */
  lemma NextIsOther(base: nat, u: nat, off: nat, second: bool)
    requires u >= 1
    ensures base <= Current(base, u, off, second)
    ensures Next(base, u, Current(base, u, off, second)) == Current(base, u, off, !second)
  {
    Layout(base, u, off, second);
  }

  /** No two copies, of one block or of two, share an address: writing the next copy of a block leaves every current
      copy, its own included, as it was. */
  lemma CopiesApart(base: nat, u: nat, off: nat, second: bool, off': nat, second': bool)
    requires u >= 1 && Current(base, u, off, second) == Current(base, u, off', second')
    ensures off == off' && second == second'
  {
    Layout(base, u, off, second);
    Layout(base, u, off', second');
    assert off == off / u * u + off % u && off' == off' / u * u + off' % u;
  }
}
