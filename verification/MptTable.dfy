/**
 The NVM mapping table (MPT): one array whose first part maps NVM segments to
 SSD segments and whose second part maps them back, each entry packing a
 segment offset with three flag bits; and the bitmap and free counter the
 segment allocator keeps beside it.
 */
module MptTable {
  import opened Common

  // ------------------------------------------------------------------ entry words

  const TWO32: int := 0x1_0000_0000
  type Word = w: int | 0 <= w < TWO32

  const RW_MAP: nat := 1
  const RW_REDIRECT: nat := 2
  const RW_DOUBLE: nat := 4

  /** An entry word taken apart. */
  datatype Entry = Entry(value: nat, mapped: bool, redirect: bool, double: bool)

  const UNMAPPED: Entry := Entry(0, false, false, false)

  function Pack(off: nat, flags: nat): Word { (off * 8 + flags) % TWO32 }

  function Decode(w: Word): Entry {
    Entry(w / 8, w % 2 == 1, w / 2 % 2 == 1, w / 4 % 2 == 1)
  }

  function SetDoubleFlag(w: Word): Word { if w / 4 % 2 == 1 then w else w + 4 }

  const SEG_LIMIT: nat := 0x2000_0000

  lemma DecodeBits(off: nat, a: nat, b: nat, c: nat)
    requires off < SEG_LIMIT && a < 2 && b < 2 && c < 2
    ensures Decode(8 * off + 4 * c + 2 * b + a) == Entry(off, a == 1, b == 1, c == 1)
  {
    Digit(2, 4 * off + 2 * c + b, a);
    Digit(2, 2 * off + c, b);
    Digit(4, 2 * off + c, 2 * b + a);
    Digit(2, off, c);
    Digit(8, off, 4 * c + 2 * b + a);
  }

  lemma Digit(base: nat, q: nat, r: nat)
    requires r < base && base in {2, 4, 8}
    ensures (base * q + r) / base == q && (base * q + r) % base == r
  {
    match base
    case 2 => assert (2 * q + r) / 2 == q;
    case 4 => assert (4 * q + r) / 4 == q;
    case _ => assert (8 * q + r) / 8 == q;
  }

  lemma DecodePack(off: nat, double: bool)
    requires off < SEG_LIMIT
    ensures var flags := RW_MAP + RW_REDIRECT + if double then RW_DOUBLE else 0;
            Decode(Pack(off, flags)) == Entry(off, true, true, double)
  {
    DecodeBits(off, 1, 1, if double then 1 else 0);
  }

  lemma Halves(w: nat, v: nat)
    requires v == w / 4
    ensures w == 4 * v + 2 * (w / 2 % 2) + w % 2
  {
    var h := w / 2;
    assert w == 2 * h + w % 2;
    assert v == h / 2;
    assert h == 2 * v + h % 2;
  }

  lemma Eighths(w: nat)
    ensures w / 4 == 2 * (w / 8) + w / 4 % 2
  {
    var v := w / 4;
    assert w / 8 == v / 2;
  }

  lemma WordParts(w: Word)
    ensures w == 8 * (w / 8) + 4 * (w / 4 % 2) + 2 * (w / 2 % 2) + w % 2
  {
    Eighths(w);
    Halves(w, w / 4);
  }

  lemma DecodeSetDouble(w: Word)
    ensures Decode(SetDoubleFlag(w)) == Decode(w).(double := true)
  {
    var q, a, b, c := w / 8, w % 2, w / 2 % 2, w / 4 % 2;
    WordParts(w);
    FlagBits(w, q, a, b, c);
  }

  lemma FlagBits(w: Word, q: nat, a: nat, b: nat, c: nat)
    requires q < SEG_LIMIT && a < 2 && b < 2 && c < 2 && w == 8 * q + 4 * c + 2 * b + a
    ensures Decode(w) == Entry(q, a == 1, b == 1, c == 1) && Decode(SetDoubleFlag(w)) == Entry(q, a == 1, b == 1, true)
  {
    DecodeBits(q, a, b, c);
    DecodeBits(q, a, b, 1);
    assert SetDoubleFlag(w) == 8 * q + 4 + 2 * b + a;
  }

  /** The shift and mask expressions of nvm.h compute the arithmetic above. */
  lemma BitExpressions(off: bv32, flags: bv32, w: bv32)
    requires flags < 8
    ensures ((off << 3) | flags) == off * 8 + flags
    ensures (w >> 3) == w / 8
    ensures (w & 1) == w % 2
    ensures (w & 2) != 0 <==> w / 2 % 2 == 1
    ensures (w & 4) != 0 <==> w / 4 % 2 == 1
    ensures (w | 4) == if w / 4 % 2 == 1 then w else w + 4
  {
  }

  /** clear_redirect_flag clears the redirect bit and nothing else. */
  lemma ClearRedirectExact(w: bv32)
    ensures ((w >> 2) << 2) | (w & 1) == w & 0xffff_fffd
  {
  }

  /** clear_double_flag also clears the lowest bit of the stored offset: it keeps
      the offset exactly when that is even. */
  lemma ClearDoubleExact(w: bv32)
    ensures var r := ((w >> 4) << 4) | (w & 3);
            r == w & 0xffff_fff3 && ((r >> 3) == (w >> 3) <==> (w >> 3) % 2 == 0)
  {
  }

  // ------------------------------------------------------------------ free segments

  function CountClear(bits: seq<bool>): nat {
    if bits == [] then 0 else (if bits[0] then 0 else 1) + CountClear(bits[1..])
  }

  lemma {:induction false} CountClearUpdate(bits: seq<bool>, i: nat, b: bool)
    requires i < |bits|
    ensures CountClear(bits[i := b]) == CountClear(bits) + (if bits[i] then 1 else 0) - (if b then 1 else 0)
  {
    if i == 0 {
      assert bits[i := b][1..] == bits[1..];
    } else {
      assert bits[i := b][1..] == bits[1..][i - 1 := b];
      CountClearUpdate(bits[1..], i - 1, b);
    }
  }

  lemma {:induction false} CountClearZero(bits: seq<bool>)
    ensures CountClear(bits) == 0 <==> forall i :: 0 <= i < |bits| ==> bits[i]
    ensures CountClear(bits) <= |bits|
  {
    if bits != [] {
      CountClearZero(bits[1..]);
      assert (forall i :: 0 <= i < |bits| ==> bits[i]) <==>
               bits[0] && (forall i :: 0 <= i < |bits[1..]| ==> bits[1..][i]);
    }
  }

  // ------------------------------------------------------------------ the table as a value

  /** nvm is the number of NVM segments: entry n < nvm belongs to NVM segment n,
      entry nvm + m to SSD segment m.  `held` are NVM segments allocated by a hot
      move that has not created its mapping yet; `inUse` is free_segmap. */
  datatype Table = Table(nvm: nat, mpt: seq<Entry>, segMap: seq<bool>, free: nat, held: set<nat>, inUse: seq<bool>)

  /** The entry the mapped entry i points to. */
  function Partner(t: Table, i: nat): nat
    requires i < |t.mpt|
  {
    if i < t.nvm then t.nvm + t.mpt[i].value else t.mpt[i].value
  }

  /** Entry i is unmapped, or names an entry of the other half that names it back. */
  ghost predicate Paired(t: Table, i: nat)
    requires i < |t.mpt|
  {
    var e := t.mpt[i];
    if !e.mapped then e == UNMAPPED
    else
      var p := Partner(t, i);
      && e.redirect && p < |t.mpt| && (i < t.nvm <==> t.nvm <= p)
      && t.mpt[p] == e.(value := if i < t.nvm then i else i - t.nvm)
  }

  ghost predicate Shape(t: Table) {
    |t.segMap| == t.nvm && |t.mpt| == t.nvm + |t.inUse| && |t.mpt| < SEG_LIMIT
  }

  ghost predicate Inv(t: Table) {
    && Shape(t)
    && (forall i :: 0 <= i < |t.mpt| ==> Paired(t, i))
    && (forall n :: 0 <= n < t.nvm ==> (t.segMap[n] <==> t.mpt[n].mapped || n in t.held))
    && (forall n :: n in t.held ==> n < t.nvm && !t.mpt[n].mapped)
    && t.free == CountClear(t.segMap)
    && (forall m :: 0 <= m < |t.inUse| && !t.inUse[m] ==> !t.mpt[t.nvm + m].mapped)
  }

  /** create_mapping */
  function MapPair(t: Table, ssd: nat, nvm: nat, double: bool): Table
    requires nvm < |t.mpt| && t.nvm + ssd < |t.mpt|
  {
    t.(mpt := t.mpt[nvm := Entry(ssd, true, true, double)][t.nvm + ssd := Entry(nvm, true, true, double)])
  }

  /** unset_mapping */
  function Unmap(t: Table, ssd: nat): Table
    requires Shape(t) && t.nvm + ssd < |t.mpt| && (t.mpt[t.nvm + ssd].mapped ==> t.mpt[t.nvm + ssd].value < t.nvm)
  {
    var i := t.nvm + ssd;
    if !t.mpt[i].mapped then t
    else
      var n := t.mpt[i].value;
      t.(mpt := t.mpt[i := UNMAPPED][n := UNMAPPED], segMap := t.segMap[n := false], free := t.free + 1)
  }

  /** set_double */
  function MarkDouble(t: Table, ssd: nat): Table
    requires Shape(t) && t.nvm + ssd < |t.mpt| && (t.mpt[t.nvm + ssd].mapped ==> t.mpt[t.nvm + ssd].value < t.nvm)
  {
    var i := t.nvm + ssd;
    if !t.mpt[i].mapped then t
    else
      var n := t.mpt[i].value;
      t.(mpt := t.mpt[i := t.mpt[i].(double := true)][n := t.mpt[n].(double := true)])
  }

  /** The bitmap half of nvm_allocate_segment: NVM segment n is now held. */
  function Hold(t: Table, n: nat): Table
    requires n < |t.segMap| && 0 < t.free
  {
    t.(segMap := t.segMap[n := true], free := t.free - 1, held := t.held + {n})
  }

  /** hot_to_nvm giving a held segment back. */
  function GiveBack(t: Table, n: nat): Table
    requires n < |t.segMap|
  {
    t.(segMap := t.segMap[n := false], free := t.free + 1, held := t.held - {n})
  }

  /** new_curseg: an SSD segment is taken, and mapped to a free NVM segment or to none. */
  function TakeSeg(t: Table, ssd: nat, onto: Option<nat>): Table
    requires Shape(t) && ssd < |t.inUse| && (onto.Some? ==> onto.value < t.nvm && 0 < t.free)
  {
    var u := t.(inUse := t.inUse[ssd := true]);
    if onto.None? then u else MapPair(Hold(u, onto.value), ssd, onto.value, false).(held := t.held)
  }

  /** __set_test_and_free: a released SSD segment loses its mapping. */
  function FreeSeg(t: Table, ssd: nat): Table
    requires Shape(t) && ssd < |t.inUse| && (t.mpt[t.nvm + ssd].mapped ==> t.mpt[t.nvm + ssd].value < t.nvm)
  {
    Unmap(t, ssd).(inUse := t.inUse[ssd := false])
  }

  /** The end of a hot move: the held segment is mapped, or given back if the SSD segment was freed meanwhile. */
  function EndHot(t: Table, ssd: nat, n: nat): Table
    requires Shape(t) && ssd < |t.inUse| && n < t.nvm
  {
    if t.inUse[ssd] then MapPair(t, ssd, n, true).(held := t.held - {n}) else GiveBack(t, n)
  }

  // ------------------------------------------------------------------ the invariant

  lemma PartnerValue(t: Table, ssd: nat)
    requires Inv(t) && ssd < |t.inUse|
    ensures t.mpt[t.nvm + ssd].mapped ==> t.mpt[t.nvm + ssd].value < t.nvm
  {
    assert Paired(t, t.nvm + ssd);
  }

  /** The two halves are mutual inverses. */
  lemma MutualInverse(t: Table, nvm: nat, ssd: nat)
    requires Inv(t) && nvm < t.nvm && ssd < |t.inUse|
    ensures t.mpt[nvm].mapped && t.mpt[nvm].value == ssd <==>
            t.mpt[t.nvm + ssd].mapped && t.mpt[t.nvm + ssd].value == nvm
  {
    assert Paired(t, nvm) && Paired(t, t.nvm + ssd);
  }

  /** A held NVM segment and an unmapped SSD segment may be mapped to each other. */
  lemma MapPairInv(t: Table, ssd: nat, nvm: nat, double: bool)
    requires Inv(t) && ssd < |t.inUse| && t.inUse[ssd] && nvm in t.held
    requires !t.mpt[t.nvm + ssd].mapped
    ensures Inv(MapPair(t, ssd, nvm, double).(held := t.held - {nvm}))
  {
    var u := MapPair(t, ssd, nvm, double).(held := t.held - {nvm});
    forall i | 0 <= i < |u.mpt| ensures Paired(u, i) {
      MapPairPaired(t, ssd, nvm, double, i);
    }
  }

  lemma MapPairPaired(t: Table, ssd: nat, nvm: nat, double: bool, i: nat)
    requires Shape(t) && ssd < |t.inUse| && nvm < t.nvm && i < |t.mpt| && Paired(t, i)
    requires !t.mpt[nvm].mapped && !t.mpt[t.nvm + ssd].mapped
    ensures Paired(MapPair(t, ssd, nvm, double).(held := t.held - {nvm}), i)
  {
  }

  lemma UnmapInv(t: Table, ssd: nat)
    requires Inv(t) && ssd < |t.inUse|
    ensures t.mpt[t.nvm + ssd].mapped ==> t.mpt[t.nvm + ssd].value < t.nvm
    ensures Inv(Unmap(t, ssd)) && !Unmap(t, ssd).mpt[t.nvm + ssd].mapped
  {
    var i := t.nvm + ssd;
    assert Paired(t, i);
    if t.mpt[i].mapped {
      var u, n := Unmap(t, ssd), t.mpt[i].value;
      forall j | 0 <= j < |u.mpt| ensures Paired(u, j) {
        assert Paired(t, j);
      }
      CountClearUpdate(t.segMap, n, false);
    }
  }

  lemma MarkDoubleInv(t: Table, ssd: nat)
    requires Inv(t) && ssd < |t.inUse|
    ensures t.mpt[t.nvm + ssd].mapped ==> t.mpt[t.nvm + ssd].value < t.nvm
    ensures Inv(MarkDouble(t, ssd))
  {
    var i := t.nvm + ssd;
    assert Paired(t, i);
    if t.mpt[i].mapped {
      var u, n := MarkDouble(t, ssd), t.mpt[i].value;
      forall j | 0 <= j < |u.mpt| ensures Paired(u, j) {
        MarkDoublePaired(t, ssd, j);
      }
    }
  }

  lemma MarkDoublePaired(t: Table, ssd: nat, j: nat)
    requires Shape(t) && ssd < |t.inUse| && j < |t.mpt| && Paired(t, j) && Paired(t, t.nvm + ssd)
    requires t.mpt[t.nvm + ssd].mapped
    ensures t.mpt[t.nvm + ssd].value < t.nvm && Paired(MarkDouble(t, ssd), j)
  {
  }

  lemma HoldInv(t: Table, n: nat)
    requires Inv(t) && n < t.nvm && !t.segMap[n]
    ensures 0 < t.free && Inv(Hold(t, n))
  {
    CountClearZero(t.segMap);
    CountClearUpdate(t.segMap, n, true);
    var u := Hold(t, n);
    forall j | 0 <= j < |u.mpt| ensures Paired(u, j) {
      assert Paired(t, j);
    }
  }

  lemma GiveBackInv(t: Table, n: nat)
    requires Inv(t) && n in t.held
    ensures Inv(GiveBack(t, n))
  {
    CountClearUpdate(t.segMap, n, false);
    var u := GiveBack(t, n);
    forall j | 0 <= j < |u.mpt| ensures Paired(u, j) {
      assert Paired(t, j);
    }
  }

  /** What create_mapping does to a table whose SSD segment is already mapped: the
      earlier NVM segment keeps pointing at it.  So the mapping step keeps the
      invariant exactly when the SSD half is unmapped; the test hot_to_nvm makes
      looks at the NVM half, which is never mapped. */
  lemma MapPairExact(t: Table, ssd: nat, nvm: nat, double: bool)
    requires Inv(t) && ssd < |t.inUse| && t.inUse[ssd] && nvm in t.held
    ensures !t.mpt[nvm].mapped
    ensures Inv(MapPair(t, ssd, nvm, double).(held := t.held - {nvm})) <==> !t.mpt[t.nvm + ssd].mapped
  {
    if t.mpt[t.nvm + ssd].mapped {
      var u := MapPair(t, ssd, nvm, double).(held := t.held - {nvm});
      assert Paired(t, t.nvm + ssd);
      var old' := t.mpt[t.nvm + ssd].value;
      assert Paired(t, old');
      assert old' != nvm && u.mpt[old'].value == ssd;
      assert !Paired(u, old');
    } else {
      MapPairInv(t, ssd, nvm, double);
    }
  }

  // ------------------------------------------------------------------ the code

  function DecodeAll(ws: seq<Word>): (r: seq<Entry>)
    ensures |r| == |ws|
  {
    seq(|ws|, i requires 0 <= i < |ws| => Decode(ws[i]))
  }

  /** The in-memory table of nvm_sb_info. */
  class NvmTable {
    const nvm: nat
    const mpt: array<Word>
    const segMap: array<bool>
    var inUse: seq<bool>
    var free: nat
    var cur: nat
    ghost var held: set<nat>

    ghost function T(): Table
      reads this, mpt, segMap
    {
      Table(nvm, DecodeAll(mpt[..]), segMap[..], free, held, inUse)
    }

    ghost predicate Valid()
      reads this, mpt, segMap
    {
      Inv(T()) && cur <= nvm
    }

    constructor (nvm: nat, ssd: nat)
      requires nvm + ssd < SEG_LIMIT
      ensures Valid() && fresh(mpt) && fresh(segMap)
      ensures T() == Table(nvm, seq(nvm + ssd, _ => UNMAPPED), seq(nvm, _ => false), nvm, {}, seq(ssd, _ => false))
    {
      this.nvm := nvm;
      mpt := new Word[nvm + ssd](_ => 0);
      segMap := new bool[nvm](_ => false);
      inUse := seq(ssd, _ => false);
      free, cur, held := nvm, 0, {};
      new;
      AllClear(segMap[..]);
      assert segMap[..] == seq(nvm, _ => false);
      assert DecodeAll(mpt[..]) == seq(nvm + ssd, _ => UNMAPPED);
    }

    method CreateMapping(ssd: nat, n: nat, double: bool)
      requires Shape(T()) && ssd < |inUse| && n < nvm
      modifies mpt
      ensures T() == MapPair(old(T()), ssd, n, double)
    {
      var flags := RW_MAP + RW_REDIRECT + (if double then RW_DOUBLE else 0);
      DecodePack(ssd, double);
      DecodePack(n, double);
      SetWords(n, nvm + ssd, Pack(ssd, flags), Pack(n, flags));
    }

    method UnsetMapping(ssd: nat)
      requires Valid() && ssd < |inUse|
      modifies this`free, mpt, segMap
      ensures Valid() && Inv(old(T())) && T() == (PartnerValue(old(T()), ssd); Unmap(old(T()), ssd))
    {
      ghost var t := T();
      UnmapInv(t, ssd);
      var i := nvm + ssd;
      var mapped, n := Look(i);
      if mapped {
        ClearWords(i, n);
        SetBit(n, false);
        free := free + 1;
      }
      assert T() == Unmap(t, ssd);
    }

    /** get_map_flag and get_mpt_value */
    method Look(i: nat) returns (mapped: bool, value: nat)
      requires i < mpt.Length
      ensures mapped == DecodeAll(mpt[..])[i].mapped && value == DecodeAll(mpt[..])[i].value
    {
      mapped, value := mpt[i] % 2 == 1, mpt[i] / 8;
    }

    method ClearWords(i: nat, k: nat)
      requires i < mpt.Length && k < mpt.Length && i != k
      modifies mpt
      ensures DecodeAll(mpt[..]) == old(DecodeAll(mpt[..]))[i := UNMAPPED][k := UNMAPPED]
    {
      SetWords(i, k, 0, 0);
      assert Decode(0) == UNMAPPED;
    }

    /** set_double_flag */
    method FlagWord(i: nat)
      requires i < mpt.Length
      modifies mpt
      ensures DecodeAll(mpt[..]) == old(DecodeAll(mpt[..]))[i := old(DecodeAll(mpt[..]))[i].(double := true)]
    {
      DecodeSetDouble(mpt[i]);
      mpt[i] := SetDoubleFlag(mpt[i]);
    }

    /** Two stores into the packed array, seen through the decoding. */
    method SetWords(i: nat, k: nat, v: Word, w: Word)
      requires i < mpt.Length && k < mpt.Length && i != k
      modifies mpt
      ensures DecodeAll(mpt[..]) == old(DecodeAll(mpt[..]))[i := Decode(v)][k := Decode(w)]
    {
      mpt[i] := v;
      mpt[k] := w;
    }

    method SetBit(n: nat, b: bool)
      requires n < segMap.Length
      modifies segMap
      ensures segMap[..] == old(segMap[..])[n := b]
    {
      segMap[n] := b;
    }

    method SetDouble(ssd: nat)
      requires Valid() && ssd < |inUse|
      modifies mpt
      ensures Valid() && Inv(old(T())) && T() == (PartnerValue(old(T()), ssd); MarkDouble(old(T()), ssd))
    {
      ghost var t := T();
      MarkDoubleInv(t, ssd);
      var i := nvm + ssd;
      var mapped, n := Look(i);
      if mapped {
        FlagWord(i);
        FlagWord(n);
      }
      assert T() == MarkDouble(t, ssd);
    }

    /** find_next_zero_bit over segment_map. */
    method FindNextZero(from: nat) returns (n: nat)
      requires from <= segMap.Length
      ensures from <= n <= segMap.Length
      ensures forall q :: from <= q < n ==> segMap[q]
      ensures n < segMap.Length ==> !segMap[n]
    {
      n := from;
      while n < segMap.Length && segMap[n]
        invariant from <= n <= segMap.Length
        invariant forall q :: from <= q < n ==> segMap[q]
      {
        n := n + 1;
      }
    }

    /** nvm_allocate_segment up to the mapping: the wrap-around search ends because the
        counter says some bit is clear. None is -ENVMNOSPACE. */
    method AllocateHeld() returns (r: Option<nat>)
      requires Valid()
      modifies this`free, this`cur, this`held, segMap
      ensures Valid()
      ensures r.None? <==> old(free) == 0
      ensures r.None? ==> T() == old(T())
      ensures r.Some? ==> r.value < nvm && !old(segMap[..])[r.value] && 0 < old(free) && T() == Hold(old(T()), r.value)
      ensures r.Some? ==> r.value in held && r.value !in old(held)
    {
      if free == 0 {
        return None;
      }
      ghost var t := T();
      var n := SearchAround();
      HoldInv(t, n);
      SetBit(n, true);
      free := free - 1;
      held := held + {n};
      cur := n + 1;
      return Some(n);
    }

    /** The search from the current place to the end and then from the beginning. */
    method SearchAround() returns (n: nat)
      requires Valid() && free > 0
      ensures n < nvm && !segMap[n]
    {
      CountClearZero(segMap[..]);
      ghost var z :| 0 <= z < |segMap[..]| && !segMap[..][z];
      var wrapped := false;
      n := FindNextZero(cur);
      while n >= nvm
        invariant n <= nvm == segMap.Length && (n < nvm ==> !segMap[n]) && (wrapped ==> n < nvm)
        decreases !wrapped
      {
        assert !segMap[z];
        n := FindNextZero(0);
        wrapped := true;
      }
    }

    /** new_curseg: a free SSD segment is taken and, when the placement policy asks
        for it and there is room, mapped to an NVM segment. */
    method NewCurseg(ssd: nat, wantNvm: bool) returns (r: Option<nat>)
      requires Valid() && ssd < |inUse| && !inUse[ssd]
      modifies this`free, this`cur, this`held, this`inUse, mpt, segMap
      ensures Valid() && (r.Some? <==> wantNvm && 0 < old(free))
      ensures r.Some? ==> r.value < nvm && !old(segMap[..])[r.value]
      ensures T() == TakeSeg(old(T()), ssd, r)
    {
      ghost var t := T();
      TakeInv(t, ssd);
      inUse := inUse[ssd := true];
      r := None;
      if wantNvm {
        r := AllocateHeld();
        if r.Some? {
          MapPairInv(T(), ssd, r.value, false);
          CreateMapping(ssd, r.value, false);
          held := held - {r.value};
          assert (t.held + {r.value}) - {r.value} == t.held;
        }
      }
    }

    /** __set_test_and_free: a released SSD segment loses its mapping. */
    method FreeSegment(ssd: nat)
      requires Valid() && ssd < |inUse|
      modifies this`free, this`inUse, mpt, segMap
      ensures Valid() && Inv(old(T())) && T() == (PartnerValue(old(T()), ssd); FreeSeg(old(T()), ssd))
    {
      UnsetMapping(ssd);
      UnmapInv(old(T()), ssd);
      ReleaseInv(T(), ssd);
      inUse := inUse[ssd := false];
    }

    /** The end of one round of hot_to_nvm: map the held segment, or give it back if the
        SSD segment was freed meanwhile.  The branch for an NVM segment that is already
        mapped is dead; the invariant survives exactly when the SSD segment is still unmapped. */
    method HotFinish(ssd: nat, n: nat)
      requires Valid() && ssd < |inUse| && n in held
      modifies this`free, this`held, mpt, segMap
      ensures n < nvm && nvm == T().nvm && cur == old(cur)
      ensures T() == EndHot(old(T()), ssd, n)
      ensures Inv(T()) <==> !(inUse[ssd] && old(T()).mpt[nvm + ssd].mapped)
    {
      ghost var t := T();
      if inUse[ssd] {
        MapPairExact(t, ssd, n, true);
        var mapped, value := Look(n);
        if mapped {
          assert false;
        } else {
          CreateMapping(ssd, n, true);
          held := held - {n};
        }
      } else {
        GiveBackInv(t, n);
        SetBit(n, false);
        free := free + 1;
        held := held - {n};
      }
    }
  }

  lemma {:induction false} AllClear(bits: seq<bool>)
    requires forall i :: 0 <= i < |bits| ==> !bits[i]
    ensures CountClear(bits) == |bits|
  {
    if bits != [] {
      AllClear(bits[1..]);
    }
  }

  lemma TakeInv(t: Table, ssd: nat)
    requires Inv(t) && ssd < |t.inUse|
    ensures Inv(t.(inUse := t.inUse[ssd := true]))
  {
    var u := t.(inUse := t.inUse[ssd := true]);
    forall j | 0 <= j < |u.mpt| ensures Paired(u, j) {
      assert Paired(t, j);
    }
  }

  lemma ReleaseInv(t: Table, ssd: nat)
    requires Inv(t) && ssd < |t.inUse| && !t.mpt[t.nvm + ssd].mapped
    ensures Inv(t.(inUse := t.inUse[ssd := false]))
  {
    var u := t.(inUse := t.inUse[ssd := false]);
    forall j | 0 <= j < |u.mpt| ensures Paired(u, j) {
      assert Paired(t, j);
    }
  }
}
