/** The four-level index tree of a file: which chain of node blocks leads to a
    data block (get_node_path), which data block a direct node starts with
    (f2fs_start_bidx_of_node), which node offsets are direct nodes (IS_DNODE), and how
    far to skip when a node on the way is missing (f2fs_get_next_page_offset).

    The tree itself is the reference: nodes numbered in preorder, blocks counted from left
    to right, both by recursion on the height of a subtree. */
module NodePath {
  import opened Arith

  const U32 := 0x1_0000_0000
  const XATTR_NODE_OFFSET := 0x1FFF_FFFF
  const E2BIG := 7

  /** Addresses in the inode, addresses in a direct node, nids in an indirect node, NODE_DIR1_BLOCK. */
  datatype Geo = Geo(d: nat, a: nat, n: nat, dir1: nat)

  type Geometry = g: Geo | g.a >= 1 && g.n >= 1 witness Geo(923, 1018, 1018, 924)

  /** Block indexes fit 32 bits and node offsets stay below the reserved one, as the kernel's constants make them. */
  predicate Fits(g: Geometry) { MaxBlocks(g) < U32 && FirstNode(g, 5) <= XATTR_NODE_OFFSET }

  // ---- Counting k groups of u.

  function Times(k: nat, u: nat): nat { if k == 0 then 0 else u + Times(k - 1, u) }

  lemma {:induction false} TimesIs(k: nat, u: nat)
    ensures Times(k, u) == k * u
  {
    if k > 0 { TimesIs(k - 1, u); }
  }

  lemma {:induction false} TimesMono(j: nat, k: nat, u: nat)
    requires j < k
    ensures Times(j, u) + u <= Times(k, u)
  {
    if j + 1 < k { TimesMono(j, k - 1, u); }
  }

  lemma {:induction false} TimesAdd(j: nat, k: nat, u: nat)
    ensures Times(j + k, u) == Times(j, u) + Times(k, u)
  {
    if k > 0 { TimesAdd(j, k - 1, u); }
  }

  lemma {:induction false} TimesNest(j: nat, k: nat, u: nat)
    ensures Times(j, Times(k, u)) == Times(Times(j, k), u)
  {
    if j > 0 {
      TimesNest(j - 1, k, u);
      TimesAdd(k, Times(j - 1, k), u);
    }
  }

  // ---- The tree.

  /** Data blocks under a node of height h, and node blocks in its subtree. */
  function Blocks(g: Geometry, h: nat): (r: nat)
    ensures r >= 1
  {
    if h == 0 then g.a else
      TimesMono(0, g.n, Blocks(g, h - 1));
      Times(g.n, Blocks(g, h - 1))
  }

  function Nodes(g: Geometry, h: nat): nat { if h == 0 then 1 else 1 + Times(g.n, Nodes(g, h - 1)) }

  /** The inode's five node pointers: two direct, two indirect, one double indirect. */
  function Height(k: nat): nat { if k < 2 then 0 else if k < 4 then 1 else 2 }

  function FirstBlock(g: Geometry, k: nat): nat {
    if k == 0 then g.d else FirstBlock(g, k - 1) + Blocks(g, Height(k - 1))
  }

  function FirstNode(g: Geometry, k: nat): nat {
    if k == 0 then 1 else FirstNode(g, k - 1) + Nodes(g, Height(k - 1))
  }

  function MaxBlocks(g: Geometry): nat { FirstBlock(g, 5) }

  /** Steps from a node of height h downwards. */
  predicate Steps(g: Geometry, h: nat, s: seq<nat>) { |s| <= h && forall i :: 0 <= i < |s| ==> s[i] < g.n }

  /** How many blocks below a node of height h come before the node that the steps lead to ... */
  function SubStart(g: Geometry, h: nat, s: seq<nat>): nat
    requires |s| <= h
  {
    if s == [] then 0 else Times(s[0], Blocks(g, h - 1)) + SubStart(g, h - 1, s[1..])
  }

  /** ... and the preorder number of that node, the start having number `root`. */
  function SubNumber(g: Geometry, h: nat, root: nat, s: seq<nat>): nat
    requires |s| <= h
  {
    if s == [] then root else SubNumber(g, h - 1, root + 1 + Times(s[0], Nodes(g, h - 1)), s[1..])
  }

  /** A node of the file is the chain of pointers to it: which of the inode's five, then the
      slot in each indirect node.  The empty chain is the inode. */
  predicate IsNode(g: Geometry, ptr: seq<nat>) {
    ptr == [] || (ptr[0] < 5 && Steps(g, Height(ptr[0]), ptr[1..]))
  }

  function NodeNo(g: Geometry, ptr: seq<nat>): nat
    requires IsNode(g, ptr)
  {
    if ptr == [] then 0 else SubNumber(g, Height(ptr[0]), FirstNode(g, ptr[0]), ptr[1..])
  }

  function FirstOf(g: Geometry, ptr: seq<nat>): nat
    requires IsNode(g, ptr)
  {
    if ptr == [] then 0 else FirstBlock(g, ptr[0]) + SubStart(g, Height(ptr[0]), ptr[1..])
  }

  /** A node that holds block addresses, and a slot in it. */
  datatype Place = Place(ptr: seq<nat>, o: nat)

  predicate IsLeaf(g: Geometry, ptr: seq<nat>) {
    IsNode(g, ptr) && (ptr == [] || |ptr| == Height(ptr[0]) + 1)
  }

  predicate IsPlace(g: Geometry, p: Place) {
    IsLeaf(g, p.ptr) && p.o < if p.ptr == [] then g.d else g.a
  }

  /** The block that a place is for, counted from the left. */
  function Index(g: Geometry, p: Place): nat
    requires IsPlace(g, p)
  {
    FirstOf(g, p.ptr) + p.o
  }

  lemma {:induction false} FirstMono(g: Geometry, i: nat, j: nat)
    requires i <= j
    ensures FirstBlock(g, i) <= FirstBlock(g, j) && FirstNode(g, i) <= FirstNode(g, j)
    decreases j
  {
    if i < j { FirstMono(g, i, j - 1); }
  }

  // ---- Where nodes and blocks lie.

  /** The blocks under a node are one range, and a block below a node of height h lies in it
      exactly when the way to the block goes through the node. */
  lemma {:induction false} Cover(g: Geometry, h: nat, s: seq<nat>, t: seq<nat>, o: nat)
    requires Steps(g, h, s) && Steps(g, h, t) && |t| == h && o < g.a
    ensures (SubStart(g, h, s) <= SubStart(g, h, t) + o < SubStart(g, h, s) + Blocks(g, h - |s|)) <==> t[..|s|] == s
    ensures SubStart(g, h, t) + o < Blocks(g, h)
  {
    if h == 0 {
    } else {
      var u := Blocks(g, h - 1);
      TimesMono(t[0], g.n, u);
      if s == [] {
        Cover(g, h - 1, [], t[1..], o);
      } else {
        Cover(g, h - 1, s[1..], t[1..], o);
        Width(g, h - 1, s[1..]);
        assert s == [s[0]] + s[1..] && t[..|s|] == [t[0]] + t[1..][..|s| - 1];
        if s[0] < t[0] { TimesMono(s[0], t[0], u); } else if t[0] < s[0] { TimesMono(t[0], s[0], u); }
      }
    }
  }

  lemma {:induction false} Width(g: Geometry, h: nat, s: seq<nat>)
    requires Steps(g, h, s)
    ensures SubStart(g, h, s) + Blocks(g, h - |s|) <= Blocks(g, h)
  {
    if s != [] {
      Width(g, h - 1, s[1..]);
      TimesMono(s[0], g.n, Blocks(g, h - 1));
    }
  }

  /** Numbers below a node stay in its preorder range; only the node itself has the first. */
  lemma {:induction false} NumberRange(g: Geometry, h: nat, root: nat, s: seq<nat>)
    requires Steps(g, h, s)
    ensures root <= SubNumber(g, h, root, s) < root + Nodes(g, h)
    ensures SubNumber(g, h, root, s) == root <==> s == []
  {
    if s != [] {
      NumberRange(g, h - 1, root + 1 + Times(s[0], Nodes(g, h - 1)), s[1..]);
      TimesMono(s[0], g.n, Nodes(g, h - 1));
    }
  }

  lemma {:induction false} NumbersInjective(g: Geometry, h: nat, root: nat, s: seq<nat>, t: seq<nat>)
    requires Steps(g, h, s) && Steps(g, h, t)
    ensures SubNumber(g, h, root, s) == SubNumber(g, h, root, t) <==> s == t
  {
    NumberRange(g, h, root, s);
    NumberRange(g, h, root, t);
    if s != [] && t != [] {
      var m := Nodes(g, h - 1);
      assert s == [s[0]] + s[1..] && t == [t[0]] + t[1..];
      if s[0] == t[0] {
        NumbersInjective(g, h - 1, root + 1 + Times(s[0], m), s[1..], t[1..]);
      } else {
        NumberRange(g, h - 1, root + 1 + Times(s[0], m), s[1..]);
        NumberRange(g, h - 1, root + 1 + Times(t[0], m), t[1..]);
        if s[0] < t[0] { TimesMono(s[0], t[0], m); } else { TimesMono(t[0], s[0], m); }
      }
    }
  }

  lemma NodeRange(g: Geometry, ptr: seq<nat>)
    requires IsNode(g, ptr) && ptr != []
    ensures 1 <= FirstNode(g, ptr[0]) <= NodeNo(g, ptr) < FirstNode(g, ptr[0] + 1) <= FirstNode(g, 5)
  {
    NumberRange(g, Height(ptr[0]), FirstNode(g, ptr[0]), ptr[1..]);
    FirstMono(g, 0, ptr[0]);
    FirstMono(g, ptr[0] + 1, 5);
  }

  /** The numbering is one to one over the nodes of the file. */
  lemma NumberingInjective(g: Geometry, s: seq<nat>, t: seq<nat>)
    requires IsNode(g, s) && IsNode(g, t)
    ensures NodeNo(g, s) == NodeNo(g, t) <==> s == t
  {
    if s != [] { NodeRange(g, s); }
    if t != [] { NodeRange(g, t); }
    if s != [] && t != [] {
      assert s == [s[0]] + s[1..] && t == [t[0]] + t[1..];
      if s[0] == t[0] {
        NumbersInjective(g, Height(s[0]), FirstNode(g, s[0]), s[1..], t[1..]);
      } else if s[0] < t[0] {
        FirstMono(g, s[0] + 1, t[0]);
      } else {
        FirstMono(g, t[0] + 1, s[0]);
      }
    }
  }

  /** Blocks under the pointer of a place lie in that pointer's range. */
  lemma PlaceRange(g: Geometry, p: Place)
    requires IsPlace(g, p)
    ensures Index(g, p) < MaxBlocks(g)
    ensures p.ptr != [] ==> g.d <= FirstBlock(g, p.ptr[0]) <= Index(g, p) < FirstBlock(g, p.ptr[0] + 1)
  {
    if p.ptr == [] {
      FirstMono(g, 0, 5);
    } else {
      var k := p.ptr[0];
      Cover(g, Height(k), [], p.ptr[1..], p.o);
      FirstMono(g, 0, k);
      FirstMono(g, k + 1, 5);
    }
  }

  /** For a node below the inode, the blocks whose way leads through it are one range. */
  lemma NodeCovers(g: Geometry, s: seq<nat>, p: Place)
    requires IsNode(g, s) && s != [] && IsPlace(g, p)
    ensures (FirstOf(g, s) <= Index(g, p) < FirstOf(g, s) + Blocks(g, Height(s[0]) + 1 - |s|))
            <==> (|s| <= |p.ptr| && p.ptr[..|s|] == s)
  {
    PlaceRange(g, p);
    FirstMono(g, 0, s[0]);
    Width(g, Height(s[0]), s[1..]);
    if p.ptr != [] {
      if s[0] == p.ptr[0] {
        SamePointer(g, s, p);
      } else if s[0] < p.ptr[0] {
        FirstMono(g, s[0] + 1, p.ptr[0]);
      } else {
        FirstMono(g, p.ptr[0] + 1, s[0]);
      }
    }
  }

  lemma SamePointer(g: Geometry, s: seq<nat>, p: Place)
    requires IsNode(g, s) && s != [] && IsPlace(g, p) && p.ptr != [] && s[0] == p.ptr[0]
    ensures (FirstOf(g, s) <= Index(g, p) < FirstOf(g, s) + Blocks(g, Height(s[0]) + 1 - |s|))
            <==> (|s| <= |p.ptr| && p.ptr[..|s|] == s)
  {
    Cover(g, Height(s[0]), s[1..], p.ptr[1..], p.o);
    assert p.ptr[..|s|] == [s[0]] + p.ptr[1..][..|s| - 1] && s == [s[0]] + s[1..];
  }

  /** A block has one place. */
  lemma PlaceUnique(g: Geometry, p: Place, q: Place)
    requires IsPlace(g, p) && IsPlace(g, q) && Index(g, p) == Index(g, q)
    ensures p == q
  {
    PlaceRange(g, p);
    PlaceRange(g, q);
    if p.ptr != [] {
      NodeCovers(g, p.ptr, p);
      NodeCovers(g, p.ptr, q);
      assert |p.ptr| == |q.ptr|;
      assert q.ptr[..|q.ptr|] == q.ptr;
    }
  }

  // ---- get_node_path

  /** The arrays hold the way to a place: the pointers and the slot, and the number of each node on the way. */
  ghost predicate Holds(g: Geometry, p: Place, offset: seq<nat>, noffset: seq<nat>)
    requires IsPlace(g, p)
  {
    var level := |p.ptr|;
    && |offset| == level + 1 == |noffset|
    && offset[level] == p.o
    && (forall i :: 0 <= i < level ==> offset[i] == if i == 0 then g.dir1 + p.ptr[0] else p.ptr[i])
    && (forall i :: 0 <= i <= level ==> IsNode(g, p.ptr[..i]) && noffset[i] == NodeNo(g, p.ptr[..i]))
  }

  method GetNodePath(g: Geometry, block: nat, offset: array<nat>, noffset: array<nat>)
    returns (level: int, ghost p: Place)
    requires offset.Length == 4 && noffset.Length == 4 && offset != noffset
    modifies offset, noffset
    ensures block >= MaxBlocks(g) ==> level == -E2BIG && offset[..] == old(offset[..])
    ensures block < MaxBlocks(g) ==>
              && IsPlace(g, p) && Index(g, p) == block && level == |p.ptr| < 4
              && Holds(g, p, offset[..level + 1], noffset[..level + 1])
  {
    Layout(g);
    var block := block;
    ghost var b0 := block;
    var directBlks, indirectBlks := g.a, g.a * g.n;
    var dindirectBlks := indirectBlks * g.n;
    p := Place([], 0);
    noffset[0] := 0;
    if block < g.d {
      offset[0] := block;
      p := Place([], block);
      return 0, p;
    }
    block := block - g.d;
    if block < directBlks {
      offset[0], noffset[1], offset[1] := g.dir1, 1, block;
      p := Way0(g, 0, block);
      assert offset[..2] == [g.dir1, block] && noffset[..2] == [0, 1];
      return 1, p;
    }
    block := block - directBlks;
    if block < directBlks {
      offset[0], noffset[1], offset[1] := g.dir1 + 1, 2, block;
      p := Way0(g, 1, block);
      assert offset[..2] == [g.dir1 + 1, block] && noffset[..2] == [0, 2];
      return 1, p;
    }
    block := block - directBlks;
    if block < indirectBlks {
      p := SingleIndirect(g, 2, 3, block, offset, noffset);
      return 2, p;
    }
    block := block - indirectBlks;
    if block < indirectBlks {
      p := SingleIndirect(g, 3, 4 + g.n, block, offset, noffset);
      return 2, p;
    }
    block := block - indirectBlks;
    if block < dindirectBlks {
      p := DoubleIndirect(g, block, offset, noffset);
      return 3, p;
    }
    return -E2BIG, p;
  }

  /** The two branches for a single indirect node, pointer k of the inode, node number `root`. */
  method SingleIndirect(g: Geometry, k: nat, root: nat, block: nat, offset: array<nat>, noffset: array<nat>)
    returns (ghost p: Place)
    requires offset.Length == 4 && noffset.Length == 4 && offset != noffset && noffset[0] == 0
    requires 2 <= k < 4 && block < g.a * g.n && root == FirstNode(g, k)
    modifies offset, noffset
    ensures IsPlace(g, p) && Index(g, p) == FirstBlock(g, k) + block && |p.ptr| == 2
    ensures Holds(g, p, offset[..3], noffset[..3])
  {
    offset[0], noffset[1] := g.dir1 + k, root;
    offset[1] := block / g.a;
    noffset[2] := root + 1 + offset[1];
    offset[2] := block % g.a;
    p := Way1(g, k, block);
    assert offset[..3] == [g.dir1 + k, block / g.a, block % g.a];
    assert noffset[..3] == [0, root, root + 1 + block / g.a];
  }

  /** The branch for the double indirect node. */
  method DoubleIndirect(g: Geometry, block: nat, offset: array<nat>, noffset: array<nat>)
    returns (ghost p: Place)
    requires offset.Length == 4 && noffset.Length == 4 && offset != noffset && noffset[0] == 0
    requires block < g.a * g.n * g.n
    modifies offset, noffset
    ensures IsPlace(g, p) && Index(g, p) == FirstBlock(g, 4) + block && |p.ptr| == 3
    ensures Holds(g, p, offset[..4], noffset[..4])
  {
    p := Way2(g, block);
    assert FirstNode(g, 4) == 5 + g.n * 2 by { Layout(g); }
    MulLe(1, g.a, g.n);
    MulLe(0, block / (g.a * g.n), g.n + 1);
    offset[0], noffset[1] := g.dir1 + 4, 5 + g.n * 2;
    offset[1] := block / (g.a * g.n);
    noffset[2] := 6 + g.n * 2 + offset[1] * (g.n + 1);
    offset[2] := block / g.a % g.n;
    noffset[3] := 7 + g.n * 2 + offset[1] * (g.n + 1) + offset[2];
    offset[3] := block % g.a;
    assert offset[..4] == [g.dir1 + 4, Slot1(g, block), Slot2(g, block), block % g.a];
    assert noffset[..4] == WayNumbers(g, Slot1(g, block), Slot2(g, block));
  }

  /** Block and node counts of the three kinds of subtree. */
  lemma Sizes(g: Geometry)
    ensures Blocks(g, 0) == g.a && Blocks(g, 1) == g.a * g.n && Blocks(g, 2) == g.a * g.n * g.n
    ensures Nodes(g, 0) == 1 && Nodes(g, 1) == g.n + 1 && Nodes(g, 2) == 1 + g.n * (g.n + 1)
    ensures g.a * g.n >= 1
  {
    TimesIs(g.n, g.a);
    TimesIs(g.n, g.a * g.n);
    TimesIs(g.n, 1);
    TimesIs(g.n, g.n + 1);
  }

  /** The numbers of the layout written out. */
  lemma Layout(g: Geometry)
    ensures g.a * g.n >= 1
    ensures FirstBlock(g, 0) == g.d && FirstBlock(g, 1) == g.d + g.a && FirstBlock(g, 2) == g.d + 2 * g.a
    ensures FirstBlock(g, 3) == FirstBlock(g, 2) + g.a * g.n && FirstBlock(g, 4) == FirstBlock(g, 3) + g.a * g.n
    ensures MaxBlocks(g) == FirstBlock(g, 4) + g.a * g.n * g.n
    ensures FirstNode(g, 0) == 1 && FirstNode(g, 1) == 2 && FirstNode(g, 2) == 3
    ensures FirstNode(g, 3) == 4 + g.n && FirstNode(g, 4) == 5 + 2 * g.n
    ensures FirstNode(g, 5) == 6 + 2 * g.n + g.n * (g.n + 1)
  {
    Sizes(g);
    assert Height(0) == 0 && Height(1) == 0 && Height(2) == 1 && Height(3) == 1 && Height(4) == 2;
    assert FirstNode(g, 2) == FirstNode(g, 1) + 1;
    assert FirstNode(g, 4) == FirstNode(g, 3) + g.n + 1;
    assert FirstBlock(g, 2) == FirstBlock(g, 1) + g.a;
    assert FirstBlock(g, 4) == FirstBlock(g, 3) + g.a * g.n;
  }

  /** 4 KB blocks: 1018 slots in every node, at most 923 in the inode. */
  lemma KernelFits(g: Geometry)
    requires g.a == 1018 && g.n == 1018 && g.d <= 923
    ensures Fits(g)
  {
    Layout(g);
  }

  lemma Way0(g: Geometry, k: nat, x: nat) returns (p: Place)
    requires k < 2 && x < g.a
    ensures IsPlace(g, p) && Index(g, p) == FirstBlock(g, k) + x && p.ptr == [k] && p.o == x
    ensures Holds(g, p, [g.dir1 + k, x], [0, k + 1])
  {
    p := Place([k], x);
    assert FirstNode(g, 1) == FirstNode(g, 0) + 1;
    assert p.ptr[..1] == p.ptr;
  }

  lemma Way1(g: Geometry, k: nat, x: nat) returns (p: Place)
    requires 2 <= k < 4 && x < g.a * g.n
    ensures IsPlace(g, p) && Index(g, p) == FirstBlock(g, k) + x && p == Place([k, x / g.a], x % g.a)
    ensures Holds(g, p, [g.dir1 + k, x / g.a, x % g.a], [0, FirstNode(g, k), FirstNode(g, k) + 1 + x / g.a])
  {
    var j := x / g.a;
    p := Place([k, j], x % g.a);
    QuotientBelow(x, g.a, g.n);
    assert p.ptr[1..] == [j] && p.ptr[..1] == [k] && p.ptr[..2] == p.ptr;
    Below1(g, FirstNode(g, k), j);
  }

  lemma QuotientBelow(x: nat, a: nat, n: nat)
    requires a >= 1 && x < a * n
    ensures x / a < n && x == x / a * a + x % a
  {
    if x / a >= n { MulLe(n, x / a, a); }
  }

  lemma Below1(g: Geometry, root: nat, j: nat)
    ensures SubStart(g, 1, [j]) == j * g.a && SubNumber(g, 1, root, [j]) == root + 1 + j
  {
    TimesIs(j, g.a);
    TimesIs(j, 1);
    assert [j][1..] == [];
  }

  lemma Below2(g: Geometry, root: nat, i: nat, j: nat)
    ensures SubStart(g, 2, [i, j]) == i * (g.a * g.n) + j * g.a
    ensures var m := root + 1 + i * (g.n + 1);
            SubNumber(g, 2, root, [i]) == m && SubNumber(g, 2, root, [i, j]) == m + 1 + j
  {
    Sizes(g);
    TimesIs(i, g.a * g.n);
    TimesIs(i, g.n + 1);
    assert [i, j][1..] == [j] && [i][1..] == [];
    Below1(g, root + 1 + i * (g.n + 1), j);
  }

  /** The path code's (block / direct) % n equals going down one level at a time. */
  lemma NestedDiv(b: nat, a: nat, n: nat)
    requires a >= 1 && n >= 1 && a * n >= 1
    ensures b / a % n < n
    ensures b == b / (a * n) * (a * n) + b / a % n * a + b % a
  {
    var s := b / a;
    assert s == s / n * n + s % n;
    assert b == s * a + b % a;
    var q := s / n;
    var r := s % n;
    MulLe(0, r, a);
    MulLe(r, n - 1, a);
    assert s * a == q * (a * n) + r * a by {
      Spread(0, q * n, r, a);
      Swap(q, n, a);
    }
    MulStep(n, a);
    DivIs(b, q, r * a + b % a, a * n);
  }

  lemma Spread(x: int, y: int, z: int, u: int)
    ensures (x + y + z) * u == x * u + y * u + z * u
  {
  }

  /** The slots on the way to block x below the double indirect pointer. */
  function Slot1(g: Geometry, x: nat): nat {
    MulLe(1, g.a, g.n);
    x / (g.a * g.n)
  }

  function Slot2(g: Geometry, x: nat): nat { x / g.a % g.n }

  /** The number of the indirect node in slot i. */
  function MiddleNode(g: Geometry, i: nat): nat {
    MulLe(0, i, g.n + 1);
    FirstNode(g, 4) + 1 + i * (g.n + 1)
  }

  lemma Digits(g: Geometry, x: nat)
    requires x < g.a * g.n * g.n
    ensures Slot1(g, x) < g.n && Slot2(g, x) < g.n
    ensures x == Slot1(g, x) * (g.a * g.n) + Slot2(g, x) * g.a + x % g.a
  {
    MulLe(1, g.a, g.n);
    QuotientBelow(x, g.a * g.n, g.n);
    NestedDiv(x, g.a, g.n);
  }

  lemma Way2(g: Geometry, x: nat) returns (p: Place)
    requires x < g.a * g.n * g.n
    ensures IsPlace(g, p) && Index(g, p) == FirstBlock(g, 4) + x && p == Place([4, Slot1(g, x), Slot2(g, x)], x % g.a)
    ensures Holds(g, p, [g.dir1 + 4, Slot1(g, x), Slot2(g, x), x % g.a], WayNumbers(g, Slot1(g, x), Slot2(g, x)))
  {
    Digits(g, x);
    p := Leaf2(g, Slot1(g, x), Slot2(g, x), x % g.a);
  }

  function WayNumbers(g: Geometry, i: nat, j: nat): seq<nat> {
    [0, FirstNode(g, 4), MiddleNode(g, i), MiddleNode(g, i) + 1 + j]
  }

  lemma Leaf2(g: Geometry, i: nat, j: nat, o: nat) returns (p: Place)
    requires i < g.n && j < g.n && o < g.a
    ensures p == Place([4, i, j], o) && IsPlace(g, p) && Index(g, p) == FirstBlock(g, 4) + i * (g.a * g.n) + j * g.a + o
    ensures Holds(g, p, [g.dir1 + 4, i, j, o], WayNumbers(g, i, j))
  {
    p := Place([4, i, j], o);
    assert p.ptr[1..] == [i, j] && p.ptr[..1] == [4] && p.ptr[..2] == [4, i] && p.ptr[..3] == p.ptr;
    assert [4, i][1..] == [i];
    Below2(g, FirstNode(g, 4), i, j);
  }

  /** Every block below the limit has a place. */
  lemma PlaceOf(g: Geometry, block: nat) returns (p: Place)
    requires block < MaxBlocks(g)
    ensures IsPlace(g, p) && Index(g, p) == block
  {
    Layout(g);
    if block < g.d {
      p := Place([], block);
    } else if block < FirstBlock(g, 1) {
      p := Way0(g, 0, block - g.d);
    } else if block < FirstBlock(g, 2) {
      p := Way0(g, 1, block - FirstBlock(g, 1));
    } else if block < FirstBlock(g, 3) {
      p := Way1(g, 2, block - FirstBlock(g, 2));
    } else if block < FirstBlock(g, 4) {
      p := Way1(g, 3, block - FirstBlock(g, 3));
    } else {
      p := Way2(g, block - FirstBlock(g, 4));
    }
  }

  // ---- f2fs_start_bidx_of_node and IS_DNODE

  /** How many direct nodes come before this one; meant for the offsets of direct nodes below the inode. */
  function Bidx(g: Geometry, ofs: nat): int {
    var indirectBlks := 2 * g.n + 4;
    if ofs <= 2 then ofs - 1
    else if ofs <= indirectBlks then ofs - 2 - (ofs - 4) / (g.n + 1)
    else ofs - 5 - (ofs - indirectBlks - 3) / (g.n + 1)
  }

  /** In 32-bit unsigned arithmetic. */
  function StartBidx(g: Geometry, ofs: nat): nat {
    if ofs == 0 then 0 else (Bidx(g, ofs) * g.a + g.d) % U32
  }

  predicate IsDnode(g: Geometry, ofs: nat) {
    || ofs == XATTR_NODE_OFFSET
    || !(|| ofs == 3 || ofs == 4 + g.n || ofs == 5 + 2 * g.n
         || (ofs >= 6 + 2 * g.n && (ofs - (6 + 2 * g.n)) % (g.n + 1) == 0))
  }

  /** From the number of its direct node and its slot in it, a block's index comes back. */
  lemma BlockIndexRoundTrip(g: Geometry, p: Place)
    requires Fits(g) && IsPlace(g, p)
    ensures StartBidx(g, NodeNo(g, p.ptr)) + p.o == Index(g, p)
  {
    PlaceRange(g, p);
    if p.ptr != [] {
      if p.ptr[0] < 2 {
        Start0(g, p.ptr);
      } else if p.ptr[0] < 4 {
        Start1(g, p.ptr);
      } else {
        Start2(g, p.ptr);
      }
    }
  }

  lemma Start0(g: Geometry, ptr: seq<nat>)
    requires IsLeaf(g, ptr) && ptr != [] && ptr[0] < 2 && FirstOf(g, ptr) < U32
    ensures StartBidx(g, NodeNo(g, ptr)) == FirstOf(g, ptr)
  {
    Layout(g);
    var k := ptr[0];
    assert ptr == [k];
    assert Bidx(g, k + 1) == k && k * g.a + g.d == FirstBlock(g, k);
  }

  lemma Start1(g: Geometry, ptr: seq<nat>)
    requires IsLeaf(g, ptr) && ptr != [] && 2 <= ptr[0] < 4 && FirstOf(g, ptr) < U32
    ensures StartBidx(g, NodeNo(g, ptr)) == FirstOf(g, ptr)
  {
    assert ptr[1..] == [ptr[1]];
    Below1(g, FirstNode(g, ptr[0]), ptr[1]);
    LeafStart1(g, ptr[0], ptr[1], SubStart(g, 1, [ptr[1]]));
  }

  lemma Start2(g: Geometry, ptr: seq<nat>)
    requires IsLeaf(g, ptr) && ptr != [] && ptr[0] == 4 && FirstOf(g, ptr) < U32
    ensures StartBidx(g, NodeNo(g, ptr)) == FirstOf(g, ptr)
  {
    var i, j := ptr[1], ptr[2];
    assert ptr[1..] == [i, j];
    Below2(g, FirstNode(g, 4), i, j);
    MulLe(0, i, g.n + 1);
    LeafStart2(g, i, j, i * (g.n + 1), SubStart(g, 2, [i, j]));
  }

  lemma Bidx1(g: Geometry, k: nat, j: nat)
    requires 2 <= k < 4 && j < g.n
    ensures Bidx(g, FirstNode(g, k) + 1 + j) == if k == 2 then 2 + j else 2 + g.n + j
  {
    Layout(g);
    if k == 2 { DivIs(j, 0, j, g.n + 1); } else { DivIs(g.n + 1 + j, 1, j, g.n + 1); }
  }

  lemma StartIs(g: Geometry, ofs: nat, q: int, first: nat)
    requires ofs > 0 && Bidx(g, ofs) == q && q * g.a + g.d == first < U32
    ensures StartBidx(g, ofs) == first
  {
    assert Bidx(g, ofs) * g.a == q * g.a;
  }

  lemma LeafStart1(g: Geometry, k: nat, j: nat, y: nat)
    requires 2 <= k < 4 && j < g.n && y == j * g.a && FirstBlock(g, k) + y < U32
    ensures StartBidx(g, FirstNode(g, k) + 1 + j) == FirstBlock(g, k) + y
  {
    Bidx1(g, k, j);
    FirstLeaf1(g, k, j, y);
    StartIs(g, FirstNode(g, k) + 1 + j, if k == 2 then 2 + j else 2 + g.n + j, FirstBlock(g, k) + y);
  }

  lemma FirstLeaf1(g: Geometry, k: nat, j: nat, y: nat)
    requires 2 <= k < 4 && y == j * g.a
    ensures (if k == 2 then 2 + j else 2 + g.n + j) * g.a + g.d == FirstBlock(g, k) + y
  {
    Layout(g);
    if k == 2 { Spread(2, 0, j, g.a); } else { Spread(2, g.n, j, g.a); }
  }

  lemma Bidx2(g: Geometry, i: nat, j: nat, x: nat)
    requires i < g.n && j < g.n && x == i * (g.n + 1)
    ensures Bidx(g, FirstNode(g, 4) + 2 + x + j) == 2 + 2 * g.n + i * g.n + j
  {
    Layout(g);
    DivIs(x + j, i, j, g.n + 1);
    Distribute(i, g.n);
  }

  lemma LeafStart2(g: Geometry, i: nat, j: nat, x: nat, y: nat)
    requires i < g.n && j < g.n && x == i * (g.n + 1) && y == i * (g.a * g.n) + j * g.a && FirstBlock(g, 4) + y < U32
    ensures StartBidx(g, FirstNode(g, 4) + 2 + x + j) == FirstBlock(g, 4) + y
  {
    Bidx2(g, i, j, x);
    FirstLeaf2(g, i, j, y);
    StartIs(g, FirstNode(g, 4) + 2 + x + j, 2 + 2 * g.n + i * g.n + j, FirstBlock(g, 4) + y);
  }

  lemma FirstLeaf2(g: Geometry, i: nat, j: nat, y: nat)
    requires y == i * (g.a * g.n) + j * g.a
    ensures (2 + 2 * g.n + i * g.n + j) * g.a + g.d == FirstBlock(g, 4) + y
  {
    Layout(g);
    Spread(2 + 2 * g.n, i * g.n, j, g.a);
    Spread(2, g.n, g.n, g.a);
    Swap(i, g.n, g.a);
  }

  lemma Distribute(i: int, n: int)
    ensures i * (n + 1) == i * n + i
  {
  }

  lemma Swap(i: int, n: int, a: int)
    ensures i * n * a == i * (a * n)
  {
  }

  /** IS_DNODE holds of exactly the nodes that hold block addresses. */
  lemma IsDnodeExact(g: Geometry, ptr: seq<nat>)
    requires Fits(g) && IsNode(g, ptr)
    ensures IsDnode(g, NodeNo(g, ptr)) <==> IsLeaf(g, ptr)
  {
    if ptr != [] {
      NodeRange(g, ptr);
      Layout(g);
      if ptr[0] < 4 {
        assert |ptr| == 2 ==> ptr[1..] == [ptr[1]];
        if |ptr| == 2 { Below1(g, FirstNode(g, ptr[0]), ptr[1]); }
      } else if |ptr| >= 2 {
        IsDnode2(g, ptr);
      }
    }
  }

  lemma IsDnode2(g: Geometry, ptr: seq<nat>)
    requires Fits(g) && IsNode(g, ptr) && |ptr| >= 2 && ptr[0] == 4
    ensures IsDnode(g, NodeNo(g, ptr)) <==> |ptr| == 3
  {
    NodeRange(g, ptr);
    Layout(g);
    var i := ptr[1];
    assert ptr[1..] == if |ptr| == 2 then [i] else [i, ptr[2]];
    Below2(g, FirstNode(g, 4), i, if |ptr| == 2 then 0 else ptr[2]);
    DivIs(i * (g.n + 1), i, 0, g.n + 1);
    if |ptr| == 3 { DivIs(i * (g.n + 1) + 1 + ptr[2], i, 1 + ptr[2], g.n + 1); }
  }

  // ---- f2fs_get_next_page_offset

  lemma {:induction false} BlocksDivide(g: Geometry, h: nat, l: nat) returns (k: nat)
    requires l <= h
    ensures Blocks(g, h) == Times(k, Blocks(g, l))
    decreases h
  {
    if h == l {
      k := 1;
      assert Times(1, Blocks(g, l)) == Blocks(g, l) + Times(0, Blocks(g, l));
    } else {
      var m := BlocksDivide(g, h - 1, l);
      k := Times(g.n, m);
      TimesNest(g.n, m, Blocks(g, l));
    }
  }

  /** A node starts at a multiple of its own size. */
  lemma {:induction false} Aligned(g: Geometry, h: nat, s: seq<nat>) returns (m: nat)
    requires |s| <= h
    ensures SubStart(g, h, s) == Times(m, Blocks(g, h - |s|))
  {
    if s == [] {
      m := 0;
    } else {
      var unit := Blocks(g, h - |s|);
      var rest := Aligned(g, h - 1, s[1..]);
      var k := BlocksDivide(g, h - 1, h - |s|);
      m := Times(s[0], k) + rest;
      TimesNest(s[0], k, unit);
      TimesAdd(Times(s[0], k), rest, unit);
    }
  }

  /** The base the code adds up for a path of this level. */
  function LevelBase(g: Geometry, level: nat): nat {
    g.d + (if level >= 2 then 2 * g.a else 0) + (if level >= 3 then 2 * Blocks(g, 1) else 0)
  }

  lemma BaseOfLevel(g: Geometry, k: nat) returns (m: nat)
    requires k < 5
    ensures FirstBlock(g, k) == LevelBase(g, Height(k) + 1) + Times(m, Blocks(g, Height(k)))
  {
    assert Height(0) == 0 && Height(1) == 0 && Height(2) == 1 && Height(3) == 1 && Height(4) == 2;
    assert FirstBlock(g, 2) == FirstBlock(g, 1) + Blocks(g, 0);
    assert FirstBlock(g, 4) == FirstBlock(g, 3) + Blocks(g, 1);
    m := if k == 1 || k == 3 then 1 else 0;
    assert Times(1, Blocks(g, Height(k))) == Blocks(g, Height(k)) + Times(0, Blocks(g, Height(k)));
  }

  lemma NodeAligned(g: Geometry, s: seq<nat>) returns (z: nat)
    requires IsNode(g, s) && s != []
    ensures FirstOf(g, s) == LevelBase(g, Height(s[0]) + 1) + Times(z, Blocks(g, Height(s[0]) + 1 - |s|))
  {
    var h := Height(s[0]);
    var unit := Blocks(g, h + 1 - |s|);
    var m := BaseOfLevel(g, s[0]);
    var c := BlocksDivide(g, h, h + 1 - |s|);
    var w := Aligned(g, h, s[1..]);
    z := Times(m, c) + w;
    TimesNest(m, c, unit);
    TimesAdd(Times(m, c), w, unit);
  }

  /** Rounding up to the next multiple, past the level's base, gives the end of the missing node's range. */
  lemma SkipIsExact(g: Geometry, p: Place, level: nat)
    requires IsPlace(g, p) && 1 <= level <= |p.ptr|
    ensures var unit, base := Blocks(g, |p.ptr| - level), LevelBase(g, |p.ptr|);
            && IsNode(g, p.ptr[..level]) && base <= Index(g, p)
            && ((Index(g, p) - base) / unit + 1) * unit + base == FirstOf(g, p.ptr[..level]) + unit
            && FirstOf(g, p.ptr[..level]) <= Index(g, p) < FirstOf(g, p.ptr[..level]) + unit
  {
    var s := p.ptr[..level];
    assert s[1..] == p.ptr[1..][..level - 1];
    var unit, base := Blocks(g, |p.ptr| - level), LevelBase(g, |p.ptr|);
    NodeCovers(g, s, p);
    var z := NodeAligned(g, s);
    TimesIs(z, unit);
    RoundUp(Index(g, p) - base, z, unit);
  }

  lemma RoundUp(x: nat, z: nat, unit: nat)
    requires z * unit <= x < z * unit + unit
    ensures (x / unit + 1) * unit == z * unit + unit
  {
    DivIs(x, z, x - z * unit, unit);
  }

  /** The way to q goes through the node that is at this level of the way to p. */
  predicate Shares(p: Place, q: Place, level: nat) {
    level <= |p.ptr| && level <= |q.ptr| && q.ptr[..level] == p.ptr[..level]
  }

  /** The node at `curLevel` of the way to pgofs is missing; maxLevel is the level of pgofs, p its place.
      The result is the first page past pgofs that does not need the missing node. */
  method NextPageOffset(g: Geometry, pgofs: nat, curLevel: nat, maxLevel: nat, ghost p: Place) returns (r: nat)
    requires Fits(g) && IsPlace(g, p) && pgofs == Index(g, p) && maxLevel == |p.ptr|
    requires maxLevel > 0 ==> 1 <= curLevel <= maxLevel
    ensures r > pgofs
    ensures maxLevel == 0 ==> r == pgofs + 1
    ensures maxLevel > 0 ==>
              forall q :: IsPlace(g, q) && pgofs <= Index(g, q) ==> (Shares(p, q, curLevel) <==> Index(g, q) < r)
  {
    if maxLevel == 0 {
      return pgofs + 1;
    }
    var skipped := SkippedUnit(g, curLevel, maxLevel);
    var base := PathBase(g, maxLevel);
    SkipIsExact(g, p, curLevel);
    r := ((pgofs - base) / skipped + 1) * skipped + base;
    ThroughNode(g, p, curLevel, r);
  }

  /** How many pages the missing node stands for. */
  method SkippedUnit(g: Geometry, curLevel: nat, maxLevel: nat) returns (skipped: nat)
    requires Fits(g) && 1 <= curLevel <= maxLevel <= 3
    ensures skipped == Blocks(g, maxLevel - curLevel)
  {
    skipped := g.a;
    var l := maxLevel;
    while l > curLevel
      invariant curLevel <= l <= maxLevel
      invariant skipped == Blocks(g, maxLevel - l)
    {
      UnitFits(g, maxLevel - l + 1);
      skipped := skipped * g.n % U32;
      l := l - 1;
    }
  }

  /** The first page whose way is this long. */
  method PathBase(g: Geometry, maxLevel: nat) returns (base: nat)
    ensures base == LevelBase(g, maxLevel)
  {
    BlocksStep(g, 1);
    base := 0;
    if maxLevel >= 3 {
      base := base + 2 * (g.a * g.n);
    }
    if maxLevel >= 2 {
      base := base + 2 * g.a;
    }
    base := base + g.d;
  }

  lemma ThroughNode(g: Geometry, p: Place, level: nat, r: int)
    requires IsPlace(g, p) && 1 <= level <= |p.ptr| && IsNode(g, p.ptr[..level])
    requires r == FirstOf(g, p.ptr[..level]) + Blocks(g, |p.ptr| - level) && FirstOf(g, p.ptr[..level]) <= Index(g, p)
    ensures forall q :: IsPlace(g, q) && Index(g, p) <= Index(g, q) ==> (Shares(p, q, level) <==> Index(g, q) < r)
  {
    forall q | IsPlace(g, q) && Index(g, p) <= Index(g, q) ensures Shares(p, q, level) <==> Index(g, q) < r {
      NodeCovers(g, p.ptr[..level], q);
    }
  }

  lemma UnitFits(g: Geometry, h: nat)
    requires Fits(g) && 1 <= h <= 2
    ensures Blocks(g, h) == Blocks(g, h - 1) * g.n < U32
  {
    BlocksStep(g, h);
    BlocksBelow(g, h);
  }

  lemma BlocksStep(g: Geometry, h: nat)
    requires h >= 1
    ensures Blocks(g, h) == Blocks(g, h - 1) * g.n
  {
    TimesIs(g.n, Blocks(g, h - 1));
  }

  lemma BlocksBelow(g: Geometry, h: nat)
    requires h <= 2
    ensures Blocks(g, h) <= MaxBlocks(g)
  {
    FirstMono(g, 2 * h + 1, 5);
  }
}
