/**
 The extent cache: an interval tree of cached extents with a separate
 `largest` entry and a cached node, all updated in place.  The red-black tree
 is its in-order sequence; a node pointer is the node's rank in it, and a
 descent may split the open interval anywhere, so it stands for every shape.
 */
module ExtentCache {
  import opened Common

  const UINT_MAX: nat := 0xffff_ffff
  const MIN_EXTENT_LEN: nat := 64

  datatype Extent = Extent(fofs: nat, blk: nat, len: nat) {
    function End(): nat { fofs + len }
    predicate Has(page: nat) { fofs <= page < End() }
  }

  /** The file's true block map: page index to block address. */
  type FileMap = map<nat, nat>

  ghost predicate Sound(e: Extent, file: FileMap) {
    forall page: nat :: e.Has(page) ==> page in file && file[page] == e.blk + (page - e.fofs)
  }

  ghost predicate AllSound(ns: seq<Extent>, file: FileMap) {
    forall i :: 0 <= i < |ns| ==> Sound(ns[i], file)
  }

  ghost predicate Ordered(ns: seq<Extent>) {
    && (forall i :: 0 <= i < |ns| ==> 0 < ns[i].len && ns[i].End() <= UINT_MAX)
    && (forall i, j :: 0 <= i < j < |ns| ==> Before(ns, i, j))
  }

  predicate Before(ns: seq<Extent>, i: int, j: int) {
    0 <= i < |ns| && 0 <= j < |ns| && ns[i].End() <= ns[j].fofs
  }

  predicate Mergeable(back: Extent, front: Extent) {
    back.fofs + back.len == front.fofs && back.blk + back.len == front.blk
  }

  // ------------------------------------------------------------------ specification

  /** What is left of one extent when [pos, end) is cut out of it. `ok` says
      whether the second half of a two-way split could be allocated. */
  function Parts(e: Extent, pos: nat, end: nat, ok: bool): seq<Extent> {
    if e.End() <= pos || end <= e.fofs then [e]
    else LeftPart(e, pos) + RightPart(e, end, !KeepsLeft(e, pos) || ok)
  }

  predicate KeepsLeft(e: Extent, pos: nat) { pos > e.fofs && pos - e.fofs >= MIN_EXTENT_LEN }

  predicate KeepsRight(e: Extent, end: nat) { end < e.End() && e.End() - end >= MIN_EXTENT_LEN }

  function LeftPart(e: Extent, pos: nat): seq<Extent> {
    if KeepsLeft(e, pos) then [e.(len := pos - e.fofs)] else []
  }

  function RightPart(e: Extent, end: nat, keep: bool): seq<Extent>
    requires e.fofs < end
  {
    if keep && KeepsRight(e, end) then [Extent(end, e.blk + (end - e.fofs), e.End() - end)] else []
  }

  function FlatMap(ns: seq<Extent>, f: Extent -> seq<Extent>): seq<Extent> {
    if ns == [] then [] else f(ns[0]) + FlatMap(ns[1..], f)
  }

  function Cutter(pos: nat, end: nat, ok: bool): Extent -> seq<Extent> {
    (e: Extent) => Parts(e, pos, end, ok)
  }

  /** The whole list with [pos, end) cut out. */
  function Punch(ns: seq<Extent>, pos: nat, end: nat, ok: bool): seq<Extent> {
    FlatMap(ns, Cutter(pos, end, ok))
  }

  function Splice(ns: seq<Extent>, i: nat, j: nat, e: Extent): seq<Extent>
    requires i <= j <= |ns|
  {
    ns[..i] + [e] + ns[j..]
  }

  function Join(a: Extent, b: Extent): Extent { Extent(a.fofs, a.blk, a.len + b.len) }

  /** Add e between ranks k-1 and k, merging with either neighbour. */
  function MergeAt(ns: seq<Extent>, k: nat, e: Extent, ok: bool): seq<Extent>
    requires k <= |ns|
  {
    var back := k > 0 && Mergeable(ns[k - 1], e);
    var front := k < |ns| && Mergeable(e, ns[k]);
    if back && front then Splice(ns, k - 1, k + 1, Join(Join(ns[k - 1], e), ns[k]))
    else if back then Splice(ns, k - 1, k, Join(ns[k - 1], e))
    else if front then Splice(ns, k, k + 1, Join(e, ns[k]))
    else if ok then Splice(ns, k, k, e)
    else ns
  }

  /** k is where an extent starting at ofs belongs. */
  ghost predicate Splits(ns: seq<Extent>, k: nat, from: nat, end: nat) {
    && k <= |ns|
    && (forall i :: 0 <= i < k ==> ns[i].End() <= from)
    && (forall i :: k <= i < |ns| ==> end <= ns[i].fofs)
  }

  lemma OrderedSlice(ns: seq<Extent>, lo: nat, hi: nat)
    requires lo <= hi <= |ns| && Ordered(ns)
    ensures Ordered(ns[lo..hi])
  {
    forall i, j | 0 <= i < j < hi - lo ensures Before(ns[lo..hi], i, j) {
      assert Before(ns, lo + i, lo + j);
    }
  }

  lemma Pivot(ns: seq<Extent>, k: nat)
    requires Ordered(ns) && k < |ns|
    ensures forall i :: 0 <= i < k ==> ns[i].End() <= ns[k].fofs
    ensures forall i :: k < i < |ns| ==> ns[k].End() <= ns[i].fofs
  {
    forall i | 0 <= i < |ns|
      ensures i < k ==> ns[i].End() <= ns[k].fofs
      ensures k < i ==> ns[k].End() <= ns[i].fofs
    {
      assert i < k ==> Before(ns, i, k);
      assert k < i ==> Before(ns, k, i);
    }
  }

  /** The number of leading extents that start before ofs. */
  function Rank(ns: seq<Extent>, ofs: nat): nat {
    if ns == [] || ofs <= ns[0].fofs then 0 else 1 + Rank(ns[1..], ofs)
  }

  lemma {:induction false} RankSplits(ns: seq<Extent>, k: nat, from: nat, end: nat)
    requires Ordered(ns) && from < end && Splits(ns, k, from, end)
    ensures Rank(ns, from) == k
  {
    if 0 < k {
      assert ns[0].End() <= from;
      OrderedSlice(ns, 1, |ns|);
      assert ns[1..] == ns[1..|ns|];
      RankSplits(ns[1..], k - 1, from, end);
    }
  }

  lemma Assoc(x: seq<Extent>, y: seq<Extent>, z: seq<Extent>)
    ensures x + (y + z) == x + y + z
  {
  }

  lemma {:induction false} FlatMapConcat(a: seq<Extent>, b: seq<Extent>, f: Extent -> seq<Extent>)
    ensures FlatMap(a + b, f) == FlatMap(a, f) + FlatMap(b, f)
  {
    if a == [] {
      assert a + b == b;
    } else {
      var t := a[1..];
      FlatMapConcat(t, b, f);
      assert (a + b)[0] == a[0] && (a + b)[1..] == t + b;
      Assoc(f(a[0]), FlatMap(t, f), FlatMap(b, f));
    }
  }

  lemma {:induction false} FlatMapFixed(ns: seq<Extent>, f: Extent -> seq<Extent>)
    requires forall i :: 0 <= i < |ns| ==> f(ns[i]) == [ns[i]]
    ensures FlatMap(ns, f) == ns
  {
    if ns != [] {
      FlatMapFixed(ns[1..], f);
    }
  }

  lemma PunchNothing(ns: seq<Extent>, pos: nat, end: nat, ok: bool)
    requires forall i :: 0 <= i < |ns| ==> ns[i].End() <= pos || end <= ns[i].fofs
    ensures Punch(ns, pos, end, ok) == ns
  {
    FlatMapFixed(ns, Cutter(pos, end, ok));
  }

  /** Ordered, sound, and between two page indexes. */
  ghost predicate Good(ns: seq<Extent>, lo: nat, hi: nat, file: FileMap) {
    && Ordered(ns) && AllSound(ns, file)
    && forall i :: 0 <= i < |ns| ==> lo <= ns[i].fofs && ns[i].End() <= hi
  }

  lemma GoodJoin(a: seq<Extent>, b: seq<Extent>, lo: nat, mid: nat, hi: nat, file: FileMap)
    requires lo <= mid <= hi && Good(a, lo, mid, file) && Good(b, mid, hi, file)
    ensures Good(a + b, lo, hi, file)
  {
    forall i, j | 0 <= i < j < |a + b| ensures Before(a + b, i, j) {
      if j < |a| {
        assert Before(a, i, j);
      } else if |a| <= i {
        assert Before(b, i - |a|, j - |a|);
      }
    }
  }

  lemma GoodPrefix(ns: seq<Extent>, k: nat, lo: nat, mid: nat, hi: nat, file: FileMap)
    requires Good(ns, lo, hi, file) && k <= |ns| && (k < |ns| ==> ns[k].fofs <= mid) && (k == |ns| ==> hi <= mid)
    ensures Good(ns[..k], lo, mid, file)
  {
    OrderedSlice(ns, 0, k);
    assert ns[..k] == ns[0..k];
    forall i | 0 <= i < k ensures ns[i].End() <= mid {
      if k < |ns| { assert Before(ns, i, k); }
    }
  }

  lemma GoodSuffix(ns: seq<Extent>, k: nat, lo: nat, mid: nat, hi: nat, file: FileMap)
    requires Good(ns, lo, hi, file) && k <= |ns| && (0 < k ==> mid <= ns[k - 1].End()) && (k == 0 ==> mid <= lo)
    ensures Good(ns[k..], mid, hi, file)
  {
    OrderedSlice(ns, k, |ns|);
    assert ns[k..] == ns[k..|ns|];
    forall i | k <= i < |ns| ensures mid <= ns[i].fofs {
      if 0 < k { assert Before(ns, k - 1, i); }
    }
  }

  /** Two file maps that differ only inside [pos, end). */
  ghost predicate SameOutside(file: FileMap, file': FileMap, pos: nat, end: nat) {
    forall page: nat :: page < pos || end <= page ==>
      (page in file <==> page in file') && (page in file ==> file[page] == file'[page])
  }

  /** A piece of a sound extent that avoids the changed range is sound in the new map. */
  lemma PieceSound(e: Extent, d: nat, len: nat, pos: nat, end: nat, file: FileMap, file': FileMap)
    requires Sound(e, file) && d + len <= e.len && SameOutside(file, file', pos, end)
    requires Clear(Extent(e.fofs + d, e.blk + d, len), pos, end)
    ensures Sound(Extent(e.fofs + d, e.blk + d, len), file')
  {
    forall page: nat | Extent(e.fofs + d, e.blk + d, len).Has(page)
      ensures page in file' && file'[page] == e.blk + (page - e.fofs)
    {
      assert e.Has(page);
    }
  }

  lemma LeftGood(e: Extent, pos: nat, end: nat, file: FileMap, file': FileMap)
    requires pos < end && e.fofs < end && pos < e.End() <= UINT_MAX && Sound(e, file)
    requires SameOutside(file, file', pos, end)
    ensures Good(LeftPart(e, pos), e.fofs, Max(e.fofs, pos), file')
  {
    if KeepsLeft(e, pos) {
      PieceSound(e, 0, pos - e.fofs, pos, end, file, file');
    }
  }

  lemma RightGood(e: Extent, pos: nat, end: nat, keep: bool, file: FileMap, file': FileMap)
    requires pos < end && e.fofs < end && pos < e.End() <= UINT_MAX && Sound(e, file)
    requires SameOutside(file, file', pos, end)
    ensures Good(RightPart(e, end, keep), Max(e.fofs, pos), e.End(), file')
  {
    if keep && KeepsRight(e, end) {
      PieceSound(e, end - e.fofs, e.End() - end, pos, end, file, file');
    }
  }

  lemma PartsGood(e: Extent, pos: nat, end: nat, ok: bool, file: FileMap, file': FileMap)
    requires pos < end && 0 < e.len && e.End() <= UINT_MAX && Sound(e, file) && SameOutside(file, file', pos, end)
    ensures Good(Parts(e, pos, end, ok), e.fofs, e.End(), file')
  {
    if Clear(e, pos, end) {
      PieceSound(e, 0, e.len, pos, end, file, file');
    } else {
      var keep := !KeepsLeft(e, pos) || ok;
      LeftGood(e, pos, end, file, file');
      RightGood(e, pos, end, keep, file, file');
      GoodJoin(LeftPart(e, pos), RightPart(e, end, keep), e.fofs, Max(e.fofs, pos), e.End(), file');
    }
  }

  function Max(a: nat, b: nat): nat { if a < b then b else a }

  lemma PartsClear(e: Extent, pos: nat, end: nat, ok: bool)
    requires pos < end
    ensures forall i :: 0 <= i < |Parts(e, pos, end, ok)| ==> Clear(Parts(e, pos, end, ok)[i], pos, end)
  {
  }

  ghost predicate Clear(e: Extent, pos: nat, end: nat) { e.End() <= pos || end <= e.fofs }

  /** Cutting a range out leaves an ordered list that avoids the range and
      still agrees with any map that changed only inside it. */
  lemma {:induction false} PunchSound(ns: seq<Extent>, pos: nat, end: nat, ok: bool, lo: nat, file: FileMap,
                                      file': FileMap)
    requires pos < end && lo <= UINT_MAX && Good(ns, lo, UINT_MAX, file) && SameOutside(file, file', pos, end)
    ensures Good(Punch(ns, pos, end, ok), lo, UINT_MAX, file')
    ensures forall i :: 0 <= i < |Punch(ns, pos, end, ok)| ==> Clear(Punch(ns, pos, end, ok)[i], pos, end)
  {
    if ns != [] {
      var e := ns[0];
      PartsGood(e, pos, end, ok, file, file');
      PartsClear(e, pos, end, ok);
      GoodSuffix(ns, 1, lo, e.End(), UINT_MAX, file);
      PunchSound(ns[1..], pos, end, ok, e.End(), file, file');
      GoodJoin(Parts(e, pos, end, ok), Punch(ns[1..], pos, end, ok), lo, e.End(), UINT_MAX, file');
    }
  }

  lemma MergedSound(a: Extent, b: Extent, file: FileMap)
    requires Mergeable(a, b) && Sound(a, file) && Sound(b, file)
    ensures Sound(Join(a, b), file)
  {
    forall page: nat | Join(a, b).Has(page)
      ensures page in file && file[page] == a.blk + (page - a.fofs)
    {
      assert a.Has(page) || b.Has(page);
    }
  }

  lemma SpliceGood(ns: seq<Extent>, i: nat, j: nat, e: Extent, file: FileMap)
    requires i <= j <= |ns| && Good(ns, 0, UINT_MAX, file)
    requires 0 < e.len && e.End() <= UINT_MAX && Sound(e, file)
    requires 0 < i ==> ns[i - 1].End() <= e.fofs
    requires j < |ns| ==> e.End() <= ns[j].fofs
    ensures Good(Splice(ns, i, j, e), 0, UINT_MAX, file)
  {
    assert Good(ns[..i], 0, e.fofs, file) by {
      GoodPrefix(ns, i, 0, UINT_MAX, UINT_MAX, file);
      forall m | 0 <= m < i ensures ns[m].End() <= e.fofs {
        assert m < i - 1 ==> Before(ns, m, i - 1);
      }
    }
    assert Good(ns[j..], e.End(), UINT_MAX, file) by {
      GoodSuffix(ns, j, 0, 0, UINT_MAX, file);
      forall m | j <= m < |ns| ensures e.End() <= ns[m].fofs {
        assert j < m ==> Before(ns, j, m);
      }
    }
    GoodJoin(ns[..i], [e], 0, e.fofs, e.End(), file);
    GoodJoin(ns[..i] + [e], ns[j..], 0, e.End(), UINT_MAX, file);
  }

  /** Merging or inserting a sound extent into a gap keeps the list sound and ordered. */
  lemma MergeAtSound(ns: seq<Extent>, k: nat, e: Extent, ok: bool, file: FileMap)
    requires Good(ns, 0, UINT_MAX, file) && 0 < e.len && e.End() <= UINT_MAX && Sound(e, file)
    requires Splits(ns, k, e.fofs, e.End())
    ensures Good(MergeAt(ns, k, e, ok), 0, UINT_MAX, file)
  {
    MergeShape(ns, k, e, ok);
    MergeSpan(ns, k, e, file);
    var i, j := SpanFrom(ns, k, e), SpanTo(ns, k, e);
    if i < j || ok {
      SpliceGood(ns, i, j, Spanned(ns, k, e), file);
    }
  }

  /** Which ranks the merge replaces, and by what. */
  function SpanFrom(ns: seq<Extent>, k: nat, e: Extent): nat
    requires k <= |ns|
  {
    if k > 0 && Mergeable(ns[k - 1], e) then k - 1 else k
  }

  function SpanTo(ns: seq<Extent>, k: nat, e: Extent): nat
    requires k <= |ns|
  {
    if k < |ns| && Mergeable(e, ns[k]) then k + 1 else k
  }

  function Spanned(ns: seq<Extent>, k: nat, e: Extent): Extent
    requires k <= |ns|
  {
    var m := if SpanFrom(ns, k, e) < k then Join(ns[k - 1], e) else e;
    if k < SpanTo(ns, k, e) then Join(m, ns[k]) else m
  }

  lemma MergeShape(ns: seq<Extent>, k: nat, e: Extent, ok: bool)
    requires k <= |ns|
    ensures var i, j := SpanFrom(ns, k, e), SpanTo(ns, k, e);
            i <= j <= |ns| && MergeAt(ns, k, e, ok) == if i < j || ok then Splice(ns, i, j, Spanned(ns, k, e)) else ns
  {
  }

  lemma MergeSpan(ns: seq<Extent>, k: nat, e: Extent, file: FileMap)
    requires Good(ns, 0, UINT_MAX, file) && 0 < e.len && e.End() <= UINT_MAX && Sound(e, file)
    requires Splits(ns, k, e.fofs, e.End())
    ensures var i, j, m := SpanFrom(ns, k, e), SpanTo(ns, k, e), Spanned(ns, k, e);
            && i <= j <= |ns| && 0 < m.len && m.End() <= UINT_MAX && Sound(m, file)
            && (0 < i ==> ns[i - 1].End() <= m.fofs) && (j < |ns| ==> m.End() <= ns[j].fofs)
  {
    assert k > 1 ==> Before(ns, k - 2, k - 1);
    assert k + 1 < |ns| ==> Before(ns, k, k + 1);
    SpannedSound(ns, k, e, file);
  }

  lemma SpannedSound(ns: seq<Extent>, k: nat, e: Extent, file: FileMap)
    requires k <= |ns| && Sound(e, file) && (0 < k ==> Sound(ns[k - 1], file)) && (k < |ns| ==> Sound(ns[k], file))
    ensures Sound(Spanned(ns, k, e), file)
  {
    var m := e;
    if SpanFrom(ns, k, e) < k {
      MergedSound(ns[k - 1], e, file);
      m := Join(ns[k - 1], e);
    }
    if k < SpanTo(ns, k, e) { MergedSound(m, ns[k], file); }
  }

  // ------------------------------------------------------------------ the tree

  /** A largest extent that does not touch the range stays true. */
  lemma LargestStays(e: Extent, fofs: nat, len: nat, file: FileMap, file': FileMap)
    requires Sound(e, file) && SameOutside(file, file', fofs, fofs + len) && (e.len == 0 || Clear(e, fofs, fofs + len))
    ensures Sound(e, file')
  {
    if e.len > 0 { PieceSound(e, 0, e.len, fofs, fofs + len, file, file'); }
  }

  class ExtentTree {
    var nodes: seq<Extent>
    var cached: Option<nat>
    var largest: Extent
    var noExtent: bool
    ghost var file: FileMap

    /** Never contradicts the file's block map. */
    ghost predicate Valid()
      reads this
    {
      && Good(nodes, 0, UINT_MAX, file)
      && (cached.Some? ==> cached.value < |nodes|)
      && Sound(largest, file) && largest.End() <= UINT_MAX
      && (noExtent ==> nodes == [] && largest.len == 0)
    }

    constructor (ghost file: FileMap)
      ensures Valid() && nodes == [] && largest.len == 0 && !noExtent && this.file == file
    {
      nodes, cached, largest, noExtent, this.file := [], None, Extent(0, 0, 0), false, file;
    }

    /** The descent shared by lookup and insertion: any tree shape, the last
        node visited is `parent`. */
    method Descend(ofs: nat) returns (hit: bool, at: nat, parent: Option<nat>)
      requires Ordered(nodes)
      ensures hit ==> at < |nodes| && nodes[at].Has(ofs)
      ensures !hit ==> Splits(nodes, at, ofs, ofs + 1)
      ensures !hit ==> (parent.None? <==> nodes == [])
      ensures !hit && parent.Some? ==> parent.value < |nodes| && (parent.value == at || parent.value + 1 == at)
    {
      var lo, hi := 0, |nodes|;
      parent := None;
      while lo < hi
        invariant lo <= hi <= |nodes|
        invariant forall i :: 0 <= i < lo ==> nodes[i].End() <= ofs
        invariant forall i :: hi <= i < |nodes| ==> ofs < nodes[i].fofs
        invariant parent.None? ==> lo == 0 && hi == |nodes|
        invariant parent.Some? ==> parent.value < |nodes| && (parent.value == hi || parent.value + 1 == lo)
        decreases hi - lo
      {
        var mid :| lo <= mid < hi;
        Pivot(nodes, mid);
        parent := Some(mid);
        if ofs < nodes[mid].fofs {
          hi := mid;
        } else if ofs >= nodes[mid].End() {
          lo := mid + 1;
        } else {
          return true, mid, parent;
        }
      }
      return false, lo, parent;
    }

    /** f2fs_lookup_rb_tree_ret without `force`. */
    method LookupRet(ofs: nat) returns (hit: Option<nat>, prev: Option<nat>, next: Option<nat>, ins: Option<nat>)
      requires Ordered(nodes) && (cached.Some? ==> cached.value < |nodes|)
      ensures hit.Some? ==> hit.value < |nodes| && nodes[hit.value].Has(ofs) && ins == None
      ensures hit.Some? ==> prev == if ofs == nodes[hit.value].fofs && hit.value > 0 then Some(hit.value - 1) else None
      ensures hit.None? ==>
                LookupMiss(nodes, Rank(nodes, ofs), prev, next, ins) && Splits(nodes, Rank(nodes, ofs), ofs, ofs + 1)
    {
      prev, next, ins, hit := None, None, None, None;
      if nodes == [] {
        return;
      }
      if cached.Some? && nodes[cached.value].Has(ofs) {
        hit := cached;
      } else {
        var found, at, parent := Descend(ofs);
        if !found {
          ins := Some(at);
          // parent is the tree node the new one would hang under
          var re := parent.value;
          next := if ofs > nodes[re].fofs then Next(re) else Some(re);
          prev := if ofs < nodes[re].fofs then Prev(re) else Some(re);
          RankSplits(nodes, at, ofs, ofs + 1);
          return;
        }
        hit := Some(at);
      }
      var re := hit.value;
      if ofs == nodes[re].fofs {
        prev := Prev(re);
      }
      if ofs == nodes[re].End() - 1 {
        next := Next(re);
      }
    }

    /** rb_next */
    function Next(i: nat): (r: Option<nat>)
      reads this
    {
      if i + 1 < |nodes| then Some(i + 1) else None
    }

    /** rb_prev */
    function Prev(i: nat): (r: Option<nat>) {
      if 0 < i then Some(i - 1) else None
    }

    /** __drop_largest_extent */
    method DropLargest(fofs: nat, len: nat)
      modifies this`largest
      ensures largest == if fofs < old(largest).End() && fofs + len > old(largest).fofs
                         then old(largest).(len := 0) else old(largest)
    {
      if fofs < largest.End() && fofs + len > largest.fofs {
        largest := largest.(len := 0);
      }
    }

    /** __try_update_largest_extent */
    method TryUpdateLargest(i: nat)
      requires i < |nodes|
      modifies this`largest
      ensures largest == if nodes[i].len > old(largest).len then nodes[i] else old(largest)
    {
      if nodes[i].len > largest.len {
        largest := nodes[i];
      }
    }

    /** __release_extent_node and __detach_extent_node */
    method Release(i: nat)
      requires i < |nodes| && (cached.Some? ==> cached.value < |nodes|)
      modifies this`nodes, this`cached
      ensures nodes == old(nodes)[..i] + old(nodes)[i + 1..]
      ensures cached.Some? ==> cached.value < |nodes|
      ensures cached.Some? <==> old(cached).Some? && old(cached).value != i
    {
      nodes := nodes[..i] + nodes[i + 1..];
      if cached.Some? {
        if cached.value == i {
          cached := None;
        } else if cached.value > i {
          cached := Some(cached.value - 1);
        }
      }
    }

    /** __insert_extent_tree; `ok` is whether the node could be allocated. */
    method Insert(e: Extent, ins: Option<nat>, ok: bool, ghost k: nat) returns (done: bool)
      requires Ordered(nodes) && Splits(nodes, k, e.fofs, e.fofs + 1) && 0 < e.len
      requires ins.Some? ==> ins.value == k
      requires cached.Some? ==> cached.value < |nodes|
      modifies this`nodes, this`cached, this`largest
      ensures done == ok
      ensures nodes == if ok then Splice(old(nodes), k, k, e) else old(nodes)
      ensures cached.Some? ==> cached.value < |nodes|
      ensures largest == if ok && e.len > old(largest).len then e else old(largest)
    {
      var at;
      if ins.Some? {
        at := ins.value;
      } else {
        var hit, p;
        hit, at, p := Descend(e.fofs);
        SplitsUnique(nodes, k, at, hit, e.fofs);
      }
      if !ok {
        return false;
      }
      nodes := nodes[..at] + [e] + nodes[at..];
      TryUpdateLargest(at);
      cached := Some(at);
      return true;
    }

    /** __try_merge_extent_node */
    method TryMerge(e: Extent, prev: Option<nat>, next: Option<nat>, ghost k: nat) returns (merged: bool)
      requires k <= |nodes| && (cached.Some? ==> cached.value < |nodes|)
      requires if prev.Some? then prev.value + 1 == k else k == 0 || !Mergeable(nodes[k - 1], e)
      requires if next.Some? then next.value == k < |nodes| else k == |nodes|
      modifies this`nodes, this`cached, this`largest
      ensures nodes == MergeAt(old(nodes), k, e, false)
      ensures !merged ==> cached == old(cached)
      ensures cached.Some? ==> cached.value < |nodes|
      ensures merged <==>
                (k > 0 && Mergeable(old(nodes)[k - 1], e)) || (k < |old(nodes)| && Mergeable(e, old(nodes)[k]))
      ensures largest == old(largest) || largest in nodes
    {
      var cur := e;
      var en: Option<nat> := None;
      if prev.Some? && Mergeable(nodes[prev.value], cur) {
        cur := Join(nodes[prev.value], cur);
        nodes := nodes[prev.value := cur];
        en := prev;
      }
      if next.Some? && Mergeable(cur, nodes[next.value]) {
        nodes := nodes[next.value := Join(cur, nodes[next.value])];
        if en.Some? {
          Release(prev.value);
          en := prev;
        } else {
          en := next;
        }
      }
      if en.None? {
        return false;
      }
      TryUpdateLargest(en.value);
      cached := en;
      return true;
    }

    /** One round of the invalidation loop: cut [pos, end) out of node i. */
    method CutNode(i: nat, pos: nat, end: nat, ok: bool) returns (next: nat, parts: nat)
      requires i < |nodes| && pos < end && Ordered(nodes)
      requires cached.Some? ==> cached.value < |nodes|
      requires nodes[i].fofs < end && pos < nodes[i].End()
      modifies this`nodes, this`cached, this`largest
      ensures nodes == Cut(old(nodes), i, pos, end, ok)
      ensures cached.Some? ==> cached.value < |nodes|
      ensures largest == old(largest) || largest in Parts(old(nodes)[i], pos, end, ok)
      ensures next == if KeepsLeft(old(nodes)[i], pos) then i + 1 else i
      ensures parts == (if KeepsLeft(old(nodes)[i], pos) then 1 else 0) +
                       (if KeepsRight(old(nodes)[i], end) then 1 else 0)
    {
      var dei := nodes[i];
      ghost var before := nodes;
      CutCases(nodes, i, pos, end, ok);
      parts, next := 0, i + 1;
      if KeepsLeft(dei, pos) {
        nodes := nodes[i := dei.(len := pos - dei.fofs)];
        parts := 1;
      }
      if KeepsRight(dei, end) {
        var ei := Extent(end, end - dei.fofs + dei.blk, dei.End() - end);
        if parts > 0 {
          TrimOrdered(before, i, pos - dei.fofs, end);
          var done := Insert(ei, None, ok, i + 1);
        } else {
          nodes := nodes[i := ei];
          next := i;
        }
        parts := parts + 1;
      }
      if parts > 0 {
        TryUpdateLargest(i);
      } else {
        Release(i);
        next := i;
      }
    }

    /** The same with the loop's bookkeeping of neighbours and insertion point. */
    method CutRound(i: nat, prev: Option<nat>, ins: Option<nat>, fofs: nat, end: nat, ok: bool,
                    ghost orig: seq<Extent>, ghost file': FileMap)
      returns (at: nat, prev': Option<nat>, ins': Option<nat>)
      requires fofs < end && Progress(nodes, i, prev, ins, fofs, end, ok, orig, file)
      requires i < |nodes| && nodes[i].fofs < end
      requires cached.Some? ==> cached.value < |nodes|
      requires SameOutside(file, file', fofs, end) && Sound(largest, file') && largest.End() <= UINT_MAX
      modifies this`nodes, this`cached, this`largest
      ensures Progress(nodes, at, prev', ins', fofs, end, ok, orig, file)
      ensures cached.Some? ==> cached.value < |nodes|
      ensures Sound(largest, file') && largest.End() <= UINT_MAX
      ensures at < |nodes| && nodes[at].fofs < end ==> |nodes| - at < |old(nodes)| - i
    {
      ghost var ns := nodes;
      var left := KeepsLeft(nodes[i], fofs);
      // f2fs_bug_on(pos >= org_end) does not fire
      assert fofs < nodes[i].End();
      PartsGood(nodes[i], fofs, end, ok, file, file');
      var parts;
      at, parts := CutNode(i, fofs, end, ok);
      ProgressStep(ns, i, prev, ins, fofs, end, ok, orig, file);
      prev' := if left then Some(i) else prev;
      ins' := if parts != 1 then None else ins;
    }

    /** The first extent in the range, or the first behind it. */
    method First(fofs: nat, end: nat, ghost ok: bool)
      returns (en: Option<nat>, at: nat, prev: Option<nat>, next: Option<nat>, ins: Option<nat>)
      requires fofs < end && Good(nodes, 0, UINT_MAX, file) && (cached.Some? ==> cached.value < |nodes|)
      ensures Progress(nodes, at, prev, ins, fofs, end, ok, nodes, file)
      ensures en == if at < |nodes| then Some(at) else None
      ensures next == en || (at < |nodes| && nodes[at].fofs < end)
    {
      var hit;
      hit, prev, next, ins := LookupRet(fofs);
      en := if hit.Some? then hit else next;
      at := if en.Some? then en.value else |nodes|;
      ProgressStart(nodes, at, prev, ins, fofs, end, ok, file);
    }

    /** Steps 1 and 2 of the range update: find the first extent in the range and cut the range out. */
    method Invalidate(fofs: nat, end: nat, ok: bool, ghost file': FileMap)
      returns (at: nat, prev: Option<nat>, next: Option<nat>, ins: Option<nat>, cut: bool)
      requires fofs < end && Good(nodes, 0, UINT_MAX, file) && (cached.Some? ==> cached.value < |nodes|)
      requires SameOutside(file, file', fofs, end) && Sound(largest, file') && largest.End() <= UINT_MAX
      modifies this`nodes, this`cached, this`largest
      ensures nodes == Punch(old(nodes), fofs, end, ok) && Good(nodes, 0, UINT_MAX, file')
      ensures cached.Some? ==> cached.value < |nodes|
      ensures Sound(largest, file') && largest.End() <= UINT_MAX
      ensures Splits(nodes, at, fofs, end)
      ensures if prev.Some? then prev.value + 1 == at else at == 0 || nodes[at - 1].End() < fofs
      ensures next == if at < |nodes| then Some(at) else None
      ensures ins.Some? ==> ins.value == at
    {
      ghost var orig := nodes;
      var en;
      en, at, prev, next, ins := First(fofs, end, ok);
      at, prev, next, ins, cut := CutAll(en, at, prev, next, ins, fofs, end, ok, orig, file');
      ProgressEnd(nodes, at, prev, ins, fofs, end, ok, orig, file, file');
    }

    /** Its loop: cut node after node until one begins behind the range. */
    method CutAll(en0: Option<nat>, at0: nat, prev0: Option<nat>, next0: Option<nat>, ins0: Option<nat>, fofs: nat,
                  end: nat, ok: bool,
                  ghost orig: seq<Extent>, ghost file': FileMap)
      returns (at: nat, prev: Option<nat>, next: Option<nat>, ins: Option<nat>, cut: bool)
      requires fofs < end && Progress(nodes, at0, prev0, ins0, fofs, end, ok, orig, file)
      requires cached.Some? ==> cached.value < |nodes|
      requires en0 == (if at0 < |nodes| then Some(at0) else None)
      requires next0 == en0 || (at0 < |nodes| && nodes[at0].fofs < end)
      requires SameOutside(file, file', fofs, end) && Sound(largest, file') && largest.End() <= UINT_MAX
      modifies this`nodes, this`cached, this`largest
      ensures Progress(nodes, at, prev, ins, fofs, end, ok, orig, file) && (cached.Some? ==> cached.value < |nodes|)
      ensures Sound(largest, file') && largest.End() <= UINT_MAX
      ensures next == (if at < |nodes| then Some(at) else None) && (at < |nodes| ==> end <= nodes[at].fofs)
    {
      var en := en0;
      at, prev, next, ins, cut := at0, prev0, next0, ins0, false;
      while en.Some? && nodes[en.value].fofs < end
        invariant Progress(nodes, at, prev, ins, fofs, end, ok, orig, file)
        invariant cached.Some? ==> cached.value < |nodes|
        invariant en == if at < |nodes| then Some(at) else None
        invariant Sound(largest, file') && largest.End() <= UINT_MAX
        invariant next == en || (at < |nodes| && nodes[at].fofs < end)
        decreases if at < |nodes| && nodes[at].fofs < end then |nodes| - at + 1 else 0
      {
        at, prev, ins := CutRound(at, prev, ins, fofs, end, ok, orig, file');
        cut := true;
        next := if at < |nodes| then Some(at) else None;
        en := next;
      }
    }

    /** Step 3 of the range update: merge the new extent with a neighbour or insert it. */
    method Remember(ei: Extent, prev: Option<nat>, next: Option<nat>, ins: Option<nat>, ok: bool, ghost at: nat)
      requires Good(nodes, 0, UINT_MAX, file) && (cached.Some? ==> cached.value < |nodes|)
      requires Sound(largest, file) && largest.End() <= UINT_MAX
      requires 0 < ei.len && ei.End() <= UINT_MAX && Sound(ei, file) && Splits(nodes, at, ei.fofs, ei.End())
      requires if prev.Some? then prev.value + 1 == at else at == 0 || nodes[at - 1].End() < ei.fofs
      requires next == if at < |nodes| then Some(at) else None
      requires ins.Some? ==> ins.value == at
      modifies this`nodes, this`cached, this`largest
      ensures nodes == MergeAt(old(nodes), at, ei, ok) && Good(nodes, 0, UINT_MAX, file)
      ensures cached.Some? ==> cached.value < |nodes|
      ensures Sound(largest, file) && largest.End() <= UINT_MAX
    {
      MergeAtSound(nodes, at, ei, ok, file);
      var merged := TryMerge(ei, prev, next, at);
      if !merged {
        var done := Insert(ei, ins, ok, at);
      }
    }

    /** The update itself, before the decision to give up. */
    method Replace(fofs: nat, blk: nat, len: nat, okSplit: bool, okNew: bool, ghost file': FileMap) returns (cut: bool)
      requires Good(nodes, 0, UINT_MAX, file) && (cached.Some? ==> cached.value < |nodes|)
      requires 0 < len && fofs + len <= UINT_MAX && SameOutside(file, file', fofs, fofs + len)
      requires blk != 0 ==> Sound(Extent(fofs, blk, len), file')
      requires Sound(largest, file') && largest.End() <= UINT_MAX
      modifies this`nodes, this`cached, this`largest, this`file
      ensures nodes == Updated(old(nodes), fofs, blk, len, okSplit, okNew)
      ensures Good(nodes, 0, UINT_MAX, file) && (cached.Some? ==> cached.value < |nodes|)
      ensures Sound(largest, file) && largest.End() <= UINT_MAX && file == file'
    {
      var at, prev, next, ins;
      at, prev, next, ins, cut := Invalidate(fofs, fofs + len, okSplit, file');
      file := file';
      RankSplits(nodes, at, fofs, fofs + len);
      if blk != 0 {
        Remember(Extent(fofs, blk, len), prev, next, ins, okNew, at);
      }
    }

    /** f2fs_update_extent_tree_range.  `okSplit` and `okNew` are the outcomes of the
        node allocations; `file'` is the block map after the caller's change. */
    method UpdateRange(fofs: nat, blk: nat, len: nat, okSplit: bool, okNew: bool, ghost file': FileMap)
      requires Valid() && 0 < len && fofs + len <= UINT_MAX
      requires SameOutside(file, file', fofs, fofs + len)
      requires blk != 0 ==> Sound(Extent(fofs, blk, len), file')
      modifies this
      ensures Valid() && file == file'
      ensures old(noExtent) ==> noExtent
      ensures !noExtent ==> nodes == Updated(old(nodes), fofs, blk, len, okSplit, okNew)
      ensures noExtent && !old(noExtent) ==> blk != 0 && old(largest).len < MIN_EXTENT_LEN
    {
      if noExtent {
        file := file';
        return;
      }
      var prevLargest := largest;
      DropLargest(fofs, len);
      LargestStays(largest, fofs, len, file, file');
      var cut := Replace(fofs, blk, len, okSplit, okNew, file');
      // split and small updates: stop caching this file
      if blk != 0 && cut && prevLargest.len < MIN_EXTENT_LEN && largest.len < MIN_EXTENT_LEN {
        GiveUp();
      }
    }

    /** The file is no longer cached. */
    method GiveUp()
      requires Valid()
      modifies this`nodes, this`cached, this`largest, this`noExtent
      ensures Valid() && noExtent
    {
      DropLargest(0, UINT_MAX);
      noExtent := true;
      FreeTree();
    }

    /** __free_extent_tree */
    method FreeTree()
      requires cached.Some? ==> cached.value < |nodes|
      modifies this`nodes, this`cached
      ensures nodes == [] && cached == None
    {
      while nodes != []
        invariant cached.Some? ==> cached.value < |nodes|
        decreases |nodes|
      {
        Release(0);
      }
    }

    /** f2fs_lookup_extent_tree */
    method Lookup(pgofs: nat) returns (ei: Option<Extent>)
      requires Valid()
      modifies this`cached
      ensures Valid()
      ensures ei.Some? ==> ei.value.Has(pgofs) && Sound(ei.value, file)
      ensures ei.Some? ==> pgofs in file && file[pgofs] == ei.value.blk + (pgofs - ei.value.fofs)
      ensures ei.None? <==> !largest.Has(pgofs) && forall i :: 0 <= i < |nodes| ==> !nodes[i].Has(pgofs)
    {
      if largest.Has(pgofs) {
        return Some(largest);
      }
      var hit, at := false, 0;
      if cached.Some? && nodes[cached.value].Has(pgofs) {
        hit, at := true, cached.value;
      } else {
        var p;
        hit, at, p := Descend(pgofs);
      }
      if !hit {
        return None;
      }
      cached := Some(at);
      return Some(nodes[at]);
    }

    /** The shrinker takes nodes off the global list one at a time, whichever they are. */
    method Shrink(i: nat)
      requires Valid() && i < |nodes|
      modifies this`nodes, this`cached
      ensures Valid() && nodes == old(nodes)[..i] + old(nodes)[i + 1..]
    {
      GoodPrefix(nodes, i, 0, nodes[i].fofs, UINT_MAX, file);
      GoodSuffix(nodes, i + 1, 0, nodes[i].fofs, UINT_MAX, file);
      GoodJoin(nodes[..i], nodes[i + 1..], 0, nodes[i].fofs, UINT_MAX, file);
      Release(i);
    }

    /** f2fs_drop_extent_tree */
    method Drop()
      requires Valid()
      modifies this`nodes, this`cached, this`largest, this`noExtent
      ensures Valid() && nodes == [] && largest.len == 0 && noExtent
    {
      noExtent := true;
      FreeTree();
      DropLargest(0, UINT_MAX);
    }

    /** __f2fs_init_extent_tree with the extent recorded in the inode. */
    method Init(i_ext: Extent, ok: bool)
      requires Valid() && Sound(i_ext, file) && i_ext.End() <= UINT_MAX
      modifies this`nodes, this`cached, this`largest
      ensures Valid()
      ensures nodes == if !old(noExtent) && i_ext.len > 0 && old(nodes) == [] && ok then [i_ext] else old(nodes)
    {
      if noExtent || i_ext.len == 0 || nodes != [] || !ok {
        return;
      }
      nodes, largest, cached := [i_ext], i_ext, Some(0);
    }
  }

  /** The cached extents after an update that did not give up. */
  function Updated(ns: seq<Extent>, fofs: nat, blk: nat, len: nat, okSplit: bool, okNew: bool): seq<Extent> {
    var q := Punch(ns, fofs, fofs + len, okSplit);
    if blk == 0 then q else MergeAt(q, RankIn(q, fofs), Extent(fofs, blk, len), okNew)
  }

  function RankIn(ns: seq<Extent>, ofs: nat): (k: nat)
    ensures k <= |ns|
  {
    RankBound(ns, ofs);
    Rank(ns, ofs)
  }

  lemma RankBound(ns: seq<Extent>, ofs: nat)
    ensures Rank(ns, ofs) <= |ns|
  {
  }

  /** An update whose allocation succeeds is remembered: every page of it is cached afterwards. */
  lemma UpdateIsRemembered(ns: seq<Extent>, fofs: nat, blk: nat, len: nat, okSplit: bool, page: nat) returns (i: nat)
    requires blk != 0 && fofs <= page < fofs + len
    ensures var u := Updated(ns, fofs, blk, len, okSplit, true);
            i < |u| && u[i].Has(page) && u[i].blk + (page - u[i].fofs) == blk + (page - fofs)
  {
    var q := Punch(ns, fofs, fofs + len, okSplit);
    var k, e := RankIn(q, fofs), Extent(fofs, blk, len);
    i := SpanFrom(q, k, e);
    MergeRemembers(q, k, e, page);
  }

  lemma MergeRemembers(ns: seq<Extent>, k: nat, e: Extent, page: nat)
    requires k <= |ns| && e.Has(page)
    ensures var u, i := MergeAt(ns, k, e, true), SpanFrom(ns, k, e);
            i < |u| && u[i].Has(page) && u[i].blk + (page - u[i].fofs) == e.blk + (page - e.fofs)
  {
    assert MergeAt(ns, k, e, true) == Splice(ns, SpanFrom(ns, k, e), SpanTo(ns, k, e), Spanned(ns, k, e));
  }

  // ------------------------------------------------------------------ whole runs

  datatype Op =
    | Update(fofs: nat, blk: nat, len: nat, okSplit: bool, okNew: bool, after: FileMap)
    | LookUp(page: nat)
    | ShrinkOne(i: nat)
    | DropAll
    | InitFrom(ext: Extent, ok: bool)

  function FileAfter(file: FileMap, op: Op): FileMap {
    if op.Update? then op.after else file
  }

  /** What callers owe: an update describes the change of the block map it reports. */
  ghost predicate Legal(file: FileMap, ops: seq<Op>)
    decreases |ops|
  {
    ops == [] ||
    (&& (match ops[0]
         case Update(fofs, blk, len, _, _, after) =>
           && 0 < len && fofs + len <= UINT_MAX && SameOutside(file, after, fofs, fofs + len)
           && (blk != 0 ==> Sound(Extent(fofs, blk, len), after))
         case InitFrom(ext, _) => Sound(ext, file) && ext.End() <= UINT_MAX
         case _ => true)
     && Legal(FileAfter(file, ops[0]), ops[1..]))
  }

  ghost function FinalFile(file: FileMap, ops: seq<Op>): FileMap
    decreases |ops|
  {
    if ops == [] then file else FinalFile(FileAfter(file, ops[0]), ops[1..])
  }

  /** After any sequence of updates, lookups, shrinks and drops the cache agrees with the block map. */
  method RunOps(t: ExtentTree, ops: seq<Op>)
    requires t.Valid() && Legal(t.file, ops)
    modifies t
    ensures t.Valid() && t.file == FinalFile(old(t.file), ops)
  {
    var rest := ops;
    while rest != []
      invariant t.Valid() && Legal(t.file, rest)
      invariant FinalFile(t.file, rest) == FinalFile(old(t.file), ops)
      decreases |rest|
    {
      match rest[0] {
      case Update(fofs, blk, len, okSplit, okNew, after) => t.UpdateRange(fofs, blk, len, okSplit, okNew, after);
      case LookUp(page) => var ei := t.Lookup(page);
      case ShrinkOne(i) => if i < |t.nodes| { t.Shrink(i); }
      case DropAll => t.Drop();
      case InitFrom(ext, ok) => t.Init(ext, ok);
      }
      rest := rest[1..];
    }
  }

  /** The state of the invalidation loop: extents before `at` are settled,
      cutting the rest gives what cutting the original list gives. */
  ghost predicate Progress(ns: seq<Extent>, at: nat, prev: Option<nat>, ins: Option<nat>,
                           pos: nat, end: nat, ok: bool, orig: seq<Extent>, file: FileMap)
  {
    && at <= |ns| && Good(ns, 0, UINT_MAX, file)
    && (forall j :: 0 <= j < at ==> ns[j].End() <= pos)
    && (forall j :: at <= j < |ns| ==> pos < ns[j].End())
    && ns[..at] + Punch(ns[at..], pos, end, ok) == Punch(orig, pos, end, ok)
    && (if prev.Some? then prev.value + 1 == at else at == 0 || ns[at - 1].End() < pos)
    && (ins.Some? ==> ins.value == at && (at < |ns| ==> pos < ns[at].fofs))
  }

  lemma ProgressStart(ns: seq<Extent>, at: nat, prev: Option<nat>, ins: Option<nat>,
                      pos: nat, end: nat, ok: bool, file: FileMap)
    requires Good(ns, 0, UINT_MAX, file) && at <= |ns| && pos < end
    requires if at < |ns| && ns[at].Has(pos)
             then ins == None && prev == (if pos == ns[at].fofs && at > 0 then Some(at - 1) else None)
             else
               && Splits(ns, at, pos, pos + 1) && prev == (if 0 < at then Some(at - 1) else None)
               && (ins.Some? ==> ins.value == at)
    ensures Progress(ns, at, prev, ins, pos, end, ok, ns, file)
  {
    if at < |ns| && ns[at].Has(pos) {
      Pivot(ns, at);
    }
    PunchStart(ns, at, pos, end, ok);
  }

  lemma ProgressStep(ns: seq<Extent>, at: nat, prev: Option<nat>, ins: Option<nat>,
                     pos: nat, end: nat, ok: bool, orig: seq<Extent>, file: FileMap)
    requires pos < end && Progress(ns, at, prev, ins, pos, end, ok, orig, file)
    requires at < |ns| && ns[at].fofs < end
    ensures var left := KeepsLeft(ns[at], pos);
            var one := left != KeepsRight(ns[at], end);
            var next := if left then at + 1 else at;
            var c := Cut(ns, at, pos, end, ok);
            && Progress(c, next, if left then Some(at) else prev, if one then ins else None, pos, end, ok, orig, file)
            && (next < |c| && c[next].fofs < end ==> |c| - next < |ns| - at)
  {
    CutGood(ns, at, pos, end, ok, file);
    PunchStep(ns, at, pos, end, ok);
    CutShape(ns, at, pos, end, ok);
  }

  lemma ProgressEnd(ns: seq<Extent>, at: nat, prev: Option<nat>, ins: Option<nat>, pos: nat, end: nat, ok: bool,
                    orig: seq<Extent>, file: FileMap, file': FileMap)
    requires pos < end && Progress(ns, at, prev, ins, pos, end, ok, orig, file)
    requires at < |ns| ==> end <= ns[at].fofs
    requires Good(orig, 0, UINT_MAX, file) && SameOutside(file, file', pos, end)
    ensures ns == Punch(orig, pos, end, ok) && Good(ns, 0, UINT_MAX, file') && Splits(ns, at, pos, end)
    ensures if prev.Some? then prev.value + 1 == at else at == 0 || ns[at - 1].End() < pos
  {
    PunchEnd(ns, at, pos, end, ok);
    PunchSound(orig, pos, end, ok, 0, file, file');
  }

  lemma CutCases(ns: seq<Extent>, i: nat, pos: nat, end: nat, ok: bool)
    requires i < |ns| && pos < end && ns[i].fofs < end && pos < ns[i].End()
    ensures var e := ns[i];
            var l := e.(len := if KeepsLeft(e, pos) then pos - e.fofs else 0);
            var r := Extent(end, end - e.fofs + e.blk, if KeepsRight(e, end) then e.End() - end else 0);
            var c := Cut(ns, i, pos, end, ok);
            var parts := Parts(e, pos, end, ok);
            if KeepsLeft(e, pos) && KeepsRight(e, end) && ok
            then parts == [l, r] && c == Splice(ns[i := l], i + 1, i + 1, r)
            else if KeepsLeft(e, pos) then parts == [l] && c == ns[i := l]
            else if KeepsRight(e, end) then parts == [r] && c == ns[i := r]
            else parts == [] && c == ns[..i] + ns[i + 1..]
  {
    var e := ns[i];
    if KeepsLeft(e, pos) {
      var l := e.(len := pos - e.fofs);
      assert ns[i := l] == ns[..i] + [l] + ns[i + 1..];
    } else if KeepsRight(e, end) {
      var r := Extent(end, end - e.fofs + e.blk, e.End() - end);
      assert ns[i := r] == ns[..i] + [r] + ns[i + 1..];
    }
  }

  /** What stands before the range is untouched by the cut. */
  lemma PunchStart(ns: seq<Extent>, k: nat, pos: nat, end: nat, ok: bool)
    requires k <= |ns| && forall j :: 0 <= j < k ==> ns[j].End() <= pos
    ensures ns[..k] + Punch(ns[k..], pos, end, ok) == Punch(ns, pos, end, ok)
  {
    assert ns == ns[..k] + ns[k..];
    FlatMapConcat(ns[..k], ns[k..], Cutter(pos, end, ok));
    PunchNothing(ns[..k], pos, end, ok);
  }

  lemma PunchEnd(ns: seq<Extent>, k: nat, pos: nat, end: nat, ok: bool)
    requires k <= |ns| && Ordered(ns) && (k < |ns| ==> end <= ns[k].fofs)
    ensures ns[..k] + Punch(ns[k..], pos, end, ok) == ns
    ensures forall j :: k <= j < |ns| ==> end <= ns[j].fofs
  {
    if k < |ns| {
      Pivot(ns, k);
    }
    PunchNothing(ns[k..], pos, end, ok);
  }

  /** Expanding element i in place and going on behind its first n, already settled, pieces. */
  lemma FlatMapStep(ns: seq<Extent>, i: nat, n: nat, f: Extent -> seq<Extent>)
    requires i < |ns| && n <= |f(ns[i])|
    requires forall j :: n <= j < |f(ns[i])| ==> f(f(ns[i])[j]) == [f(ns[i])[j]]
    ensures var c := ns[..i] + f(ns[i]) + ns[i + 1..];
            c[..i + n] + FlatMap(c[i + n..], f) == ns[..i] + FlatMap(ns[i..], f)
  {
    var parts, rest := f(ns[i]), ns[i + 1..];
    var c := ns[..i] + parts + rest;
    assert c[..i + n] == ns[..i] + parts[..n];
    assert c[i + n..] == parts[n..] + rest;
    FlatMapConcat(parts[n..], rest, f);
    FlatMapFixed(parts[n..], f);
    assert ns[i..][1..] == rest;
    assert FlatMap(ns[i..], f) == parts + FlatMap(rest, f);
    Regroup(ns[..i], parts, n, FlatMap(rest, f));
  }

  lemma Regroup<T>(a: seq<T>, b: seq<T>, n: nat, c: seq<T>)
    requires n <= |b|
    ensures a + b[..n] + (b[n..] + c) == a + (b + c)
  {
  }

  /** One round of the loop moves the boundary past what the cut settled. */
  lemma PunchStep(ns: seq<Extent>, i: nat, pos: nat, end: nat, ok: bool)
    requires i < |ns| && pos < end && ns[i].fofs < end && pos < ns[i].End()
    ensures var next := if KeepsLeft(ns[i], pos) then i + 1 else i;
            var c := Cut(ns, i, pos, end, ok);
            next <= |c| &&
            c[..next] + Punch(c[next..], pos, end, ok) == ns[..i] + Punch(ns[i..], pos, end, ok)
  {
    var n := if KeepsLeft(ns[i], pos) then 1 else 0;
    FlatMapStep(ns, i, n, Cutter(pos, end, ok));
  }

  /** Where the extents of a cut list lie. */
  lemma CutShape(ns: seq<Extent>, i: nat, pos: nat, end: nat, ok: bool)
    requires i < |ns| && pos < end && ns[i].fofs < end && pos < ns[i].End() && Ordered(ns)
    requires forall j :: 0 <= j < i ==> ns[j].End() <= pos
    ensures var left := KeepsLeft(ns[i], pos);
            var next := if left then i + 1 else i;
            var c := Cut(ns, i, pos, end, ok);
            && next <= |c|
            && (forall j :: 0 <= j < next ==> c[j].End() <= pos)
            && (forall j :: next <= j < |c| ==> pos < c[j].End())
            && (pos < ns[i].fofs && next < |c| ==> pos < c[next].fofs)
            && (!left && 0 < i ==> c[i - 1] == ns[i - 1])
            && (next < |c| && c[next].fofs < end ==> |c| - next < |ns| - i)
  {
    var c := Cut(ns, i, pos, end, ok);
    var parts := Parts(ns[i], pos, end, ok);
    Pivot(ns, i);
    assert |c| == i + |parts| + (|ns| - i - 1);
    assert forall j :: i + |parts| <= j < |c| ==> c[j] == ns[j - |parts| + 1];
  }

  /** Node i replaced by what the cut leaves of it. */
  function Cut(ns: seq<Extent>, i: nat, pos: nat, end: nat, ok: bool): seq<Extent>
    requires i < |ns|
  {
    ns[..i] + Parts(ns[i], pos, end, ok) + ns[i + 1..]
  }

  lemma CutGood(ns: seq<Extent>, i: nat, pos: nat, end: nat, ok: bool, file: FileMap)
    requires i < |ns| && pos < end && Good(ns, 0, UINT_MAX, file)
    ensures Good(Cut(ns, i, pos, end, ok), 0, UINT_MAX, file)
  {
    var e := ns[i];
    PartsGood(e, pos, end, ok, file, file);
    GoodPrefix(ns, i, 0, e.fofs, UINT_MAX, file);
    GoodSuffix(ns, i + 1, 0, e.End(), UINT_MAX, file);
    GoodJoin(ns[..i], Parts(e, pos, end, ok), 0, e.fofs, e.End(), file);
    GoodJoin(ns[..i] + Parts(e, pos, end, ok), ns[i + 1..], 0, e.End(), UINT_MAX, file);
  }

  lemma TrimOrdered(ns: seq<Extent>, i: nat, len: nat, m: nat)
    requires Ordered(ns) && i < |ns| && 0 < len < ns[i].len && ns[i].fofs + len <= m < ns[i].End()
    ensures var t := ns[i := ns[i].(len := len)]; Ordered(t) && Splits(t, i + 1, m, m + 1)
  {
    var t := ns[i := ns[i].(len := len)];
    Pivot(ns, i);
    forall a, b | 0 <= a < b < |t| ensures Before(t, a, b) {
      assert Before(ns, a, b);
    }
  }

  /** Neighbours and insertion point of a miss at rank k. */
  ghost predicate LookupMiss(nodes: seq<Extent>, k: nat, prev: Option<nat>, next: Option<nat>, ins: Option<nat>) {
    && prev == (if 0 < k <= |nodes| then Some(k - 1) else None)
    && next == (if k < |nodes| then Some(k) else None)
    && (ins.Some? ==> ins.value == k)
  }

  lemma SplitsUnique(ns: seq<Extent>, k: nat, at: nat, hit: bool, ofs: nat)
    requires Ordered(ns) && Splits(ns, k, ofs, ofs + 1)
    requires if hit then at < |ns| && ns[at].Has(ofs) else Splits(ns, at, ofs, ofs + 1)
    ensures !hit && at == k
  {
    assert at < k ==> at < |ns| && ns[at].End() <= ofs;
    assert k < at && !hit ==> ns[k].End() <= ofs;
  }
}
