/** Choosing what moves between the tiers: get_max_k keeps the k coldest NVM segments
    in a max-heap, get_min_k the k hottest SSD segments in a min-heap.  The two heaps of the
    source are mirror images; here a key stands for the count in the first and for its
    negation in the second, so that one heap serves both. */
module TopK {
  import opened Arith
  import opened Common

  const ENOHOT := 2
  const ENOCOLD := 4

  datatype Node = Node(key: int, seg: nat)

  function Par(i: nat): nat
    requires i > 0
  {
    (i - 1) / 2
  }

  predicate Edge(t: seq<Node>, m: nat)
    requires 0 < m < |t|
  {
    t[Par(m)].key >= t[m].key
  }

  predicate Ordered(t: seq<Node>) { forall m :: 0 < m < |t| ==> Edge(t, m) }

  /** Node c is not above its grandparent, the parent of i. */
  predicate Skip(t: seq<Node>, i: nat, c: nat)
    requires 0 < i < |t|
  {
    c < |t| ==> t[Par(i)].key >= t[c].key
  }

  /** Order holds except between i and its parent. */
  predicate UpTo(t: seq<Node>, i: nat) {
    && i < |t| && (forall m :: 0 < m < |t| && m != i ==> Edge(t, m))
    && (i > 0 ==> Skip(t, i, 2 * i + 1) && Skip(t, i, 2 * i + 2))
  }

  /** Order holds except between i and its children. */
  predicate DownFrom(t: seq<Node>, i: nat) {
    && i < |t| && (forall m :: 0 < m < |t| && Par(m) != i ==> Edge(t, m))
    && (i > 0 ==> Skip(t, i, 2 * i + 1) && Skip(t, i, 2 * i + 2))
  }

  function Swap(t: seq<Node>, i: nat, j: nat): (r: seq<Node>)
    requires i < |t| && j < |t|
    ensures multiset(r) == multiset(t)
  {
    t[i := t[j]][j := t[i]]
  }

  lemma UpStep(t: seq<Node>, i: nat)
    requires 0 < i && UpTo(t, i) && t[i].key > t[Par(i)].key
    ensures UpTo(Swap(t, i, Par(i)), Par(i))
  {
    var j := Par(i);
    var u := Swap(t, i, j);
    forall m | 0 < m < |u| && m != j ensures Edge(u, m) {
      if Par(m) == i {
        assert m == 2 * i + 1 || m == 2 * i + 2;
      } else {
        assert m == i || Edge(t, m);
      }
    }
    if j > 0 {
      assert Edge(t, j);
      forall c | c == 2 * j + 1 || c == 2 * j + 2 ensures Skip(u, j, c) {
        if c < |t| && c != i { assert Edge(t, c); }
      }
    }
  }

  lemma UpDone(t: seq<Node>, i: nat)
    requires UpTo(t, i) && (i == 0 || Edge(t, i))
    ensures Ordered(t)
  {
  }

  predicate LargerChild(t: seq<Node>, i: nat, j: nat) {
    && j < |t| && (j == 2 * i + 1 || j == 2 * i + 2)
    && t[2 * i + 1].key <= t[j].key && (2 * i + 2 < |t| ==> t[2 * i + 2].key <= t[j].key)
  }

  lemma DownStep(t: seq<Node>, i: nat, j: nat)
    requires DownFrom(t, i) && LargerChild(t, i, j) && t[i].key < t[j].key
    ensures DownFrom(Swap(t, i, j), j)
  {
    var u := Swap(t, i, j);
    forall m | 0 < m < |u| && Par(m) != j ensures Edge(u, m) {
      if Par(m) == i {
        assert m == 2 * i + 1 || m == 2 * i + 2;
      } else {
        assert Edge(t, m);
      }
    }
    forall c | c == 2 * j + 1 || c == 2 * j + 2 ensures Skip(u, j, c) {
      if c < |t| { assert Edge(t, c); }
    }
  }

  lemma DownDone(t: seq<Node>, i: nat)
    requires DownFrom(t, i)
    requires 2 * i + 1 >= |t| || exists j: nat :: LargerChild(t, i, j) && t[j].key <= t[i].key
    ensures Ordered(t)
  {
    forall m | 0 < m < |t| ensures Edge(t, m) {
      if Par(m) == i { assert m == 2 * i + 1 || m == 2 * i + 2; }
    }
  }

  lemma {:induction false} TopIsMax(t: seq<Node>, m: nat)
    requires Ordered(t) && m < |t|
    ensures t[0].key >= t[m].key
  {
    if m > 0 {
      assert Edge(t, m);
      TopIsMax(t, Par(m));
    }
  }

  class Heap {
    const k: nat
    const nodes: array<Node>
    var curNum: nat

    ghost predicate Valid()
      reads this, nodes
    {
      nodes.Length == k && curNum <= k && Ordered(nodes[..curNum])
    }

    ghost function Contents(): multiset<Node>
      requires curNum <= nodes.Length
      reads this, nodes
    {
      multiset(nodes[..curNum])
    }

    /** init_max_heap, init_min_heap */
    constructor (k: nat)
      ensures Valid() && this.k == k && Contents() == multiset{} && fresh(nodes)
    {
      this.k := k;
      nodes := new Node[k](_ => Node(0, 0));
      curNum := 0;
    }

    /** reset_max_heap, reset_min_heap */
    method Reset()
      requires Valid()
      modifies this
      ensures Valid() && Contents() == multiset{}
    {
      curNum := 0;
    }

    /** insert_max_heap: from the new last slot upwards, parents move down until one is large enough. */
    method Insert(x: Node)
      requires Valid() && curNum < k
      modifies this, nodes
      ensures Valid() && curNum == old(curNum) + 1
      ensures Contents() == old(Contents()) + multiset{x}
    {
      var i := curNum;
      ghost var t := nodes[..i] + [x];
      StartUp(nodes[..i], x);
      curNum := curNum + 1;
      ghost var m := multiset(t);
      while i > 0
        invariant i < curNum <= nodes.Length && curNum == |t|
        invariant Hole(t, nodes[..curNum], i, x) && UpTo(t, i) && multiset(t) == m
      {
        var j := (i - 1) / 2;
        if x.key <= nodes[j].key {
          break;
        }
        UpStep(t, i);
        MoveHole(t, nodes[..curNum], i, j, x);
        t := Swap(t, i, j);
        Fill(i, nodes[j]);
        i := j;
      }
      UpDone(t, i);
      Fill(i, x);
    }

    /** One store into the array. */
    method Fill(i: nat, x: Node)
      requires i < curNum <= nodes.Length
      modifies nodes
      ensures nodes[..curNum] == old(nodes[..curNum])[i := x]
    {
      nodes[i] := x;
    }

    /** The larger child of i, or a slot past the end. */
    method PickChild(i: nat) returns (j: nat)
      requires i < curNum <= nodes.Length
      ensures if j < curNum then LargerChild(nodes[..curNum], i, j) else 2 * i + 1 >= curNum
    {
      j := (i + 1) * 2 - 1;
      if j < curNum - 1 && nodes[j].key < nodes[j + 1].key {
        j := j + 1;
      }
    }

    /** The top is replaced, then max_heap_adjust_down moves larger children up over it. */
    method ReplaceTop(x: Node)
      requires Valid() && curNum > 0
      modifies nodes
      ensures Valid()
      ensures Contents() == old(Contents()) - multiset{old(nodes[0])} + multiset{x}
    {
      Fill(0, x);
      ghost var t := nodes[..curNum];
      StartDown(old(nodes[..curNum]), x);
      ghost var m := multiset(t);
      var i := 0;
      while i < curNum
        invariant i < curNum <= nodes.Length && curNum == |t|
        invariant Hole(t, nodes[..curNum], i, x) && DownFrom(t, i) && multiset(t) == m
        decreases curNum - i
      {
        var j := PickChild(i);
        SameChild(t, nodes[..curNum], i, j, x);
        if j >= curNum || x.key >= nodes[j].key {
          break;
        }
        DownStep(t, i, j);
        MoveHole(t, nodes[..curNum], i, j, x);
        t := Swap(t, i, j);
        Fill(i, nodes[j]);
        i := j;
      }
      DownDone(t, i);
      Fill(i, x);
    }
  }

  /** s with x put in at i is t. */
  predicate Hole(t: seq<Node>, s: seq<Node>, i: nat, x: Node) { i < |s| && t == s[i := x] }

  lemma SameChild(t: seq<Node>, s: seq<Node>, i: nat, j: nat, x: Node)
    requires Hole(t, s, i, x)
    ensures t[i] == x && (LargerChild(s, i, j) ==> LargerChild(t, i, j) && t[j] == s[j])
  {
  }

  lemma MoveHole(t: seq<Node>, s: seq<Node>, i: nat, j: nat, x: Node)
    requires Hole(t, s, i, x) && j < |s| && i != j
    ensures Hole(Swap(t, i, j), s[i := s[j]], j, x)
  {
  }

  lemma StartUp(s: seq<Node>, x: Node)
    requires Ordered(s)
    ensures UpTo(s + [x], |s|)
    ensures multiset(s + [x]) == multiset(s) + multiset{x}
  {
    var t := s + [x];
    forall m | 0 < m < |t| && m != |s| ensures Edge(t, m) { assert Edge(s, m); }
  }

  lemma StartDown(s: seq<Node>, x: Node)
    requires Ordered(s) && |s| > 0
    ensures DownFrom(s[0 := x], 0)
    ensures multiset(s[0 := x]) == multiset(s) - multiset{s[0]} + multiset{x}
  {
    var t := s[0 := x];
    forall m | 0 < m < |t| && Par(m) != 0 ensures Edge(t, m) { assert Edge(s, m); }
  }

  // ---- Selection

  /** What the scan looks at for one segment; count is calc_count of the SSD segment behind it. */
  datatype Seg = Seg(mapped: bool, double: bool, inUse: bool, count: int)

  /** What is scanned: NVM segments to give back, or SSD segments to bring in. */
  datatype Scan = Cold(segs: seq<Seg>, now: nat, preMove: bool) | Hot(segs: seq<Seg>)

  /** Recently allocated segments are passed over. */
  predicate InWindow(now: nat, i: nat) { (if now < 500 then 0 else now - 500) <= i <= now + 50 }

  /** Whether a segment may be chosen, and its key. */
  function Candidate(sc: Scan, i: nat): Option<int>
    requires i < |sc.segs|
  {
    var s := sc.segs[i];
    match sc
    case Cold(_, now, preMove) =>
      if !InWindow(now, i) && s.mapped && !(preMove && s.double) && !s.inUse && s.count >= 0
      then Some(s.count) else None
    case Hot(_) =>
      if !s.mapped && !s.inUse && s.count > 0 then Some(-s.count) else None
  }

  /** The candidates among the first i segments. */
  ghost function Eligible(sc: Scan, i: nat): set<Node> {
    set n: nat | n < i && n < |sc.segs| && Candidate(sc, n).Some? :: Node(Candidate(sc, n).value, n)
  }

  /** s is a choice of the k smallest keys of e, or all of e if there are not k. */
  ghost predicate Smallest(s: set<Node>, e: set<Node>, k: nat) {
    && s <= e && |s| <= k && (|s| < k ==> s == e)
    && forall x, y :: x in s && y in e && y !in s ==> x.key <= y.key
  }

  lemma EligibleStep(sc: Scan, i: nat)
    requires i < |sc.segs|
    ensures Candidate(sc, i).None? ==> Eligible(sc, i + 1) == Eligible(sc, i)
    ensures Candidate(sc, i).Some? ==>
              var x := Node(Candidate(sc, i).value, i);
              x !in Eligible(sc, i) && Eligible(sc, i + 1) == Eligible(sc, i) + {x}
  {
  }

  /** Skipping to the end of the window misses nobody. */
  lemma EligibleSkip(sc: Scan, i: nat)
    requires sc.Cold? && InWindow(sc.now, i)
    ensures Eligible(sc, sc.now + 51) == Eligible(sc, i)
  {
  }

  lemma MoreOfSet(s: set<Node>, x: Node)
    requires x !in s
    ensures multiset(s + {x}) == multiset(s) + multiset{x}
  {
  }

  lemma LessOfSet(s: set<Node>, x: Node)
    requires x in s
    ensures multiset(s - {x}) == multiset(s) - multiset{x}
  {
  }

  lemma Added(s: set<Node>, e: set<Node>, k: nat, x: Node)
    requires s == e && |s| < k && x !in e
    ensures Smallest(s + {x}, e + {x}, k)
  {
  }

  /** Replacing the largest chosen key by a smaller new one keeps the choice smallest. */
  lemma Replaced(s: set<Node>, e: set<Node>, k: nat, top: Node, x: Node)
    requires Smallest(s, e, k) && |s| == k && x !in e && top in s && x.key < top.key
    requires forall y :: y in s ==> y.key <= top.key
    ensures Smallest(s - {top} + {x}, e + {x}, k)
  {
    var t := s - {top} + {x};
    forall a, b | a in t && b in e + {x} && b !in t ensures a.key <= b.key {
      assert b == top || (b in e && b !in s);
      assert b != top ==> top.key <= b.key;
    }
  }

  lemma Refused(s: set<Node>, e: set<Node>, k: nat, top: Node, x: Node)
    requires Smallest(s, e, k) && |s| == k && x !in e && top in s && x.key >= top.key
    requires forall y :: y in s ==> y.key <= top.key
    ensures Smallest(s, e + {x}, k)
  {
  }

  /** The heap holds exactly the nodes of s, each once. */
  ghost predicate HoldsSet(h: Heap, s: set<Node>)
    reads h, h.nodes
  {
    h.Valid() && h.Contents() == multiset(s)
  }

  lemma HeldFacts(h: Heap, s: set<Node>)
    requires HoldsSet(h, s)
    ensures |s| == h.curNum
    ensures h.curNum > 0 ==> h.nodes[0] in s && forall y :: y in s ==> y.key <= h.nodes[0].key
  {
    assert |multiset(s)| == |s|;
    var t := h.nodes[..h.curNum];
    assert |multiset(t)| == |t|;
    if h.curNum > 0 {
      assert t[0] in multiset(t);
      forall y | y in s ensures y.key <= t[0].key {
        assert y in multiset(t);
        var m :| 0 <= m < |t| && t[m] == y;
        TopIsMax(t, m);
      }
    }
  }

  /** Segment i in the first loop: taken if it is a candidate. */
  method Take(h: Heap, sc: Scan, i: nat, ghost s: set<Node>) returns (ghost t: set<Node>)
    requires HoldsSet(h, s) && |s| < h.k && i < |sc.segs| && s == Eligible(sc, i)
    modifies h, h.nodes
    ensures HoldsSet(h, t) && |t| == h.curNum && t == Eligible(sc, i + 1)
  {
    EligibleStep(sc, i);
    HeldFacts(h, s);
    t := s;
    var c := Candidate(sc, i);
    if c.Some? {
      var x := Node(c.value, i);
      t := s + {x};
      h.Insert(x);
      MoreOfSet(s, x);
      HeldFacts(h, t);
    }
  }

  /** Segment i in the second loop: a candidate displaces the top if its key is smaller. */
  method Offer(h: Heap, sc: Scan, i: nat, ghost s: set<Node>) returns (ghost t: set<Node>)
    requires HoldsSet(h, s) && |s| == h.k > 0 && i < |sc.segs| && Smallest(s, Eligible(sc, i), h.k)
    modifies h.nodes
    ensures HoldsSet(h, t) && |t| == h.curNum == h.k && Smallest(t, Eligible(sc, i + 1), h.k)
  {
    EligibleStep(sc, i);
    HeldFacts(h, s);
    t := s;
    var c := Candidate(sc, i);
    if c.Some? {
      var x, top := Node(c.value, i), h.nodes[0];
      if x.key < top.key {
        t := s - {top} + {x};
        h.ReplaceTop(x);
        LessOfSet(s, top);
        MoreOfSet(s - {top}, x);
        Replaced(s, Eligible(sc, i), h.k, top, x);
      } else {
        Refused(s, Eligible(sc, i), h.k, top, x);
      }
    }
  }

  /** get_max_k: on 0 the heap holds k distinct eligible segments, none of them with a larger count than
      any eligible segment left out; otherwise fewer than k are eligible and the heap holds them all. */
  method GetMaxK(h: Heap, sc: Scan) returns (ret: int, ghost chosen: set<Node>)
    requires HoldsSet(h, {}) && h.k > 0 && sc.Cold?
    modifies h, h.nodes
    ensures HoldsSet(h, chosen) && Smallest(chosen, Eligible(sc, |sc.segs|), h.k)
    ensures ret == if |Eligible(sc, |sc.segs|)| >= h.k then 0 else -ENOCOLD
    ensures ret == 0 ==> |chosen| == h.k
  {
    var len := |sc.segs|;
    var i := 0;
    chosen := {};
    HeldFacts(h, chosen);
    while i < len && h.curNum < h.k
      invariant HoldsSet(h, chosen) && |chosen| == h.curNum && chosen == Eligible(sc, i)
    {
      if InWindow(sc.now, i) {
        EligibleSkip(sc, i);
        i := sc.now + 50;
      } else {
        chosen := Take(h, sc, i, chosen);
      }
      i := i + 1;
    }
    while i < len
      invariant HoldsSet(h, chosen) && |chosen| == h.curNum && (i < len ==> h.curNum == h.k)
      invariant Smallest(chosen, Eligible(sc, i), h.k)
    {
      if InWindow(sc.now, i) {
        EligibleSkip(sc, i);
        i := sc.now + 50;
      } else {
        chosen := Offer(h, sc, i, chosen);
      }
      i := i + 1;
    }
    assert Eligible(sc, i) == Eligible(sc, len);
    Enough(chosen, Eligible(sc, len), h.k);
    ret := if h.curNum < h.k then -ENOCOLD else 0;
  }

  /** The choice has k members exactly when there are k to choose from. */
  lemma Enough(s: set<Node>, e: set<Node>, k: nat)
    requires Smallest(s, e, k)
    ensures |s| == k <==> |e| >= k
  {
    SubsetCard(s, e);
  }

  /** get_min_k, its heap keyed by the negated count: the k hottest unmapped SSD segments. */
  method GetMinK(h: Heap, sc: Scan) returns (ret: int, ghost chosen: set<Node>)
    requires HoldsSet(h, {}) && h.k > 0 && sc.Hot?
    modifies h, h.nodes
    ensures HoldsSet(h, chosen) && Smallest(chosen, Eligible(sc, |sc.segs|), h.k)
    ensures ret == if |Eligible(sc, |sc.segs|)| >= h.k then 0 else -ENOHOT
    ensures ret == 0 ==> |chosen| == h.k
  {
    var len := |sc.segs|;
    var i := 0;
    chosen := {};
    HeldFacts(h, chosen);
    while i < len && h.curNum < h.k
      invariant HoldsSet(h, chosen) && |chosen| == h.curNum && i <= len && chosen == Eligible(sc, i)
    {
      chosen := Take(h, sc, i, chosen);
      i := i + 1;
    }
    while i < len
      invariant HoldsSet(h, chosen) && |chosen| == h.curNum && i <= len && (i < len ==> h.curNum == h.k)
      invariant Smallest(chosen, Eligible(sc, i), h.k)
    {
      chosen := Offer(h, sc, i, chosen);
      i := i + 1;
    }
    Enough(chosen, Eligible(sc, len), h.k);
    ret := if h.curNum < h.k then -ENOHOT else 0;
  }

  /** What a complete choice means for the segments themselves: distinct, eligible, and
      no eligible segment left out is strictly better. */
  lemma ChoiceIsBest(sc: Scan, s: set<Node>, k: nat, i: nat, j: nat)
    requires Smallest(s, Eligible(sc, |sc.segs|), k)
    requires i < |sc.segs| && Candidate(sc, i).Some? && Node(Candidate(sc, i).value, i) in s
    requires j < |sc.segs| && Candidate(sc, j).Some? && (forall x :: x in s ==> x.seg != j)
    ensures sc.Cold? ==> sc.segs[i].count <= sc.segs[j].count
    ensures sc.Hot? ==> sc.segs[i].count >= sc.segs[j].count
  {
    var y := Node(Candidate(sc, j).value, j);
    assert y in Eligible(sc, |sc.segs|) && y !in s;
  }

  lemma SegsDistinct(sc: Scan, s: set<Node>, k: nat, x: Node, y: Node)
    requires Smallest(s, Eligible(sc, |sc.segs|), k) && x in s && y in s && x.seg == y.seg
    ensures x == y
  {
    assert x in Eligible(sc, |sc.segs|) && y in Eligible(sc, |sc.segs|);
  }
}
