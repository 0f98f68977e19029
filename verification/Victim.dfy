/** Choosing a victim segment: get_victim_by_default in greedy or SSR mode, one segment at a time, walks the dirty
    segments from where the last search stopped, once around. */
module Victim {
  import opened Arith
  import opened Common

  /** What the search looks at: dirty bits, segments it must not take, and costs. */
  datatype Segs = Segs(dirty: seq<bool>, busy: seq<bool>, cost: seq<nat>)

  predicate SegsOk(s: Segs) { |s.dirty| > 0 && |s.busy| == |s.dirty| && |s.cost| == |s.dirty| }

  function DirtyBelow(s: Segs, n: nat): set<nat> { set i: nat | i < n && i < |s.dirty| && s.dirty[i] }

  function DirtySet(s: Segs): set<nat> { DirtyBelow(s, |s.dirty|) }

  /** Dirty segments from a up to b. */
  function DirtyIn(s: Segs, a: nat, b: nat): set<nat> { set i: nat | a <= i < b && i < |s.dirty| && s.dirty[i] }

  /** find_next_bit */
  method FindNext(s: Segs, limit: nat, from: nat) returns (i: nat)
    requires limit <= |s.dirty|
    ensures i < limit ==> from <= i && s.dirty[i] && DirtyIn(s, from, i) == {}
    ensures i >= limit ==> DirtyIn(s, from, limit) == {}
  {
    i := from;
    while i < limit && !s.dirty[i]
      invariant i >= from && DirtyIn(s, from, i) == {}
    {
      i := i + 1;
    }
    if i >= limit { assert DirtyIn(s, from, limit) <= DirtyIn(s, from, i); }
  }

  /** Of the segments seen, the choice is free to take, cheaper than the bound, and nothing seen that is free is
      cheaper; there is none only if nothing seen that is free beats the bound. */
  ghost predicate Best(s: Segs, seen: set<nat>, bound: nat, r: Option<nat>, min: nat)
    requires SegsOk(s)
  {
    && (forall i :: i in seen && i < |s.cost| && !s.busy[i] ==> min <= s.cost[i])
    && (if r.None? then min == bound
        else r.value in seen && r.value < |s.cost| && !s.busy[r.value] && min == s.cost[r.value] < bound)
  }

  /** Where the search is: before the wrap it has seen the dirty segments from `start` up to `off`; after it, all
      from lv on and those below `off`. */
  ghost predicate Place(s: Segs, start: nat, lv: nat, wrapped: bool, off: nat, seen: set<nat>) {
    && off <= (if wrapped then lv else |s.dirty|)
    && (wrapped ==> start == lv)
    && seen == if wrapped then DirtyIn(s, lv, |s.dirty|) + DirtyIn(s, 0, off) else DirtyIn(s, start, off)
  }

  lemma NoneIn(s: Segs, a: nat, b: nat)
    requires DirtyIn(s, a, b) == {}
    ensures forall k :: a <= k < b && k < |s.dirty| ==> !s.dirty[k]
  {
    assert forall k: nat :: a <= k < b && k < |s.dirty| && s.dirty[k] ==> k in DirtyIn(s, a, b);
  }

  /** Exactly one more is seen. */
  lemma SeeOne(s: Segs, start: nat, lv: nat, wrapped: bool, off: nat, seen: set<nat>, i: nat)
    requires Place(s, start, lv, wrapped, off, seen) && start <= off + (if wrapped then start else 0) && lv < |s.dirty|
    requires off <= i < (if wrapped then lv else |s.dirty|) && s.dirty[i] && DirtyIn(s, off, i) == {}
    ensures i !in seen && Place(s, start, lv, wrapped, i + 1, seen + {i})
  {
    NoneIn(s, off, i);
  }

  /** The first half is done: the search goes on from the beginning. */
  lemma Wrap(s: Segs, lv: nat, off: nat, seen: set<nat>)
    requires Place(s, lv, lv, false, off, seen) && lv <= off && lv < |s.dirty| && DirtyIn(s, off, |s.dirty|) == {}
    ensures Place(s, lv, lv, true, 0, seen)
  {
    NoneIn(s, off, |s.dirty|);
    assert DirtyIn(s, 0, 0) == {};
    assert DirtyIn(s, lv, |s.dirty|) == DirtyIn(s, lv, off);
  }

  /** A search that has run out of segments has seen all dirty ones. */
  lemma SeenAll(s: Segs, start: nat, lv: nat, wrapped: bool, off: nat, seen: set<nat>)
    requires Place(s, start, lv, wrapped, off, seen) && lv < |s.dirty|
    requires DirtyIn(s, off, if wrapped then lv else |s.dirty|) == {} && (wrapped || start == 0)
    ensures seen == DirtySet(s)
  {
    var limit := if wrapped then lv else |s.dirty|;
    NoneIn(s, off, limit);
  }

  lemma SeenIsDirty(s: Segs, start: nat, lv: nat, wrapped: bool, off: nat, seen: set<nat>)
    requires Place(s, start, lv, wrapped, off, seen)
    ensures seen <= DirtySet(s)
  {
  }

  lemma BestStep(s: Segs, seen: set<nat>, bound: nat, r: Option<nat>, min: nat, i: nat)
    requires SegsOk(s) && Best(s, seen, bound, r, min) && i < |s.cost|
    ensures if !s.busy[i] && min > s.cost[i] then Best(s, seen + {i}, bound, Some(i), s.cost[i])
            else Best(s, seen + {i}, bound, r, min)
  {
  }

  /** The test of one dirty segment. */
  method Examine(s: Segs, i: nat, r0: Option<nat>, min0: nat, ghost seen: set<nat>, ghost bound: nat)
    returns (r: Option<nat>, min: nat)
    requires SegsOk(s) && i < |s.cost| && Best(s, seen, bound, r0, min0)
    ensures Best(s, seen + {i}, bound, r, min)
  {
    BestStep(s, seen, bound, r0, min0, i);
    r, min := r0, min0;
    if !s.busy[i] && min0 > s.cost[i] {
      r, min := Some(i), s.cost[i];
    }
  }

  /** The segment after this one, around the end. */
  function Following(i: nat, n: nat): (r: nat)
    requires i < n
    ensures r == (i + 1) % n
  {
    if i + 1 == n then 0 else i + 1
  }

  /** What is stored for the next search. */
  function NextStart(stored: nat, lv: nat, segno: nat, n: nat): (r: nat)
    requires lv < n && segno < n
    ensures r == Following(if stored == 0 && segno <= lv then lv else segno, n)
  {
    (if stored == 0 && segno <= lv then lv + 1 else segno + 1) % n
  }

  /** The last segment looked at, the segments seen up to it, and where the next search begins: after it, or, if the
      search had wrapped, one after where this one began. */
  ghost predicate Stopped(s: Segs, start: nat, lv: nat, last: nat, seen: set<nat>, newLv: nat) {
    && last in seen && last < |s.dirty| && lv < |s.dirty|
    && (|| (start <= last && seen == DirtyIn(s, start, last + 1) && newLv == Following(last, |s.dirty|))
        || (&& start == lv && last < lv && seen == DirtyIn(s, lv, |s.dirty|) + DirtyIn(s, 0, last + 1)
            && newLv == Following(lv, |s.dirty|)))
  }

  /** The search loop of get_victim_by_default.  lv is the stored last victim, start where the policy begins (lv, or
      0 in no_heap mode), maxSearch how many dirty segments to look at.  It looks at maxSearch different dirty
      segments, so at each of them exactly once when that is their number, and chooses the best of them. */
  method GetVictim(s: Segs, lv: nat, start: nat, maxSearch: nat, bound: nat)
    returns (r: Option<nat>, newLv: nat, ghost seen: set<nat>, ghost min: nat)
    requires SegsOk(s) && lv < |s.dirty| && (start == lv || start == 0)
    requires 0 < maxSearch <= |DirtySet(s)|
    ensures |seen| == maxSearch && seen <= DirtySet(s) && Best(s, seen, bound, r, min)
    ensures maxSearch == |DirtySet(s)| ==> seen == DirtySet(s)
    ensures r.Some? ==> Fit(s, bound, r.value)
    ensures maxSearch == |DirtySet(s)| ==> Cheapest(s, bound, r)
    ensures newLv < |s.dirty| && exists last: nat :: Stopped(s, start, lv, last, seen, newLv)
  {
    var off: nat, wrapped := start, false;
    var nsearched, minCost: nat := 0, bound;
    r, newLv, seen := None, lv, {};
    while true
      invariant At(s, start, lv, wrapped, off, seen)
      invariant nsearched == |seen| < maxSearch && Best(s, seen, bound, r, minCost)
      decreases maxSearch - nsearched
    {
      var segno;
      segno, wrapped, r, minCost := Look(s, start, lv, wrapped, off, r, minCost, seen, bound);
      off, nsearched, seen := segno + 1, nsearched + 1, seen + {segno};
      if nsearched >= maxSearch {
        newLv := NextStart(if wrapped then 0 else lv, lv, segno, |s.dirty|);
        StopHere(s, start, lv, wrapped, segno, seen);
        AllSeen(s, start, lv, wrapped, off, seen);
        min := minCost;
        BestIsFit(s, seen, bound, r, min);
        return;
      }
    }
  }

  /** A dirty segment that may be taken and costs less than the bound. */
  predicate Fit(s: Segs, bound: nat, i: nat)
    requires SegsOk(s)
  {
    i < |s.dirty| && s.dirty[i] && !s.busy[i] && s.cost[i] < bound
  }

  /** The cheapest of all fit segments; none exactly if there is none. */
  ghost predicate Cheapest(s: Segs, bound: nat, r: Option<nat>)
    requires SegsOk(s)
  {
    && (r.None? <==> forall i: nat :: !Fit(s, bound, i))
    && (r.Some? ==> forall i: nat :: Fit(s, bound, i) ==> r.value < |s.cost| && s.cost[r.value] <= s.cost[i])
  }

  lemma BestIsFit(s: Segs, seen: set<nat>, bound: nat, r: Option<nat>, min: nat)
    requires SegsOk(s) && seen <= DirtySet(s) && Best(s, seen, bound, r, min)
    ensures r.Some? ==> Fit(s, bound, r.value)
    ensures seen == DirtySet(s) ==> Cheapest(s, bound, r)
  {
    if r.Some? { assert r.value in DirtySet(s) && Fit(s, bound, r.value); }
    if seen == DirtySet(s) {
      forall i: nat | Fit(s, bound, i) ensures r.Some? && s.cost[r.value] <= s.cost[i] { assert i in DirtySet(s); }
    }
  }

  /** One round of the loop. */
  method Look(s: Segs, start: nat, lv: nat, wrapped0: bool, off: nat, r0: Option<nat>, min0: nat, ghost seen: set<nat>,
              ghost bound: nat)
    returns (segno: nat, wrapped: bool, r: Option<nat>, min: nat)
    requires SegsOk(s) && At(s, start, lv, wrapped0, off, seen) && |seen| < |DirtySet(s)|
    requires Best(s, seen, bound, r0, min0)
    ensures segno < |s.dirty| && segno !in seen && (wrapped || start <= segno)
    ensures At(s, start, lv, wrapped, segno + 1, seen + {segno})
    ensures Best(s, seen + {segno}, bound, r, min)
  {
    segno, wrapped := NextDirty(s, start, lv, wrapped0, off, seen);
    r, min := Examine(s, segno, r0, min0, seen, bound);
  }

  lemma AllSeen(s: Segs, start: nat, lv: nat, wrapped: bool, off: nat, seen: set<nat>)
    requires At(s, start, lv, wrapped, off, seen)
    ensures seen <= DirtySet(s) && (|seen| == |DirtySet(s)| ==> seen == DirtySet(s))
  {
    SeenIsDirty(s, start, lv, wrapped, off, seen);
    SubsetCard(seen, DirtySet(s));
  }

  lemma StopHere(s: Segs, start: nat, lv: nat, wrapped: bool, segno: nat, seen: set<nat>)
    requires At(s, start, lv, wrapped, segno + 1, seen) && segno < |s.dirty| && segno in seen
    requires wrapped || start <= segno
    ensures Stopped(s, start, lv, segno, seen, NextStart(if wrapped then 0 else lv, lv, segno, |s.dirty|))
  {
  }

  ghost predicate At(s: Segs, start: nat, lv: nat, wrapped: bool, off: nat, seen: set<nat>) {
    && lv < |s.dirty| && (start == lv || start == 0) && Place(s, start, lv, wrapped, off, seen)
    && (wrapped || start <= off)
  }

  /** The next dirty segment on the way around; at the end of the area the search goes on, once, from the beginning up
      to the stored last victim.  As long as not all dirty segments have been seen there is one. */
  method NextDirty(s: Segs, start: nat, lv: nat, wrapped0: bool, off0: nat, ghost seen: set<nat>)
    returns (segno: nat, wrapped: bool)
    requires At(s, start, lv, wrapped0, off0, seen) && |seen| < |DirtySet(s)|
    ensures segno < |s.dirty| && s.dirty[segno] && segno !in seen && (wrapped || start <= segno)
    ensures At(s, start, lv, wrapped, segno + 1, seen + {segno})
  {
    wrapped := wrapped0;
    ghost var off := off0;
    var last := if wrapped then lv else |s.dirty|;
    segno := FindNext(s, last, off0);
    if segno >= last {
      MustWrap(s, start, lv, wrapped, off0, seen);
      wrapped, off := true, 0;
      segno := FindNext(s, lv, 0);
      MustFind(s, lv, seen, segno);
    }
    SeeOne(s, start, lv, wrapped, off, seen, segno);
  }

  lemma MustWrap(s: Segs, start: nat, lv: nat, wrapped: bool, off: nat, seen: set<nat>)
    requires At(s, start, lv, wrapped, off, seen) && |seen| < |DirtySet(s)|
    requires DirtyIn(s, off, if wrapped then lv else |s.dirty|) == {}
    ensures !wrapped && start == lv && Place(s, lv, lv, true, 0, seen)
  {
    if wrapped || start == 0 {
      SeenAll(s, start, lv, wrapped, off, seen);
    } else {
      Wrap(s, lv, off, seen);
    }
  }

  lemma MustFind(s: Segs, lv: nat, seen: set<nat>, segno: nat)
    requires Place(s, lv, lv, true, 0, seen) && lv < |s.dirty| && |seen| < |DirtySet(s)|
    requires segno >= lv ==> DirtyIn(s, 0, lv) == {}
    ensures segno < lv
  {
    if segno >= lv { SeenAll(s, lv, lv, true, 0, seen); }
  }

  // ---- Searches one after the other

  /** How far x lies after lv, around the end. */
  function Ahead(lv: nat, x: nat, n: nat): nat
    requires lv < n
  {
    if x >= lv then x - lv else x + n - lv
  }

  /** A dirty segment that a search does not see comes closer to where the searches begin. */
  lemma Closer(s: Segs, lv: nat, last: nat, seen: set<nat>, newLv: nat, x: nat)
    requires Stopped(s, lv, lv, last, seen, newLv) && lv < |s.dirty| && x < |s.dirty| && s.dirty[x] && x !in seen
    ensures newLv < |s.dirty| && Ahead(newLv, x, |s.dirty|) < Ahead(lv, x, |s.dirty|)
  {
    if last < lv {
      assert x < lv;
    } else {
      assert !(lv <= x <= last);
    }
  }

  ghost predicate Chosen(s: Segs, seen: set<nat>, bound: nat, r: Option<nat>) {
    SegsOk(s) && exists min :: Best(s, seen, bound, r, min)
  }

  ghost predicate SeenBy(seens: seq<set<nat>>, x: nat) { exists j :: 0 <= j < |seens| && x in seens[j] }

  ghost predicate Waits(states: seq<Segs>, x: nat) {
    forall j :: 0 <= j < |states| ==> x < |states[j].dirty| && states[j].dirty[x]
  }

  /** As many searches in a row as there are segments, whatever else changes meanwhile and however few segments each may
      look at: a segment that stays dirty is looked at, so none is passed over for ever. */
  method SearchRounds(states: seq<Segs>, lv0: nat, cap: nat, bound: nat)
    returns (picks: seq<Option<nat>>, ghost seens: seq<set<nat>>)
    requires cap > 0 && lv0 < |states|
    requires forall j :: 0 <= j < |states| ==> SegsOk(states[j]) && |states[j].dirty| == |states|
    ensures |seens| == |states| && |picks| == |states|
    ensures forall j :: 0 <= j < |states| ==> Chosen(states[j], seens[j], bound, picks[j])
    ensures forall x :: 0 <= x < |states| && Waits(states, x) ==> SeenBy(seens, x)
  {
    var lv: nat, n := lv0, |states|;
    picks, seens := [], [];
    for i := 0 to n
      invariant lv < n && |seens| == i && |picks| == i
      invariant forall j :: 0 <= j < i ==> Chosen(states[j], seens[j], bound, picks[j])
      invariant forall x: nat :: x < n && Waits(states, x) ==> SeenBy(seens, x) || Ahead(lv, x, n) + i < n
    {
      var r, next, seen := OneSearch(states[i], lv, cap, bound);
      forall x: nat | x < n && Waits(states, x) ensures SeenBy(seens + [seen], x) || Ahead(next, x, n) + i + 1 < n {
        if SeenBy(seens, x) {
          var j :| 0 <= j < |seens| && x in seens[j];
          assert (seens + [seen])[j] == seens[j];
        } else {
          assert (seens + [seen])[i] == seen;
        }
      }
      picks, seens, lv := picks + [r], seens + [seen], next;
    }
  }

  /** A search that may look at `cap` segments; with nothing dirty there is none. */
  method OneSearch(s: Segs, lv: nat, cap: nat, bound: nat) returns (r: Option<nat>, newLv: nat, ghost seen: set<nat>)
    requires SegsOk(s) && lv < |s.dirty| && cap > 0
    ensures newLv < |s.dirty| && seen <= DirtySet(s) && Chosen(s, seen, bound, r)
    ensures forall x: nat :: x < |s.dirty| && s.dirty[x] ==>
              x in seen || Ahead(newLv, x, |s.dirty|) < Ahead(lv, x, |s.dirty|)
  {
    var dirty := |DirtySet(s)|;
    if dirty == 0 {
      r, newLv, seen := None, lv, {};
      assert Best(s, seen, bound, r, bound);
      forall x: nat | x < |s.dirty| ensures !s.dirty[x] { assert x in DirtySet(s) <==> s.dirty[x]; }
      return;
    }
    ghost var min;
    r, newLv, seen, min := GetVictim(s, lv, lv, if dirty < cap then dirty else cap, bound);
    ghost var last: nat :| Stopped(s, lv, lv, last, seen, newLv);
    forall x: nat | x < |s.dirty| && s.dirty[x] && x !in seen
      ensures Ahead(newLv, x, |s.dirty|) < Ahead(lv, x, |s.dirty|)
    {
      Closer(s, lv, last, seen, newLv, x);
    }
  }
}
