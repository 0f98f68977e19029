/**
 Migration between the tiers: hot segments copied to NVM, cold ones copied back,
 pre-moved segments kept on both devices, and the release of a segment that is
 on both without copying.  Whatever moves, a read through the mapping table
 returns what was last written.
 */
module Tiering {
  import opened Common
  import opened MptTable

  type Block = int
  type Segment = seq<Block>

  /** The valid blocks of src laid over dst. */
  function Overlay(valid: seq<bool>, src: Segment, dst: Segment): (r: Segment)
    requires |valid| == |src| == |dst|
    ensures |r| == |dst|
  {
    seq(|dst|, i requires 0 <= i < |dst| => if valid[i] then src[i] else dst[i])
  }

  /** The run-finding loops of do_cold_to_ssd and do_hot_to_nvm: each maximal run of
      valid blocks is read into the transfer buffer and written out as one bio. */
  method CopyValid(valid: seq<bool>, src: Segment, dst0: Segment) returns (dst: Segment)
    requires |valid| == |src| == |dst0|
    ensures dst == Overlay(valid, src, dst0)
  {
    var n, pos := |valid|, 0;
    dst := dst0;
    while true
      invariant pos <= n + 1 && |dst| == n
      invariant forall i :: 0 <= i < n ==> dst[i] == if i < pos && valid[i] then src[i] else dst0[i]
      decreases n + 1 - pos
    {
      while pos < n && !valid[pos]
        invariant pos <= n + 1
        invariant forall i :: 0 <= i < n ==> dst[i] == if i < pos && valid[i] then src[i] else dst0[i]
      {
        pos := pos + 1;
      }
      if pos >= n {
        return;
      }
      var st := pos;
      pos := pos + 1;
      while pos < n && valid[pos]
        invariant st < pos <= n
        invariant forall i :: st <= i < pos ==> valid[i]
      {
        pos := pos + 1;
      }
      var buffer := src[st..pos];
      dst := dst[..st] + buffer + dst[pos..];
      pos := pos + 1;
    }
  }

  // ------------------------------------------------------------------ the store as a value

  /** Both devices, the valid-block maps of the SSD segments, and what the file
      system last wrote to every block. */
  datatype Store = Store(t: Table, ssd: seq<Segment>, nvm: seq<Segment>, valid: seq<seq<bool>>,
                         data: seq<Segment>, size: nat)

  ghost predicate Sized(ss: seq<Segment>, n: nat, size: nat) {
    |ss| == n && forall i :: 0 <= i < n ==> |ss[i]| == size
  }

  ghost predicate StoreShape(s: Store) {
    var m := |s.t.inUse|;
    && Inv(s.t)
    && Sized(s.ssd, m, s.size) && Sized(s.nvm, s.t.nvm, s.size) && Sized(s.data, m, s.size)
    && |s.valid| == m && (forall i :: 0 <= i < m ==> |s.valid[i]| == s.size)
  }

  function Ssd(s: Store, m: nat): Entry
    requires s.t.nvm + m < |s.t.mpt|
  {
    s.t.mpt[s.t.nvm + m]
  }

  /** Where a read of SSD segment m lands after nvm_redirect_bio. */
  ghost function ReadThrough(s: Store, m: nat): (r: Segment)
    requires StoreShape(s) && m < |s.t.inUse|
    ensures |r| == s.size
  {
    PartnerValue(s.t, m);
    if Ssd(s, m).mapped then s.nvm[Ssd(s, m).value] else s.ssd[m]
  }

  ghost predicate SameWhere(valid: seq<bool>, a: Segment, b: Segment) {
    |valid| == |a| == |b| && forall i :: 0 <= i < |valid| && valid[i] ==> a[i] == b[i]
  }

  /** Segment m reads back as written, its second copy agrees when it is
      flagged double, and a free segment holds nothing valid. */
  ghost predicate Faithful(s: Store, m: nat)
    requires StoreShape(s) && m < |s.t.inUse|
  {
    && SameWhere(s.valid[m], ReadThrough(s, m), s.data[m])
    && (Ssd(s, m).double ==> SameWhere(s.valid[m], s.ssd[m], s.data[m]))
    && (!s.t.inUse[m] ==> true !in s.valid[m])
  }

  ghost predicate StoreInv(s: Store) {
    && StoreShape(s)
    && forall m :: 0 <= m < |s.t.inUse| ==> Faithful(s, m)
  }

  /** hot_to_nvm for one segment: hold n, copy the valid blocks, map with the double flag. */
  function HotMove(s: Store, m: nat, n: nat): Store
    requires n < |s.t.segMap| && 0 < s.t.free && s.t.nvm + m < |s.t.mpt| && n < |s.t.mpt|
    requires m < |s.ssd| && n < |s.nvm| && m < |s.valid| && |s.valid[m]| == |s.ssd[m]| == |s.nvm[n]|
  {
    s.(nvm := s.nvm[n := Overlay(s.valid[m], s.ssd[m], s.nvm[n])],
       t := MapPair(Hold(s.t, n), m, n, true).(held := s.t.held))
  }

  /** do_cold_to_ssd: copy back, then flag double (pre-move) or unmap. */
  function ColdMove(s: Store, m: nat, n: nat, preMove: bool): Store
    requires m < |s.ssd| && n < |s.nvm| && m < |s.valid| && |s.valid[m]| == |s.ssd[m]| == |s.nvm[n]|
    requires Shape(s.t) && s.t.nvm + m < |s.t.mpt| && (Ssd(s, m).mapped ==> Ssd(s, m).value < s.t.nvm)
  {
    s.(ssd := s.ssd[m := Overlay(s.valid[m], s.nvm[n], s.ssd[m])],
       t := if preMove then MarkDouble(s.t, m) else Unmap(s.t, m))
  }

  datatype Step =
    | Hot(m: nat, n: nat)
    | Abandon(m: nat, n: nat)   // a hot move whose segment was freed: copied, but not mapped
    | Cold(n: nat, preMove: bool)
    | ReleaseDouble(n: nat)
    | Write(m: nat, off: nat, b: Block)
    | Invalidate(m: nat, off: nat)
    | NewSeg(m: nat, onto: Option<nat>)
    | FreeSeg(m: nat)

  ghost predicate Enabled(s: Store, step: Step)
    requires StoreShape(s)
  {
    var segs := |s.t.inUse|;
    match step
    case Hot(m, n) => m < segs && s.t.inUse[m] && !Ssd(s, m).mapped && n < s.t.nvm && !s.t.segMap[n]
    case Abandon(m, n) => m < segs && !s.t.inUse[m] && n < s.t.nvm && !s.t.segMap[n]
    case Cold(n, _) => n < s.t.nvm && s.t.mpt[n].mapped
    case ReleaseDouble(n) => n < s.t.nvm && s.t.mpt[n].mapped && s.t.mpt[n].double
    // no write reaches a segment that is flagged double
    case Write(m, off, _) => m < segs && off < s.size && s.t.inUse[m] && !Ssd(s, m).double
    case Invalidate(m, off) => m < segs && off < s.size
    case NewSeg(m, n) => m < segs && !s.t.inUse[m] && (n.Some? ==> n.value < s.t.nvm && !s.t.segMap[n.value])
    case FreeSeg(m) => m < segs && true !in s.valid[m]
  }

  function Put(ss: seq<Segment>, i: nat, off: nat, b: Block): seq<Segment>
    requires i < |ss| && off < |ss[i]|
  {
    ss[i := ss[i][off := b]]
  }

  ghost function Apply(s: Store, step: Step): Store
    requires StoreShape(s) && Enabled(s, step)
  {
    match step
    case Hot(m, n) => HoldInv(s.t, n); HotMove(s, m, n)
    case Abandon(m, n) => s.(nvm := s.nvm[n := Overlay(s.valid[m], s.ssd[m], s.nvm[n])])
    case Cold(n, preMove) => NvmPartner(s.t, n); ColdMove(s, s.t.mpt[n].value, n, preMove)
    case ReleaseDouble(n) => NvmPartner(s.t, n); s.(t := Unmap(s.t, s.t.mpt[n].value))
    case Write(m, off, b) =>
      PartnerValue(s.t, m);
      var u := if Ssd(s, m).mapped then s.(nvm := Put(s.nvm, Ssd(s, m).value, off, b))
               else s.(ssd := Put(s.ssd, m, off, b));
      u.(valid := s.valid[m := s.valid[m][off := true]], data := Put(s.data, m, off, b))
    case Invalidate(m, off) => s.(valid := s.valid[m := s.valid[m][off := false]])
    case NewSeg(m, n) =>
      var t := s.t.(inUse := s.t.inUse[m := true]);
      if n.None? then s.(t := t)
      else HoldInv(s.t, n.value); s.(t := MapPair(Hold(t, n.value), m, n.value, false).(held := s.t.held))
    case FreeSeg(m) => PartnerValue(s.t, m); s.(t := Unmap(s.t, m).(inUse := s.t.inUse[m := false]))
  }

  lemma NvmPartner(t: Table, n: nat)
    requires Inv(t) && n < t.nvm && t.mpt[n].mapped
    ensures var m := t.mpt[n].value;
            && m < |t.inUse| && t.mpt[t.nvm + m].mapped && t.mpt[t.nvm + m].value == n
            && t.mpt[t.nvm + m].double == t.mpt[n].double
  {
    assert Paired(t, n);
  }

  /** Two mapped SSD segments never share an NVM segment. */
  lemma NoSharing(t: Table, a: nat, b: nat)
    requires Inv(t) && a < |t.inUse| && b < |t.inUse| && t.mpt[t.nvm + a].mapped && t.mpt[t.nvm + b].mapped
    ensures t.mpt[t.nvm + a].value == t.mpt[t.nvm + b].value ==> a == b
  {
    assert Paired(t, t.nvm + a) && Paired(t, t.nvm + b);
  }

  // ------------------------------------------------------------------ every step

  /** Outside segment m, and outside the NVM segment m is mapped to, nothing happened. */
  ghost predicate Untouched(s: Store, u: Store, j: nat)
    requires StoreShape(s) && j < |s.t.inUse|
  {
    && StoreShape(u) && u.t.nvm == s.t.nvm && |u.t.inUse| == |s.t.inUse| && u.size == s.size
    && Ssd(u, j) == Ssd(s, j) && u.t.inUse[j] == s.t.inUse[j]
    && u.ssd[j] == s.ssd[j] && u.valid[j] == s.valid[j] && u.data[j] == s.data[j]
    && (Ssd(s, j).mapped ==> (PartnerValue(s.t, j); u.nvm[Ssd(s, j).value] == s.nvm[Ssd(s, j).value]))
  }

  lemma UntouchedFaithful(s: Store, u: Store, j: nat)
    requires StoreShape(s) && j < |s.t.inUse| && Faithful(s, j) && Untouched(s, u, j)
    ensures Faithful(u, j)
  {
  }

  lemma HotKeeps(s: Store, m: nat, n: nat)
    requires StoreInv(s) && Enabled(s, Hot(m, n))
    ensures StoreInv(Apply(s, Hot(m, n)))
  {
    var u := Apply(s, Hot(m, n));
    HoldInv(s.t, n);
    MapPairInv(Hold(s.t, n), m, n, true);
    assert (s.t.held + {n}) - {n} == s.t.held;
    assert StoreShape(u);
    forall j | 0 <= j < |u.t.inUse| ensures Faithful(u, j) {
      assert Faithful(s, j);
      PartnerValue(s.t, j);
      if j != m {
        MutualInverse(s.t, n, j);
        UntouchedFaithful(s, u, j);
      }
    }
  }

  /** What is copied to a free NVM segment concerns nobody. */
  lemma AbandonKeeps(s: Store, m: nat, n: nat)
    requires StoreInv(s) && Enabled(s, Abandon(m, n))
    ensures StoreInv(Apply(s, Abandon(m, n)))
  {
    var u := Apply(s, Abandon(m, n));
    forall j | 0 <= j < |u.t.inUse| ensures Faithful(u, j) {
      assert Faithful(s, j);
      PartnerValue(s.t, j);
      MutualInverse(s.t, n, j);
      UntouchedFaithful(s, u, j);
    }
  }

  lemma ColdShape(s: Store, n: nat, preMove: bool)
    requires StoreInv(s) && Enabled(s, Cold(n, preMove))
    ensures StoreShape(Apply(s, Cold(n, preMove)))
  {
    NvmPartner(s.t, n);
    if preMove {
      MarkDoubleInv(s.t, s.t.mpt[n].value);
    } else {
      UnmapInv(s.t, s.t.mpt[n].value);
    }
  }

  lemma ColdKeeps(s: Store, n: nat, preMove: bool)
    requires StoreInv(s) && Enabled(s, Cold(n, preMove))
    ensures StoreInv(Apply(s, Cold(n, preMove)))
  {
    ColdShape(s, n, preMove);
    var u := Apply(s, Cold(n, preMove));
    forall j | 0 <= j < |u.t.inUse| ensures Faithful(u, j) {
      ColdFaithful(s, n, preMove, j);
    }
  }

  lemma ColdFaithful(s: Store, n: nat, preMove: bool, j: nat)
    requires StoreInv(s) && Enabled(s, Cold(n, preMove)) && StoreShape(Apply(s, Cold(n, preMove))) && j < |s.t.inUse|
    ensures Faithful(Apply(s, Cold(n, preMove)), j)
  {
    NvmPartner(s.t, n);
    if j == s.t.mpt[n].value {
      ColdMoved(s, n, preMove);
    } else {
      PartnerValue(s.t, j);
      assert Faithful(s, j);
      UntouchedFaithful(s, Apply(s, Cold(n, preMove)), j);
    }
  }

  lemma ColdMoved(s: Store, n: nat, preMove: bool)
    requires StoreInv(s) && Enabled(s, Cold(n, preMove)) && StoreShape(Apply(s, Cold(n, preMove)))
    requires s.t.mpt[n].value < |s.t.inUse|
    ensures Faithful(Apply(s, Cold(n, preMove)), s.t.mpt[n].value)
  {
    NvmPartner(s.t, n);
    assert Faithful(s, s.t.mpt[n].value);
  }

  lemma ReleaseKeeps(s: Store, n: nat)
    requires StoreInv(s) && Enabled(s, ReleaseDouble(n))
    ensures StoreInv(Apply(s, ReleaseDouble(n)))
  {
    NvmPartner(s.t, n);
    var m := s.t.mpt[n].value;
    var u := Apply(s, ReleaseDouble(n));
    UnmapInv(s.t, m);
    assert StoreShape(u);
    forall j | 0 <= j < |u.t.inUse| ensures Faithful(u, j) {
      assert Faithful(s, j);
      if j != m {
        PartnerValue(s.t, j);
        UntouchedFaithful(s, u, j);
      }
    }
  }

  lemma WriteKeeps(s: Store, m: nat, off: nat, b: Block)
    requires StoreInv(s) && Enabled(s, Write(m, off, b))
    ensures StoreInv(Apply(s, Write(m, off, b)))
  {
    var u := Apply(s, Write(m, off, b));
    PartnerValue(s.t, m);
    assert StoreShape(u);
    forall j | 0 <= j < |u.t.inUse| ensures Faithful(u, j) {
      assert Faithful(s, j);
      PartnerValue(s.t, j);
      if j != m {
        if Ssd(s, j).mapped && Ssd(s, m).mapped {
          NoSharing(s.t, j, m);
        }
        UntouchedFaithful(s, u, j);
      }
    }
  }

  lemma InvalidateKeeps(s: Store, m: nat, off: nat)
    requires StoreInv(s) && Enabled(s, Invalidate(m, off))
    ensures StoreInv(Apply(s, Invalidate(m, off)))
  {
    var u := Apply(s, Invalidate(m, off));
    forall j | 0 <= j < |u.t.inUse| ensures Faithful(u, j) {
      assert Faithful(s, j);
      if j != m {
        UntouchedFaithful(s, u, j);
      }
    }
  }

  lemma NewSegShape(s: Store, m: nat, onto: Option<nat>)
    requires StoreInv(s) && Enabled(s, NewSeg(m, onto))
    ensures StoreShape(Apply(s, NewSeg(m, onto)))
  {
    TakeInv(s.t, m);
    var t := s.t.(inUse := s.t.inUse[m := true]);
    if onto.Some? {
      HoldInv(t, onto.value);
      MapPairInv(Hold(t, onto.value), m, onto.value, false);
      assert (s.t.held + {onto.value}) - {onto.value} == s.t.held;
    }
  }

  lemma NewSegKeeps(s: Store, m: nat, onto: Option<nat>)
    requires StoreInv(s) && Enabled(s, NewSeg(m, onto))
    ensures StoreInv(Apply(s, NewSeg(m, onto)))
  {
    var u := Apply(s, NewSeg(m, onto));
    NewSegShape(s, m, onto);
    forall j | 0 <= j < |u.t.inUse| ensures Faithful(u, j) {
      assert Faithful(s, j);
      PartnerValue(s.t, j);
      if j != m {
        UntouchedFaithful(s, u, j);
      }
    }
  }

  lemma FreeSegShape(s: Store, m: nat)
    requires StoreInv(s) && Enabled(s, FreeSeg(m))
    ensures StoreShape(Apply(s, FreeSeg(m)))
  {
    UnmapInv(s.t, m);
    ReleaseInv(Unmap(s.t, m), m);
  }

  lemma FreeSegKeeps(s: Store, m: nat)
    requires StoreInv(s) && Enabled(s, FreeSeg(m))
    ensures StoreInv(Apply(s, FreeSeg(m)))
  {
    var u := Apply(s, FreeSeg(m));
    FreeSegShape(s, m);
    PartnerValue(s.t, m);
    forall j | 0 <= j < |u.t.inUse| ensures Faithful(u, j) {
      assert Faithful(s, j);
      PartnerValue(s.t, j);
      if j != m {
        UntouchedFaithful(s, u, j);
      }
    }
  }

  lemma StepKeeps(s: Store, step: Step)
    requires StoreInv(s) && Enabled(s, step)
    ensures StoreInv(Apply(s, step))
    ensures !step.Write? ==> Apply(s, step).data == s.data
  {
    match step
    case Hot(m, n) => HotKeeps(s, m, n);
    case Abandon(m, n) => AbandonKeeps(s, m, n);
    case Cold(n, preMove) => ColdKeeps(s, n, preMove);
    case ReleaseDouble(n) => ReleaseKeeps(s, n);
    case Write(m, off, b) => WriteKeeps(s, m, off, b);
    case Invalidate(m, off) => InvalidateKeeps(s, m, off);
    case NewSeg(m, onto) => NewSegKeeps(s, m, onto);
    case FreeSeg(m) => FreeSegKeeps(s, m);
  }

  // ------------------------------------------------------------------ whole runs

  ghost predicate Legal(s: Store, steps: seq<Step>)
    requires StoreInv(s)
    decreases |steps|
  {
    steps == [] || (Enabled(s, steps[0]) && (StepKeeps(s, steps[0]); Legal(Apply(s, steps[0]), steps[1..])))
  }

  ghost function Run(s: Store, steps: seq<Step>): Store
    requires StoreInv(s) && Legal(s, steps)
    decreases |steps|
  {
    if steps == [] then s else StepKeeps(s, steps[0]); Run(Apply(s, steps[0]), steps[1..])
  }

  /** What the file system wrote, with no device in sight. */
  function Written(data: seq<Segment>, steps: seq<Step>): seq<Segment>
    decreases |steps|
  {
    if steps == [] then data
    else
      var d := match steps[0]
               case Write(m, off, b) => if m < |data| && off < |data[m]| then Put(data, m, off, b) else data
               case _ => data;
      Written(d, steps[1..])
  }

  /** After every run each valid block reads through the table as last written,
      whichever device holds it. */
  lemma {:induction false} ReadsBackAsWritten(s: Store, steps: seq<Step>)
    requires StoreInv(s) && Legal(s, steps)
    ensures var u := Run(s, steps);
            && StoreInv(u) && u.data == Written(s.data, steps)
            && forall m, off :: 0 <= m < |u.t.inUse| && 0 <= off < u.size && u.valid[m][off] ==>
                 ReadThrough(u, m)[off] == Written(s.data, steps)[m][off]
    decreases |steps|
  {
    if steps == [] {
      forall m, off | 0 <= m < |s.t.inUse| && 0 <= off < s.size && s.valid[m][off]
        ensures ReadThrough(s, m)[off] == s.data[m][off]
      {
        assert Faithful(s, m);
      }
    } else {
      StepKeeps(s, steps[0]);
      ReadsBackAsWritten(Apply(s, steps[0]), steps[1..]);
    }
  }

  /** Moves alone change nothing a reader sees. */
  lemma MovesKeepContent(s: Store, step: Step, m: nat, off: nat)
    requires StoreInv(s) && Enabled(s, step) && (step.Hot? || step.Abandon? || step.Cold? || step.ReleaseDouble?)
    requires m < |s.t.inUse| && off < s.size && s.valid[m][off]
    ensures StoreInv(Apply(s, step)) && m < |Apply(s, step).t.inUse|
    ensures ReadThrough(Apply(s, step), m)[off] == ReadThrough(s, m)[off]
  {
    StepKeeps(s, step);
    assert Faithful(s, m) && Faithful(Apply(s, step), m);
  }

  /** Why writes to a double-flagged segment are kept out: nothing clears the flag, so a
      later release goes back to the SSD copy and the write survives exactly when
      that copy already held the same block. */
  lemma DoubleWriteExact(s: Store, m: nat, off: nat, b: Block)
    requires StoreInv(s) && m < |s.t.inUse| && off < s.size && Ssd(s, m).mapped && Ssd(s, m).double
    ensures Ssd(s, m).value < |s.nvm|
    ensures var w := s.(nvm := Put(s.nvm, Ssd(s, m).value, off, b), data := Put(s.data, m, off, b),
                        valid := s.valid[m := s.valid[m][off := true]]);
            var r := w.(t := Unmap(s.t, m));
            && StoreShape(r) && m < |r.t.inUse|
            && ReadThrough(r, m)[off] == s.ssd[m][off]
            && (ReadThrough(r, m)[off] == w.data[m][off] <==> s.ssd[m][off] == b)
  {
    PartnerValue(s.t, m);
    UnmapInv(s.t, m);
  }

  // ------------------------------------------------------------------ the code

  /** The step that a hot move is. */
  function HotStep(s: Store, m: nat, n: nat): Step
    requires m < |s.t.inUse|
  {
    if s.t.inUse[m] then Hot(m, n) else Abandon(m, n)
  }

  /** Holding a segment and ending the move leaves the table the step says. */
  lemma HotDone(s: Store, t: Table, m: nat, n: nat)
    requires StoreInv(s) && m < |s.t.inUse| && !Ssd(s, m).mapped && n < s.t.nvm && !s.t.segMap[n] && 0 < s.t.free
    requires t == EndHot(Hold(s.t, n), m, n)
    ensures Enabled(s, HotStep(s, m, n)) && Apply(s, HotStep(s, m, n)).t == t
  {
    HoldInv(s.t, n);
    assert n !in s.t.held;
    assert (s.t.held + {n}) - {n} == s.t.held;
    assert s.t.segMap[n := true][n := false] == s.t.segMap;
  }

  /** The two devices behind the mapping table. */
  class Tier {
    const table: NvmTable
    const size: nat
    var ssd: seq<Segment>
    var nvm: seq<Segment>
    var valid: seq<seq<bool>>
    ghost var data: seq<Segment>

    ghost function S(): Store
      reads this, table, table.mpt, table.segMap
    {
      Store(table.T(), ssd, nvm, valid, data, size)
    }

    ghost predicate Valid()
      reads this, table, table.mpt, table.segMap
    {
      table.Valid() && StoreInv(S())
    }

    constructor (table: NvmTable, size: nat, ssd: seq<Segment>, nvm: seq<Segment>, valid: seq<seq<bool>>,
                 ghost data: seq<Segment>)
      requires table.Valid() && StoreInv(Store(table.T(), ssd, nvm, valid, data, size))
      ensures Valid() && S() == Store(table.T(), ssd, nvm, valid, data, size)
    {
      this.table, this.size, this.ssd, this.nvm, this.valid, this.data := table, size, ssd, nvm, valid, data;
    }

    /** One round of hot_to_nvm for a chosen, unmapped segment, which may have been freed since it was chosen. */
    method HotToNvm(m: nat) returns (n: Option<nat>)
      requires Valid() && m < |table.inUse| && !Ssd(S(), m).mapped
      modifies this`nvm, table, table.mpt, table.segMap
      ensures Valid()
      ensures n.Some? <==> old(table.free) > 0
      ensures n.None? ==> S() == old(S())
      ensures n.Some? ==>
                && Enabled(old(S()), HotStep(old(S()), m, n.value))
                && S() == Apply(old(S()), HotStep(old(S()), m, n.value))
    {
      ghost var s := S();
      n := table.AllocateHeld();
      if n.Some? {
        var copied := CopyValid(valid[m], ssd[m], nvm[n.value]);
        nvm := nvm[n.value := copied];
        table.HotFinish(m, n.value);
        HotDone(s, S().t, m, n.value);
        StepKeeps(s, HotStep(s, m, n.value));
      }
    }

    /** do_cold_to_ssd */
    method ColdToSsd(n: nat, preMove: bool)
      requires Valid() && n < table.nvm
      modifies this`ssd, table, table.mpt, table.segMap
      ensures Valid()
      ensures if Enabled(old(S()), Cold(n, preMove)) then S() == Apply(old(S()), Cold(n, preMove)) else S() == old(S())
    {
      ghost var s := S();
      assert Decode(table.mpt[n]) == s.t.mpt[n];
      if table.mpt[n] % 2 == 0 {
        return;
      }
      var m := table.mpt[n] / 8;
      NvmPartner(s.t, n);
      var copied := CopyValid(valid[m], nvm[n], ssd[m]);
      ssd := ssd[m := copied];
      if preMove {
        table.SetDouble(m);
      } else {
        table.UnsetMapping(m);
      }
      assert S() == Apply(s, Cold(n, preMove));
      ColdKeeps(s, n, preMove);
    }

    /** cold_to_ssd for a segment both devices hold: no copy. */
    method ReleaseIfDouble(n: nat) returns (released: bool)
      requires Valid() && n < table.nvm
      modifies table, table.mpt, table.segMap
      ensures Valid()
      ensures released <==> Enabled(old(S()), ReleaseDouble(n))
      ensures released ==> S() == Apply(old(S()), ReleaseDouble(n))
      ensures !released ==> S() == old(S())
    {
      ghost var s := S();
      assert Decode(table.mpt[n]) == s.t.mpt[n] && Paired(s.t, n);
      released := table.mpt[n] / 4 % 2 == 1;
      if released {
        NvmPartner(s.t, n);
        table.UnsetMapping(table.mpt[n] / 8);
        assert S() == Apply(s, ReleaseDouble(n));
        ReleaseKeeps(s, n);
      }
    }
  }
}
