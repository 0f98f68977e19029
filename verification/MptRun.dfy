/** Runs of the mapping table: hot moves that begin and end with other steps in between, new and freed
    segments, unmappings and double flags, in any order. */
module MptRun {
  import opened Common
  import opened MptTable

  datatype Step =
    | HotStart(n: nat)                      // nvm_allocate_segment for a hot move
    | HotEnd(ssd: nat, n: nat)              // the end of that move, gc_nvm.c:637-668
    | Take(ssd: nat, onto: Option<nat>)     // new_curseg
    | Release(ssd: nat)                     // __set_test_and_free
    | Unset(ssd: nat)                       // unset_mapping
    | Double(ssd: nat)                      // set_double

  ghost predicate Can(t: Table, step: Step) {
    && Inv(t)
    && match step
       case HotStart(n) => n < t.nvm && !t.segMap[n]
       case HotEnd(ssd, n) => ssd < |t.inUse| && n in t.held
       case Take(ssd, onto) =>
         ssd < |t.inUse| && !t.inUse[ssd] && (onto.Some? ==> onto.value < t.nvm && !t.segMap[onto.value])
       case Release(ssd) => ssd < |t.inUse|
       case Unset(ssd) => ssd < |t.inUse|
       case Double(ssd) => ssd < |t.inUse|
  }

  ghost function Apply(t: Table, step: Step): Table
    requires Can(t, step)
  {
    match step
    case HotStart(n) => HoldInv(t, n); Hold(t, n)
    case HotEnd(ssd, n) => EndHot(t, ssd, n)
    case Take(ssd, onto) => if onto.Some? then HoldInv(t, onto.value); TakeSeg(t, ssd, onto) else TakeSeg(t, ssd, onto)
    case Release(ssd) => PartnerValue(t, ssd); FreeSeg(t, ssd)
    case Unset(ssd) => PartnerValue(t, ssd); Unmap(t, ssd)
    case Double(ssd) => PartnerValue(t, ssd); MarkDouble(t, ssd)
  }

  /** A hot move ends on an SSD segment that was freed, taken again and mapped while the move was under way. */
  predicate Clash(t: Table, step: Step)
    requires step.HotEnd? ==> step.ssd < |t.inUse| && t.nvm + step.ssd < |t.mpt|
  {
    step.HotEnd? && t.inUse[step.ssd] && t.mpt[t.nvm + step.ssd].mapped
  }

  lemma TakeOk(t: Table, ssd: nat, onto: Option<nat>)
    requires Can(t, Take(ssd, onto))
    ensures Inv(Apply(t, Take(ssd, onto)))
  {
    TakeInv(t, ssd);
    if onto.Some? {
      var n := onto.value;
      var u := t.(inUse := t.inUse[ssd := true]);
      HoldInv(u, n);
      MapPairInv(Hold(u, n), ssd, n, false);
      assert (t.held + {n}) - {n} == t.held;
    }
  }

  /** Every step but a clash keeps the table consistent, and a clash never does. */
  lemma StepExact(t: Table, step: Step)
    requires Can(t, step)
    ensures Inv(Apply(t, step)) <==> !Clash(t, step)
  {
    match step
    case HotStart(n) => HoldInv(t, n);
    case HotEnd(ssd, n) => if t.inUse[ssd] { MapPairExact(t, ssd, n, true); } else { GiveBackInv(t, n); }
    case Take(ssd, onto) => TakeOk(t, ssd, onto);
    case Release(ssd) => { UnmapInv(t, ssd); ReleaseInv(Unmap(t, ssd), ssd); }
    case Unset(ssd) => UnmapInv(t, ssd);
    case Double(ssd) => MarkDoubleInv(t, ssd);
  }

  /** The steps can be taken one after the other, as far as the table stays consistent. */
  ghost predicate CanRun(t: Table, steps: seq<Step>)
    decreases |steps|
  {
    steps == [] || (Can(t, steps[0]) && (Inv(Apply(t, steps[0])) ==> CanRun(Apply(t, steps[0]), steps[1..])))
  }

  /** Every table on the way is consistent. */
  ghost predicate StaysOk(t: Table, steps: seq<Step>)
    requires CanRun(t, steps)
    decreases |steps|
  {
    Inv(t) && (steps == [] || (Inv(Apply(t, steps[0])) && StaysOk(Apply(t, steps[0]), steps[1..])))
  }

  /** No step of the run is a clash. */
  ghost predicate NoClash(t: Table, steps: seq<Step>)
    requires CanRun(t, steps)
    decreases |steps|
  {
    steps == [] || (!Clash(t, steps[0]) && (Inv(Apply(t, steps[0])) ==> NoClash(Apply(t, steps[0]), steps[1..])))
  }

  /** Over every run from a consistent table: the halves are mutual inverses, a bit is set exactly when its segment
      is mapped or held by an unfinished move, and the counter counts the clear bits, at every point, if and only if
      no hot move ends on a segment that has been mapped meanwhile. */
  lemma {:induction false} RunExact(t: Table, steps: seq<Step>)
    requires Inv(t) && CanRun(t, steps)
    ensures StaysOk(t, steps) <==> NoClash(t, steps)
    decreases |steps|
  {
    if steps != [] {
      StepExact(t, steps[0]);
      if Inv(Apply(t, steps[0])) { RunExact(Apply(t, steps[0]), steps[1..]); }
    }
  }

  /** A hot move of segment 0 is under way, and the segment has been freed. */
  method MoveUnderWay(nvm: nat, ssd: nat) returns (m: NvmTable, n: nat)
    requires 2 <= nvm && 1 <= ssd && nvm + ssd < SEG_LIMIT
    ensures fresh(m) && fresh(m.mpt) && fresh(m.segMap) && m.Valid() && |m.inUse| == ssd && !m.inUse[0]
    ensures n in m.held && m.free > 0
  {
    m := new NvmTable(nvm, ssd);
    var a := m.NewCurseg(0, false);
    var held := m.AllocateHeld();
    assert m.free == nvm - 1;
    m.FreeSegment(0);
    n := held.value;
  }

  /** A run of the code that ends in an inconsistent table: while the move is under way the segment is freed,
      taken again and put on the NVM. */
  method BreakingRun(nvm: nat, ssd: nat) returns (m: NvmTable)
    requires 2 <= nvm && 1 <= ssd && nvm + ssd < SEG_LIMIT
    ensures fresh(m) && !Inv(m.T())
  {
    var n;
    m, n := MoveUnderWay(nvm, ssd);
    var b := m.NewCurseg(0, true);
    assert m.T().mpt[m.nvm + 0].mapped && m.inUse[0];
    m.HotFinish(0, n);
  }
}
