/** Crashes between checkpoints: the mount goes back to the committed mapping table, but the devices are as the last
    moves and writes left them.  The committed blocks are there at every crash point exactly when no step writes other
    contents to the place of one.  The allocator of the source may take an NVM segment that the committed table still
    maps (nvm.c:411-416), and runs that lose data that way follow. */
module TierCrash {
  import opened Common
  import opened MptTable
  import opened Tiering

  /** Store c is what the last checkpoint committed, s what there is now. */
  ghost predicate SameSize(s: Store, c: Store) {
    StoreShape(s) && StoreShape(c) && s.size == c.size && s.t.nvm == c.t.nvm && |s.t.inUse| == |c.t.inUse|
  }

  /** A segment of either device. */
  datatype Place = OnNvm(n: nat) | OnSsd(m: nat)

  ghost predicate IsPlace(s: Store, p: Place) { if p.OnNvm? then p.n < s.t.nvm else p.m < |s.t.inUse| }

  ghost function At(s: Store, p: Place): (r: Segment)
    requires StoreShape(s) && IsPlace(s, p)
    ensures |r| == s.size
  {
    if p.OnNvm? then s.nvm[p.n] else s.ssd[p.m]
  }

  /** Where the table puts segment m. */
  ghost function Where(s: Store, m: nat): (p: Place)
    requires StoreShape(s) && m < |s.t.inUse|
    ensures IsPlace(s, p)
  {
    PartnerValue(s.t, m);
    if Ssd(s, m).mapped then OnNvm(Ssd(s, m).value) else OnSsd(m)
  }

  /** What a mount after a crash reads for segment m: through the committed table, from the devices as they are. */
  ghost function CrashRead(s: Store, c: Store, m: nat): (r: Segment)
    requires SameSize(s, c) && m < |c.t.inUse|
    ensures |r| == s.size
  {
    At(s, Where(c, m))
  }

  /** Every block that was valid at the checkpoint reads back as it was. */
  ghost predicate Survives(s: Store, c: Store)
    requires SameSize(s, c)
  {
    forall m :: 0 <= m < |c.t.inUse| ==> SegSurvives(s, c, m)
  }

  ghost predicate SegSurvives(s: Store, c: Store, m: nat)
    requires SameSize(s, c) && m < |c.t.inUse|
  {
    SameWhere(c.valid[m], CrashRead(s, c, m), c.data[m])
  }

  // ---- What a step writes

  /** What the step writes to this block of this segment, if anything. */
  ghost function Puts(s: Store, step: Step, p: Place, off: nat): Option<Block>
    requires StoreShape(s) && Enabled(s, step) && off < s.size
  {
    match step
    case Hot(m, n) => if p == OnNvm(n) && s.valid[m][off] then Some(s.ssd[m][off]) else None
    case Abandon(m, n) => if p == OnNvm(n) && s.valid[m][off] then Some(s.ssd[m][off]) else None
    case Cold(n, _) =>
      NvmPartner(s.t, n);
      var m := s.t.mpt[n].value;
      if p == OnSsd(m) && s.valid[m][off] then Some(s.nvm[n][off]) else None
    case Write(m, o, b) => if p == Where(s, m) && off == o then Some(b) else None
    case _ => None
  }

  /** Every block of either device is what the step wrote there, or what it was. */
  lemma Effect(s: Store, step: Step, p: Place, off: nat)
    requires StoreInv(s) && Enabled(s, step) && StoreShape(Apply(s, step)) && IsPlace(s, p) && off < s.size
    ensures Apply(s, step).size == s.size && IsPlace(Apply(s, step), p)
    ensures var w := Puts(s, step, p, off);
            At(Apply(s, step), p)[off] == if w.Some? then w.value else At(s, p)[off]
  {
    if step.Write? {
      PartnerValue(s.t, step.m);
    } else if step.Hot? || step.Abandon? || step.Cold? {
      CopyEffect(s, step, p, off);
    } else {
      if step.ReleaseDouble? { NvmPartner(s.t, step.n); }
      if step.FreeSeg? { PartnerValue(s.t, step.m); }
    }
  }

  lemma CopyEffect(s: Store, step: Step, p: Place, off: nat)
    requires StoreInv(s) && Enabled(s, step) && StoreShape(Apply(s, step)) && IsPlace(s, p) && off < s.size
    requires step.Hot? || step.Abandon? || step.Cold?
    ensures Apply(s, step).size == s.size && IsPlace(Apply(s, step), p)
    ensures var w := Puts(s, step, p, off);
            At(Apply(s, step), p)[off] == if w.Some? then w.value else At(s, p)[off]
  {
    if step.Cold? { NvmPartner(s.t, step.n); }
  }

  lemma StepSize(s: Store, c: Store, step: Step)
    requires StoreInv(s) && SameSize(s, c) && Enabled(s, step)
    ensures StoreInv(Apply(s, step)) && SameSize(Apply(s, step), c)
  {
    StepKeeps(s, step);
    if step.Cold? || step.ReleaseDouble? { NvmPartner(s.t, step.n); }
    if step.FreeSeg? { PartnerValue(s.t, step.m); }
  }

  // ---- When committed blocks survive

  /** The step writes something else to the place of a committed block. */
  ghost predicate Clobbers(s: Store, c: Store, step: Step, k: nat, off: nat)
    requires SameSize(s, c) && Enabled(s, step) && k < |c.t.inUse| && off < c.size
  {
    c.valid[k][off] && Puts(s, step, Where(c, k), off) !in {None, Some(c.data[k][off])}
  }

  ghost predicate ClobbersSeg(s: Store, c: Store, step: Step, k: nat)
    requires SameSize(s, c) && Enabled(s, step) && k < |c.t.inUse|
  {
    exists off :: 0 <= off < c.size && Clobbers(s, c, step, k, off)
  }

  ghost predicate Overwrites(s: Store, c: Store, step: Step)
    requires SameSize(s, c) && Enabled(s, step)
  {
    exists k :: 0 <= k < |c.t.inUse| && ClobbersSeg(s, c, step, k)
  }

  /** Segment by segment: the committed blocks survive a step exactly when it clobbers none of them. */
  lemma SegExact(s: Store, c: Store, step: Step, k: nat)
    requires StoreInv(s) && SameSize(s, c) && Enabled(s, step) && k < |c.t.inUse| && SegSurvives(s, c, k)
    ensures SameSize(Apply(s, step), c)
    ensures SegSurvives(Apply(s, step), c, k) <==> !ClobbersSeg(s, c, step, k)
  {
    StepSize(s, c, step);
    var u := Apply(s, step);
    forall off | 0 <= off < c.size && c.valid[k][off]
      ensures CrashRead(u, c, k)[off] == c.data[k][off] <==> !Clobbers(s, c, step, k, off)
    {
      Effect(s, step, Where(c, k), off);
      assert CrashRead(s, c, k)[off] == c.data[k][off];
    }
    SegWise(u, c, k, s, step);
  }

  lemma SegWise(u: Store, c: Store, k: nat, s: Store, step: Step)
    requires SameSize(s, c) && SameSize(u, c) && Enabled(s, step) && k < |c.t.inUse|
    requires forall off :: 0 <= off < c.size && c.valid[k][off] ==>
                             (CrashRead(u, c, k)[off] == c.data[k][off] <==> !Clobbers(s, c, step, k, off))
    ensures SegSurvives(u, c, k) <==> !ClobbersSeg(s, c, step, k)
  {
    if off :| 0 <= off < c.size && Clobbers(s, c, step, k, off) {
      assert CrashRead(u, c, k)[off] != c.data[k][off];
    }
  }

  /** All committed blocks survive a step exactly when it clobbers none: moves to the NVM, moves back and writes may,
      the other steps never do. */
  lemma StepExact(s: Store, c: Store, step: Step)
    requires StoreInv(s) && SameSize(s, c) && Enabled(s, step) && Survives(s, c)
    ensures SameSize(Apply(s, step), c)
    ensures Survives(Apply(s, step), c) <==> !Overwrites(s, c, step)
    ensures Overwrites(s, c, step) ==> step.Hot? || step.Abandon? || step.Cold? || step.Write?
  {
    StepSize(s, c, step);
    forall k | 0 <= k < |c.t.inUse|
      ensures SegSurvives(Apply(s, step), c, k) <==> !ClobbersSeg(s, c, step, k)
    {
      SegExact(s, c, step, k);
    }
  }

  /** A step of the tiers, or the commit of a checkpoint. */
  datatype Event = Tier(step: Step) | Commit

  /** The steps can be taken one after the other. */
  ghost predicate CanRun(s: Store, es: seq<Event>)
    decreases |es|
  {
    && StoreInv(s)
    && (es == [] ||
        match es[0]
        case Commit => CanRun(s, es[1..])
        case Tier(step) => Enabled(s, step) && CanRun(Apply(s, step), es[1..]))
  }

  /** A crash at any point of the run finds the blocks of the last checkpoint before it. */
  ghost predicate StaysSafe(s: Store, c: Store, es: seq<Event>)
    requires CanRun(s, es)
    decreases |es|
  {
    && SameSize(s, c) && Survives(s, c)
    && (es == [] ||
        match es[0]
        case Commit => StaysSafe(s, s, es[1..])
        case Tier(step) => StaysSafe(Apply(s, step), c, es[1..]))
  }

  /** No step of the run clobbers a block of the last checkpoint before it. */
  ghost predicate NoOverwrite(s: Store, c: Store, es: seq<Event>)
    requires CanRun(s, es) && SameSize(s, c)
    decreases |es|
  {
    es == [] ||
    match es[0]
    case Commit => NoOverwrite(s, s, es[1..])
    case Tier(step) => StepSize(s, c, step); !Overwrites(s, c, step) && NoOverwrite(Apply(s, step), c, es[1..])
  }

  /** Over every run of moves, writes, allocations, releases and checkpoints: each committed block holds its data at
      every crash point if and only if no step writes anything else to its place. */
  lemma {:induction false} RunExact(s: Store, c: Store, es: seq<Event>)
    requires CanRun(s, es) && SameSize(s, c) && Survives(s, c)
    ensures StaysSafe(s, c, es) <==> NoOverwrite(s, c, es)
    decreases |es|
  {
    if es != [] {
      match es[0]
      case Commit =>
        CommitOk(s);
        RunExact(s, s, es[1..]);
      case Tier(step) =>
        StepSize(s, c, step);
        StepExact(s, c, step);
        if !Overwrites(s, c, step) { RunExact(Apply(s, step), c, es[1..]); }
    }
  }

  /** A checkpoint holds all there is. */
  lemma CommitOk(s: Store)
    requires StoreInv(s)
    ensures SameSize(s, s) && Survives(s, s)
  {
    forall m | 0 <= m < |s.t.inUse| ensures SegSurvives(s, s, m) {
      assert Faithful(s, m);
    }
  }

  // ---- Rules that suffice

  /** The file system does not write to a block that the last checkpoint holds valid. */
  predicate OutOfPlace(c: Store, step: Step) {
    step.Write? && step.m < |c.valid| && step.off < |c.valid[step.m]| ==> !c.valid[step.m][step.off]
  }

  /** The NVM segment that a step allocates. */
  function Taken(step: Step): Option<nat> {
    match step
    case Hot(_, n) => Some(n)
    case Abandon(_, n) => Some(n)
    case NewSeg(_, onto) => onto
    case _ => None
  }

  /** The test that is commented out in nvm_allocate_segment, as far as it is needed. */
  predicate Spares(c: Store, step: Step) {
    Taken(step).Some? && Taken(step).value < |c.t.mpt| ==> !c.t.mpt[Taken(step).value].mapped
  }

  /** An NVM segment that the committed table maps is now mapped to the same SSD segment or to none. */
  ghost predicate PairsKept(s: Store, c: Store)
    requires SameSize(s, c)
  {
    forall n :: 0 <= n < s.t.nvm && s.t.mpt[n].mapped && c.t.mpt[n].mapped ==> s.t.mpt[n].value == c.t.mpt[n].value
  }

  /** What the file system wrote to a committed block has not been written over. */
  ghost predicate DataKept(s: Store, c: Store)
    requires SameSize(s, c)
  {
    forall m :: 0 <= m < |c.t.inUse| ==> SameWhere(c.valid[m], s.data[m], c.data[m])
  }

  /** What the two rules keep. */
  ghost predicate Ruled(s: Store, c: Store) { StoreInv(s) && SameSize(s, c) && PairsKept(s, c) && DataKept(s, c) }

  /** Under the rules no step clobbers a committed block. */
  lemma RulesSuffice(s: Store, c: Store, step: Step)
    requires Ruled(s, c) && Enabled(s, step) && OutOfPlace(c, step) && Spares(c, step)
    ensures !Overwrites(s, c, step)
  {
    forall k, off | 0 <= k < |c.t.inUse| && 0 <= off < c.size ensures !Clobbers(s, c, step, k, off) {
      PartnerValue(c.t, k);
      match step
      case Hot(_, n) => MutualInverse(c.t, n, k);
      case Abandon(_, n) => MutualInverse(c.t, n, k);
      case Cold(n, _) => ColdHarmless(s, c, step, k, off);
      case Write(_, _, _) => WriteHarmless(s, c, step, k, off);
      case _ =>
    }
  }

  /** What comes back from the NVM is what was written. */
  lemma ColdHarmless(s: Store, c: Store, step: Step, k: nat, off: nat)
    requires Ruled(s, c) && Enabled(s, step) && step.Cold? && k < |c.t.inUse| && off < c.size
    ensures !Clobbers(s, c, step, k, off)
  {
    NvmPartner(s.t, step.n);
    var m := s.t.mpt[step.n].value;
    assert Faithful(s, m) && SameWhere(c.valid[m], s.data[m], c.data[m]);
    assert ReadThrough(s, m) == s.nvm[step.n];
  }

  /** A redirected write lands in a segment of its own. */
  lemma WriteHarmless(s: Store, c: Store, step: Step, k: nat, off: nat)
    requires Ruled(s, c) && Enabled(s, step) && step.Write? && OutOfPlace(c, step) && k < |c.t.inUse| && off < c.size
    ensures !Clobbers(s, c, step, k, off)
  {
    var m := step.m;
    PartnerValue(s.t, m);
    PartnerValue(c.t, k);
    if Where(s, m) == Where(c, k) && Ssd(s, m).mapped {
      MutualInverse(s.t, Ssd(s, m).value, m);
      MutualInverse(c.t, Ssd(s, m).value, k);
    }
  }

  lemma RulesKept(s: Store, c: Store, step: Step)
    requires Ruled(s, c) && Enabled(s, step) && OutOfPlace(c, step) && Spares(c, step)
    ensures Ruled(Apply(s, step), c)
  {
    StepSize(s, c, step);
    PairsStay(s, c, step);
    var u := Apply(s, step);
    forall k | 0 <= k < |c.t.inUse| ensures SameWhere(c.valid[k], u.data[k], c.data[k]) {
      assert SameWhere(c.valid[k], s.data[k], c.data[k]);
    }
  }

  lemma PairsStay(s: Store, c: Store, step: Step)
    requires Ruled(s, c) && Enabled(s, step) && Spares(c, step) && SameSize(Apply(s, step), c)
    ensures PairsKept(Apply(s, step), c)
  {
    match step
    case Hot(_, _) => PairsTaken(s, c, step);
    case NewSeg(_, _) => PairsTaken(s, c, step);
    case _ => PairsFewer(s, c, step);
  }

  lemma PairsTaken(s: Store, c: Store, step: Step)
    requires Ruled(s, c) && Enabled(s, step) && Spares(c, step) && SameSize(Apply(s, step), c)
    requires step.Hot? || step.NewSeg?
    ensures PairsKept(Apply(s, step), c)
  {
  }

  lemma PairsFewer(s: Store, c: Store, step: Step)
    requires Ruled(s, c) && Enabled(s, step) && SameSize(Apply(s, step), c) && !step.Hot? && !step.NewSeg?
    ensures PairsKept(Apply(s, step), c)
  {
    if step.ReleaseDouble? || step.Cold? {
      NvmPartner(s.t, step.n);
      FewerPairs(s.t, s.t.mpt[step.n].value);
    } else if step.FreeSeg? {
      FewerPairs(s.t, step.m);
    }
  }

  /** Unmapping and flagging map nothing anew. */
  lemma FewerPairs(t: Table, m: nat)
    requires Inv(t) && m < |t.inUse|
    ensures t.mpt[t.nvm + m].mapped ==> t.mpt[t.nvm + m].value < t.nvm
    ensures forall n :: 0 <= n < t.nvm && Unmap(t, m).mpt[n].mapped ==> Unmap(t, m).mpt[n] == t.mpt[n]
    ensures forall n :: 0 <= n < t.nvm && MarkDouble(t, m).mpt[n].mapped ==>
                          t.mpt[n].mapped && MarkDouble(t, m).mpt[n].value == t.mpt[n].value
  {
    PartnerValue(t, m);
  }

  /** Every step of the run follows both rules. */
  ghost predicate Follows(s: Store, c: Store, es: seq<Event>)
    requires CanRun(s, es)
    decreases |es|
  {
    es == [] ||
    match es[0]
    case Commit => Follows(s, s, es[1..])
    case Tier(step) => OutOfPlace(c, step) && Spares(c, step) && Follows(Apply(s, step), c, es[1..])
  }

  lemma {:induction false} RulesNoOverwrite(s: Store, c: Store, es: seq<Event>)
    requires CanRun(s, es) && Ruled(s, c) && Follows(s, c, es)
    ensures NoOverwrite(s, c, es)
    decreases |es|
  {
    if es != [] {
      match es[0]
      case Commit => RulesNoOverwrite(s, s, es[1..]);
      case Tier(step) =>
        RulesSuffice(s, c, step);
        RulesKept(s, c, step);
        RulesNoOverwrite(Apply(s, step), c, es[1..]);
    }
  }

  /** From a checkpoint on, a run whose allocations spare the segments that the last committed table maps, and whose
      writes spare the blocks it holds valid, finds each committed block at every crash point. */
  lemma CommittedBlocksSurvive(s: Store, es: seq<Event>)
    requires CanRun(s, es) && Follows(s, s, es)
    ensures StaysSafe(s, s, es)
  {
    CommitOk(s);
    RulesNoOverwrite(s, s, es);
    RunExact(s, s, es);
  }

  // ---- Runs that lose a block

  /** One NVM segment and two SSD segments of one block each; the first is on the NVM, the second in use or not. */
  ghost function Witness(a: Block, b: Block, second: bool): Store {
    var pair := Entry(0, true, true, false);
    var t := Table(1, [pair, pair, UNMAPPED], [true], 0, {}, [true, second]);
    Store(t, [[0], [b]], [[a]], [[true], [second]], [[a], [b]], 1)
  }

  lemma WitnessOk(a: Block, b: Block, second: bool)
    ensures StoreInv(Witness(a, b, second))
  {
    var s := Witness(a, b, second);
    assert Paired(s.t, 0) && Paired(s.t, 1) && Paired(s.t, 2);
    assert CountClear([true]) == 0 + CountClear([]);
    assert Faithful(s, 0) && Faithful(s, 1);
  }

  /** The first segment goes back to the SSD. */
  lemma Vacated(a: Block, b: Block, second: bool) returns (s: Store)
    ensures StoreInv(Witness(a, b, second)) && Enabled(Witness(a, b, second), Cold(0, false))
    ensures s == Apply(Witness(a, b, second), Cold(0, false)) && StoreInv(s) && SameSize(s, Witness(a, b, second))
    ensures s.t.segMap == [false] && s.t.inUse == [true, second] && s.t.mpt == [UNMAPPED, UNMAPPED, UNMAPPED]
    ensures s.ssd[1] == [b] && s.valid[1] == [second] && s.size == 1 && |s.nvm| == 1
  {
    var c := Witness(a, b, second);
    WitnessOk(a, b, second);
    s := Apply(c, Cold(0, false));
    StepSize(c, c, Cold(0, false));
  }

  lemma Then(s: Store, c: Store, step: Step, rest: seq<Event>)
    requires StoreInv(s) && Enabled(s, step) && CanRun(Apply(s, step), rest) && !StaysSafe(Apply(s, step), c, rest)
    ensures CanRun(s, [Tier(step)] + rest) && !StaysSafe(s, c, [Tier(step)] + rest)
  {
    assert ([Tier(step)] + rest)[1..] == rest;
  }

  /** A run that ends with a step that clobbers a committed block. */
  lemma Loses(s: Store, c: Store, step: Step, k: nat, off: nat)
    requires StoreInv(s) && SameSize(s, c) && Enabled(s, step) && k < |c.t.inUse| && off < c.size
    requires Clobbers(s, c, step, k, off)
    ensures CanRun(s, [Tier(step)]) && !StaysSafe(s, c, [Tier(step)])
  {
    StepSize(s, c, step);
    assert ClobbersSeg(s, c, step, k);
    assert Overwrites(s, c, step);
    if Survives(s, c) { StepExact(s, c, step); }
    assert [Tier(step)][1..] == [];
  }

  /** The second takes its place on the NVM by a hot move, and the crash comes before the next checkpoint. */
  lemma BlockLost(a: Block, b: Block)
    requires a != b
    ensures var c, es := Witness(a, b, true), [Tier(Cold(0, false))] + [Tier(Hot(1, 0))];
            CanRun(c, es) && !StaysSafe(c, c, es)
  {
    var c := Witness(a, b, true);
    var s := Vacated(a, b, true);
    Loses(s, c, Hot(1, 0), 0, 0);
    Then(c, c, Cold(0, false), [Tier(Hot(1, 0))]);
  }

  /** The same without any hot move: a new segment is put on the NVM segment just left, and its first write, out of
      place as far as the file system can tell, goes over the committed block. */
  lemma BlockLostByWrite(a: Block, b: Block)
    requires a != b
    ensures var c := Witness(a, b, false);
            var es := [Tier(Cold(0, false))] + ([Tier(NewSeg(1, Some(0)))] + [Tier(Write(1, 0, b))]);
            && CanRun(c, es) && !StaysSafe(c, c, es)
            && OutOfPlace(c, Write(1, 0, b))
  {
    var c := Witness(a, b, false);
    var s := Vacated(a, b, false);
    var take := NewSeg(1, Some(0));
    StepSize(s, c, take);
    var t := Apply(s, take);
    Loses(t, c, Write(1, 0, b), 0, 0);
    Then(s, c, take, [Tier(Write(1, 0, b))]);
    Then(c, c, Cold(0, false), [Tier(take)] + [Tier(Write(1, 0, b))]);
  }
}
