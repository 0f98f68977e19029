/** What a mount makes of a checkpoint: the mapping table is the one flushed with the MPT pages, the bitmap and its
    counter are those of the superblock, written a little later; and of unfinished hot moves nothing is known. */
module MountTable {
  import C = Checkpoint
  import opened Common
  import opened MptTable
  import opened MptRun

  function Words(pages: seq<C.Page>): seq<bv32> { if pages == [] then [] else pages[0] + Words(pages[1..]) }

  /** The first n words of the MPT pages, taken apart. */
  function Entries(pages: seq<C.Page>, n: nat): seq<Entry>
    requires n <= |Words(pages)|
  {
    seq(n, i requires 0 <= i < n => Decode(Words(pages)[i] as int))
  }

  /** These pages hold the entries of table t. */
  ghost predicate Reads(pages: seq<C.Page>, t: Table) {
    |t.mpt| <= |Words(pages)| && Entries(pages, |t.mpt|) == t.mpt
  }

  function BitsOf(t: Table): C.Bits { C.Bits(t.segMap, t.free) }

  /** The table after a mount; inUse is what the mounted checkpoint says of the SSD segments. */
  function Mounted(pages: seq<C.Page>, bits: C.Bits, nvm: nat, inUse: seq<bool>): Table
    requires nvm + |inUse| <= |Words(pages)| && bits.free >= 0
  {
    Table(nvm, Entries(pages, nvm + |inUse|), bits.segMap, bits.free, {}, inUse)
  }

  /** t1 was the table when the MPT pages were flushed and t2 when the superblock was; inUse has every segment that
      t1 maps. */
  ghost predicate Times(t1: Table, t2: Table, inUse: seq<bool>) {
    && Inv(t1) && Inv(t2) && t1.nvm == t2.nvm && |t1.inUse| == |t2.inUse| == |inUse|
    && forall m :: 0 <= m < |inUse| && t1.mpt[t1.nvm + m].mapped ==> inUse[m]
  }

  /** Of the NVM segments, those mapped at the first time are those mapped or held at the second. */
  ghost predicate InStep(t1: Table, t2: Table)
    requires Inv(t1) && Inv(t2) && t1.nvm == t2.nvm
  {
    forall n :: 0 <= n < t1.nvm ==> (t1.mpt[n].mapped <==> t2.mpt[n].mapped || n in t2.held)
  }

  /** The mounted table is consistent exactly when the two times are in step; if nothing was mapped or unmapped between
      them, exactly when no hot move was under way at the second. */
  lemma MountedExact(t1: Table, t2: Table, inUse: seq<bool>)
    requires Times(t1, t2, inUse)
    ensures Inv(Table(t1.nvm, t1.mpt, t2.segMap, t2.free, {}, inUse)) <==> InStep(t1, t2)
    ensures t1.mpt == t2.mpt ==> (InStep(t1, t2) <==> t2.held == {})
  {
    var u := Table(t1.nvm, t1.mpt, t2.segMap, t2.free, {}, inUse);
    forall i | 0 <= i < |u.mpt| ensures Paired(u, i) { assert Paired(t1, i); }
    if n :| n in t2.held { assert !t2.mpt[n].mapped && n < t2.nvm; }
  }

  // ---- Over the runs of the checkpoint

  /** From the superblock's copy to the commit neither part moves. */
  lemma Frozen(s: C.State, step: C.Step)
    requires C.Inv(s) && C.Enabled(s, step) && !step.Crash? && !C.Hazard(s, step)
    requires C.InFlight(s.phase) && !s.phase.MptFlushed? && C.InFlight(C.Apply(s, step).phase)
    ensures C.Apply(s, step).snapshot == s.snapshot && C.Apply(s, step).out == s.out
    ensures !C.Apply(s, step).phase.MptFlushed?
  {
  }

  lemma {:induction false} FrozenRun(s: C.State, steps: seq<C.Step>)
    requires C.Inv(s) && C.InFlight(s.phase) && !s.phase.MptFlushed?
    requires C.CanRun(s, steps) && C.Avoids(s, steps) && C.Uncommitted(s, steps)
    ensures var t := C.Run(s, steps); C.Inv(t) && t.snapshot == s.snapshot && t.out == s.out
    decreases |steps|
  {
    if steps != [] {
      Frozen(s, steps[0]);
      C.StepKeepsInv(s, steps[0]);
      FrozenRun(C.Apply(s, steps[0]), steps[1..]);
    }
  }

  /** A checkpoint that writes its superblock now, with any steps in between, comes to its commit: a mount then finds a
      consistent table if and only if the bitmap of now is in step with the table that was flushed. */
  lemma MountExact(s: C.State, steps: seq<C.Step>, a: C.Addr, t1: Table, t2: Table, inUse: seq<bool>)
    requires C.Inv(s) && s.phase == C.MptFlushed && s.nsbDirty && Times(t1, t2, inUse)
    requires Reads(s.snapshot, t1) && s.bits == BitsOf(t2)
    requires C.CanRun(C.DoFlushNsb(s), steps) && C.Avoids(C.DoFlushNsb(s), steps)
    requires C.Uncommitted(C.DoFlushNsb(s), steps)
    requires C.Run(C.DoFlushNsb(s), steps).phase == C.TailPending && a in C.Run(C.DoFlushNsb(s), steps).cache
    ensures var i := C.Recover(C.DoPersist(C.Run(C.DoFlushNsb(s), steps), a).disk);
            && i.Some? && t1.nvm + |inUse| <= |Words(i.value.mpt)| && i.value.bits.free >= 0
            && (Inv(Mounted(i.value.mpt, i.value.bits, t1.nvm, inUse)) <==> InStep(t1, t2))
  {
    C.StepFlushNsb(s);
    var v := C.DoFlushNsb(s);
    FrozenRun(v, steps);
    var t := C.Run(v, steps);
    C.StepCommit(t, a);
    Published(t, a);
    ReadBack(s.snapshot, t1, t2, inUse);
  }

  lemma ReadBack(pages: seq<C.Page>, t1: Table, t2: Table, inUse: seq<bool>)
    requires Times(t1, t2, inUse) && Reads(pages, t1)
    ensures t1.nvm + |inUse| <= |Words(pages)| && BitsOf(t2).free >= 0
    ensures Inv(Mounted(pages, BitsOf(t2), t1.nvm, inUse)) <==> InStep(t1, t2)
  {
    MountedExact(t1, t2, inUse);
  }

  lemma Published(t: C.State, a: C.Addr)
    requires C.Inv(t) && t.phase == C.TailPending && a in t.cache && C.Inv(C.DoPersist(t, a))
    ensures var i := C.Recover(C.DoPersist(t, a).disk);
            i.Some? && i.value.mpt == t.snapshot && i.value.bits == t.out
  {
    assert a == C.TailAddr(t);
    C.RecoverIsCommitted(C.DoPersist(t, a).disk, C.DoPersist(t, a).com);
  }

  // ---- What a move under way leaves behind

  /** With nothing remapped between the two times, the bits that are set without a mapping are those of the moves
      that were under way: as if the moves were still held, by nobody. */
  lemma HeldIsLeaked(t1: Table, t2: Table, inUse: seq<bool>)
    requires Times(t1, t2, inUse) && t1.mpt == t2.mpt
    ensures Inv(Table(t1.nvm, t1.mpt, t2.segMap, t2.free, t2.held, inUse))
  {
    var u := Table(t1.nvm, t1.mpt, t2.segMap, t2.free, t2.held, inUse);
    forall i | 0 <= i < |u.mpt| ensures Paired(u, i) { assert Paired(t1, i); }
  }

  /** The bit of segment n stays set all along. */
  ghost predicate TakenAlong(t: Table, steps: seq<Step>, n: nat)
    requires CanRun(t, steps)
    decreases |steps|
  {
    && n < |t.segMap| && t.segMap[n]
    && (steps == [] || (Inv(Apply(t, steps[0])) ==> TakenAlong(Apply(t, steps[0]), steps[1..], n)))
  }

  /** A segment held by nobody's move is never free again: no allocation gives it out, and nothing clears its bit. */
  lemma {:induction false} LeakedForever(t: Table, steps: seq<Step>, n: nat)
    requires Inv(t) && CanRun(t, steps) && n in t.held
    requires forall i :: 0 <= i < |steps| && steps[i].HotEnd? ==> steps[i].n != n
    ensures TakenAlong(t, steps, n)
    decreases |steps|
  {
    if steps != [] && Inv(Apply(t, steps[0])) {
      StillHeld(t, steps[0], n);
      LeakedForever(Apply(t, steps[0]), steps[1..], n);
    }
  }

  lemma StillHeld(t: Table, step: Step, n: nat)
    requires Can(t, step) && n in t.held && (step.HotEnd? ==> step.n != n)
    ensures n in Apply(t, step).held
  {
    if step.Release? || step.Unset? { PartnerValue(t, step.ssd); }
    if step.Double? { PartnerValue(t, step.ssd); }
  }
}
