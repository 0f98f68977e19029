/**
 The shadow-copy checkpoint of the NVM mapping table (MPT): two copies of
 every MPT page, two NVM superblocks, two checkpoint packs and one commit
 point.  The protocol is a state machine whose steps interleave freely with
 mapping changes and with the device making cached blocks durable in any
 order; a crash may happen between any two steps.
 */
module Checkpoint {
  import opened Common

  type Page = seq<bv32>

  /** What a meta block of the NVM device can hold. `Torn` stands for a write
      the crash interrupted and for anything that fails the checksum. */
  datatype Block =
    | MptPage(page: Page)
    | Nsb(ver: seq<bool>, bits: Bits)
    | Cp(version: nat, nsbVer: bool, total: nat)
    | Other
    | Torn

  /** Meta block addresses: an MPT page copy, a superblock copy, a block of a
      checkpoint pack.  `BlockNo` gives the device block number. */
  datatype Addr =
    | Mpt(p: nat, second: bool)
    | Super(which: bool)
    | Pack(pack: bool, off: int)

  datatype Layout = Layout(blocksPerSeg: nat, cpBlkaddr: nat, mptBlkaddr: nat)

  function BlockNo(l: Layout, a: Addr): int {
    match a
    case Super(which) => if which then 1 else 0
    case Pack(pack, off) => l.cpBlkaddr + (if pack then l.blocksPerSeg else 0) + off
    case Mpt(p, second) => l.mptBlkaddr + p + (if second then l.blocksPerSeg else 0)
  }

  predicate OnDevice(l: Layout, a: Addr) {
    match a
    case Super(_) => true
    case Pack(_, off) => 0 <= off < l.blocksPerSeg
    case Mpt(p, _) => p < l.blocksPerSeg
  }

  /** Distinct symbolic addresses are distinct device blocks. */
  lemma BlockNoInjective(l: Layout, a: Addr, b: Addr)
    requires 2 <= l.cpBlkaddr && l.cpBlkaddr + 2 * l.blocksPerSeg <= l.mptBlkaddr
    requires OnDevice(l, a) && OnDevice(l, b)
    ensures BlockNo(l, a) == BlockNo(l, b) <==> a == b
  {
  }

  function Get(m: map<Addr, Block>, a: Addr): Block {
    if a in m then m[a] else Torn
  }

  // ---------------------------------------------------------------- recovery

  /** `validate_checkpoint`: head and tail of a pack pass the checksum and
      carry the same version; the head says where the tail is. */
  function ValidatePack(disk: map<Addr, Block>, pack: bool): Option<nat> {
    var head := Get(disk, Pack(pack, 0));
    if !head.Cp? then None
    else
      var tail := Get(disk, Pack(pack, head.total - 1));
      if tail.Cp? && tail.version == head.version then Some(head.version) else None
  }

  const TWO63: nat := 0x8000_0000_0000_0000
  const TWO64: nat := 0x1_0000_0000_0000_0000

  /** `ver_after`: the 64-bit difference, read as signed, is positive. */
  predicate VerAfter(a: nat, b: nat) {
    var d := (a - b) % TWO64;
    0 < d < TWO63
  }

  /** Which pack `f2fs_get_valid_checkpoint` mounts; false is pack 1. */
  function ChoosePack(disk: map<Addr, Block>): Option<bool> {
    match (ValidatePack(disk, false), ValidatePack(disk, true))
    case (Some(v1), Some(v2)) => Some(VerAfter(v2, v1))
    case (Some(_), None) => Some(false)
    case (None, Some(_)) => Some(true)
    case (None, None) => None
  }

  datatype Image = Image(pack: bool, version: nat, total: nat, nsb: bool, ver: seq<bool>, bits: Bits, mpt: seq<Page>)

  function PageOf(b: Block): Page { if b.MptPage? then b.page else [] }

  /** The table a version bitmap selects from the page copies on the device. */
  function ReadMpt(disk: map<Addr, Block>, ver: seq<bool>): (r: seq<Page>)
    ensures |r| == |ver|
  {
    seq(|ver|, p requires 0 <= p < |ver| => PageOf(Get(disk, Mpt(p, ver[p]))))
  }

  /** Mount after a crash: pack, then superblock copy, then page copies. */
  function Recover(disk: map<Addr, Block>): Option<Image> {
    match ChoosePack(disk)
    case None => None
    case Some(pack) =>
      var cp := Get(disk, Pack(pack, 0));
      if !cp.Cp? then None
      else
        var nsb := Get(disk, Super(cp.nsbVer));
        if !nsb.Nsb? then None
        else Some(Image(pack, cp.version, cp.total, cp.nsbVer, nsb.ver, nsb.bits, ReadMpt(disk, nsb.ver)))
  }

  // ------------------------------------------------------------- state machine

  datatype Phase =
    | Idle            // no checkpoint running
    | Started         // version number raised
    | MptFlushed      // dirty MPT pages copied to the other copy's cache pages
    | NsbFlushed      // superblock copied if NVM_NSB_DIRTY
    | Synced          // every dirty meta page is submitted
    | Switched        // CP_NSB_VER_FLAG switched if NVM_NSB_DIRTY
    | PackPending     // all of the pack but its tail is in the cache
    | PackDurable     // ... and durable, device cache flushed
    | TailPending     // tail submitted
    | Committed       // tail durable, cur_cp_pack not yet advanced

  /** The last committed checkpoint, kept as history. */
  datatype Com = Com(pack: bool, version: nat, total: nat, nsb: bool, ver: seq<bool>, mpt: seq<Page>, bits: Bits)

  /** The allocation bitmap and the free counter, as a superblock copy holds them. */
  datatype Bits = Bits(segMap: seq<bool>, free: int)

  datatype State = State(
    mpt: seq<Page>, dirty: seq<bool>, ver: seq<bool>,
    bits: Bits, nsbDirty: bool,
    ckVersion: nat, ckNsb: bool, ckTotal: nat, curPack: bool,
    phase: Phase,
    cache: map<Addr, Block>,   // dirty meta pages and writes not yet durable
    disk: map<Addr, Block>,
    snapshot: seq<Page>,       // the table the running checkpoint flushed
    out: Bits,                 // the bitmap of the superblock copy it will lead to
    com: Com)

  datatype Step =
    | Remap(mpt: seq<Page>, touched: set<nat>, bits: Bits)
    | Allocate(bits: Bits)
    | Release(bits: Bits)
    | StartCp | FlushMpt | FlushNsb | SyncDone
    | SwitchVersion(total: nat)
    | WritePack | BarrierDone | SubmitTail | FinishCp
    | Persist(a: Addr)
    | Tear(a: Addr)
    | Crash

  /** The cache after the first n MPT pages were offered to the flush. */
  function FlushPrefix(cache: map<Addr, Block>, mpt: seq<Page>, ver: seq<bool>, sel: seq<bool>, n: nat)
    : map<Addr, Block>
    requires n <= |mpt| == |ver| == |sel|
  {
    if n == 0 then cache
    else
      var c := FlushPrefix(cache, mpt, ver, sel, n - 1);
      if sel[n - 1] then c[Mpt(n - 1, !ver[n - 1]) := MptPage(mpt[n - 1])] else c
  }

  lemma {:induction false} FlushPrefixGet(cache: map<Addr, Block>, mpt: seq<Page>, ver: seq<bool>, sel: seq<bool>,
                                          n: nat, a: Addr)
    requires n <= |mpt| == |ver| == |sel|
    ensures var c := FlushPrefix(cache, mpt, ver, sel, n);
            if a.Mpt? && a.p < n && sel[a.p] && a.second == !ver[a.p]
            then a in c && c[a] == MptPage(mpt[a.p])
            else (a in c <==> a in cache) && (a in c ==> c[a] == cache[a])
  {
    if n > 0 {
      FlushPrefixGet(cache, mpt, ver, sel, n - 1, a);
    }
  }

  function FlipSelected(ver: seq<bool>, sel: seq<bool>): (r: seq<bool>)
    requires |ver| == |sel|
    ensures |r| == |ver|
    ensures forall p :: 0 <= p < |r| ==> r[p] == (ver[p] != sel[p])
  {
    seq(|ver|, p requires 0 <= p < |ver| => ver[p] != sel[p])
  }

  function AllFalse(n: nat): (r: seq<bool>)
    ensures |r| == n && forall p :: 0 <= p < n ==> !r[p]
  {
    seq(n, _ => false)
  }

  predicate TableShape(s: State) {
    && |s.mpt| == |s.dirty| == |s.ver|
  }

  /** When the code can take a step. */
  predicate Enabled(s: State, step: Step)
  {
    && TableShape(s)
    && match step
       case Remap(mpt, touched, _) =>
         && |mpt| == |s.mpt|
         && forall p :: 0 <= p < |mpt| && p !in touched ==> mpt[p] == s.mpt[p]
       case Allocate(_) => true
       case Release(_) => true
       case StartCp => s.phase == Idle
       case FlushMpt => s.phase == Started
       case FlushNsb => s.phase == MptFlushed
       case SyncDone => s.phase == NsbFlushed
       case SwitchVersion(total) => s.phase == Synced && 2 <= total
       case WritePack => s.phase == Switched
       case BarrierDone => s.phase == PackPending && s.cache == map[]
       case SubmitTail => s.phase == PackDurable && 1 <= s.ckTotal
       case FinishCp => s.phase == Committed
       case Persist(a) => a in s.cache
       case Tear(a) => a in s.cache
       case Crash => true
  }

  /** The window of nvm.c and checkpoint.c in which a first
      setting of NVM_NSB_DIRTY switches superblocks without writing one. */
  predicate Hazard(s: State, step: Step) {
    step.Allocate? && (s.phase == NsbFlushed || s.phase == Synced) && !s.nsbDirty
  }

  /** The blocks between head and tail: orphan blocks and summaries. */
  function WriteBody(cache: map<Addr, Block>, pack: bool, total: nat): map<Addr, Block> {
    if total <= 2 then cache
    else WriteBody(cache, pack, total - 1)[Pack(pack, total - 2) := Other]
  }

  function Remount(s: State, i: Image): State
  {
    State(i.mpt, AllFalse(|i.mpt|), i.ver, i.bits, false,
          i.version, i.nsb, i.total, i.pack, Idle, map[], s.disk, i.mpt, i.bits, s.com)
  }

  /** create_mapping, unset_mapping and set_double: new entries, their pages marked dirty. */
  function DoRemap(s: State, mpt: seq<Page>, touched: set<nat>, bits: Bits): State {
    s.(mpt := mpt, bits := bits,
       dirty := seq(|s.dirty|, p requires 0 <= p < |s.dirty| => s.dirty[p] || p in touched))
  }

  /** nvm_flush_mpt_pages without flush_all. */
  function DoFlushMpt(s: State): State
    requires TableShape(s)
  {
    s.(phase := MptFlushed, snapshot := s.mpt,
       cache := FlushPrefix(s.cache, s.mpt, s.ver, s.dirty, |s.mpt|),
       ver := FlipSelected(s.ver, s.dirty),
       dirty := AllFalse(|s.dirty|),
       nsbDirty := s.nsbDirty || true in s.dirty)
  }

  function DoFlushNsb(s: State): State {
    if s.nsbDirty
    then s.(phase := NsbFlushed, out := s.bits, cache := s.cache[Super(!s.ckNsb) := Nsb(s.ver, s.bits)])
    else s.(phase := NsbFlushed, out := s.com.bits)
  }

  function DoSwitch(s: State, total: nat): State {
    s.(phase := Switched, ckTotal := total,
       ckNsb := if s.nsbDirty then !s.ckNsb else s.ckNsb, nsbDirty := false)
  }

  function DoWritePack(s: State): State {
    s.(phase := PackPending,
       cache := WriteBody(s.cache, !s.curPack, s.ckTotal)
                  [Pack(!s.curPack, 0) := Cp(s.ckVersion, s.ckNsb, s.ckTotal)])
  }

  function TailAddr(s: State): Addr { Pack(!s.curPack, s.ckTotal - 1) }

  function DoSubmitTail(s: State): State {
    s.(phase := TailPending, cache := s.cache[TailAddr(s) := Cp(s.ckVersion, s.ckNsb, s.ckTotal)])
  }

  /** A cached block becomes durable; the tail's doing so is the commit point. */
  function DoPersist(s: State, a: Addr): State
    requires a in s.cache
  {
    var t := s.(cache := s.cache - {a}, disk := s.disk[a := s.cache[a]]);
    if s.phase == TailPending && a == TailAddr(s) then DoCommit(t) else t
  }

  function DoCommit(t: State): State {
    t.(phase := Committed, com := Com(!t.curPack, t.ckVersion, t.ckTotal, t.ckNsb, t.ver, t.snapshot, t.out))
  }

  function DoTear(s: State, a: Addr): State {
    s.(disk := s.disk[a := Torn])
  }

  function DoCrash(s: State): State {
    match Recover(s.disk)
    case Some(i) => Remount(s, i)
    case None => s
  }

  function Apply(s: State, step: Step): State
    requires Enabled(s, step)
  {
    match step
    case Remap(mpt, touched, bits) => DoRemap(s, mpt, touched, bits)
    case Allocate(bits) => s.(bits := bits, nsbDirty := true)
    case Release(bits) => s.(bits := bits)
    case StartCp => s.(phase := Started, ckVersion := s.ckVersion + 1)
    case FlushMpt => DoFlushMpt(s)
    case FlushNsb => DoFlushNsb(s)
    case SyncDone => s.(phase := Synced)
    case SwitchVersion(total) => DoSwitch(s, total)
    case WritePack => DoWritePack(s)
    case BarrierDone => s.(phase := PackDurable)
    case SubmitTail => DoSubmitTail(s)
    case FinishCp => s.(phase := Idle, curPack := !s.curPack)
    case Persist(a) => DoPersist(s, a)
    case Tear(a) => DoTear(s, a)
    case Crash => DoCrash(s)
  }

  // ------------------------------------------------------------------ invariant

  /** The device blocks the committed checkpoint is read back from. */
  ghost predicate Refers(c: Com, a: Addr) {
    match a
    case Super(which) => which == c.nsb
    case Pack(pack, _) => pack == c.pack
    case Mpt(p, second) => p < |c.ver| && second == c.ver[p]
  }

  /** Everything recovery will read for the committed checkpoint is on the device. */
  ghost predicate ComOnDisk(disk: map<Addr, Block>, c: Com) {
    && 2 <= c.total && |c.mpt| == |c.ver|
    && Get(disk, Pack(c.pack, 0)) == Cp(c.version, c.nsb, c.total)
    && Get(disk, Pack(c.pack, c.total - 1)) == Cp(c.version, c.nsb, c.total)
    && Get(disk, Super(c.nsb)) == Nsb(c.ver, c.bits)
    && forall p :: 0 <= p < |c.ver| ==> Get(disk, Mpt(p, c.ver[p])) == MptPage(c.mpt[p])
  }

  /** Nothing on its way to the device is a block the committed checkpoint needs. */
  ghost predicate CacheAvoids(cache: map<Addr, Block>, c: Com) {
    forall a: Addr :: a in cache ==> !Refers(c, a)
  }

  ghost predicate OldVersion(com: nat, v: nat) { v < com < v + TWO63 }

  /** The other pack's head is one older checkpoint or an unfinished attempt, and
      no block past a head can complete a pack newer than the committed one. */
  ghost predicate CpBlockOld(a: Addr, b: Block, c: Com) {
    a.Pack? && b.Cp? ==>
      if a.off == 0
      then 2 <= b.total && (a.pack != c.pack ==> b.version == c.version + 1 || OldVersion(c.version, b.version))
      else b.version < c.version + (if a.pack == c.pack then 1 else 0)
  }

  ghost predicate PacksOld(disk: map<Addr, Block>, c: Com) {
    forall a: Addr :: CpBlockOld(a, Get(disk, a), c)
  }

  ghost predicate CachePacksOld(cache: map<Addr, Block>, c: Com, tailPending: bool) {
    !tailPending ==> forall a: Addr :: a in cache ==> CpBlockOld(a, cache[a], c)
  }

  function Latest(cache: map<Addr, Block>, disk: map<Addr, Block>, a: Addr): Block {
    if a in cache then cache[a] else Get(disk, a)
  }

  predicate InFlight(ph: Phase) {
    !ph.Idle? && !ph.Started? && !ph.Committed?
  }

  predicate CacheEmptyPhase(ph: Phase) {
    ph.Idle? || ph.Started? || ph.PackDurable? || ph.Committed?
  }

  /** The new table, page by page: kept from the committed one, or written to the other copy. */
  ghost predicate NewTable(snapshot: seq<Page>, ver: seq<bool>, c: Com, cache: map<Addr, Block>,
                           disk: map<Addr, Block>) {
    && |snapshot| == |ver| == |c.ver| == |c.mpt|
    && (forall p :: 0 <= p < |ver| && ver[p] == c.ver[p] ==> snapshot[p] == c.mpt[p])
    && (forall p :: 0 <= p < |ver| && ver[p] != c.ver[p] ==>
          Latest(cache, disk, Mpt(p, ver[p])) == MptPage(snapshot[p]))
  }

  /** A clean page of the in-memory table is the page last flushed. */
  ghost predicate CleanPages(mpt: seq<Page>, dirty: seq<bool>, base: seq<Page>) {
    && |mpt| == |dirty| == |base|
    && forall p :: 0 <= p < |mpt| && !dirty[p] ==> mpt[p] == base[p]
  }

  ghost predicate Counters(s: State) {
    && |s.com.ver| == |s.mpt| == |s.ver|
    && (s.curPack == if s.phase.Committed? then !s.com.pack else s.com.pack)
    && (s.ckVersion == if s.phase.Idle? || s.phase.Committed? then s.com.version else s.com.version + 1)
    && (CacheEmptyPhase(s.phase) ==> s.cache == map[])
  }

  ghost predicate NsbState(s: State) {
    match s.phase
    case Idle => s.ver == s.com.ver && s.ckNsb == s.com.nsb
    case Started => s.ver == s.com.ver && s.ckNsb == s.com.nsb
    case Committed => s.ver == s.com.ver && s.ckNsb == s.com.nsb
    case MptFlushed => s.ckNsb == s.com.nsb && (s.nsbDirty || (s.ver == s.com.ver && s.cache == map[]))
    case NsbFlushed => BeforeSwitch(s)
    case Synced => BeforeSwitch(s)
    case _ => NsbWritten(s.cache, s.disk, s.com, s.ver, s.out, s.ckNsb != s.com.nsb)
  }

  /** The superblock copy is written if it is to be switched to; if not, nothing was written at all. */
  ghost predicate BeforeSwitch(s: State) {
    && s.ckNsb == s.com.nsb && NsbWritten(s.cache, s.disk, s.com, s.ver, s.out, s.nsbDirty)
    && (!s.nsbDirty ==> s.cache == map[])
  }

  ghost predicate NsbWritten(cache: map<Addr, Block>, disk: map<Addr, Block>, c: Com, ver: seq<bool>, out: Bits,
                             rewritten: bool) {
    if rewritten then Latest(cache, disk, Super(!c.nsb)) == Nsb(ver, out) else ver == c.ver && out == c.bits
  }

  /** While the pack is being written its head is the only new checkpoint block. */
  ghost predicate PackState(s: State) {
    match s.phase
    case Switched => 2 <= s.ckTotal
    case PackPending => 2 <= s.ckTotal && HeadWritten(s)
    case PackDurable => 2 <= s.ckTotal && HeadWritten(s)
    case TailPending =>
      2 <= s.ckTotal && HeadWritten(s) && s.cache == map[TailAddr(s) := Cp(s.ckVersion, s.ckNsb, s.ckTotal)]
    case _ => true
  }

  ghost predicate HeadWritten(s: State) {
    Latest(s.cache, s.disk, Pack(!s.curPack, 0)) == Cp(s.ckVersion, s.ckNsb, s.ckTotal)
  }

  ghost predicate DeviceInv(s: State) {
    && ComOnDisk(s.disk, s.com) && CacheAvoids(s.cache, s.com)
    && PacksOld(s.disk, s.com) && CachePacksOld(s.cache, s.com, s.phase.TailPending?)
  }

  ghost predicate MemoryInv(s: State) {
    && Counters(s) && NsbState(s) && PackState(s)
    && CleanPages(s.mpt, s.dirty, if InFlight(s.phase) then s.snapshot else s.com.mpt)
    && (InFlight(s.phase) ==> NewTable(s.snapshot, s.ver, s.com, s.cache, s.disk))
  }

  ghost predicate Inv(s: State) { DeviceInv(s) && MemoryInv(s) }

  // ------------------------------------------------------------- recovery is exact

  lemma OldIsNotAfter(com: nat, v: nat)
    requires OldVersion(com, v)
    ensures !VerAfter(v, com) && VerAfter(com, v)
  {
    assert (v - com) % TWO64 == v - com + TWO64;
  }

  /** No older or unfinished pack wins over the committed one. */
  lemma ChoosesCommitted(disk: map<Addr, Block>, c: Com)
    requires 2 <= c.total && PacksOld(disk, c)
    requires Get(disk, Pack(c.pack, 0)) == Cp(c.version, c.nsb, c.total)
    requires Get(disk, Pack(c.pack, c.total - 1)) == Cp(c.version, c.nsb, c.total)
    ensures ChoosePack(disk) == Some(c.pack)
  {
    assert ValidatePack(disk, c.pack) == Some(c.version);
    var other := ValidatePack(disk, !c.pack);
    if other.Some? {
      var head := Pack(!c.pack, 0);
      var tail := Pack(!c.pack, Get(disk, head).total - 1);
      assert CpBlockOld(head, Get(disk, head), c) && CpBlockOld(tail, Get(disk, tail), c);
      OldIsNotAfter(c.version, other.value);
    }
  }

  /** The heart of the protocol: whatever else is on the device, it mounts as
      exactly the last committed checkpoint. */
  lemma RecoverIsCommitted(disk: map<Addr, Block>, c: Com)
    requires ComOnDisk(disk, c) && PacksOld(disk, c)
    ensures Recover(disk).Some?
    ensures var i := Recover(disk).value;
            i.pack == c.pack && i.version == c.version && i.total == c.total &&
            i.nsb == c.nsb && i.ver == c.ver && i.mpt == c.mpt && i.bits == c.bits
  {
    ChoosesCommitted(disk, c);
    assert ReadMpt(disk, c.ver) == c.mpt;
  }

  // ------------------------------------------------------------- every step keeps the invariant

  lemma WriteBodyGet(cache: map<Addr, Block>, pack: bool, total: nat, a: Addr)
    ensures var c := WriteBody(cache, pack, total);
            if a.Pack? && a.pack == pack && 1 <= a.off < total - 1 then a in c && c[a] == Other
            else (a in c <==> a in cache) && (a in c ==> c[a] == cache[a])
  {
  }

  /** Changing a block the committed checkpoint does not use leaves it readable. */
  lemma DiskWrite(disk: map<Addr, Block>, c: Com, a: Addr, b: Block)
    requires ComOnDisk(disk, c) && PacksOld(disk, c) && !Refers(c, a) && CpBlockOld(a, b, c)
    ensures ComOnDisk(disk[a := b], c) && PacksOld(disk[a := b], c)
  {
    var d := disk[a := b];
    assert forall x: Addr :: x != a ==> Get(d, x) == Get(disk, x);
    assert Get(d, a) == b;
  }

  lemma StepRemap(s: State, mpt: seq<Page>, touched: set<nat>, bits: Bits)
    requires Inv(s) && |mpt| == |s.mpt|
    requires forall p :: 0 <= p < |mpt| && p !in touched ==> mpt[p] == s.mpt[p]
    ensures Inv(DoRemap(s, mpt, touched, bits))
  {
    var t := DoRemap(s, mpt, touched, bits);
    assert HeadWritten(t) == HeadWritten(s);
  }

  lemma StepBitmap(s: State, bits: Bits, nsbDirty: bool)
    requires Inv(s)
    requires s.nsbDirty ==> nsbDirty
    requires nsbDirty && (s.phase.NsbFlushed? || s.phase.Synced?) ==> s.nsbDirty
    ensures Inv(s.(bits := bits, nsbDirty := nsbDirty))
  {
    var t := s.(bits := bits, nsbDirty := nsbDirty);
    assert HeadWritten(t) == HeadWritten(s);
  }

  lemma FlushMptCache(s: State, a: Addr)
    requires TableShape(s) && s.cache == map[]
    ensures var c := DoFlushMpt(s).cache;
            if a.Mpt? && a.p < |s.mpt| && s.dirty[a.p] && a.second == !s.ver[a.p]
            then a in c && c[a] == MptPage(s.mpt[a.p]) else a !in c
  {
    FlushPrefixGet(s.cache, s.mpt, s.ver, s.dirty, |s.mpt|, a);
  }

  lemma StepFlushMpt(s: State)
    requires Inv(s) && s.phase == Started
    ensures Inv(DoFlushMpt(s))
  {
    var t := DoFlushMpt(s);
    assert CacheAvoids(t.cache, t.com) && CachePacksOld(t.cache, t.com, false) by {
      forall a: Addr | a in t.cache ensures !Refers(t.com, a) && CpBlockOld(a, t.cache[a], t.com) {
        FlushMptCache(s, a);
      }
    }
    assert NewTable(t.snapshot, t.ver, t.com, t.cache, t.disk) by {
      forall p | 0 <= p < |t.ver| && t.ver[p] != t.com.ver[p]
        ensures Latest(t.cache, t.disk, Mpt(p, t.ver[p])) == MptPage(t.snapshot[p])
      {
        FlushMptCache(s, Mpt(p, t.ver[p]));
      }
    }
    if !t.nsbDirty {
      assert t.ver == s.ver;
      forall a: Addr ensures a !in t.cache { FlushMptCache(s, a); }
    }
  }

  lemma StepFlushNsb(s: State)
    requires Inv(s) && s.phase == MptFlushed
    ensures Inv(DoFlushNsb(s))
  {
    var t := DoFlushNsb(s);
    assert forall a: Addr :: a.Mpt? ==> Latest(t.cache, t.disk, a) == Latest(s.cache, s.disk, a);
  }

  lemma StepSwitch(s: State, total: nat)
    requires Inv(s) && s.phase == Synced && 2 <= total
    ensures Inv(DoSwitch(s, total))
  {
  }

  lemma StepWritePack(s: State)
    requires Inv(s) && s.phase == Switched
    ensures Inv(DoWritePack(s))
  {
    var t := DoWritePack(s);
    forall a: Addr
      ensures a in t.cache ==>
                || (a in s.cache && t.cache[a] == s.cache[a])
                || (a.Pack? && a.pack != s.com.pack && (a.off == 0 || t.cache[a] == Other))
      ensures !a.Pack? ==> (a in t.cache <==> a in s.cache) && (a in t.cache ==> t.cache[a] == s.cache[a])
    {
      WriteBodyGet(s.cache, !s.curPack, s.ckTotal, a);
    }
    assert forall a: Addr :: !a.Pack? ==> Latest(t.cache, t.disk, a) == Latest(s.cache, s.disk, a);
  }

  lemma StepSubmitTail(s: State)
    requires Inv(s) && s.phase == PackDurable
    ensures Inv(DoSubmitTail(s))
  {
    var t := DoSubmitTail(s);
    assert forall a: Addr :: a != TailAddr(s) ==> Latest(t.cache, t.disk, a) == Latest(s.cache, s.disk, a);
  }

  /** Making a cached block durable, or losing it half-way, changes nothing the newest view sees. */
  lemma SettleKeepsMemory(s: State, t: State)
    requires MemoryInv(s)
    requires t == s.(cache := t.cache, disk := t.disk)
    requires forall a: Addr :: Latest(t.cache, t.disk, a) == Latest(s.cache, s.disk, a)
    requires s.cache == map[] ==> t.cache == map[]
    requires s.phase == TailPending ==> t.cache == s.cache
    ensures MemoryInv(t)
  {
    assert HeadWritten(t) == HeadWritten(s);
  }

  lemma StepPersist(s: State, a: Addr)
    requires Inv(s) && a in s.cache && s.phase != TailPending
    ensures Inv(DoPersist(s, a))
  {
    DiskWrite(s.disk, s.com, a, s.cache[a]);
    SettleKeepsMemory(s, DoPersist(s, a));
  }

  lemma StepTear(s: State, a: Addr)
    requires Inv(s) && a in s.cache
    ensures Inv(DoTear(s, a))
  {
    DiskWrite(s.disk, s.com, a, Torn);
    SettleKeepsMemory(s, DoTear(s, a));
  }

  /** A complete new pack turns the previous one into the old pack. */
  lemma CommitPacks(disk: map<Addr, Block>, c: Com, d: Com)
    requires PacksOld(disk, c) && 2 <= d.total
    requires d.pack == !c.pack && d.version == c.version + 1
    requires Get(disk, Pack(c.pack, 0)) == Cp(c.version, c.nsb, c.total)
    ensures PacksOld(disk[Pack(d.pack, d.total - 1) := Cp(d.version, d.nsb, d.total)], d)
  {
    var a := Pack(d.pack, d.total - 1);
    var disk' := disk[a := Cp(d.version, d.nsb, d.total)];
    forall b: Addr ensures CpBlockOld(b, Get(disk', b), d) {
      assert CpBlockOld(b, Get(disk, b), c);
    }
  }

  lemma CommitOnDisk(disk: map<Addr, Block>, cache: map<Addr, Block>, c: Com, d: Com)
    requires ComOnDisk(disk, c) && 2 <= d.total && d.pack == !c.pack
    requires cache == map[Pack(d.pack, d.total - 1) := Cp(d.version, d.nsb, d.total)]
    requires Latest(cache, disk, Pack(d.pack, 0)) == Cp(d.version, d.nsb, d.total)
    requires NsbWritten(cache, disk, c, d.ver, d.bits, d.nsb != c.nsb)
    requires NewTable(d.mpt, d.ver, c, cache, disk)
    ensures ComOnDisk(disk[Pack(d.pack, d.total - 1) := Cp(d.version, d.nsb, d.total)], d)
  {
    var a := Pack(d.pack, d.total - 1);
    var disk' := disk[a := Cp(d.version, d.nsb, d.total)];
    assert forall b: Addr :: b != a ==> Get(disk', b) == Latest(cache, disk, b) == Get(disk, b);
  }

  /** The commit point: the tail becomes durable and the new table is the committed one. */
  lemma StepCommit(s: State, a: Addr)
    requires Inv(s) && s.phase == TailPending && a in s.cache
    ensures Inv(DoPersist(s, a))
    ensures DoPersist(s, a).com.mpt == s.snapshot
  {
    var t := DoPersist(s, a);
    assert a == TailAddr(s) && t.cache == map[] && HeadWritten(s);
    CommitPacks(s.disk, s.com, t.com);
    CommitOnDisk(s.disk, s.cache, s.com, t.com);
  }

  lemma StepCrash(s: State)
    requires Inv(s)
    ensures Inv(DoCrash(s))
  {
    RecoverIsCommitted(s.disk, s.com);
  }

  lemma StepSynced(s: State)
    requires Inv(s) && s.phase == NsbFlushed
    ensures Inv(s.(phase := Synced))
  {
  }

  lemma StepBarrier(s: State)
    requires Inv(s) && s.phase == PackPending && s.cache == map[]
    ensures Inv(s.(phase := PackDurable))
  {
    assert HeadWritten(s.(phase := PackDurable)) == HeadWritten(s);
  }

  /** Every step outside the hazard window keeps the invariant. */
  lemma StepKeepsInv(s: State, step: Step)
    requires Inv(s) && Enabled(s, step) && !Hazard(s, step)
    ensures Inv(Apply(s, step))
  {
    match step
    case Remap(mpt, touched, bits) => StepRemap(s, mpt, touched, bits);
    case Allocate(bits) => StepBitmap(s, bits, true);
    case Release(bits) => StepBitmap(s, bits, s.nsbDirty);
    case FlushMpt => StepFlushMpt(s);
    case FlushNsb => StepFlushNsb(s);
    case SwitchVersion(total) => StepSwitch(s, total);
    case WritePack => StepWritePack(s);
    case SubmitTail => StepSubmitTail(s);
    case Persist(a) => if s.phase == TailPending { StepCommit(s, a); } else { StepPersist(s, a); }
    case Tear(a) => StepTear(s, a);
    case Crash => StepCrash(s);
    case SyncDone => StepSynced(s);
    case BarrierDone => StepBarrier(s);
    case StartCp =>
    case FinishCp =>
  }

  // ------------------------------------------------------------- whole runs

  /** A run is a list of steps, each of which the code, the device or a crash can take. */
  ghost predicate CanRun(s: State, steps: seq<Step>)
    decreases |steps|
  {
    steps == [] || (Enabled(s, steps[0]) && CanRun(Apply(s, steps[0]), steps[1..]))
  }

  ghost function Run(s: State, steps: seq<Step>): State
    requires CanRun(s, steps)
    decreases |steps|
  {
    if steps == [] then s else Run(Apply(s, steps[0]), steps[1..])
  }

  /** No step of the run falls into the hazard window. */
  ghost predicate Avoids(s: State, steps: seq<Step>)
    requires CanRun(s, steps)
    decreases |steps|
  {
    steps == [] || (!Hazard(s, steps[0]) && Avoids(Apply(s, steps[0]), steps[1..]))
  }

  /** At the end of every run, hence at every crash point, the device mounts
      as the last committed checkpoint and no pending write can damage it. */
  lemma {:induction false} CrashSafety(s: State, steps: seq<Step>)
    requires Inv(s) && CanRun(s, steps) && Avoids(s, steps)
    ensures var t := Run(s, steps);
            && Inv(t)
            && Recover(t.disk).Some?
            && Recover(t.disk).value.mpt == t.com.mpt
            && Recover(t.disk).value.bits == t.com.bits
            && Recover(t.disk).value.version == t.com.version
            && forall a: Addr :: a in t.cache ==> !Refers(t.com, a)
    decreases |steps|
  {
    if steps == [] {
      RecoverIsCommitted(s.disk, s.com);
    } else {
      StepKeepsInv(s, steps[0]);
      CrashSafety(Apply(s, steps[0]), steps[1..]);
    }
  }

  /** Every superblock the run writes is written while its bitmap stands in relation r to the table flushed just
      before. */
  ghost predicate WrittenTogether(s: State, steps: seq<Step>, r: (seq<Page>, Bits) -> bool)
    requires CanRun(s, steps)
    decreases |steps|
  {
    || steps == []
    || (&& (steps[0].FlushNsb? && s.nsbDirty ==> r(s.snapshot, s.bits))
        && WrittenTogether(Apply(s, steps[0]), steps[1..], r))
  }

  /** The table and the bitmap that will be recovered, now and after the running checkpoint, stand in relation r. */
  ghost predicate Together(s: State, r: (seq<Page>, Bits) -> bool) {
    && r(s.com.mpt, s.com.bits)
    && (InFlight(s.phase) && !s.phase.MptFlushed? ==> r(s.snapshot, s.out))
  }

  lemma StepTogether(s: State, step: Step, r: (seq<Page>, Bits) -> bool)
    requires Inv(s) && Enabled(s, step) && !Hazard(s, step) && Together(s, r)
    requires step.FlushNsb? && s.nsbDirty ==> r(s.snapshot, s.bits)
    ensures Together(Apply(s, step), r)
  {
    if step.Crash? {
      CrashTogether(s, r);
    } else if step.FlushNsb? && !s.nsbDirty {
      assert s.snapshot == s.com.mpt;
    }
  }

  lemma CrashTogether(s: State, r: (seq<Page>, Bits) -> bool)
    requires Inv(s) && Together(s, r) && Enabled(s, Crash)
    ensures Together(Apply(s, Crash), r)
  {
    RecoverIsCommitted(s.disk, s.com);
  }

  /** What the mount finds belongs together: whatever relation held between the flushed table and the bitmap whenever a
      superblock was written, such as that nothing was remapped in between, holds of every recovered pair. */
  lemma {:induction false} RecoveredTogether(s: State, steps: seq<Step>, r: (seq<Page>, Bits) -> bool)
    requires Inv(s) && CanRun(s, steps) && Avoids(s, steps) && WrittenTogether(s, steps, r) && Together(s, r)
    ensures var t := Run(s, steps);
            Recover(t.disk).Some? && r(Recover(t.disk).value.mpt, Recover(t.disk).value.bits)
    decreases |steps|
  {
    if steps == [] {
      RecoverIsCommitted(s.disk, s.com);
    } else {
      StepKeepsInv(s, steps[0]);
      StepTogether(s, steps[0], r);
      RecoveredTogether(Apply(s, steps[0]), steps[1..], r);
    }
  }

  /** The checkpoint flushes the table as it is at `nvm_flush_mpt_pages`; from then to
      the commit the snapshot does not move, and the commit makes it the recovered table. */
  lemma CommitPublishesSnapshot(s: State, a: Addr)
    requires Inv(s) && s.phase == TailPending && a in s.cache
    ensures var t := DoPersist(s, a);
            Recover(t.disk).Some? && Recover(t.disk).value.mpt == s.snapshot
            && Recover(s.disk).Some? && Recover(s.disk).value.mpt == s.com.mpt
  {
    StepCommit(s, a);
    RecoverIsCommitted(s.disk, s.com);
    RecoverIsCommitted(DoPersist(s, a).disk, DoPersist(s, a).com);
  }

  lemma SnapshotMovesOnlyAtFlush(s: State, step: Step)
    requires Inv(s) && Enabled(s, step) && InFlight(s.phase) && InFlight(Apply(s, step).phase)
    ensures Apply(s, step).snapshot == s.snapshot && Apply(s, step).com == s.com
  {
    RecoverIsCommitted(s.disk, s.com);
  }

  // ------------------------------------------------------------- the hazard window

  /** The superblock copy the switch turns to selects the committed table anyway. */
  ghost predicate OtherSuperAgrees(disk: map<Addr, Block>, c: Com) {
    var stale := Get(disk, Super(!c.nsb));
    && stale.Nsb? && |stale.ver| == |c.ver|
    && forall p :: 0 <= p < |c.ver| && stale.ver[p] != c.ver[p] ==>
         PageOf(Get(disk, Mpt(p, stale.ver[p]))) == PageOf(Get(disk, Mpt(p, c.ver[p])))
  }

  /** The same checkpoint goes on: no crash, and no commit yet. */
  ghost predicate Uncommitted(s: State, steps: seq<Step>)
    requires CanRun(s, steps)
    decreases |steps|
  {
    steps == [] ||
      (!steps[0].Crash? && InFlight(Apply(s, steps[0]).phase) && Uncommitted(Apply(s, steps[0]), steps[1..]))
  }

  /** A checkpoint for which NVM_NSB_DIRTY was clear at checkpoint.c:1657 and set by checkpoint.c:1435: it writes
      nothing but its pack, and the pack leads to the superblock copy that was there before. */
  ghost predicate Hazarded(disk0: map<Addr, Block>, s: State) {
    && DeviceInv(s) && Counters(s) && PackState(s)
    && InFlight(s.phase) && !s.phase.MptFlushed? && s.ver == s.com.ver && s.snapshot == s.com.mpt
    && (if s.phase.NsbFlushed? || s.phase.Synced? then s.nsbDirty && s.ckNsb == s.com.nsb else s.ckNsb == !s.com.nsb)
    && (forall a: Addr :: a in s.cache ==> a.Pack? && a.pack != s.com.pack)
    && (forall a: Addr :: !a.Pack? || a.pack == s.com.pack ==> Get(s.disk, a) == Get(disk0, a))
  }

  lemma HazardStarts(s: State, bits: Bits)
    requires Inv(s) && Hazard(s, Allocate(bits))
    ensures Hazarded(s.disk, Apply(s, Allocate(bits)))
  {
    assert s.snapshot == s.com.mpt;
  }

  lemma HazardPersist(disk0: map<Addr, Block>, s: State, a: Addr)
    requires Hazarded(disk0, s) && a in s.cache && s.phase != TailPending
    ensures Hazarded(disk0, DoPersist(s, a))
  {
    DiskWrite(s.disk, s.com, a, s.cache[a]);
    var t := DoPersist(s, a);
    assert forall b: Addr :: Latest(t.cache, t.disk, b) == Latest(s.cache, s.disk, b);
    assert HeadWritten(t) == HeadWritten(s);
  }

  lemma HazardTear(disk0: map<Addr, Block>, s: State, a: Addr)
    requires Hazarded(disk0, s) && a in s.cache
    ensures Hazarded(disk0, DoTear(s, a))
  {
    DiskWrite(s.disk, s.com, a, Torn);
    var t := DoTear(s, a);
    assert forall b: Addr :: Latest(t.cache, t.disk, b) == Latest(s.cache, s.disk, b);
    assert HeadWritten(t) == HeadWritten(s);
  }

  lemma HazardPack(disk0: map<Addr, Block>, s: State)
    requires Hazarded(disk0, s) && s.phase == Switched
    ensures Hazarded(disk0, DoWritePack(s))
  {
    var t := DoWritePack(s);
    forall a: Addr | a in t.cache
      ensures a.Pack? && a.pack != s.com.pack && CpBlockOld(a, t.cache[a], t.com)
    {
      WriteBodyGet(s.cache, !s.curPack, s.ckTotal, a);
    }
  }

  /** Whatever the steps and their order, the checkpoint stays one of this kind, and until it commits the device
      mounts as the checkpoint before it. */
  lemma HazardStep(disk0: map<Addr, Block>, s: State, step: Step)
    requires Hazarded(disk0, s) && Enabled(s, step) && !step.Crash? && InFlight(Apply(s, step).phase)
    ensures Hazarded(disk0, Apply(s, step)) && Apply(s, step).com == s.com
  {
    if step.Persist? || step.Tear? {
      HazardDevice(disk0, s, step);
    } else if step.WritePack? || step.SubmitTail? || step.SwitchVersion? {
      HazardSubmit(disk0, s, step);
    } else {
      HazardRest(disk0, s, step);
    }
  }

  lemma HazardDevice(disk0: map<Addr, Block>, s: State, step: Step)
    requires Hazarded(disk0, s) && Enabled(s, step) && !step.Crash? && InFlight(Apply(s, step).phase)
    requires step.Persist? || step.Tear?
    ensures Hazarded(disk0, Apply(s, step)) && Apply(s, step).com == s.com
  {
    if step.Persist? { HazardPersist(disk0, s, step.a); } else { HazardTear(disk0, s, step.a); }
  }

  lemma HazardSubmit(disk0: map<Addr, Block>, s: State, step: Step)
    requires Hazarded(disk0, s) && Enabled(s, step) && !step.Crash? && InFlight(Apply(s, step).phase)
    requires step.WritePack? || step.SubmitTail? || step.SwitchVersion?
    ensures Hazarded(disk0, Apply(s, step)) && Apply(s, step).com == s.com
  {
    match step
    case WritePack => HazardPack(disk0, s);
    case SubmitTail => HazardTail(disk0, s);
    case SwitchVersion(total) => HazardSwitch(disk0, s, total);
  }

  lemma HazardSwitch(disk0: map<Addr, Block>, s: State, total: nat)
    requires Hazarded(disk0, s) && Enabled(s, SwitchVersion(total))
    ensures Hazarded(disk0, Apply(s, SwitchVersion(total))) && Apply(s, SwitchVersion(total)).com == s.com
  {
  }

  lemma HazardRest(disk0: map<Addr, Block>, s: State, step: Step)
    requires Hazarded(disk0, s) && Enabled(s, step) && !step.Crash? && InFlight(Apply(s, step).phase)
    requires !step.Persist? && !step.Tear? && !step.WritePack? && !step.SubmitTail? && !step.SwitchVersion?
    ensures Hazarded(disk0, Apply(s, step)) && Apply(s, step).com == s.com
  {
    if step.BarrierDone? || step.Remap? || step.Allocate? || step.Release? || step.SyncDone? {
      HazardQuiet(disk0, s, Apply(s, step));
    }
  }

  /** Steps that leave the device, what is on its way to it, and the checkpoint block alone. */
  lemma HazardQuiet(disk0: map<Addr, Block>, s: State, t: State)
    requires Hazarded(disk0, s)
    requires t == s.(mpt := t.mpt, dirty := t.dirty, bits := t.bits, nsbDirty := t.nsbDirty, phase := t.phase)
    requires |t.mpt| == |s.mpt| && (s.nsbDirty ==> t.nsbDirty)
    requires t.phase == s.phase || (s.phase.NsbFlushed? && t.phase.Synced?) ||
             (s.phase.PackPending? && t.phase.PackDurable? && s.cache == map[])
    ensures Hazarded(disk0, t)
  {
    assert HeadWritten(t) == HeadWritten(s);
  }

  lemma HazardTail(disk0: map<Addr, Block>, s: State)
    requires Hazarded(disk0, s) && s.phase == PackDurable
    ensures Hazarded(disk0, DoSubmitTail(s))
  {
    var t := DoSubmitTail(s);
    assert forall a: Addr :: a != TailAddr(s) ==> Latest(t.cache, t.disk, a) == Latest(s.cache, s.disk, a);
  }

  lemma {:induction false} HazardRuns(disk0: map<Addr, Block>, s: State, steps: seq<Step>)
    requires Hazarded(disk0, s) && CanRun(s, steps) && Uncommitted(s, steps)
    ensures Hazarded(disk0, Run(s, steps)) && Run(s, steps).com == s.com
    decreases |steps|
  {
    if steps != [] {
      HazardStep(disk0, s, steps[0]);
      HazardRuns(disk0, Apply(s, steps[0]), steps[1..]);
    }
  }

  lemma HazardRecover(disk: map<Addr, Block>, c: Com, disk': map<Addr, Block>, total: nat)
    requires ComOnDisk(disk, c) && 2 <= total
    requires forall a: Addr :: !a.Pack? || a.pack == c.pack ==> Get(disk', a) == Get(disk, a)
    requires Get(disk', Pack(!c.pack, 0)) == Cp(c.version + 1, !c.nsb, total)
    requires Get(disk', Pack(!c.pack, total - 1)) == Cp(c.version + 1, !c.nsb, total)
    ensures (Recover(disk').Some? && Recover(disk').value.mpt == c.mpt) <==> OtherSuperAgrees(disk, c)
  {
    assert ValidatePack(disk', c.pack) == Some(c.version);
    assert ValidatePack(disk', !c.pack) == Some(c.version + 1);
    assert ChoosePack(disk') == Some(!c.pack);
    var stale := Get(disk, Super(!c.nsb));
    if stale.Nsb? {
      var r := ReadMpt(disk', stale.ver);
      assert Recover(disk').value.mpt == r;
      if |stale.ver| == |c.ver| {
        assert r == c.mpt <==> (forall p :: 0 <= p < |c.ver| ==> r[p] == c.mpt[p]);
      }
    }
  }

  /** The commit of such a checkpoint, reached by any steps whatever after the allocation in the window, publishes
      the right table exactly when the two superblock copies that were on the device before the allocation lead to
      the same table. */
  lemma HazardExact(s: State, bits: Bits, steps: seq<Step>, a: Addr)
    requires Inv(s) && Hazard(s, Allocate(bits))
    requires CanRun(Apply(s, Allocate(bits)), steps) && Uncommitted(Apply(s, Allocate(bits)), steps)
    requires Run(Apply(s, Allocate(bits)), steps).phase == TailPending
    requires a in Run(Apply(s, Allocate(bits)), steps).cache
    ensures var t := Run(Apply(s, Allocate(bits)), steps);
            var u := DoPersist(t, a);
            && u.phase == Committed && u.com.mpt == s.snapshot
            && Recover(t.disk).Some? && Recover(t.disk).value.mpt == s.com.mpt
            && ((Recover(u.disk).Some? && Recover(u.disk).value.mpt == u.com.mpt) <==> OtherSuperAgrees(s.disk, s.com))
  {
    HazardStarts(s, bits);
    HazardRuns(s.disk, Apply(s, Allocate(bits)), steps);
    HazardCommit(s.disk, Run(Apply(s, Allocate(bits)), steps), a);
  }

  lemma HazardCommit(disk0: map<Addr, Block>, t: State, a: Addr)
    requires Hazarded(disk0, t) && ComOnDisk(disk0, t.com) && t.phase == TailPending && a in t.cache
    ensures var u := DoPersist(t, a);
            && u.phase == Committed && u.com.mpt == t.com.mpt
            && Recover(t.disk).Some? && Recover(t.disk).value.mpt == t.com.mpt
            && ((Recover(u.disk).Some? && Recover(u.disk).value.mpt == u.com.mpt) <==> OtherSuperAgrees(disk0, t.com))
  {
    var u := DoPersist(t, a);
    assert a == TailAddr(t) && HeadWritten(t);
    RecoverIsCommitted(t.disk, t.com);
    HazardRecover(disk0, t.com, u.disk, t.ckTotal);
  }

  /** A table of one page whose two copies differ, in the window of a checkpoint with packs of three blocks. */
  function WitnessState(stale: Page, next: Page): State {
    var cp := Cp(7, true, 3);
    var none := Bits([], 0);
    var disk := map[Pack(false, 0) := cp, Pack(false, 1) := Other, Pack(false, 2) := cp,
                    Super(false) := Nsb([false], none), Super(true) := Nsb([true], none),
                    Mpt(0, false) := MptPage(stale), Mpt(0, true) := MptPage(next)];
    State([next], [false], [true], none, false, 8, true, 3, false, NsbFlushed, map[], disk, [next], none,
          Com(false, 7, 3, true, [true], [next], none))
  }

  /** A run with one more step in front. */
  lemma Then(s: State, step: Step, rest: seq<Step>) returns (w: seq<Step>)
    requires Enabled(s, step) && !step.Crash? && InFlight(Apply(s, step).phase)
    requires CanRun(Apply(s, step), rest) && Uncommitted(Apply(s, step), rest)
    ensures CanRun(s, w) && Uncommitted(s, w) && Run(s, w) == Run(Apply(s, step), rest)
  {
    w := [step] + rest;
    assert w[1..] == rest;
  }

  /** The state before the tail is written. */
  function WitnessBarrier(stale: Page, next: Page): State {
    var s := WitnessState(stale, next);
    var cp := Cp(8, false, 3);
    s.(nsbDirty := false, ckNsb := false, phase := PackDurable,
      disk := s.disk[Pack(true, 0) := cp][Pack(true, 1) := Other])
  }

  lemma WitnessPack(stale: Page, next: Page, s: State)
    requires s == Apply(WitnessState(stale, next), Allocate(Bits([], 0)))
    ensures Enabled(s, SyncDone) && InFlight(Apply(s, SyncDone).phase)
    ensures var s1 := Apply(s, SyncDone);
            && Enabled(s1, SwitchVersion(3)) && InFlight(Apply(s1, SwitchVersion(3)).phase)
            && var s2 := Apply(s1, SwitchVersion(3));
               && Enabled(s2, WritePack) && InFlight(Apply(s2, WritePack).phase)
               && Apply(s2, WritePack) == WitnessPending(stale, next)
  {
    var s2 := Apply(Apply(s, SyncDone), SwitchVersion(3));
    assert WriteBody(s2.cache, true, 3) == WriteBody(s2.cache, true, 2)[Pack(true, 1) := Other];
  }

  /** The state with the pack written but not durable. */
  function WitnessPending(stale: Page, next: Page): State {
    WitnessBarrier(stale, next).(phase := PackPending, disk := WitnessState(stale, next).disk,
                                 cache := map[Pack(true, 1) := Other, Pack(true, 0) := Cp(8, false, 3)])
  }

  lemma WitnessDurable(stale: Page, next: Page, s: State)
    requires s == WitnessPending(stale, next)
    ensures Enabled(s, Persist(Pack(true, 0))) && InFlight(Apply(s, Persist(Pack(true, 0))).phase)
    ensures var s1 := Apply(s, Persist(Pack(true, 0)));
            && Enabled(s1, Persist(Pack(true, 1))) && InFlight(Apply(s1, Persist(Pack(true, 1))).phase)
            && var s2 := Apply(s1, Persist(Pack(true, 1)));
               Enabled(s2, BarrierDone) && Apply(s2, BarrierDone) == WitnessBarrier(stale, next)
  {
    var s1 := Apply(s, Persist(Pack(true, 0)));
    assert s1.cache == map[Pack(true, 1) := Other];
    var s2 := Apply(s1, Persist(Pack(true, 1)));
    assert s2.cache == map[];
  }

  /** The checkpoint goes on as it does without the allocation. */
  lemma WitnessRuns(stale: Page, next: Page, s: State) returns (w: seq<Step>)
    requires s == Apply(WitnessState(stale, next), Allocate(Bits([], 0)))
    ensures CanRun(s, w) && Uncommitted(s, w) && Run(s, w) == DoSubmitTail(WitnessBarrier(stale, next))
  {
    WitnessPack(stale, next, s);
    var s1 := Apply(s, SyncDone);
    var s2 := Apply(s1, SwitchVersion(3));
    var s3 := Apply(s2, WritePack);
    w := WitnessEnds(stale, next, s3);
    w := Then(s2, WritePack, w);
    w := Then(s1, SwitchVersion(3), w);
    w := Then(s, SyncDone, w);
  }

  lemma WitnessEnds(stale: Page, next: Page, s: State) returns (w: seq<Step>)
    requires s == WitnessPending(stale, next)
    ensures CanRun(s, w) && Uncommitted(s, w) && Run(s, w) == DoSubmitTail(WitnessBarrier(stale, next))
  {
    WitnessDurable(stale, next, s);
    var s1 := Apply(s, Persist(Pack(true, 0)));
    var s2 := Apply(s1, Persist(Pack(true, 1)));
    w := Then(WitnessBarrier(stale, next), SubmitTail, []);
    w := Then(s2, BarrierDone, w);
    w := Then(s1, Persist(Pack(true, 1)), w);
    w := Then(s, Persist(Pack(true, 0)), w);
  }

  lemma WitnessFacts(stale: Page, next: Page)
    requires stale != next
    ensures var s := WitnessState(stale, next);
            && Inv(s) && Hazard(s, Allocate(Bits([], 0))) && !OtherSuperAgrees(s.disk, s.com)
            && DoSubmitTail(WitnessBarrier(stale, next)).phase == TailPending
            && Pack(true, 2) in DoSubmitTail(WitnessBarrier(stale, next)).cache
  {
    var s := WitnessState(stale, next);
    assert Get(s.disk, Super(false)).ver[0] != s.com.ver[0];
  }

  /** One allocation in the window, of a checkpoint that then goes on as usual, and the old table comes back. */
  lemma HazardLosesTable(stale: Page, next: Page, s: State, t: State) returns (w: seq<Step>)
    requires stale != next && s == WitnessState(stale, next) && t == Apply(s, Allocate(Bits([], 0)))
    ensures Inv(s) && Hazard(s, Allocate(Bits([], 0))) && CanRun(t, w) && Pack(true, 2) in Run(t, w).cache
    ensures var u := DoPersist(Run(t, w), Pack(true, 2));
            u.phase == Committed && !(Recover(u.disk).Some? && Recover(u.disk).value.mpt == u.com.mpt)
  {
    WitnessFacts(stale, next);
    w := WitnessRuns(stale, next, t);
    HazardExact(s, Bits([], 0), w, Pack(true, 2));
  }

  // ------------------------------------------------------------- first mount

  /** The device after the first mount's flush of every page to its second copy
      and of the superblock to block 0. */
  function FirstMountDisk(disk: map<Addr, Block>, mpt: seq<Page>, bits: Bits): map<Addr, Block> {
    FlushPrefix(disk, mpt, AllFalse(|mpt|), AllTrue(|mpt|), |mpt|)[Super(false) := Nsb(AllTrue(|mpt|), bits)]
  }

  function AllTrue(n: nat): (r: seq<bool>)
    ensures |r| == n && forall p :: 0 <= p < n ==> r[p]
  {
    seq(n, _ => true)
  }

  /** The device as mkfs leaves it: one valid pack, and no second superblock. */
  ghost predicate Made(disk: map<Addr, Block>, c: Com, n: nat) {
    && 2 <= c.total && c.ver == AllTrue(n) && |c.mpt| == n && PacksOld(disk, c) && !Get(disk, Super(true)).Nsb?
    && Get(disk, Pack(c.pack, 0)) == Cp(c.version, c.nsb, c.total)
    && Get(disk, Pack(c.pack, c.total - 1)) == Cp(c.version, c.nsb, c.total)
  }

  lemma FirstMountDevice(disk: map<Addr, Block>, c: Com, a: Addr)
    requires Made(disk, c, |c.mpt|)
    ensures var d := FirstMountDisk(disk, c.mpt, c.bits);
            && (a.Mpt? && a.p < |c.mpt| && a.second ==> Get(d, a) == MptPage(c.mpt[a.p]))
            && (a.Pack? ==> Get(d, a) == Get(disk, a))
            && CpBlockOld(a, Get(d, a), c)
  {
    var n := |c.mpt|;
    FlushPrefixGet(disk, c.mpt, AllFalse(n), AllTrue(n), n, a);
    assert CpBlockOld(a, Get(disk, a), c);
  }

  /** Once the first mount's blocks are durable, the device mounts as the flushed table exactly when the flag of the
      checkpoint that mkfs made is clear: the first mount writes superblock copy 0 whatever the flag says. */
  lemma FirstMountExact(disk: map<Addr, Block>, c: Com)
    requires Made(disk, c, |c.mpt|)
    ensures var d := FirstMountDisk(disk, c.mpt, c.bits);
            && ((Recover(d).Some? && Recover(d).value.mpt == c.mpt) <==> !c.nsb)
            && (!c.nsb ==> ComOnDisk(d, c)) && PacksOld(d, c)
  {
    var d := FirstMountDisk(disk, c.mpt, c.bits);
    forall a: Addr
      ensures a.Mpt? && a.p < |c.mpt| && a.second ==> Get(d, a) == MptPage(c.mpt[a.p])
      ensures a.Pack? ==> Get(d, a) == Get(disk, a)
      ensures CpBlockOld(a, Get(d, a), c)
    {
      FirstMountDevice(disk, c, a);
    }
    if c.nsb {
      ChoosesCommitted(d, c);
      FlushPrefixGet(disk, c.mpt, AllFalse(|c.mpt|), AllTrue(|c.mpt|), |c.mpt|, Super(true));
    } else {
      RecoverIsCommitted(d, c);
    }
  }

  /** With the flag clear the invariant holds from then on. */
  lemma FirstMount(disk: map<Addr, Block>, c: Com)
    requires Made(disk, c, |c.mpt|) && !c.nsb
    ensures Inv(State(c.mpt, AllFalse(|c.mpt|), c.ver, c.bits, true, c.version, false, c.total, c.pack, Idle,
                      map[], FirstMountDisk(disk, c.mpt, c.bits), c.mpt, c.bits, c))
  {
    FirstMountExact(disk, c);
  }

  // ------------------------------------------------------------- the loops of nvm.c

  /** Versions and dirty bits when the selected pages below n are flushed. */
  ghost predicate HalfDone(ver: seq<bool>, dirty: seq<bool>, ver0: seq<bool>, sel: seq<bool>, flushAll: bool, n: nat) {
    && |ver| == |dirty| == |ver0| == |sel| && n <= |sel|
    && (forall q :: 0 <= q < |ver| ==> ver[q] == (ver0[q] != (q < n && sel[q])))
    && (forall q :: 0 <= q < n ==> !dirty[q])
    && (forall q :: n <= q < |dirty| && !flushAll ==> dirty[q] == sel[q])
  }

  lemma HalfStep(ver: seq<bool>, dirty: seq<bool>, ver0: seq<bool>, sel: seq<bool>, flushAll: bool, p: nat)
    requires HalfDone(ver, dirty, ver0, sel, flushAll, p) && p < |sel| && sel[p]
    ensures HalfDone(ver[p := !ver[p]], dirty[p := false], ver0, sel, flushAll, p + 1)
  {
  }

  lemma HalfSkip(ver: seq<bool>, dirty: seq<bool>, ver0: seq<bool>, sel: seq<bool>, flushAll: bool, from: nat, to: nat)
    requires HalfDone(ver, dirty, ver0, sel, flushAll, from) && from <= to <= |sel| && (flushAll ==> to == from)
    requires forall q :: from <= q < to ==> !dirty[q]
    ensures HalfDone(ver, dirty, ver0, sel, flushAll, to) && forall q :: from <= q < to ==> !sel[q]
  {
  }

  /** The NVM superblock information the flush loop works on. */
  class NvmSbInfo {
    var mpt: seq<Page>
    var dirty: seq<bool>
    var ver: seq<bool>
    var nsbDirty: bool
    var cache: map<Addr, Block>

    ghost predicate Valid()
      reads this
    {
      |mpt| == |dirty| == |ver|
    }

    constructor (mpt: seq<Page>, ver: seq<bool>)
      requires |mpt| == |ver|
      ensures Valid() && this.mpt == mpt && this.ver == ver && !nsbDirty && cache == map[]
      ensures dirty == AllFalse(|mpt|)
    {
      this.mpt, this.ver, dirty, nsbDirty, cache := mpt, ver, AllFalse(|mpt|), false, map[];
    }

    /** find_next_bit over mpt_dirty_map. */
    method FindNextDirty(from: nat) returns (p: nat)
      requires Valid() && from <= |dirty|
      ensures from <= p <= |dirty|
      ensures forall q :: from <= q < p ==> !dirty[q]
      ensures p < |dirty| ==> dirty[p]
    {
      p := from;
      while p < |dirty| && !dirty[p]
        invariant from <= p <= |dirty|
        invariant forall q :: from <= q < p ==> !dirty[q]
      {
        p := p + 1;
      }
    }

    /** get_next_mpt_page: the copy the version bit does not name, and flip the bit. */
    method GetNextMptPage(p: nat) returns (a: Addr)
      requires Valid() && p < |ver|
      modifies this`ver
      ensures Valid() && a == Mpt(p, !old(ver)[p]) && ver == old(ver)[p := !old(ver)[p]]
    {
      a := Mpt(p, !ver[p]);
      ver := ver[p := !ver[p]];
    }

    /** One round of the flush loop. */
    method FlushPage(p: nat)
      requires Valid() && p < |mpt|
      modifies this`dirty, this`ver, this`nsbDirty, this`cache
      ensures Valid() && nsbDirty
      ensures ver == old(ver)[p := !old(ver)[p]] && dirty == old(dirty)[p := false]
      ensures cache == old(cache)[Mpt(p, !old(ver)[p]) := MptPage(mpt[p])]
    {
      nsbDirty := true;
      var a := GetNextMptPage(p);
      cache := cache[a := MptPage(mpt[p])];
      dirty := dirty[p := false];
    }

    /** The page the loop goes on with: every one, or the next dirty one. */
    method NextPage(flushAll: bool, from: nat) returns (p: nat)
      requires Valid() && from <= |dirty|
      ensures from <= p <= |dirty|
      ensures flushAll ==> p == from
      ensures !flushAll ==> (p < |dirty| ==> dirty[p]) && forall q :: from <= q < p ==> !dirty[q]
    {
      if flushAll {
        p := from;
      } else {
        p := FindNextDirty(from);
      }
    }

    /** nvm_flush_mpt_pages. */
    method FlushMptPages(flushAll: bool)
      requires Valid()
      modifies this`dirty, this`ver, this`nsbDirty, this`cache
      ensures Valid()
      ensures var sel := if flushAll then AllTrue(|mpt|) else old(dirty);
              && cache == FlushPrefix(old(cache), mpt, old(ver), sel, |mpt|)
              && ver == FlipSelected(old(ver), sel)
              && dirty == AllFalse(|mpt|)
              && nsbDirty == (old(nsbDirty) || true in sel)
    {
      ghost var sel := if flushAll then AllTrue(|mpt|) else dirty;
      ghost var cache0, ver0, any := cache, ver, false;
      var pgoff := NextPage(flushAll, 0);
      SkipClean(cache0, mpt, ver0, sel, 0, pgoff);
      while pgoff != |dirty|
        invariant Valid() && pgoff <= |mpt| == |sel| == |ver0|
        invariant cache == FlushPrefix(cache0, mpt, ver0, sel, pgoff)
        invariant HalfDone(ver, dirty, ver0, sel, flushAll, pgoff)
        invariant pgoff < |sel| ==> sel[pgoff]
        invariant nsbDirty == (old(nsbDirty) || any) && (any ==> true in sel)
        invariant !any ==> forall q :: 0 <= q < pgoff ==> !sel[q]
        decreases |dirty| - pgoff
      {
        HalfStep(ver, dirty, ver0, sel, flushAll, pgoff);
        FlushPage(pgoff);
        any := true;
        ghost var next := pgoff + 1;
        pgoff := NextPage(flushAll, pgoff + 1);
        HalfSkip(ver, dirty, ver0, sel, flushAll, next, pgoff);
        SkipClean(cache0, mpt, ver0, sel, next, pgoff);
      }
    }
  }

  lemma {:induction false} SkipClean(cache: map<Addr, Block>, mpt: seq<Page>, ver: seq<bool>, sel: seq<bool>, m: nat,
                                     n: nat)
    requires m <= n <= |mpt| == |ver| == |sel|
    requires forall q :: m <= q < n ==> !sel[q]
    ensures FlushPrefix(cache, mpt, ver, sel, n) == FlushPrefix(cache, mpt, ver, sel, m)
  {
    if m < n {
      SkipClean(cache, mpt, ver, sel, m, n - 1);
    }
  }

  /** f2fs_get_mpt: read every page from the copy its version bit names. */
  method GetMpt(disk: map<Addr, Block>, ver: seq<bool>) returns (mpt: seq<Page>)
    ensures mpt == ReadMpt(disk, ver)
  {
    mpt := [];
    for i := 0 to |ver|
      invariant |mpt| == i
      invariant forall q :: 0 <= q < i ==> mpt[q] == ReadMpt(disk, ver)[q]
    {
      mpt := mpt + [PageOf(Get(disk, Mpt(i, ver[i])))];
    }
  }
}
