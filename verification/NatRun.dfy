/** Runs of the node manager: any interleaving of lookups, evictions, allocations, address changes, checkpoint
    flushes and rebuilds of the free list.  The reference is a map from nid to node information and the set of nids that
    callers hold; callers use a nid only after they were given it. */
module NatRun {
  import opened Common
  import opened Nat

  datatype NodeOp =
    | Read(nid: nat, ok: bool)
    | Evict(nid: nat)
    | Take(building: bool)               // f2fs_alloc_nid
    | Keep(nid: nat, ino: nat)           // f2fs_new_node_page with a nid taken before, then f2fs_alloc_nid_done
    | Return(nid: nat, memory: bool)     // f2fs_alloc_nid_failed
    | Place(nid: nat, addr: nat)         // the node block is written out
    | Free(nid: nat)                     // truncate_node
    | Restore(ino: nat)                  // f2fs_recover_inode_page
    | Flush(natBits: bool)
    | Build(visited: set<nat>, pages: seq<(nat, nat)>)

  /** What a call gives back: a nid, node information, or whether recovery could go on. */
  datatype Answer = Nothing | Granted(nid: nat) | Told(info: Info) | Restored

  /** The reference: what every nid stands for, and who holds which. */
  datatype Abs = Abs(book: map<nat, Info>, held: set<nat>)

  ghost function BookOf(s: NatState): map<nat, Info>
    requires AreaOk(s.a)
  {
    map nid | nid in s.a.first :: ViewOf(s, nid)
  }

  ghost function AbsOf(m: NodeManager): Abs
    requires m.Valid()
    reads m
  {
    Abs(BookOf(m.nat_), Held(m.ids))
  }

  predicate Used(book: map<nat, Info>, nid: nat) { nid in book && book[nid].blk != NULL_ADDR }

  /** The operation on the reference. */
  ghost function AbsStep(a: Abs, op: NodeOp, ans: Answer): Abs {
    match op
    case Take(_) => if ans.Granted? then a.(held := a.held + {ans.nid}) else a
    case Keep(nid, ino) =>
      if !(nid in a.held && nid in a.book) then a
      else Abs(a.book[nid := Info(ino, NEW_ADDR, a.book[nid].version)], a.held - {nid})
    case Return(nid, _) => a.(held := a.held - {nid})
    case Place(nid, addr) =>
      if !Used(a.book, nid) || addr == NEW_ADDR || addr == NULL_ADDR then a
      else a.(book := a.book[nid := a.book[nid].(blk := addr)])
    case Free(nid) => if Used(a.book, nid) then a.(book := a.book[nid := Gone(a.book[nid])]) else a
    case Restore(ino) =>
      if !ans.Restored? || ino !in a.book then a
      else a.(book := a.book[ino := Info(ino, NEW_ADDR, a.book[ino].version)])
    case _ => a
  }

  /** A node that was written is freed with a new version number. */
  function Gone(i: Info): Info {
    Info(i.ino, NULL_ADDR, if i.blk != NEW_ADDR then (i.version + 1) % 256 else i.version)
  }

  /** What the callers may rely on: a lookup tells the nid's entry, and a nid given out is unused and nobody else's. */
  ghost predicate Right(a: Abs, op: NodeOp, ans: Answer) {
    match op
    case Read(nid, _) => if nid in a.book then ans == Told(a.book[nid]) else ans == Nothing
    case Take(_) =>
      || ans.Nothing?
      || (ans.Granted? && ans.nid in a.book && !Used(a.book, ans.nid) && ans.nid != 0 && ans.nid !in a.held)
    case Restore(ino) => ans.Nothing? || (ans.Restored? && ino in a.book && !Used(a.book, ino) && ino !in a.held)
    case _ => ans.Nothing?
  }

  /** Every nid that a caller holds is unused and clean. */
  ghost predicate Good(m: NodeManager)
    reads m
  {
    m.Valid() && forall n: nat :: n in Held(m.ids) ==> Unused(m.nat_, n)
  }

  predicate Has(f: FreeIds, n: nat) { n in f.tree && f.tree[n].Prealloc? }

  /** An address change, by a caller that has just read the nid's information. */
  method Change(m: NodeManager, nid: nat, ino: nat, addr: nat)
    requires m.Valid() && HasNid(m.nat_.a, nid)
    requires if addr == NEW_ADDR then !IsFree(m.ids, nid) && Idle(m.nat_, nid) else ViewOf(m.nat_, nid).blk != NULL_ADDR
    modifies m`nat_, m`dirtyCnt
    ensures m.Valid()
    ensures var b := old(BookOf(m.nat_)); nid in b && BookOf(m.nat_) == b[nid := Changed(b[nid], ino, addr)]
    ensures forall n: nat :: n != nid ==> (Unused(m.nat_, n) <==> Unused(old(m.nat_), n))
    ensures m.nat_.a == old(m.nat_).a && m.nat_.j == old(m.nat_).j
    ensures Drift(m.nat_, m.ids) == Drift(old(m.nat_), m.ids) + if Unused(old(m.nat_), nid) then 1 else 0
  {
    var ni := ViewOf(m.nat_, nid);
    var told := if addr == NEW_ADDR then Info(ino, NULL_ADDR, ni.version) else ni;
    ghost var s := m.nat_;
    m.SetNodeAddr(nid, told, addr);
    ChangeBook(s, nid, ino, told, addr);
    ChangeUnused(s, nid, told, addr);
    VacantChange(s, m.nat_, nid);
  }

  /** No node has the nid, and no release of it waits to be flushed. */
  predicate Idle(s: NatState, nid: nat)
    requires AreaOk(s.a) && HasNid(s.a, nid)
  {
    ViewOf(s, nid).blk == NULL_ADDR && !(nid in s.c && s.c[nid].dirty)
  }

  function Changed(i: Info, ino: nat, addr: nat): Info {
    if addr == NEW_ADDR then Info(ino, NEW_ADDR, i.version) else if addr == NULL_ADDR then Gone(i) else i.(blk := addr)
  }

  lemma ChangeBook(s: NatState, nid: nat, ino: nat, ni: Info, addr: nat)
    requires AreaOk(s.a) && HasNid(s.a, nid)
    requires var i := ViewOf(s, nid); ni == if addr == NEW_ADDR then Info(ino, NULL_ADDR, i.version) else i
    ensures nid in BookOf(s)
    ensures BookOf(SetAddr(s, nid, ni, addr)) == BookOf(s)[nid := Changed(BookOf(s)[nid], ino, addr)]
  {
    var t := SetAddr(s, nid, ni, addr);
    assert t.c[nid].info == Changed(ViewOf(s, nid), ino, addr);
  }

  lemma ChangeUnused(s: NatState, nid: nat, ni: Info, addr: nat)
    requires AreaOk(s.a)
    ensures forall n: nat :: n != nid ==> (Unused(SetAddr(s, nid, ni, addr), n) <==> Unused(s, n))
    ensures !Unused(SetAddr(s, nid, ni, addr), nid)
  {
  }

  lemma SameBook(s: NatState, t: NatState)
    requires SameView(s, t)
    ensures BookOf(t) == BookOf(s)
  {
  }

  /** f2fs_new_node_page and f2fs_alloc_nid_done */
  method DoKeep(m: NodeManager, nid: nat, ino: nat)
    requires Good(m) && nid in Held(m.ids)
    modifies m
    ensures Good(m) && AbsOf(m) == AbsStep(old(AbsOf(m)), Keep(nid, ino), Nothing)
    ensures m.nat_.a == old(m.nat_).a && m.nat_.j == old(m.nat_).j
    ensures Steady(old(m.nat_), old(m.ids), m.nat_, m.ids)
  {
    assert Unused(m.nat_, nid);
    Change(m, nid, ino, NEW_ADDR);
    m.AllocNidDone(nid);
  }

  method DoMove(m: NodeManager, nid: nat, addr: nat)
    requires Good(m) && HasNid(m.nat_.a, nid) && ViewOf(m.nat_, nid).blk != NULL_ADDR && addr != NEW_ADDR
    modifies m
    ensures Good(m) && Held(m.ids) == old(Held(m.ids)) && Steady(old(m.nat_), old(m.ids), m.nat_, m.ids)
    ensures var b := old(BookOf(m.nat_)); nid in b && BookOf(m.nat_) == b[nid := Changed(b[nid], 0, addr)]
  {
    assert forall n: nat :: n in Held(m.ids) ==> n != nid by {
      assert nid in Held(m.ids) ==> Unused(m.nat_, nid);
    }
    Change(m, nid, 0, addr);
  }

  /** f2fs_recover_inode_page, which refuses an inode number in use.  It does not ask whether a release of the number
      waits to be flushed; in these runs none does, and StaleEntryWins shows what follows when one does.  The number was
      counted as available and still is. */
  method DoRestore(m: NodeManager, ino: nat) returns (ans: Answer)
    requires Good(m)
    modifies m
    ensures Good(m) && AbsOf(m) == AbsStep(old(AbsOf(m)), Restore(ino), ans) && Right(old(AbsOf(m)), Restore(ino), ans)
    ensures Counted(old(m.nat_), old(m.ids), m.nat_, m.ids, ans)
    ensures ans.Restored? <==> HasNid(old(m.nat_).a, ino) && ino !in old(Held(m.ids)) && Idle(old(m.nat_), ino)
  {
    ans := Nothing;
    if HasNid(m.nat_.a, ino) && !Has(m.ids, ino) && Idle(m.nat_, ino) {
      m.RemoveFreeNid(ino);
      Change(m, ino, ino, NEW_ADDR);
      ans := Restored;
    }
  }

  /** Every operation but a recovery keeps the count of available nids; a recovery leaves it one too high. */
  ghost predicate Counted(s: NatState, f: FreeIds, t: NatState, g: FreeIds, ans: Answer) {
    && t.a.first.Keys == s.a.first.Keys
    && (0 !in s.a.first ==> Drift(t, g) == Drift(s, f) + if ans.Restored? then 1 else 0)
  }

  method DoFlush(m: NodeManager, natBits: bool)
    requires Good(m)
    modifies m
    ensures Good(m) && AbsOf(m) == old(AbsOf(m)) && Steady(old(m.nat_), old(m.ids), m.nat_, m.ids)
  {
    ghost var s := m.nat_;
    var emptied := m.FlushNatEntries(natBits);
    SameBook(s, m.nat_);
    forall n: nat | n in Held(m.ids) ensures Unused(m.nat_, n) {
      assert Unused(s, n) && ViewOf(m.nat_, n) == ViewOf(s, n) && !Flushable(m.nat_.c, n);
    }
  }

  method DoRead(m: NodeManager, nid: nat, ok: bool) returns (ans: Answer)
    requires Good(m)
    modifies m
    ensures Good(m) && AbsOf(m) == old(AbsOf(m)) && Right(old(AbsOf(m)), Read(nid, ok), ans)
    ensures Steady(old(m.nat_), old(m.ids), m.nat_, m.ids)
  {
    ans := Nothing;
    ghost var s := m.nat_;
    if HasNid(m.nat_.a, nid) {
      var ni := m.GetNodeInfo(nid, ok);
      SameBook(s, m.nat_);
      KeptUnused(s, m.nat_, nid);
      ans := Told(ni);
    }
  }

  method DoEvict(m: NodeManager, nid: nat)
    requires Good(m)
    modifies m
    ensures Good(m) && AbsOf(m) == old(AbsOf(m)) && Steady(old(m.nat_), old(m.ids), m.nat_, m.ids)
  {
    ghost var s := m.nat_;
    if nid in m.nat_.c && !m.nat_.c[nid].dirty {
      m.EvictClean(nid);
      SameBook(s, m.nat_);
      KeptUnused(s, m.nat_, nid);
    }
  }

  /** A clean entry that comes or goes makes no nid used or unused. */
  lemma KeptUnused(s: NatState, t: NatState, nid: nat)
    requires SameView(s, t) && OnlyDiffers(s.c, t.c, nid)
    requires nid in t.c && t.c[nid].dirty <==> nid in s.c && s.c[nid].dirty
    ensures (forall n: nat :: Unused(t, n) <==> Unused(s, n)) && Vacant(t) == Vacant(s)
  {
    forall n: nat ensures Unused(t, n) <==> Unused(s, n) {
      if HasNid(s.a, n) { assert ViewOf(t, n) == ViewOf(s, n); }
    }
  }

  method DoTake(m: NodeManager, building: bool) returns (ans: Answer)
    requires Good(m)
    modifies m
    ensures Good(m) && AbsOf(m) == AbsStep(old(AbsOf(m)), Take(building), ans)
    ensures Right(old(AbsOf(m)), Take(building), ans)
    ensures Steady(old(m.nat_), old(m.ids), m.nat_, m.ids)
  {
    var r := m.AllocNid(building);
    ans := if r.Some? then Granted(r.value) else Nothing;
  }

  method DoReturn(m: NodeManager, nid: nat, memory: bool)
    requires Good(m)
    modifies m
    ensures Good(m) && AbsOf(m) == AbsStep(old(AbsOf(m)), Return(nid, memory), Nothing)
    ensures Steady(old(m.nat_), old(m.ids), m.nat_, m.ids)
  {
    assert nid in Held(m.ids) ==> Unused(m.nat_, nid);
    if Has(m.ids, nid) { m.AllocNidFailed(nid, memory); }
  }

  predicate InUse(s: NatState, nid: nat)
    requires AreaOk(s.a)
  {
    HasNid(s.a, nid) && ViewOf(s, nid).blk != NULL_ADDR
  }

  method DoPlace(m: NodeManager, nid: nat, addr: nat)
    requires Good(m)
    modifies m
    ensures Good(m) && AbsOf(m) == AbsStep(old(AbsOf(m)), Place(nid, addr), Nothing)
    ensures Steady(old(m.nat_), old(m.ids), m.nat_, m.ids)
  {
    var used := InUse(m.nat_, nid);
    assert used <==> Used(BookOf(m.nat_), nid);
    if used && addr != NEW_ADDR && addr != NULL_ADDR {
      DoMove(m, nid, addr);
    }
  }

  method DoFree(m: NodeManager, nid: nat)
    requires Good(m)
    modifies m
    ensures Good(m) && AbsOf(m) == AbsStep(old(AbsOf(m)), NodeOp.Free(nid), Nothing)
    ensures Steady(old(m.nat_), old(m.ids), m.nat_, m.ids)
  {
    var used := InUse(m.nat_, nid);
    assert used <==> Used(BookOf(m.nat_), nid);
    if used {
      DoMove(m, nid, NULL_ADDR);
    }
  }

  method DoBuild(m: NodeManager, visited: set<nat>, pages: seq<(nat, nat)>)
    requires Good(m)
    modifies m
    ensures Good(m) && AbsOf(m) == old(AbsOf(m)) && m.nat_ == old(m.nat_) && Same(old(m.ids), m.ids)
  {
    if visited <= m.ids.bits { m.BuildFreeNids(visited, pages); }
  }

  /** One operation; one whose caller has no business with the nid does nothing. */
  method DoOp(m: NodeManager, op: NodeOp) returns (ans: Answer)
    requires Good(m)
    modifies m
    ensures Good(m) && AbsOf(m) == AbsStep(old(AbsOf(m)), op, ans) && Right(old(AbsOf(m)), op, ans)
    ensures Counted(old(m.nat_), old(m.ids), m.nat_, m.ids, ans)
  {
    ans := Nothing;
    match op {
      case Read(nid, ok) => ans := DoRead(m, nid, ok);
      case Evict(nid) => DoEvict(m, nid);
      case Take(building) => ans := DoTake(m, building);
      case Keep(nid, ino) => if Has(m.ids, nid) { DoKeep(m, nid, ino); }
      case Return(nid, memory) => DoReturn(m, nid, memory);
      case Place(nid, addr) => DoPlace(m, nid, addr);
      case Free(nid) => DoFree(m, nid);
      case Restore(ino) => ans := DoRestore(m, ino);
      case Flush(natBits) => DoFlush(m, natBits);
      case Build(visited, pages) => DoBuild(m, visited, pages);
    }
  }

  /** The reference after a run with these answers. */
  ghost function After(a: Abs, ops: seq<NodeOp>, answers: seq<Answer>): Abs
    requires |ops| == |answers|
  {
    if ops == [] then a else
      var n := |ops| - 1;
      AbsStep(After(a, ops[..n], answers[..n]), ops[n], answers[n])
  }

  ghost predicate AnswerRight(a: Abs, ops: seq<NodeOp>, answers: seq<Answer>, i: nat)
    requires i < |ops| && i < |answers|
  {
    Right(After(a, ops[..i], answers[..i]), ops[i], answers[i])
  }

  lemma AfterStep(a: Abs, ops: seq<NodeOp>, answers: seq<Answer>, ans: Answer)
    requires |answers| < |ops|
    ensures var i := |answers|;
            After(a, ops[..i + 1], answers + [ans]) == AbsStep(After(a, ops[..i], answers), ops[i], ans)
    ensures forall j :: 0 <= j < |answers| && AnswerRight(a, ops, answers, j) ==>
              AnswerRight(a, ops, answers + [ans], j)
    ensures Right(After(a, ops[..|answers|], answers), ops[|answers|], ans) ==>
              AnswerRight(a, ops, answers + [ans], |answers|)
  {
    var i := |answers|;
    assert ops[..i + 1][..i] == ops[..i] && (answers + [ans])[..i] == answers;
    assert forall j :: 0 <= j < i ==> (answers + [ans])[..j] == answers[..j];
  }

  /** How often recovery took a nid. */
  function Restores(answers: seq<Answer>): nat {
    if answers == [] then 0
    else Restores(answers[..|answers| - 1]) + if answers[|answers| - 1].Restored? then 1 else 0
  }

  lemma RestoresStep(answers: seq<Answer>, ans: Answer)
    ensures Restores(answers + [ans]) == Restores(answers) + if ans.Restored? then 1 else 0
  {
    assert (answers + [ans])[..|answers|] == answers;
  }

  /** Over every run: the node manager stands for the reference, every lookup tells what the reference holds, every nid
      given out was unused and in nobody else's hands, and the count of available nids is too high by one for
      each recovery and for nothing else. */
  method RunOps(m: NodeManager, ops: seq<NodeOp>) returns (answers: seq<Answer>)
    requires Good(m)
    modifies m
    ensures Good(m) && |answers| == |ops| && AbsOf(m) == After(old(AbsOf(m)), ops, answers)
    ensures forall i :: 0 <= i < |ops| ==> AnswerRight(old(AbsOf(m)), ops, answers, i)
    ensures 0 !in old(m.nat_).a.first ==> Drift(m.nat_, m.ids) == old(Drift(m.nat_, m.ids)) + Restores(answers)
  {
    answers := [];
    ghost var a, d := AbsOf(m), Drift(m.nat_, m.ids);
    for i := 0 to |ops|
      invariant Good(m) && |answers| == i && AbsOf(m) == After(a, ops[..i], answers)
      invariant forall j :: 0 <= j < i ==> AnswerRight(a, ops, answers, j)
      invariant m.nat_.a.first.Keys == old(m.nat_).a.first.Keys
      invariant 0 !in m.nat_.a.first ==> Drift(m.nat_, m.ids) == d + Restores(answers)
    {
      var ans := DoOp(m, ops[i]);
      AfterStep(a, ops, answers, ans);
      RestoresStep(answers, ans);
      answers := answers + [ans];
    }
    assert ops[..|ops|] == ops;
  }

  /** What the count means: vacant nids in nobody's hands, and so many too many. */
  lemma AvailableIs(m: NodeManager)
    requires Good(m)
    ensures m.ids.available == |Vacant(m.nat_) - Held(m.ids)| + Drift(m.nat_, m.ids)
  {
    assert Held(m.ids) <= Vacant(m.nat_) by {
      forall n: nat | n in Held(m.ids) ensures n in Vacant(m.nat_) { assert Unused(m.nat_, n); }
    }
    assert Vacant(m.nat_) == (Vacant(m.nat_) - Held(m.ids)) + Held(m.ids);
  }

  /** f2fs_alloc_nid with up to |builds| rebuilds.  With a right count it fails for want of nids exactly when there
      are none; with one that is too high and no nid left it goes on for ever, however often it rebuilds. */
  method AllocRetry(m: NodeManager, builds: seq<(set<nat>, seq<(nat, nat)>)>) returns (r: Option<nat>, ended: bool)
    requires Good(m)
    modifies m
    ensures Good(m) && m.nat_ == old(m.nat_)
    ensures r.Some? ==>
              ended && r.value in Vacant(m.nat_) - old(Held(m.ids)) && Held(m.ids) == old(Held(m.ids)) + {r.value}
    ensures r.None? ==> Same(old(m.ids), m.ids) && (ended <==> m.ids.available == 0)
    ensures old(Drift(m.nat_, m.ids)) == 0 ==> (r.None? && ended <==> Vacant(m.nat_) <= old(Held(m.ids)))
    ensures old(Drift(m.nat_, m.ids)) > 0 && Vacant(m.nat_) <= old(Held(m.ids)) ==> !ended
  {
    AvailableIs(m);
    ghost var left := Vacant(m.nat_) - Held(m.ids);
    assert left == {} <==> Vacant(m.nat_) <= Held(m.ids);
    assert m.ids.available == |left| + Drift(m.nat_, m.ids);
    r, ended := RetryLoop(m, builds);
  }

  method RetryLoop(m: NodeManager, builds: seq<(set<nat>, seq<(nat, nat)>)>) returns (r: Option<nat>, ended: bool)
    requires Good(m)
    modifies m
    ensures Good(m) && m.nat_ == old(m.nat_)
    ensures r.Some? ==>
              ended && r.value in Vacant(m.nat_) - old(Held(m.ids)) && Held(m.ids) == old(Held(m.ids)) + {r.value}
    ensures r.None? ==> Same(old(m.ids), m.ids) && (ended <==> m.ids.available == 0)
    ensures r.Some? ==> old(m.ids).available != 0
  {
    r, ended := None, false;
    for i := 0 to |builds| + 1
      invariant Good(m) && m.nat_ == old(m.nat_) && Same(old(m.ids), m.ids) && (i > 0 ==> m.ids.available != 0)
    {
      r := m.AllocNid(false);
      if r.Some? || m.ids.available == 0 {
        ended := true;
        return;
      }
      if i < |builds| {
        DoBuild(m, builds[i].0, builds[i].1);
      }
    }
    r := None;
  }

  /** The only nid is recovered: it is counted as available though nobody can have it. */
  method CountTooHigh(jmax: nat) returns (m: NodeManager)
    ensures fresh(m) && Good(m) && Vacant(m.nat_) == {} && Held(m.ids) == {} && m.ids.available == 1
  {
    var free := Info(1, NULL_ADDR, 0);
    m := new NodeManager(Area(455, map[1 := free], map[1 := free], {}), [], jmax, 1);
    assert Vacant(m.nat_) == {1};
    ghost var a := AbsOf(m);
    var ans := DoRestore(m, 1);
    assert AbsOf(m).book == a.book[1 := Info(1, NEW_ADDR, 0)];
    assert BookOf(m.nat_)[1].blk == NEW_ADDR;
    assert Vacant(m.nat_) == {};
  }

  /** A NAT of one nid, whose block entry says it is at block 100. */
  const OLD: Info := Info(1, 100, 0)
  const SMALL: Area := Area(455, map[1 := OLD], map[1 := OLD], {})

  lemma SmallFree(s: NatState, jmax: nat)
    requires NatOk(s, jmax) && s.a == SMALL && s.j == [] && ViewOf(s, 1).blk == NULL_ADDR && jmax >= 1
    ensures Flushable(s.c, 1) && s.c[1].info.blk == NULL_ADDR && !WillEmpty(s, jmax, false)
  {
    assert 1 in s.c && EntryOk(s.c[1], s.j, s.a, 1);
    assert DirtyNids(s.c) == {1} by {
      forall n: nat | n in s.c ensures n == 1 { assert EntryOk(s.c[n], s.j, s.a, n); }
    }
  }

  /** The node is freed and the release is flushed to the journal. */
  method ReleaseInJournal(jmax: nat) returns (m: NodeManager)
    requires jmax >= 1
    ensures fresh(m) && m.jmax == jmax && Good(m) && m.nat_.a == SMALL && OnDisk(m.nat_.j, SMALL, 1).blk == NULL_ADDR
    ensures 1 in m.ids.tree && m.ids.available > 0 && Held(m.ids) == {} && ViewOf(m.nat_, 1).blk == NULL_ADDR
  {
    m := new NodeManager(SMALL, [], jmax, 0);
    m.SetNodeAddr(1, OLD, NULL_ADDR);
    SmallFree(m.nat_, jmax);
    ghost var s := m.nat_;
    var emptied := m.FlushNatEntries(false);
    assert !Fresh(s.c, 1) && ViewOf(m.nat_, 1) == ViewOf(s, 1);
  }

  lemma FreeIsListed(f: FreeIds, n: nat)
    requires IdsOk(f) && n in f.tree && n !in Held(f)
    ensures f.list != []
  {
    assert n in f.list;
  }

  /** A run in which the old entry shows again: the node is freed and the release goes to the journal, the nid is
      taken and kept, and the next flush, with NAT bits, empties the journal.  The device said the nid was free
      before that flush, and says it is at block 100 after it. */
  method OldEntryReturns(jmax: nat) returns (m: NodeManager, ghost before: NatState)
    requires jmax >= 1
    ensures fresh(m) && m.Valid() && before.a == SMALL && AreaOk(m.nat_.a) && HasNid(m.nat_.a, 1)
    ensures Fresh(before.c, 1) && Resurfaces(before, jmax, true, 1)
    ensures OnDisk(before.j, before.a, 1).blk == NULL_ADDR && OnDisk(m.nat_.j, m.nat_.a, 1) == OLD
  {
    m := ReleaseInJournal(jmax);
    FreeIsListed(m.ids, 1);
    var r := m.AllocNid(false);
    assert r == Some(1);
    DoKeep(m, 1, 1);
    before := m.nat_;
    assert BookOf(before)[1].blk == NEW_ADDR;
    KeptIsFresh(before, jmax);
    var emptied := m.FlushNatEntries(true);
  }

  lemma KeptIsFresh(s: NatState, jmax: nat)
    requires NatOk(s, jmax) && s.a == SMALL && ViewOf(s, 1).blk == NEW_ADDR && OnDisk(s.j, s.a, 1).blk == NULL_ADDR
    ensures Fresh(s.c, 1) && Resurfaces(s, jmax, true, 1)
  {
    assert 1 in s.c && EntryOk(s.c[1], s.j, s.a, 1);
    assert 1 in DirtyNids(s.c);
    assert InBlock(s.a, 1) == OLD;
  }

  // ---- Recovery of a nid whose release waits to be flushed

  const WRITTEN: Info := Info(1, 150, 0)

  /** The nid is released, recovered and then written out, all before a flush. */
  ghost function ThreeChanges(addr: nat): NatState {
    var s := NatState(map[], map[], [JEntry(1, WRITTEN)], SMALL);
    var released := SetAddr(s, 1, WRITTEN, NULL_ADDR);
    var recovered := SetAddr(released, 1, released.c[1].info, NEW_ADDR);
    SetAddr(recovered, 1, recovered.c[1].info, addr)
  }

  /** Its one entry is counted twice in its set: the flush finds that one dirty entry fits the journal, does not
      empty it, then finds no room for two and writes to the block.  The journal, which lookups read first, keeps the
      old address. */
  lemma StaleEntryWins(addr: nat)
    requires ValidAddr(addr) && addr != WRITTEN.blk
    ensures var s := ThreeChanges(addr);
            && Flushable(s.c, 1) && BlockOf(455, 1) in s.sets && s.sets[0] == NatSet({1}, 2) && DirtyNids(s.c) == {1}
            && !WillEmpty(s, 2, false) && !ToJournal(s, 0, false, 2) && ViewOf(s, 1).blk == addr
            && var t := FlushOne(s.(a := SwitchBlock(s.a, 0)), 1, false);
               && AreaOk(t.a) && HasNid(t.a, 1) && !t.c[1].dirty && t.c[1].info.blk == addr
               && OnDisk(t.j, t.a, 1) == WRITTEN
  {
    var s := ThreeChanges(addr);
    assert s.j == [JEntry(1, WRITTEN)] && s.c.Keys == {1};
    assert DirtyNids(s.c) == {1};
    SwitchBlockGet(s.a, 0, 1);
    WriteBlockGet(SwitchBlock(s.a, 0), 1, s.c[1].info, 1);
  }
}
