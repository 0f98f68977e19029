/**
 The node address table.  A lookup goes through the cache, then the journal of
 the current hot-data summary, then the current copy of the NAT block; a
 checkpoint redistributes dirty entries between journal and blocks.  The three
 stages always show one map from nid to node information.
 */
module Nat {
  import opened Arith
  import opened Common

  const NULL_ADDR: nat := 0
  const NEW_ADDR: nat := 0xffff_ffff

  datatype Info = Info(ino: nat, blk: nat, version: nat)
  datatype Entry = Entry(info: Info, dirty: bool, checkpointed: bool, prealloc: bool)

  /** What the device can hold: a nid without an address is never written out. */
  type DiskInfo = i: Info | i.blk != NEW_ADDR witness Info(0, 0, 0)

  datatype JEntry = JEntry(nid: nat, info: DiskInfo)

  /** The NAT area: two copies of every entry, and the blocks whose second copy is current. */
  datatype Area = Area(per: nat, first: map<nat, DiskInfo>, second: map<nat, DiskInfo>, onSecond: set<nat>)

  /** NAT_BLOCK_OFFSET */
  function BlockOf(per: nat, nid: nat): nat { if per == 0 then 0 else nid / per }

  predicate HasNid(a: Area, nid: nat) { nid in a.first }

  predicate AreaOk(a: Area) { 0 < a.per && a.first.Keys == a.second.Keys }

  /** The entry in the current copy of its block. */
  function InBlock(a: Area, nid: nat): DiskInfo
    requires AreaOk(a) && HasNid(a, nid)
  {
    if BlockOf(a.per, nid) in a.onSecond then a.second[nid] else a.first[nid]
  }

  // ------------------------------------------------------------------ the journal

  /** The first slot that holds nid, or the end of the journal. */
  function Slot(j: seq<JEntry>, nid: nat): (i: nat)
    ensures i <= |j| && (i < |j| ==> j[i].nid == nid)
    ensures forall k :: 0 <= k < i ==> j[k].nid != nid
  {
    if j == [] || j[0].nid == nid then 0 else 1 + Slot(j[1..], nid)
  }

  predicate InJournal(j: seq<JEntry>, nid: nat) { Slot(j, nid) < |j| }

  function JGet(j: seq<JEntry>, nid: nat): Option<DiskInfo> {
    if InJournal(j, nid) then Some(j[Slot(j, nid)].info) else None
  }

  /** Overwrite the slot of nid, or take a new one. */
  function JSet(j: seq<JEntry>, nid: nat, info: DiskInfo): seq<JEntry> {
    if InJournal(j, nid) then j[Slot(j, nid) := JEntry(nid, info)] else j + [JEntry(nid, info)]
  }

  predicate Distinct(j: seq<JEntry>) {
    forall i, k :: 0 <= i < k < |j| ==> j[i].nid != j[k].nid
  }

  lemma JSetGet(j: seq<JEntry>, nid: nat, info: DiskInfo, m: nat)
    ensures JGet(JSet(j, nid, info), m) == if m == nid then Some(info) else JGet(j, m)
    ensures |JSet(j, nid, info)| == |j| + if InJournal(j, nid) then 0 else 1
  {
    var j' := JSet(j, nid, info);
    var p, q := Slot(j, m), Slot(j', m);
    assert p < |j| && m != nid ==> j'[p].nid == m;
    assert q < |j| && m != nid ==> j[q].nid == m;
    assert j'[Slot(j, nid)].nid == nid;
  }

  lemma JSetOk(j: seq<JEntry>, nid: nat, info: DiskInfo, a: Area, jmax: nat)
    requires JournalOk(j, a, jmax) && HasNid(a, nid) && (InJournal(j, nid) || |j| < jmax)
    ensures JournalOk(JSet(j, nid, info), a, jmax)
  {
  }

  ghost predicate JournalOk(j: seq<JEntry>, a: Area, jmax: nat) {
    && |j| <= jmax && Distinct(j)
    && (forall i :: 0 <= i < |j| ==> HasNid(a, j[i].nid))
  }

  lemma JGetAt(j: seq<JEntry>, i: nat)
    requires i < |j| && Distinct(j)
    ensures Slot(j, j[i].nid) == i
  {
  }

  /** f2fs_lookup_journal_in_cursum */
  method LookupJournal(j: seq<JEntry>, nid: nat) returns (i: int)
    ensures i == if InJournal(j, nid) then Slot(j, nid) else -1
  {
    i := 0;
    while i < |j|
      invariant 0 <= i <= |j|
      invariant forall k :: 0 <= k < i ==> j[k].nid != nid
    {
      if j[i].nid == nid {
        return;
      }
      i := i + 1;
    }
    return -1;
  }

  // ------------------------------------------------------------------ the one map

  /** Journal first, then the current block. */
  function OnDisk(j: seq<JEntry>, a: Area, nid: nat): DiskInfo
    requires AreaOk(a) && HasNid(a, nid)
  {
    match JGet(j, nid)
    case Some(info) => info
    case None => InBlock(a, nid)
  }

  type Cache = map<nat, Entry>

  /** What f2fs_get_node_info reports. */
  function View(c: Cache, j: seq<JEntry>, a: Area, nid: nat): Info
    requires AreaOk(a) && HasNid(a, nid)
  {
    if nid in c then c[nid].info else OnDisk(j, a, nid)
  }

  predicate Flushable(c: Cache, nid: nat) { nid in c && c[nid].dirty && c[nid].info.blk != NEW_ADDR }

  predicate Fresh(c: Cache, nid: nat) { nid in c && c[nid].info.blk == NEW_ADDR }

  /** A cached entry that is not dirty agrees with the device; one whose address
      is not yet assigned is dirty and preallocated. */
  ghost predicate EntryOk(e: Entry, j: seq<JEntry>, a: Area, nid: nat)
    requires AreaOk(a)
  {
    && HasNid(a, nid)
    && (!e.dirty ==> e.info == OnDisk(j, a, nid))
    && (e.prealloc <==> e.info.blk == NEW_ADDR)
    && (e.prealloc ==> e.dirty && !e.checkpointed)
  }

  ghost predicate CacheOk(c: Cache, j: seq<JEntry>, a: Area) {
    AreaOk(a) && forall nid :: nid in c ==> EntryOk(c[nid], j, a, nid)
  }

  /** An entry freed since the last checkpoint is not marked checkpointed. */
  ghost predicate FreedUncheckpointed(c: Cache) {
    forall nid :: nid in c && c[nid].dirty && c[nid].info.blk == NULL_ADDR ==> !c[nid].checkpointed
  }

  // ------------------------------------------------------------------ dirty sets

  datatype NatSet = NatSet(nids: set<nat>, cnt: int)

  /** The entries of block b a flush would write. */
  ghost function FlushSet(c: Cache, per: nat, b: nat): set<nat> {
    set nid | nid in c && Flushable(c, nid) && BlockOf(per, nid) == b
  }

  ghost predicate SetOk(c: Cache, per: nat, b: nat, st: NatSet) {
    st.nids == FlushSet(c, per, b) && st.cnt == |st.nids|
  }

  /** Every flushable entry is in the set of its block and counted there. */
  ghost predicate SetsOk(c: Cache, sets: map<nat, NatSet>, per: nat) {
    && 0 < per
    && (forall b :: b in sets ==> SetOk(c, per, b, sets[b]))
    && (forall nid: nat :: Flushable(c, nid) ==> BlockOf(per, nid) in sets)
  }

  ghost predicate OnlyDiffers(c: Cache, c': Cache, nid: nat) {
    forall m: nat :: m != nid ==> (m in c <==> m in c') && (m in c ==> c[m] == c'[m])
  }

  lemma FlushSetChange(c: Cache, c': Cache, per: nat, nid: nat, b: nat)
    requires OnlyDiffers(c, c', nid)
    ensures FlushSet(c', per, b) == if b == BlockOf(per, nid) && Flushable(c', nid) then FlushSet(c, per, b) + {nid}
                                    else FlushSet(c, per, b) - {nid}
  {
    forall m: nat ensures m in FlushSet(c', per, b) <==>
      (m in FlushSet(c, per, b) && m != nid) || (m == nid && b == BlockOf(per, nid) && Flushable(c', nid))
    {
      assert m != nid ==> (m in c <==> m in c');
    }
  }

  ghost function DirtyNids(c: Cache): set<nat> { set nid | nid in c && c[nid].dirty }

  /** __set_nat_cache_dirty: the new set table. */
  function MarkSet(sets: map<nat, NatSet>, per: nat, nid: nat, counted: bool): map<nat, NatSet>
    requires 0 < per
  {
    var b := BlockOf(per, nid);
    var s := if b in sets then sets[b] else NatSet({}, 0);
    sets[b := NatSet(s.nids + {nid}, s.cnt + if counted then 0 else 1)]
  }

  lemma MarkSetOk(c: Cache, sets: map<nat, NatSet>, per: nat, nid: nat, c': Cache)
    requires SetsOk(c, sets, per) && OnlyDiffers(c, c', nid) && Flushable(c', nid)
    ensures SetsOk(c', MarkSet(sets, per, nid, Flushable(c, nid)), per)
  {
    var sets' := MarkSet(sets, per, nid, Flushable(c, nid));
    forall b | b in sets' ensures SetOk(c', per, b, sets'[b]) {
      MarkOneSet(c, sets, per, nid, c', b);
    }
    forall m: nat | Flushable(c', m) ensures BlockOf(per, m) in sets' {
      assert m != nid ==> Flushable(c, m);
    }
  }

  lemma MarkOneSet(c: Cache, sets: map<nat, NatSet>, per: nat, nid: nat, c': Cache, b: nat)
    requires SetsOk(c, sets, per) && OnlyDiffers(c, c', nid) && Flushable(c', nid)
    requires b in MarkSet(sets, per, nid, Flushable(c, nid))
    ensures SetOk(c', per, b, MarkSet(sets, per, nid, Flushable(c, nid))[b])
  {
    FlushSetChange(c, c', per, nid, b);
    if b in sets {
      assert SetOk(c, per, b, sets[b]);
      assert b != BlockOf(per, nid) ==> nid !in sets[b].nids;
    } else {
      assert FlushSet(c, per, b) == {};
    }
  }

  // ------------------------------------------------------------------ the NAT as a value

  datatype NatState = NatState(c: Cache, sets: map<nat, NatSet>, j: seq<JEntry>, a: Area)

  ghost predicate NatOk(s: NatState, jmax: nat) {
    CacheOk(s.c, s.j, s.a) && JournalOk(s.j, s.a, jmax) && SetsOk(s.c, s.sets, s.a.per)
  }

  function ViewOf(s: NatState, nid: nat): Info
    requires AreaOk(s.a) && HasNid(s.a, nid)
  {
    View(s.c, s.j, s.a, nid)
  }

  /** The same nids with the same information. */
  ghost predicate SameView(s: NatState, t: NatState) {
    && AreaOk(s.a) && AreaOk(t.a) && t.a.per == s.a.per && t.a.first.Keys == s.a.first.Keys
    && forall nid: nat :: HasNid(s.a, nid) ==> ViewOf(t, nid) == ViewOf(s, nid)
  }

  function WriteBlock(a: Area, nid: nat, info: DiskInfo): Area
    requires AreaOk(a) && HasNid(a, nid)
  {
    if BlockOf(a.per, nid) in a.onSecond then a.(second := a.second[nid := info])
    else a.(first := a.first[nid := info])
  }

  /** get_next_nat_page: copy the current block over the other copy and switch to it. */
  function SwitchBlock(a: Area, b: nat): Area
    requires AreaOk(a)
  {
    if b in a.onSecond
    then a.(first := map n | n in a.first :: if BlockOf(a.per, n) == b then a.second[n] else a.first[n],
            onSecond := a.onSecond - {b})
    else a.(second := map n | n in a.second :: if BlockOf(a.per, n) == b then a.first[n] else a.second[n],
            onSecond := a.onSecond + {b})
  }

  lemma WriteBlockGet(a: Area, nid: nat, info: DiskInfo, m: nat)
    requires AreaOk(a) && HasNid(a, nid) && HasNid(a, m)
    ensures AreaOk(WriteBlock(a, nid, info)) && WriteBlock(a, nid, info).first.Keys == a.first.Keys
    ensures InBlock(WriteBlock(a, nid, info), m) == if m == nid then info else InBlock(a, m)
  {
    assert a.first.Keys + {nid} == a.first.Keys;
  }

  lemma SwitchBlockGet(a: Area, b: nat, m: nat)
    requires AreaOk(a) && HasNid(a, m)
    ensures AreaOk(SwitchBlock(a, b)) && SwitchBlock(a, b).first.Keys == a.first.Keys
    ensures InBlock(SwitchBlock(a, b), m) == InBlock(a, m)
  {
  }

  /** Where __flush_nat_entry_set writes the set of block b. */
  predicate ToJournal(s: NatState, b: nat, natBits: bool, jmax: nat)
    requires b in s.sets
  {
    !natBits && s.sets[b].cnt <= jmax - |s.j|
  }

  /** One round of the loop in __flush_nat_entry_set. */
  function FlushOne(s: NatState, nid: nat, toJournal: bool): NatState
    requires AreaOk(s.a) && HasNid(s.a, nid) && Flushable(s.c, nid) && BlockOf(s.a.per, nid) in s.sets
  {
    var b, info := BlockOf(s.a.per, nid), s.c[nid].info;
    NatState(s.c[nid := Entry(info, false, true, s.c[nid].prealloc)],
             s.sets[b := NatSet(s.sets[b].nids - {nid}, s.sets[b].cnt - 1)],
             if toJournal then JSet(s.j, nid, info) else s.j,
             if toJournal then s.a else WriteBlock(s.a, nid, info))
  }

  /** The device value of nid becomes the cached one, nothing else moves. */
  lemma FlushOneDisk(s: NatState, nid: nat, toJournal: bool, m: nat)
    requires AreaOk(s.a) && HasNid(s.a, nid) && HasNid(s.a, m) && Flushable(s.c, nid) && BlockOf(s.a.per, nid) in s.sets
    requires !toJournal ==> !InJournal(s.j, nid)
    ensures var t := FlushOne(s, nid, toJournal);
            && AreaOk(t.a) && HasNid(t.a, m)
            && OnDisk(t.j, t.a, m) == if m == nid then s.c[nid].info else OnDisk(s.j, s.a, m)
  {
    if toJournal {
      JSetGet(s.j, nid, s.c[nid].info, m);
    } else {
      WriteBlockGet(s.a, nid, s.c[nid].info, m);
    }
  }

  lemma FlushOneSets(s: NatState, nid: nat, toJournal: bool)
    requires AreaOk(s.a) && HasNid(s.a, nid) && SetsOk(s.c, s.sets, s.a.per) && Flushable(s.c, nid)
    ensures var t := FlushOne(s, nid, toJournal); SetsOk(t.c, t.sets, s.a.per)
  {
    var t := FlushOne(s, nid, toJournal);
    forall b | b in t.sets ensures SetOk(t.c, s.a.per, b, t.sets[b]) {
      FlushSetChange(s.c, t.c, s.a.per, nid, b);
      assert SetOk(s.c, s.a.per, b, s.sets[b]);
    }
    forall m: nat | Flushable(t.c, m) ensures BlockOf(s.a.per, m) in t.sets {
      assert m != nid ==> Flushable(s.c, m);
    }
  }

  /** The area after the write is well-formed and covers the same nids. */
  lemma FlushOneArea(s: NatState, nid: nat, toJournal: bool)
    requires AreaOk(s.a) && HasNid(s.a, nid) && Flushable(s.c, nid) && BlockOf(s.a.per, nid) in s.sets
    requires !toJournal ==> !InJournal(s.j, nid)
    ensures var t := FlushOne(s, nid, toJournal);
            && AreaOk(t.a) && t.a.per == s.a.per && t.a.first.Keys == s.a.first.Keys
            && forall m: nat :: HasNid(s.a, m) ==>
                 OnDisk(t.j, t.a, m) == if m == nid then s.c[nid].info else OnDisk(s.j, s.a, m)
  {
    var t := FlushOne(s, nid, toJournal);
    FlushOneDisk(s, nid, toJournal, nid);
    forall m: nat | HasNid(s.a, m)
      ensures OnDisk(t.j, t.a, m) == if m == nid then s.c[nid].info else OnDisk(s.j, s.a, m)
    {
      FlushOneDisk(s, nid, toJournal, m);
    }
  }

  lemma FlushOneView(s: NatState, nid: nat, toJournal: bool)
    requires AreaOk(s.a) && HasNid(s.a, nid) && Flushable(s.c, nid) && BlockOf(s.a.per, nid) in s.sets
    requires !toJournal ==> !InJournal(s.j, nid)
    ensures SameView(s, FlushOne(s, nid, toJournal))
  {
    FlushOneArea(s, nid, toJournal);
  }

  lemma FlushOneCache(s: NatState, nid: nat, toJournal: bool)
    requires CacheOk(s.c, s.j, s.a) && Flushable(s.c, nid) && BlockOf(s.a.per, nid) in s.sets
    requires !toJournal ==> !InJournal(s.j, nid)
    ensures var t := FlushOne(s, nid, toJournal); CacheOk(t.c, t.j, t.a)
  {
    var t := FlushOne(s, nid, toJournal);
    FlushOneArea(s, nid, toJournal);
  }

  lemma FlushOneJournal(s: NatState, nid: nat, toJournal: bool, jmax: nat)
    requires AreaOk(s.a) && HasNid(s.a, nid) && JournalOk(s.j, s.a, jmax) && Flushable(s.c, nid)
    requires BlockOf(s.a.per, nid) in s.sets
    requires toJournal ==> InJournal(s.j, nid) || |s.j| < jmax
    ensures var t := FlushOne(s, nid, toJournal); JournalOk(t.j, t.a, jmax)
  {
    if toJournal {
      JSetOk(s.j, nid, s.c[nid].info, s.a, jmax);
    } else {
      assert forall m: nat :: HasNid(WriteBlock(s.a, nid, s.c[nid].info), m) <==> HasNid(s.a, m);
    }
  }

  /** Flushing one entry keeps the invariant and shows every nid as before. */
  lemma FlushOneOk(s: NatState, nid: nat, toJournal: bool, jmax: nat)
    requires NatOk(s, jmax) && Flushable(s.c, nid)
    requires if toJournal then InJournal(s.j, nid) || |s.j| < jmax else !InJournal(s.j, nid)
    ensures BlockOf(s.a.per, nid) in s.sets
    ensures NatOk(FlushOne(s, nid, toJournal), jmax) && SameView(s, FlushOne(s, nid, toJournal))
  {
    FlushOneSets(s, nid, toJournal);
    FlushOneCache(s, nid, toJournal);
    FlushOneJournal(s, nid, toJournal, jmax);
    FlushOneView(s, nid, toJournal);
  }

  // ------------------------------------------------------------------ emptying the journal

  /** One round of remove_nats_in_journal: the entry is cached if it was not, and dirty. */
  function RemoveOne(s: NatState, nid: nat, info: DiskInfo): NatState
    requires 0 < s.a.per
  {
    var e := if nid in s.c then s.c[nid] else Entry(info, false, true, false);
    var new_ne := e.info.blk == NEW_ADDR;
    s.(c := s.c[nid := e.(dirty := true, prealloc := new_ne)],
       sets := if new_ne then s.sets else MarkSet(s.sets, s.a.per, nid, e.dirty && !e.prealloc))
  }

  lemma RemoveOneSets(s: NatState, nid: nat, info: DiskInfo)
    requires SetsOk(s.c, s.sets, s.a.per)
    requires nid in s.c ==> (s.c[nid].prealloc <==> s.c[nid].info.blk == NEW_ADDR)
    requires Fresh(s.c, nid) ==> s.c[nid].dirty
    ensures var t := RemoveOne(s, nid, info); SetsOk(t.c, t.sets, s.a.per)
  {
    var t := RemoveOne(s, nid, info);
    if Fresh(s.c, nid) {
      assert t.c == s.c;
    } else {
      assert OnlyDiffers(s.c, t.c, nid);
      MarkSetOk(s.c, s.sets, s.a.per, nid, t.c);
    }
  }

  lemma RemoveOneCache(s: NatState, nid: nat, info: DiskInfo)
    requires CacheOk(s.c, s.j, s.a) && JGet(s.j, nid) == Some(info) && HasNid(s.a, nid)
    ensures var t := RemoveOne(s, nid, info); CacheOk(t.c, t.j, t.a) && SameView(s, t)
  {
    var t := RemoveOne(s, nid, info);
    forall m: nat | HasNid(s.a, m) ensures ViewOf(t, m) == ViewOf(s, m) {
    }
  }

  /** Moving a journal entry to the cache keeps the invariant and shows every nid as before. */
  lemma RemoveOneOk(s: NatState, i: nat, jmax: nat)
    requires NatOk(s, jmax) && i < |s.j|
    ensures var t := RemoveOne(s, s.j[i].nid, s.j[i].info);
            && NatOk(t, jmax) && SameView(s, t)
            && s.j[i].nid in t.c && t.c[s.j[i].nid].dirty
  {
    JGetAt(s.j, i);
    RemoveOneSets(s, s.j[i].nid, s.j[i].info);
    RemoveOneCache(s, s.j[i].nid, s.j[i].info);
  }

  /** With every entry of it cached and dirty the journal can be dropped. */
  lemma DropJournalOk(s: NatState, jmax: nat)
    requires NatOk(s, jmax)
    requires forall i :: 0 <= i < |s.j| ==> s.j[i].nid in s.c && s.c[s.j[i].nid].dirty
    ensures NatOk(s.(j := []), jmax) && SameView(s, s.(j := []))
  {
  }

  // ------------------------------------------------------------------ free nids

  datatype NidState = Free | Prealloc

  /** The free-nid bookkeeping: the radix tree `tree`, the list of free nids, the two
      counters, the free_nid_bitmap bits and the NAT blocks it has been built for. */
  datatype FreeIds = FreeIds(tree: map<nat, NidState>, list: seq<nat>, nFree: int, nPre: int,
                             bits: set<nat>, scanned: set<nat>, available: int)

  ghost function Held(f: FreeIds): set<nat> { set n | n in f.tree && f.tree[n].Prealloc? }

  /** List, radix tree and counters agree. */
  ghost predicate IdsOk(f: FreeIds) {
    && (forall i, k :: 0 <= i < k < |f.list| ==> f.list[i] != f.list[k])
    && (forall n: nat :: n in f.list <==> n in f.tree && f.tree[n].Free?)
    && f.nFree == |f.list| && f.nPre == |Held(f)|
  }

  predicate IsFree(f: FreeIds, n: nat) { n in f.tree && f.tree[n].Free? }

  /** __insert_free_nid; an existing tree entry makes it fail. */
  function InsertFree(f: FreeIds, n: nat): FreeIds {
    if n in f.tree then f
    else f.(tree := f.tree[n := Free], list := f.list + [n], nFree := f.nFree + 1)
  }

  function Without(s: seq<nat>, n: nat): seq<nat> {
    if s == [] then [] else if s[0] == n then s[1..] else [s[0]] + Without(s[1..], n)
  }

  /** __remove_free_nid */
  function RemoveId(f: FreeIds, n: nat): FreeIds
    requires n in f.tree
  {
    if f.tree[n].Free? then f.(tree := f.tree - {n}, list := Without(f.list, n), nFree := f.nFree - 1)
    else f.(tree := f.tree - {n}, nPre := f.nPre - 1)
  }

  /** __move_free_nid */
  function MoveId(f: FreeIds, n: nat): FreeIds
    requires n in f.tree
  {
    if f.tree[n].Free?
    then f.(tree := f.tree[n := Prealloc], list := Without(f.list, n), nFree := f.nFree - 1, nPre := f.nPre + 1)
    else f.(tree := f.tree[n := Free], list := f.list + [n], nFree := f.nFree + 1, nPre := f.nPre - 1)
  }

  /** update_free_nid_bitmap */
  function SetBit(f: FreeIds, per: nat, n: nat, set_: bool): FreeIds {
    if BlockOf(per, n) !in f.scanned then f
    else f.(bits := if set_ then f.bits + {n} else f.bits - {n})
  }

  lemma {:induction false} WithoutSpec(s: seq<nat>, n: nat)
    requires forall i, k :: 0 <= i < k < |s| ==> s[i] != s[k]
    ensures var r := Without(s, n);
            && (forall m :: m in r <==> m in s && m != n)
            && (forall i, k :: 0 <= i < k < |r| ==> r[i] != r[k])
            && |r| == |s| - if n in s then 1 else 0
  {
    if s != [] {
      assert s == [s[0]] + s[1..];
      if s[0] != n {
        WithoutSpec(s[1..], n);
        var t := Without(s[1..], n);
        assert forall m :: m in Without(s, n) <==> m == s[0] || m in t;
        assert s[0] !in t;
        forall i, k | 0 <= i < k < |t| + 1 ensures ([s[0]] + t)[i] != ([s[0]] + t)[k] {
          assert ([s[0]] + t)[k] == t[k - 1];
        }
      } else {
        forall m ensures m in s[1..] <==> m in s && m != n {
        }
      }
    }
  }

  lemma InsertFreeOk(f: FreeIds, n: nat)
    requires IdsOk(f)
    ensures IdsOk(InsertFree(f, n))
    ensures forall m: nat :: IsFree(InsertFree(f, n), m) <==> IsFree(f, m) || (m == n && n !in f.tree)
    ensures Held(InsertFree(f, n)) == Held(f)
  {
    var g := InsertFree(f, n);
    assert Held(g) == Held(f);
  }

  lemma RemoveIdOk(f: FreeIds, n: nat)
    requires IdsOk(f) && n in f.tree
    ensures IdsOk(RemoveId(f, n))
    ensures Held(RemoveId(f, n)) == Held(f) - {n}
  {
    WithoutSpec(f.list, n);
    assert Held(RemoveId(f, n)) == Held(f) - {n};
  }

  lemma MoveIdOk(f: FreeIds, n: nat)
    requires IdsOk(f) && n in f.tree
    ensures IdsOk(MoveId(f, n))
    ensures Held(MoveId(f, n)) == if f.tree[n].Free? then Held(f) + {n} else Held(f) - {n}
  {
    WithoutSpec(f.list, n);
    HeldMoves(f, n);
  }

  lemma HeldMoves(f: FreeIds, n: nat)
    requires n in f.tree
    ensures Held(MoveId(f, n)) == if f.tree[n].Free? then Held(f) + {n} else Held(f) - {n}
  {
  }

  // ------------------------------------------------------------------ allocator and NAT together

  /** A nid on the free list is unused in the one map. */
  ghost predicate FreeUnused(f: FreeIds, s: NatState) {
    AreaOk(s.a) && forall n: nat :: IsFree(f, n) ==> n != 0 && HasNid(s.a, n) && ViewOf(s, n).blk == NULL_ADDR
  }

  ghost predicate FreeClean(f: FreeIds, s: NatState) {
    forall n: nat :: IsFree(f, n) && n in s.c ==> !s.c[n].dirty
  }

  /** A set bit may be out of date only where cache or journal will correct it. */
  ghost predicate BitOk(s: NatState, n: nat)
    requires AreaOk(s.a)
  {
    HasNid(s.a, n) && ((n in s.c && s.c[n].dirty) || InJournal(s.j, n) || InBlock(s.a, n).blk == NULL_ADDR)
  }

  ghost predicate BitsOk(f: FreeIds, s: NatState) {
    AreaOk(s.a) && forall n: nat :: n in f.bits ==> BlockOf(s.a.per, n) in f.scanned && BitOk(s, n)
  }

  /** What holds at every point of a flush. */
  ghost predicate Mid(s: NatState, f: FreeIds, jmax: nat) {
    NatOk(s, jmax) && IdsOk(f) && FreeUnused(f, s) && BitsOk(f, s)
  }

  /** What holds between calls. */
  ghost predicate Between(s: NatState, f: FreeIds, jmax: nat) {
    Mid(s, f, jmax) && FreeClean(f, s) && FreedUncheckpointed(s.c)
  }

  /** The allocator's share of flushing one entry. */
  function FlushIds(f: FreeIds, per: nat, nid: nat, blk: nat): FreeIds {
    if blk != NULL_ADDR then SetBit(f, per, nid, false)
    else if nid == 0 then f
    else SetBit(InsertFree(f, nid), per, nid, true).(available := f.available + 1)
  }

  lemma FlushIdsShape(f: FreeIds, per: nat, nid: nat, blk: nat)
    requires IdsOk(f)
    ensures var g := FlushIds(f, per, nid, blk);
            && IdsOk(g) && g.scanned == f.scanned && Held(g) == Held(f)
            && (forall n: nat :: IsFree(g, n) ==> IsFree(f, n) || (n == nid && blk == NULL_ADDR && nid != 0))
            && (forall n: nat :: n in g.bits ==>
               (n in f.bits && (n != nid || blk == NULL_ADDR || BlockOf(per, n) !in f.scanned)) ||
                                                 (n == nid && blk == NULL_ADDR && BlockOf(per, n) in f.scanned))
  {
    InsertFreeOk(f, nid);
    var g := FlushIds(f, per, nid, blk);
    assert Held(g) == Held(InsertFree(f, nid)) == Held(f);
  }

  lemma FlushBits(s: NatState, f: FreeIds, nid: nat, toJournal: bool)
    requires CacheOk(s.c, s.j, s.a) && Flushable(s.c, nid) && BlockOf(s.a.per, nid) in s.sets && IdsOk(f)
    requires BitsOk(f, s)
    requires !toJournal ==> !InJournal(s.j, nid)
    ensures BitsOk(FlushIds(f, s.a.per, nid, s.c[nid].info.blk), FlushOne(s, nid, toJournal))
  {
    var t, g := FlushOne(s, nid, toJournal), FlushIds(f, s.a.per, nid, s.c[nid].info.blk);
    FlushIdsShape(f, s.a.per, nid, s.c[nid].info.blk);
    FlushOneArea(s, nid, toJournal);
    forall n: nat | n in g.bits ensures BlockOf(t.a.per, n) in g.scanned && BitOk(t, n) {
      FlushBit(s, nid, toJournal, n);
    }
  }

  lemma FlushIdsOk(s: NatState, f: FreeIds, nid: nat, toJournal: bool, jmax: nat)
    requires Mid(s, f, jmax) && Flushable(s.c, nid)
    requires if toJournal then InJournal(s.j, nid) || |s.j| < jmax else !InJournal(s.j, nid)
    ensures BlockOf(s.a.per, nid) in s.sets
    ensures Mid(FlushOne(s, nid, toJournal), FlushIds(f, s.a.per, nid, s.c[nid].info.blk), jmax)
  {
    FlushOneOk(s, nid, toJournal, jmax);
    FlushIdsShape(f, s.a.per, nid, s.c[nid].info.blk);
    FlushBits(s, f, nid, toJournal);
    SameViewFree(f, FlushIds(f, s.a.per, nid, s.c[nid].info.blk), s, FlushOne(s, nid, toJournal), nid);
  }

  /** Free nids stay unused when the map does not change. */
  lemma SameViewFree(f: FreeIds, g: FreeIds, s: NatState, t: NatState, nid: nat)
    requires FreeUnused(f, s) && SameView(s, t)
    requires forall n: nat :: IsFree(g, n) ==>
               IsFree(f, n) || (n == nid && n != 0 && HasNid(s.a, n) && ViewOf(s, n).blk == NULL_ADDR)
    ensures FreeUnused(g, t)
  {
    forall n: nat | IsFree(g, n) ensures n != 0 && HasNid(t.a, n) && ViewOf(t, n).blk == NULL_ADDR {
      assert HasNid(s.a, n);
    }
  }

  lemma FlushBit(s: NatState, nid: nat, toJournal: bool, n: nat)
    requires CacheOk(s.c, s.j, s.a) && Flushable(s.c, nid) && BlockOf(s.a.per, nid) in s.sets
    requires !toJournal ==> !InJournal(s.j, nid)
    requires if n == nid then s.c[nid].info.blk == NULL_ADDR || BitOk(s, n) else BitOk(s, n)
    ensures AreaOk(FlushOne(s, nid, toJournal).a)
    ensures (n == nid && s.c[nid].info.blk != NULL_ADDR) || BitOk(FlushOne(s, nid, toJournal), n)
  {
    FlushOneArea(s, nid, toJournal);
    if toJournal {
      JSetGet(s.j, nid, s.c[nid].info, n);
    } else if HasNid(s.a, n) {
      WriteBlockGet(s.a, nid, s.c[nid].info, n);
    }
  }

  lemma RemoveIdsOk(s: NatState, f: FreeIds, i: nat, jmax: nat, available: int)
    requires Mid(s, f, jmax) && i < |s.j|
    ensures Mid(RemoveOne(s, s.j[i].nid, s.j[i].info), f.(available := available), jmax)
  {
    RemoveOneOk(s, i, jmax);
    var t, g := RemoveOne(s, s.j[i].nid, s.j[i].info), f.(available := available);
    assert Held(g) == Held(f);
    SameViewFree(f, g, s, t, 0);
    assert BitsOk(g, t) by {
      forall n: nat | n in g.bits ensures BitOk(t, n) {
        assert BitOk(s, n);
      }
    }
  }

  lemma DropJournalMid(s: NatState, f: FreeIds, jmax: nat)
    requires Mid(s, f, jmax)
    requires forall i :: 0 <= i < |s.j| ==> s.j[i].nid in s.c && s.c[s.j[i].nid].dirty
    ensures Mid(s.(j := []), f, jmax)
  {
    DropJournalOk(s, jmax);
    forall n: nat | n in f.bits ensures BitOk(s.(j := []), n) {
      assert BitOk(s, n);
    }
  }

  lemma SwitchDisk(s: NatState, b: nat)
    requires AreaOk(s.a)
    ensures var t := s.(a := SwitchBlock(s.a, b));
            && AreaOk(t.a) && SameView(s, t)
            && (forall m: nat :: HasNid(s.a, m) <==> HasNid(t.a, m))
            && (forall m: nat :: HasNid(s.a, m) ==> InBlock(t.a, m) == InBlock(s.a, m))
            && (forall m: nat :: HasNid(s.a, m) ==> OnDisk(t.j, t.a, m) == OnDisk(s.j, s.a, m))
  {
    var t := s.(a := SwitchBlock(s.a, b));
    forall m: nat | HasNid(s.a, m) ensures AreaOk(t.a) && HasNid(t.a, m) && InBlock(t.a, m) == InBlock(s.a, m) {
      SwitchBlockGet(s.a, b, m);
    }
  }

  lemma SwitchMid(s: NatState, f: FreeIds, b: nat, jmax: nat)
    requires Mid(s, f, jmax)
    ensures var t := s.(a := SwitchBlock(s.a, b)); Mid(t, f, jmax)
  {
    var t := s.(a := SwitchBlock(s.a, b));
    SwitchDisk(s, b);
    SameViewFree(f, f, s, t, 0);
    assert BitsOk(f, t) by {
      forall n: nat | n in f.bits ensures BitOk(t, n) {
        assert BitOk(s, n);
      }
    }
  }

  lemma DirtyWithout(c: Cache, c': Cache, nid: nat)
    requires OnlyDiffers(c, c', nid)
    ensures DirtyNids(c') - {nid} == DirtyNids(c) - {nid}
  {
    forall m: nat ensures m in DirtyNids(c') - {nid} <==> m in DirtyNids(c) - {nid} {
      assert m != nid ==> (m in c <==> m in c');
    }
  }

  lemma DirtyCard(c: Cache, nid: nat)
    ensures |DirtyNids(c)| == |DirtyNids(c) - {nid}| + if nid in c && c[nid].dirty then 1 else 0
  {
    if nid in c && c[nid].dirty {
      assert DirtyNids(c) == (DirtyNids(c) - {nid}) + {nid};
    } else {
      assert DirtyNids(c) == DirtyNids(c) - {nid};
    }
  }

  lemma DirtyChange(c: Cache, c': Cache, nid: nat)
    requires OnlyDiffers(c, c', nid)
    ensures |DirtyNids(c')| == |DirtyNids(c)| - (if nid in c && c[nid].dirty then 1 else 0)
                               + (if nid in c' && c'[nid].dirty then 1 else 0)
  {
    DirtyWithout(c, c', nid);
    DirtyCard(c, nid);
    DirtyCard(c', nid);
  }

  /** The entries still to be flushed from the given blocks. */
  ghost function Pending(c: Cache, per: nat, blocks: set<nat>): set<nat> {
    set nid | nid in c && Flushable(c, nid) && BlockOf(per, nid) in blocks
  }

  /** A nid cached as NEW_ADDR keeps its device value. */
  ghost predicate FreshKept(s: NatState, t: NatState)
    requires AreaOk(s.a) && AreaOk(t.a)
  {
    forall nid: nat :: Fresh(s.c, nid) && HasNid(s.a, nid) && HasNid(t.a, nid) ==>
      Fresh(t.c, nid) && OnDisk(t.j, t.a, nid) == OnDisk(s.j, s.a, nid)
  }

  // ------------------------------------------------------------------ the code

  /** Nobody's holding and no count has changed. */
  ghost predicate Same(f: FreeIds, g: FreeIds) { Held(g) == Held(f) && g.available == f.available }

  class NodeManager {
    const jmax: nat
    var nat_: NatState
    var ids: FreeIds
    var dirtyCnt: int

    ghost predicate MidFlush()
      reads this
    {
      Mid(nat_, ids, jmax) && dirtyCnt == |DirtyNids(nat_.c)|
    }

    ghost predicate Valid()
      reads this
    {
      Between(nat_, ids, jmax) && dirtyCnt == |DirtyNids(nat_.c)|
    }

    /** After a mount nothing is cached; `available` is the number of nids that are not in use. */
    constructor (a: Area, j: seq<JEntry>, jmax: nat, available: int)
      requires AreaOk(a) && JournalOk(j, a, jmax)
      ensures Valid() && nat_ == NatState(map[], map[], j, a) && Held(ids) == {} && this.jmax == jmax
      ensures ids.available == available
    {
      this.jmax := jmax;
      nat_ := NatState(map[], map[], j, a);
      ids := FreeIds(map[], [], 0, 0, {}, {}, available);
      dirtyCnt := 0;
    }

    /** f2fs_get_node_info; `ok` is whether the cache entry could be allocated. */
    method GetNodeInfo(nid: nat, ok: bool) returns (ni: Info)
      requires Valid() && HasNid(nat_.a, nid)
      modifies this`nat_
      ensures Valid() && SameView(old(nat_), nat_)
      ensures ni == ViewOf(old(nat_), nid)
      ensures nat_ == if ok && nid !in old(nat_).c
                      then old(nat_).(c := old(nat_).c[nid := Entry(ni, false, true, false)]) else old(nat_)
    {
      if nid in nat_.c {
        return nat_.c[nid].info;
      }
      var i := LookupJournal(nat_.j, nid);
      ni := if i >= 0 then nat_.j[i].info else InBlock(nat_.a, nid);
      if ok {
        FillOk(nat_, ids, jmax, nid, ni);
        nat_ := nat_.(c := nat_.c[nid := Entry(ni, false, true, false)]);
      }
    }

    /** One entry of f2fs_try_to_free_nats: only clean entries are on its list. */
    method EvictClean(nid: nat)
      requires Valid() && nid in nat_.c && !nat_.c[nid].dirty
      modifies this`nat_
      ensures Valid() && SameView(old(nat_), nat_) && nat_ == old(nat_).(c := old(nat_).c - {nid})
    {
      EvictOk(nat_, ids, jmax, nid);
      nat_ := nat_.(c := nat_.c - {nid});
    }

    /** set_node_addr.  The caller passes the information it read; a nid becomes NEW_ADDR only once it is off the
        list of free nids, in the hands of the caller f2fs_alloc_nid gave it to or of recovery.  Recovery looks at
        the address alone; where a release of the nid still waits to be flushed, the count of its set is wrong from
        then on. */
    method SetNodeAddr(nid: nat, ni: Info, addr: nat)
      requires Valid() && HasNid(nat_.a, nid) && ni.blk == ViewOf(nat_, nid).blk
      requires addr == NEW_ADDR ==> ni.blk == NULL_ADDR && !IsFree(ids, nid)
      requires ni.blk == NULL_ADDR ==> addr == NEW_ADDR
      modifies this`nat_, this`dirtyCnt
      ensures Valid() <==> !(addr == NEW_ADDR && Flushable(old(nat_).c, nid))
      ensures nat_ == SetAddr(old(nat_), nid, ni, addr) && dirtyCnt == |DirtyNids(nat_.c)|
      ensures nat_.a == old(nat_).a && ViewOf(nat_, nid).blk == addr
      ensures forall m: nat :: m != nid && HasNid(nat_.a, m) ==> ViewOf(nat_, m) == ViewOf(old(nat_), m)
    {
      SetAddrOk(nat_, ids, nid, ni, addr, jmax);
      if !(nid in nat_.c && nat_.c[nid].dirty) {
        dirtyCnt := dirtyCnt + 1;
      }
      nat_ := SetAddr(nat_, nid, ni, addr);
    }

    /** One journal entry moves to the cache. */
    method RemoveNext(i: nat)
      requires MidFlush() && i < |nat_.j|
      modifies this
      ensures nat_ == RemoveOne(old(nat_), old(nat_).j[i].nid, old(nat_).j[i].info)
      ensures MidFlush() && ids.tree == old(ids).tree && Steady(old(nat_), old(ids), nat_, ids)
    {
      var e := nat_.j[i];
      var dirty := e.nid in nat_.c && nat_.c[e.nid].dirty;
      var available := if !dirty && e.info.blk == NULL_ADDR then ids.available - 1 else ids.available;
      RemoveNextOk(nat_, ids, i, jmax, available);
      ids, nat_ := ids.(available := available), RemoveOne(nat_, e.nid, e.info);
      dirtyCnt := dirtyCnt + if dirty then 0 else 1;
    }

    /** remove_nats_in_journal */
    method RemoveNatsInJournal()
      requires MidFlush()
      modifies this
      ensures MidFlush() && SameView(old(nat_), nat_) && nat_.j == [] && nat_.a == old(nat_).a
      ensures Held(ids) == Held(old(ids)) && ids.tree == old(ids).tree && Steady(old(nat_), old(ids), nat_, ids)
      ensures forall m: nat :: Fresh(nat_.c, m) <==> Fresh(old(nat_).c, m)
    {
      var i := 0;
      ghost var s0 := nat_;
      while i < |nat_.j|
        invariant 0 <= i <= |nat_.j| && MidFlush() && Removed(s0, nat_, i)
        invariant ids.tree == old(ids).tree && Steady(s0, old(ids), nat_, ids)
      {
        RemovedStep(s0, nat_, i, jmax);
        RemoveNext(i);
        i := i + 1;
      }
      DropJournalOk(nat_, jmax);
      DropJournalMid(nat_, ids, jmax);
      SameVacant(nat_, nat_.(j := []));
      nat_ := nat_.(j := []);
    }

    /** __flush_nat_entry_set.  Entries go to the journal when the whole set fits, else to
        the next copy of their block; the set, which ends empty, goes too. */
    method FlushEntrySet(b: nat, natBits: bool)
      requires MidFlush() && b in nat_.sets
      requires || (forall nid: nat :: nid in FlushSet(nat_.c, nat_.a.per, b) ==> !InJournal(nat_.j, nid))
               || (!natBits && |nat_.j| + |FlushSet(nat_.c, nat_.a.per, b)| <= jmax)
      modifies this
      ensures MidFlush() && FlushProg(old(nat_), nat_, b, {}) && nat_.sets.Keys == old(nat_).sets.Keys - {b}
      ensures Held(ids) == old(Held(ids)) && Freed(old(ids), ids, old(nat_).c, nat_.c)
      ensures Steady(old(nat_), old(ids), nat_, ids)
      ensures !natBits && |old(nat_).j| + |FlushSet(old(nat_).c, old(nat_).a.per, b)| <= jmax ==> nat_.a == old(nat_).a
    {
      assert SetOk(nat_.c, nat_.a.per, b, nat_.sets[b]);
      ghost var s0 := nat_;
      var toJournal := ToJournal(nat_, b, natBits, jmax);
      if !toJournal {
        NextCopy(b);
        SwitchDisk(s0, b);
      }
      FlushEntries(b, toJournal, s0);
      assert SetOk(nat_.c, nat_.a.per, b, nat_.sets[b]);
      if nat_.sets[b].cnt == 0 {
        DropEmpty(b);
      }
    }

    /** get_next_nat_page */
    method NextCopy(b: nat)
      requires MidFlush()
      modifies this`nat_
      ensures AreaOk(old(nat_).a) && nat_ == old(nat_).(a := SwitchBlock(old(nat_).a, b))
      ensures MidFlush() && Steady(old(nat_), ids, nat_, ids)
    {
      SwitchMid(nat_, ids, b, jmax);
      SwitchDisk(nat_, b);
      SameVacant(nat_, nat_.(a := SwitchBlock(nat_.a, b)));
      nat_ := nat_.(a := SwitchBlock(nat_.a, b));
    }

    method DropEmpty(b: nat)
      requires MidFlush() && b in nat_.sets && FlushSet(nat_.c, nat_.a.per, b) == {}
      modifies this`nat_
      ensures nat_ == old(nat_).(sets := old(nat_).sets - {b}) && MidFlush() && Steady(old(nat_), ids, nat_, ids)
    {
      DropSet(nat_, ids, b, jmax);
      SameVacant(nat_, nat_.(sets := nat_.sets - {b}));
      nat_ := nat_.(sets := nat_.sets - {b});
    }

    /** The loop over the entries of the set; the room test makes the slot check pass every time. */
    method FlushEntries(b: nat, toJournal: bool, ghost s0: NatState)
      requires MidFlush() && b in nat_.sets && FlushProg(s0, nat_, b, FlushSet(nat_.c, nat_.a.per, b))
      requires nat_.j == s0.j && nat_.c == s0.c
      requires if toJournal then |nat_.j| + |FlushSet(nat_.c, nat_.a.per, b)| <= jmax
               else forall nid: nat :: nid in FlushSet(nat_.c, nat_.a.per, b) ==> !InJournal(nat_.j, nid)
      modifies this
      ensures MidFlush() && FlushProg(s0, nat_, b, {}) && nat_.sets.Keys == old(nat_).sets.Keys
      ensures Held(ids) == old(Held(ids)) && Freed(old(ids), ids, old(nat_).c, nat_.c)
      ensures Steady(old(nat_), old(ids), nat_, ids)
      ensures toJournal ==> nat_.a == old(nat_).a
    {
      assert SetOk(nat_.c, nat_.a.per, b, nat_.sets[b]);
      var rest := nat_.sets[b].nids;
      while rest != {}
        invariant MidFlush() && Held(ids) == old(Held(ids)) && nat_.sets.Keys == old(nat_).sets.Keys
        invariant Round(s0, nat_, b, rest, toJournal, jmax, old(ids), ids)
        invariant toJournal ==> nat_.a == old(nat_).a
        invariant Steady(old(nat_), old(ids), nat_, ids)
        decreases rest
      {
        var nid :| nid in rest;
        // the slot check of the journal branch cannot fail
        RoundStep(s0, nat_, b, rest, nid, toJournal, jmax, old(ids), ids);
        FlushNext(nid, toJournal);
        rest := rest - {nid};
      }
    }

    /** One entry of the set. */
    method FlushNext(nid: nat, toJournal: bool)
      requires MidFlush() && Flushable(nat_.c, nid)
      requires if toJournal then |nat_.j| < jmax else !InJournal(nat_.j, nid)
      modifies this
      ensures BlockOf(old(nat_).a.per, nid) in old(nat_).sets && AreaOk(old(nat_).a) && HasNid(old(nat_).a, nid)
      ensures nat_ == FlushOne(old(nat_), nid, toJournal)
      ensures ids == FlushIds(old(ids), old(nat_).a.per, nid, old(nat_).c[nid].info.blk)
      ensures MidFlush() && Held(ids) == old(Held(ids)) && Steady(old(nat_), old(ids), nat_, ids)
    {
      ghost var s, f := nat_, ids;
      FlushIdsOk(s, f, nid, toJournal, jmax);
      FlushSteady(s, f, nid, toJournal, jmax);
      assert Held(FlushIds(f, s.a.per, nid, s.c[nid].info.blk)) == Held(f) by {
        FlushIdsShape(f, s.a.per, nid, s.c[nid].info.blk);
      }
      assert |DirtyNids(FlushOne(s, nid, toJournal).c)| == |DirtyNids(s.c)| - 1 by {
        assert OnlyDiffers(s.c, FlushOne(s, nid, toJournal).c, nid);
        DirtyChange(s.c, FlushOne(s, nid, toJournal).c, nid);
      }
      ids := FlushIds(ids, nat_.a.per, nid, nat_.c[nid].info.blk);
      nat_ := FlushOne(nat_, nid, toJournal);
      dirtyCnt := dirtyCnt - 1;
    }

    /** f2fs_flush_nat_entries.  Sets may be flushed in any order. */
    method FlushNatEntries(natBits: bool) returns (emptied: bool)
      requires Valid()
      modifies this
      ensures Valid() && SameView(old(nat_), nat_) && Held(ids) == old(Held(ids))
      ensures forall nid: nat :: !Flushable(nat_.c, nid)
      ensures Steady(old(nat_), old(ids), nat_, ids)
      ensures emptied <==> WillEmpty(old(nat_), jmax, natBits)
      ensures FlushedDisk(old(nat_), nat_, emptied)
      ensures !emptied ==> nat_.a == old(nat_).a && Freed(old(ids), ids, old(nat_).c, nat_.c)
      ensures forall nid: nat :: HasNid(old(nat_).a, nid) && Fresh(old(nat_).c, nid) ==>
                (OnDisk(nat_.j, nat_.a, nid) == OnDisk(old(nat_).j, old(nat_).a, nid) <==>
                  !Resurfaces(old(nat_), jmax, natBits, nid))
    {
      emptied := false;
      if dirtyCnt == 0 {
        NoDirty(nat_.c);
        return;
      }
      ghost var s0 := nat_;
      if natBits || !(dirtyCnt <= jmax - |nat_.j|) {
        RemoveNatsInJournal();
        emptied := true;
      }
      ghost var s1 := nat_;
      PendingBound(nat_.c, nat_.a.per, nat_.sets.Keys);
      FlushSets(emptied, natBits);
      SameViewTrans(s0, s1, nat_);
      FlushDone(s0, s1, nat_, ids, emptied, jmax);
      ResurfaceExact(s0, nat_, emptied, jmax, natBits);
    }

    /** The loop over the dirty sets. */
    method FlushSets(ghost emptied: bool, natBits: bool)
      requires MidFlush() && Room(nat_, nat_.sets.Keys, emptied, natBits, jmax)
      modifies this
      ensures MidFlush() && Shown(old(nat_), nat_) && Held(ids) == old(Held(ids))
      ensures forall nid: nat :: !Flushable(nat_.c, nid)
      ensures Steady(old(nat_), old(ids), nat_, ids)
      ensures !emptied ==> nat_.a == old(nat_).a && Freed(old(ids), ids, old(nat_).c, nat_.c)
    {
      while nat_.sets != map[]
        invariant MidFlush() && Shown(old(nat_), nat_) && Held(ids) == old(Held(ids))
        invariant Room(nat_, nat_.sets.Keys, emptied, natBits, jmax) && Steady(old(nat_), old(ids), nat_, ids)
        invariant !emptied ==> nat_.a == old(nat_).a && Freed(old(ids), ids, old(nat_).c, nat_.c)
        decreases nat_.sets.Keys
      {
        var b :| b in nat_.sets;
        FlushOneSet(b, natBits, emptied, old(nat_), old(ids));
      }
    }

    /** One round of that loop. */
    method FlushOneSet(b: nat, natBits: bool, ghost emptied: bool, ghost s1: NatState, ghost f1: FreeIds)
      requires MidFlush() && b in nat_.sets && Shown(s1, nat_) && Room(nat_, nat_.sets.Keys, emptied, natBits, jmax)
      requires CacheOk(s1.c, s1.j, s1.a) && (!emptied ==> Freed(f1, ids, s1.c, nat_.c))
      modifies this
      ensures MidFlush() && Shown(s1, nat_) && Held(ids) == old(Held(ids))
      ensures nat_.sets.Keys == old(nat_).sets.Keys - {b}
      ensures Room(nat_, nat_.sets.Keys, emptied, natBits, jmax) && Steady(old(nat_), old(ids), nat_, ids)
      ensures !emptied ==> nat_.a == old(nat_).a && Freed(f1, ids, s1.c, nat_.c)
    {
      ghost var s, f := nat_, ids;
      RoomForSet(s, s.sets.Keys, b, emptied, natBits, jmax);
      FlushEntrySet(b, natBits);
      RoomStep(s, nat_, s.sets.Keys, b, emptied, natBits, jmax);
      ShownTrans(s1, s, nat_);
      if !emptied { FreedTrans(f1, f, ids, s1, s, nat_); }
    }

    /** One try of f2fs_alloc_nid; `building` is on_build_free_nids.  None is out of nids, or none on the list or a
        build under way (the caller then builds and tries again).  The nid handed out is unused and nobody else holds
        it. */
    method AllocNid(building: bool) returns (r: Option<nat>)
      requires Valid()
      modifies this`ids
      ensures Valid()
      ensures r.None? <==> old(ids).available == 0 || old(ids).list == [] || building
      ensures r.None? ==> ids == old(ids)
      ensures r.Some? ==> HasNid(nat_.a, r.value) && ViewOf(nat_, r.value).blk == NULL_ADDR && r.value != 0
      ensures r.Some? ==> r.value !in old(Held(ids)) && Held(ids) == old(Held(ids)) + {r.value}
      ensures r.Some? ==> r.value in nat_.c ==> !nat_.c[r.value].dirty
      ensures Steady(nat_, old(ids), nat_, ids)
    {
      if ids.available == 0 {
        return None;
      }
      if ids.nFree == 0 || building {
        return None;
      }
      var n := ids.list[0];
      assert n in ids.list;
      MoveIdOk(ids, n);
      ghost var f := ids;
      var g := MoveId(ids, n);
      ids := SetBit(g.(available := g.available - 1), nat_.a.per, n, false);
      assert Held(ids) == Held(g);
      FewerFree(f, ids, nat_);
      return Some(n);
    }

    /** f2fs_alloc_nid_done */
    method AllocNidDone(n: nat)
      requires Valid() && n in Held(ids)
      modifies this`ids
      ensures Valid() && Held(ids) == old(Held(ids)) - {n} && ids.available == old(ids).available
    {
      RemoveIdOk(ids, n);
      FewerFree(ids, RemoveId(ids, n), nat_);
      ids := RemoveId(ids, n);
    }

    /** f2fs_alloc_nid_failed for a nid that was not used; `memory` is f2fs_available_free_memory. */
    method AllocNidFailed(n: nat, memory: bool)
      requires Valid() && (n != 0 ==> n in Held(ids) && Unused(nat_, n))
      modifies this`ids
      ensures Valid() && Held(ids) == if n == 0 then old(Held(ids)) else old(Held(ids)) - {n}
      ensures n == 0 ==> ids == old(ids)
      ensures Steady(nat_, old(ids), nat_, ids)
      ensures n != 0 ==> (IsFree(ids, n) <==> memory) && ids.available == old(ids).available + 1
    {
      if n == 0 {
        return;
      }
      RemoveIdOk(ids, n);
      MoveIdOk(ids, n);
      var g := if !memory then RemoveId(ids, n) else MoveId(ids, n);
      var h := SetBit(g.(available := g.available + 1), nat_.a.per, n, true);
      assert Held(h) == Held(g);
      GiveBackOk(ids, h, nat_, n);
      ids := h;
    }

    /** remove_free_nid */
    method RemoveFreeNid(n: nat)
      requires Valid()
      modifies this`ids
      ensures Valid() && !IsFree(ids, n) && Held(ids) == old(Held(ids)) && ids.available == old(ids).available
    {
      if n in ids.tree && ids.tree[n].Free? {
        RemoveIdOk(ids, n);
        FewerFree(ids, RemoveId(ids, n), nat_);
        ids := RemoveId(ids, n);
      }
    }

    /** What holds inside a build: a nid may be marked free although the journal says it is in use. */
    ghost predicate Building()
      reads this
    {
      && NatOk(nat_, jmax) && FreedUncheckpointed(nat_.c) && dirtyCnt == |DirtyNids(nat_.c)|
      && IdsOk(ids) && BuildFree(ids, nat_) && BitsOk(ids, nat_)
    }

    /** add_free_nid with `build` set. */
    method AddFreeNid(n: nat, update: bool) returns (ret: bool)
      requires Building() && Candidate(nat_, n) && (update ==> InBlock(nat_.a, n).blk == NULL_ADDR)
      modifies this`ids
      ensures Building() && Same(old(ids), ids) && ids.scanned == old(ids).scanned
      ensures forall m: nat :: IsFree(ids, m) ==> IsFree(old(ids), m) || m == n
    {
      if n == 0 {
        return false;
      }
      ghost var f := ids;
      InsertFreeOk(ids, n);
      ret := false;
      if n in nat_.c && (!nat_.c[n].checkpointed || nat_.c[n].info.blk != NULL_ADDR) {
        // in use according to the cache
      } else if n in ids.tree {
        ret := ids.tree[n].Free?;
      } else {
        ret := true;
        ids := InsertFree(ids, n);
      }
      if update {
        ids := SetBit(ids, nat_.a.per, n, ret);
      }
      assert Held(ids) == Held(f);
      AddFreeOk(f, ids, nat_, n);
    }

    /** One nid of scan_nat_page. */
    method ScanNid(n: nat)
      requires Building() && HasNid(nat_.a, n)
      modifies this`ids
      ensures Building() && Same(old(ids), ids)
    {
      if InBlock(nat_.a, n).blk == NULL_ADDR {
        var r := AddFreeNid(n, true);
      } else {
        FewerBits(ids, SetBit(ids, nat_.a.per, n, false), nat_);
        ids := SetBit(ids, nat_.a.per, n, false);
      }
    }

    /** scan_nat_page: the nids of block b from `from` on. */
    method ScanNatPage(b: nat, from: nat)
      requires Building()
      modifies this`ids
      ensures Building() && Same(old(ids), ids)
    {
      FewerBits(ids, ids.(scanned := ids.scanned + {b}), nat_);
      ids := ids.(scanned := ids.scanned + {b});
      var rest := set n | n in nat_.a.first && BlockOf(nat_.a.per, n) == b && from <= n;
      while rest != {}
        invariant Building() && Same(old(ids), ids)
        invariant forall n: nat :: n in rest ==> HasNid(nat_.a, n)
        decreases rest
      {
        var n :| n in rest;
        ScanNid(n);
        rest := rest - {n};
      }
    }

    /** scan_free_nid_bits without its journal pass; `visited` are the bits looked at before it had enough. */
    method ScanFreeNidBits(visited: set<nat>)
      requires Building() && visited <= ids.bits
      modifies this`ids
      ensures Building() && Same(old(ids), ids)
    {
      var rest := visited;
      while rest != {}
        invariant Building() && Same(old(ids), ids)
        invariant forall n: nat :: n in rest ==> BitOk(nat_, n)
        decreases rest
      {
        var n :| n in rest;
        if n in nat_.c && (!nat_.c[n].checkpointed || nat_.c[n].info.blk != NULL_ADDR) {
          // add_free_nid refuses it
        } else {
          var r := AddFreeNid(n, false);
        }
        rest := rest - {n};
      }
    }

    /** One journal entry of scan_curseg_cache. */
    method ScanEntry(i: nat)
      requires Building() && i < |nat_.j| && Screened(ids, nat_, i)
      modifies this`ids
      ensures Building() && Same(old(ids), ids) && Screened(ids, nat_, i + 1)
    {
      var n := nat_.j[i].nid;
      ghost var f := ids;
      if nat_.j[i].info.blk == NULL_ADDR {
        JGetAt(nat_.j, i);
        var r := AddFreeNid(n, false);
        ScreenedStep(f, ids, nat_, i);
      } else {
        RemoveFree(n);
        ScreenedStep(f, ids, nat_, i);
      }
    }

    /** remove_free_nid during a build. */
    method RemoveFree(n: nat)
      requires Building()
      modifies this`ids
      ensures Building() && Same(old(ids), ids) && !IsFree(ids, n)
      ensures forall m: nat :: IsFree(ids, m) ==> IsFree(old(ids), m)
    {
      if n in ids.tree && ids.tree[n].Free? {
        RemoveIdOk(ids, n);
        FewerBuild(ids, RemoveId(ids, n), nat_);
        ids := RemoveId(ids, n);
      }
    }

    /** scan_curseg_cache: the journal has the last word on what the blocks suggested. */
    method ScanJournal()
      requires Building()
      modifies this`ids
      ensures Valid() && Same(old(ids), ids)
    {
      var i := 0;
      while i < |nat_.j|
        invariant 0 <= i <= |nat_.j| && Building() && Same(old(ids), ids) && Screened(ids, nat_, i)
      {
        ScanEntry(i);
        i := i + 1;
      }
      BuildDone(ids, nat_);
    }

    /** f2fs_build_free_nids: bits, journal, a few NAT blocks, journal again. */
    method BuildFreeNids(visited: set<nat>, pages: seq<(nat, nat)>)
      requires Valid() && visited <= ids.bits
      modifies this`ids
      ensures Valid() && Same(old(ids), ids)
    {
      ScanFreeNidBits(visited);
      ScanJournal();
      for i := 0 to |pages|
        invariant Building() && Same(old(ids), ids)
      {
        if pages[i].0 !in ids.scanned {
          ScanNatPage(pages[i].0, pages[i].1);
        }
      }
      ScanJournal();
    }
  }

  /** The blocks or the journal know this nid, and nothing but the journal can say it is in use. */
  ghost predicate Candidate(s: NatState, n: nat) {
    AreaOk(s.a) && HasNid(s.a, n) && (n in s.c || InJournal(s.j, n) || InBlock(s.a, n).blk == NULL_ADDR)
  }

  ghost predicate BuildFree(f: FreeIds, s: NatState) {
    && AreaOk(s.a)
    && forall n: nat :: IsFree(f, n) ==>
         && n != 0 && HasNid(s.a, n)
         && (if n in s.c then !s.c[n].dirty && s.c[n].info.blk == NULL_ADDR
             else InJournal(s.j, n) || InBlock(s.a, n).blk == NULL_ADDR)
  }

  lemma AddFreeOk(f: FreeIds, g: FreeIds, s: NatState, n: nat)
    requires BuildFree(f, s) && BitsOk(f, s) && FreedUncheckpointed(s.c) && Candidate(s, n) && n != 0
    requires forall m: nat :: IsFree(g, m) ==>
               IsFree(f, m) || (m == n && (n in s.c ==> s.c[n].checkpointed && s.c[n].info.blk == NULL_ADDR))
    requires g.scanned == f.scanned
    requires g.bits <= f.bits ||
             (g.bits == f.bits + {n} && BlockOf(s.a.per, n) in f.scanned && InBlock(s.a, n).blk == NULL_ADDR)
    ensures BuildFree(g, s) && BitsOk(g, s)
  {
  }

  /** No nid that one of the first i journal entries says is in use is marked free. */
  ghost predicate Screened(f: FreeIds, s: NatState, i: nat) {
    forall k :: 0 <= k < i <= |s.j| && s.j[k].info.blk != NULL_ADDR && s.j[k].nid !in s.c ==> !IsFree(f, s.j[k].nid)
  }

  lemma ScreenedStep(f: FreeIds, g: FreeIds, s: NatState, i: nat)
    requires Screened(f, s, i) && i < |s.j| && Distinct(s.j)
    requires forall m: nat :: IsFree(g, m) ==> IsFree(f, m) || m == s.j[i].nid
    requires s.j[i].info.blk != NULL_ADDR ==> !IsFree(g, s.j[i].nid)
    ensures Screened(g, s, i + 1)
  {
  }

  lemma BuildDone(f: FreeIds, s: NatState)
    requires BuildFree(f, s) && AreaOk(s.a)
    requires Screened(f, s, |s.j|)
    ensures FreeUnused(f, s) && FreeClean(f, s)
  {
    forall n: nat | IsFree(f, n) ensures ViewOf(s, n).blk == NULL_ADDR {
      if n !in s.c && InJournal(s.j, n) {
        assert s.j[Slot(s.j, n)].nid == n;
      }
    }
  }

  /** Clearing bits, or marking a block as read, changes nothing about the free nids. */
  lemma FewerBits(f: FreeIds, g: FreeIds, s: NatState)
    requires IdsOk(f) && BuildFree(f, s) && BitsOk(f, s)
    requires g == f.(bits := g.bits, scanned := g.scanned) && g.bits <= f.bits && f.scanned <= g.scanned
    ensures IdsOk(g) && BuildFree(g, s) && BitsOk(g, s) && Held(g) == Held(f)
  {
    assert forall n: nat :: IsFree(g, n) == IsFree(f, n);
  }

  lemma FewerBuild(f: FreeIds, g: FreeIds, s: NatState)
    requires BuildFree(f, s) && BitsOk(f, s)
    requires forall n: nat :: IsFree(g, n) ==> IsFree(f, n)
    requires g.bits <= f.bits && g.scanned == f.scanned
    ensures BuildFree(g, s) && BitsOk(g, s)
  {
  }

  lemma FewerFree(f: FreeIds, g: FreeIds, s: NatState)
    requires FreeUnused(f, s) && FreeClean(f, s) && BitsOk(f, s)
    requires forall n: nat :: IsFree(g, n) ==> IsFree(f, n)
    requires g.bits <= f.bits && g.scanned == f.scanned
    ensures FreeUnused(g, s) && FreeClean(g, s) && BitsOk(g, s)
  {
  }

  /** No node has the nid, and no change of it waits to be flushed. */
  ghost predicate Unused(s: NatState, n: nat) {
    n != 0 && AreaOk(s.a) && HasNid(s.a, n) && ViewOf(s, n).blk == NULL_ADDR && (n in s.c ==> !s.c[n].dirty)
  }

  // ------------------------------------------------------------------ the count of available nids

  /** The nids that no node has. */
  ghost function Vacant(s: NatState): set<nat> { set n | n in s.a.first && Unused(s, n) }

  /** By how much available_nids is above the number of vacant nids that nobody holds. */
  ghost function Drift(s: NatState, f: FreeIds): int { f.available + |Held(f)| - |Vacant(s)| }

  /** The count has kept up; nid 0 belongs to no node. */
  ghost predicate Steady(s: NatState, f: FreeIds, t: NatState, g: FreeIds) {
    t.a.first.Keys == s.a.first.Keys && (0 !in s.a.first ==> Drift(t, g) == Drift(s, f))
  }

  lemma VacantChange(s: NatState, t: NatState, nid: nat)
    requires t.a.first.Keys == s.a.first.Keys && forall n: nat :: n != nid ==> (Unused(t, n) <==> Unused(s, n))
    ensures |Vacant(t)| == |Vacant(s)| - (if Unused(s, nid) then 1 else 0) + (if Unused(t, nid) then 1 else 0)
  {
    assert Vacant(t) - {nid} == Vacant(s) - {nid};
    OneApart(Vacant(s), Vacant(t), nid);
  }

  lemma OneApart(a: set<nat>, b: set<nat>, x: nat)
    requires b - {x} == a - {x}
    ensures |b| == |a| - (if x in a then 1 else 0) + (if x in b then 1 else 0)
  {
    var rest := a - {x};
    assert a == if x in a then rest + {x} else rest;
    assert b == if x in b then rest + {x} else rest;
  }

  lemma SameVacant(s: NatState, t: NatState)
    requires SameView(s, t) && t.c == s.c
    ensures Vacant(t) == Vacant(s)
  {
    forall n: nat | n in s.a.first ensures Unused(t, n) <==> Unused(s, n) {
      assert ViewOf(t, n) == ViewOf(s, n);
    }
  }

  /** A freed nid counts as available once its release is flushed. */
  lemma FlushSteady(s: NatState, f: FreeIds, nid: nat, toJournal: bool, jmax: nat)
    requires Mid(s, f, jmax) && Flushable(s.c, nid)
    requires if toJournal then InJournal(s.j, nid) || |s.j| < jmax else !InJournal(s.j, nid)
    ensures BlockOf(s.a.per, nid) in s.sets
    ensures Steady(s, f, FlushOne(s, nid, toJournal), FlushIds(f, s.a.per, nid, s.c[nid].info.blk))
  {
    FlushOneOk(s, nid, toJournal, jmax);
    var t := FlushOne(s, nid, toJournal);
    FlushIdsShape(f, s.a.per, nid, s.c[nid].info.blk);
    forall n: nat | n != nid ensures Unused(t, n) <==> Unused(s, n) {
      if HasNid(s.a, n) { assert ViewOf(t, n) == ViewOf(s, n); }
    }
    VacantChange(s, t, nid);
  }

  /** One that comes out of the journal to be flushed again does not count meanwhile. */
  lemma RemoveSteady(s: NatState, f: FreeIds, i: nat, jmax: nat, available: int)
    requires NatOk(s, jmax) && i < |s.j|
    requires var e := s.j[i];
             available == f.available - if !(e.nid in s.c && s.c[e.nid].dirty) && e.info.blk == NULL_ADDR then 1 else 0
    ensures Steady(s, f, RemoveOne(s, s.j[i].nid, s.j[i].info), f.(available := available))
  {
    RemoveOneOk(s, i, jmax);
    JGetAt(s.j, i);
    var nid := s.j[i].nid;
    var t := RemoveOne(s, nid, s.j[i].info);
    forall n: nat | n != nid ensures Unused(t, n) <==> Unused(s, n) {
      if HasNid(s.a, n) { assert ViewOf(t, n) == ViewOf(s, n); }
    }
    VacantChange(s, t, nid);
    assert Held(f.(available := available)) == Held(f);
  }

  lemma RemoveNextOk(s: NatState, f: FreeIds, i: nat, jmax: nat, available: int)
    requires Mid(s, f, jmax) && i < |s.j|
    requires var e := s.j[i];
             available == f.available - if !(e.nid in s.c && s.c[e.nid].dirty) && e.info.blk == NULL_ADDR then 1 else 0
    ensures var e := s.j[i];
            var t := RemoveOne(s, e.nid, e.info);
            && Mid(t, f.(available := available), jmax) && Steady(s, f, t, f.(available := available))
            && |DirtyNids(t.c)| == |DirtyNids(s.c)| + if e.nid in s.c && s.c[e.nid].dirty then 0 else 1
  {
    var e := s.j[i];
    RemoveIdsOk(s, f, i, jmax, available);
    RemoveSteady(s, f, i, jmax, available);
    RemoveOneMono(s, e.nid, e.info);
    DirtyChange(s.c, RemoveOne(s, e.nid, e.info).c, e.nid);
  }

  lemma GiveBackOk(f: FreeIds, g: FreeIds, s: NatState, n: nat)
    requires FreeUnused(f, s) && FreeClean(f, s) && BitsOk(f, s) && CacheOk(s.c, s.j, s.a)
    requires forall m: nat :: IsFree(g, m) ==> IsFree(f, m) || m == n
    requires g.scanned == f.scanned
    requires g.bits == f.bits || (g.bits == f.bits + {n} && BlockOf(s.a.per, n) in f.scanned)
    requires n != 0 && HasNid(s.a, n) && ViewOf(s, n).blk == NULL_ADDR && (n in s.c ==> !s.c[n].dirty)
    ensures FreeUnused(g, s) && FreeClean(g, s) && BitsOk(g, s)
  {
    assert OnDisk(s.j, s.a, n).blk == NULL_ADDR;
    assert BitOk(s, n);
  }

  lemma ShownTrans(s: NatState, t: NatState, u: NatState)
    requires SameView(s, t) && SameView(t, u) && FreshKept(s, t) && FreshKept(t, u)
    ensures SameView(s, u) && FreshKept(s, u)
  {
    SameViewTrans(s, t, u);
  }

  lemma NoDirty(c: Cache)
    requires |DirtyNids(c)| == 0
    ensures forall nid: nat :: nid in c ==> !c[nid].dirty
  {
    forall nid: nat | nid in c ensures !c[nid].dirty {
      assert nid !in DirtyNids(c);
    }
  }

  lemma PendingBound(c: Cache, per: nat, blocks: set<nat>)
    ensures |Pending(c, per, blocks)| <= |DirtyNids(c)|
  {
    assert Pending(c, per, blocks) <= DirtyNids(c);
    SubsetCard(Pending(c, per, blocks), DirtyNids(c));
  }

  /** Why a set may be written where it goes: either the journal was emptied and holds none of
      the entries still to come, or it has room for all of them. */
  ghost predicate Room(s: NatState, pending: set<nat>, emptied: bool, natBits: bool, jmax: nat) {
    if emptied
    then forall nid: nat :: Flushable(s.c, nid) && BlockOf(s.a.per, nid) in pending ==> !InJournal(s.j, nid)
    else !natBits && |s.j| + |Pending(s.c, s.a.per, pending)| <= jmax
  }

  lemma PendingSplit(c: Cache, per: nat, pending: set<nat>, b: nat)
    requires b in pending
    ensures |Pending(c, per, pending)| == |FlushSet(c, per, b)| + |Pending(c, per, pending - {b})|
  {
    assert Pending(c, per, pending) == FlushSet(c, per, b) + Pending(c, per, pending - {b});
    assert FlushSet(c, per, b) !! Pending(c, per, pending - {b});
  }

  lemma RoomForSet(s: NatState, pending: set<nat>, b: nat, emptied: bool, natBits: bool, jmax: nat)
    requires b in pending && Room(s, pending, emptied, natBits, jmax)
    ensures || (forall nid: nat :: nid in FlushSet(s.c, s.a.per, b) ==> !InJournal(s.j, nid))
            || (!natBits && |s.j| + |FlushSet(s.c, s.a.per, b)| <= jmax)
    ensures !emptied ==> !natBits && |s.j| + |FlushSet(s.c, s.a.per, b)| <= jmax
  {
    PendingSplit(s.c, s.a.per, pending, b);
  }

  lemma RoomStep(s: NatState, t: NatState, pending: set<nat>, b: nat, emptied: bool, natBits: bool, jmax: nat)
    requires b in pending && Room(s, pending, emptied, natBits, jmax)
    requires SetsProg(s, t, b, {}) && JournalProg(s, t, b, {}) && s.a.per == t.a.per
    requires forall nid: nat :: Flushable(s.c, nid) ==> BlockOf(s.a.per, nid) in pending
    ensures Room(t, pending - {b}, emptied, natBits, jmax)
    ensures forall nid: nat :: Flushable(t.c, nid) ==> BlockOf(t.a.per, nid) in pending - {b}
  {
    var per := s.a.per;
    forall nid: nat | Flushable(t.c, nid)
      ensures BlockOf(per, nid) in pending - {b} && Flushable(s.c, nid)
    {
      assert nid in FlushSet(t.c, per, BlockOf(per, nid));
    }
    forall nid: nat | Flushable(s.c, nid) && BlockOf(per, nid) != b ensures Flushable(t.c, nid) {
      assert nid in FlushSet(s.c, per, BlockOf(per, nid));
    }
    assert Pending(t.c, per, pending - {b}) == Pending(s.c, per, pending - {b});
    PendingSplit(s.c, per, pending, b);
  }

  /** The device after a flush: the cached value for every nid that has an address; for
      a nid still waiting for one, the old device value, unless the journal
      that held it was emptied, when the older block entry shows again. */
  ghost predicate FlushedDisk(s: NatState, t: NatState, emptied: bool) {
    && AreaOk(s.a) && AreaOk(t.a) && t.a.first.Keys == s.a.first.Keys
    && forall nid: nat :: HasNid(s.a, nid) ==>
         OnDisk(t.j, t.a, nid) == if !Fresh(s.c, nid) then ViewOf(s, nid)
                                  else if emptied then InBlock(s.a, nid) else OnDisk(s.j, s.a, nid)
  }

  lemma ResurfaceExact(s: NatState, t: NatState, emptied: bool, jmax: nat, natBits: bool)
    requires FlushedDisk(s, t, emptied) && (emptied <==> WillEmpty(s, jmax, natBits))
    ensures forall nid: nat :: HasNid(s.a, nid) && Fresh(s.c, nid) ==>
              (OnDisk(t.j, t.a, nid) == OnDisk(s.j, s.a, nid) <==> !Resurfaces(s, jmax, natBits, nid))
  {
  }

  lemma FlushDone(s0: NatState, s1: NatState, t: NatState, f: FreeIds, emptied: bool, jmax: nat)
    requires AreaOk(s0.a) && SameView(s0, s1) && SameView(s0, t) && Mid(t, f, jmax) && AreaOk(s1.a) && FreshKept(s1, t)
    requires forall nid: nat :: !Flushable(t.c, nid)
    requires if emptied then s1.j == [] && s1.a == s0.a && (forall m: nat :: Fresh(s1.c, m) <==> Fresh(s0.c, m))
             else s1 == s0
    ensures FlushedDisk(s0, t, emptied) && FreeClean(f, t) && FreedUncheckpointed(t.c)
  {
    forall nid: nat | HasNid(s0.a, nid)
      ensures OnDisk(t.j, t.a, nid) == if !Fresh(s0.c, nid) then ViewOf(s0, nid)
                                       else if emptied then InBlock(s0.a, nid) else OnDisk(s0.j, s0.a, nid)
    {
      assert !Flushable(t.c, nid) && ViewOf(t, nid) == ViewOf(s0, nid);
      if Fresh(s0.c, nid) {
        assert Fresh(s1.c, nid);
      } else if nid in t.c {
        assert EntryOk(t.c[nid], t.j, t.a, nid);
      }
    }
    forall n: nat | IsFree(f, n) && n in t.c ensures !t.c[n].dirty {
      assert !Flushable(t.c, n);
    }
    forall nid: nat | nid in t.c && t.c[nid].dirty ensures t.c[nid].info.blk != NULL_ADDR {
      assert !Flushable(t.c, nid);
    }
  }

  /** Every nid shows what it showed, and unassigned ones keep their device value. */
  ghost predicate Shown(s0: NatState, s: NatState) {
    SameView(s0, s) && FreshKept(s0, s)
  }

  /** Of the set of block b, `rest` is still to be flushed; the other sets are as they were. */
  ghost predicate SetsProg(s0: NatState, s: NatState, b: nat, rest: set<nat>) {
    && rest == FlushSet(s.c, s.a.per, b) && rest <= FlushSet(s0.c, s0.a.per, b)
    && (forall k: nat :: k != b ==> FlushSet(s.c, s.a.per, k) == FlushSet(s0.c, s0.a.per, k))
  }

  /** The journal has gained only entries of the set of block b. */
  ghost predicate JournalProg(s0: NatState, s: NatState, b: nat, rest: set<nat>) {
    && |s.j| + |rest| <= |s0.j| + |FlushSet(s0.c, s0.a.per, b)|
    && (forall n: nat :: InJournal(s.j, n) ==> InJournal(s0.j, n) || n in FlushSet(s0.c, s0.a.per, b))
  }

  ghost predicate FlushProg(s0: NatState, s: NatState, b: nat, rest: set<nat>) {
    Shown(s0, s) && SetsProg(s0, s, b, rest) && JournalProg(s0, s, b, rest)
  }

  lemma FreshStep(s0: NatState, s: NatState, nid: nat, toJournal: bool)
    requires AreaOk(s0.a) && AreaOk(s.a) && s.a.first.Keys == s0.a.first.Keys && FreshKept(s0, s)
    requires HasNid(s.a, nid) && Flushable(s.c, nid) && BlockOf(s.a.per, nid) in s.sets
    requires !toJournal ==> !InJournal(s.j, nid)
    ensures AreaOk(FlushOne(s, nid, toJournal).a) && FreshKept(s0, FlushOne(s, nid, toJournal))
  {
    FlushOneArea(s, nid, toJournal);
  }

  lemma ShownStep(s0: NatState, s: NatState, nid: nat, toJournal: bool)
    requires Shown(s0, s) && Flushable(s.c, nid) && HasNid(s.a, nid) && BlockOf(s.a.per, nid) in s.sets
    requires !toJournal ==> !InJournal(s.j, nid)
    ensures Shown(s0, FlushOne(s, nid, toJournal))
  {
    FlushOneView(s, nid, toJournal);
    SameViewTrans(s0, s, FlushOne(s, nid, toJournal));
    FreshStep(s0, s, nid, toJournal);
  }

  lemma SetsProgStep(s0: NatState, s: NatState, b: nat, rest: set<nat>, nid: nat, toJournal: bool)
    requires SetsProg(s0, s, b, rest) && nid in rest
    requires AreaOk(s.a) && HasNid(s.a, nid) && BlockOf(s.a.per, nid) in s.sets
    ensures SetsProg(s0, FlushOne(s, nid, toJournal), b, rest - {nid})
    ensures |DirtyNids(FlushOne(s, nid, toJournal).c)| == |DirtyNids(s.c)| - 1
  {
    var t := FlushOne(s, nid, toJournal);
    assert OnlyDiffers(s.c, t.c, nid);
    DirtyChange(s.c, t.c, nid);
    forall k: nat ensures FlushSet(t.c, t.a.per, k) == FlushSet(s.c, s.a.per, k) - {nid} {
      FlushSetChange(s.c, t.c, s.a.per, nid, k);
    }
  }

  lemma JournalProgStep(s0: NatState, s: NatState, b: nat, rest: set<nat>, nid: nat, toJournal: bool)
    requires JournalProg(s0, s, b, rest) && nid in rest && nid in FlushSet(s0.c, s0.a.per, b)
    requires AreaOk(s.a) && HasNid(s.a, nid) && Flushable(s.c, nid) && BlockOf(s.a.per, nid) in s.sets
    ensures var t := FlushOne(s, nid, toJournal);
            JournalProg(s0, t, b, rest - {nid}) && |t.j| + |rest - {nid}| <= |s.j| + |rest|
  {
    var t := FlushOne(s, nid, toJournal);
    assert |rest| == |rest - {nid}| + 1;
    if toJournal {
      JSetGet(s.j, nid, s.c[nid].info, nid);
      forall n: nat ensures InJournal(t.j, n) ==> InJournal(s.j, n) || n == nid {
        JSetGet(s.j, nid, s.c[nid].info, n);
      }
    }
  }

  lemma FlushProgStep(s0: NatState, s: NatState, b: nat, rest: set<nat>, nid: nat, toJournal: bool, jmax: nat)
    requires FlushProg(s0, s, b, rest) && nid in rest && NatOk(s, jmax)
    requires !toJournal ==> !InJournal(s.j, nid)
    ensures Flushable(s.c, nid) && BlockOf(s.a.per, nid) in s.sets
    ensures var t := FlushOne(s, nid, toJournal);
            && FlushProg(s0, t, b, rest - {nid})
            && |t.j| + |rest - {nid}| <= |s.j| + |rest|
            && |DirtyNids(t.c)| == |DirtyNids(s.c)| - 1
  {
    assert nid in FlushSet(s.c, s.a.per, b);
    ShownStep(s0, s, nid, toJournal);
    SetsProgStep(s0, s, b, rest, nid, toJournal);
    JournalProgStep(s0, s, b, rest, nid, toJournal);
  }

  /** The first i journal entries have been moved to the cache. */
  ghost predicate Removed(s0: NatState, s: NatState, i: nat) {
    && SameView(s0, s) && s.j == s0.j && s.a == s0.a && i <= |s.j|
    && (forall k :: 0 <= k < i ==> s.j[k].nid in s.c && s.c[s.j[k].nid].dirty)
    && (forall m: nat :: Fresh(s.c, m) <==> Fresh(s0.c, m))
  }

  lemma RemoveOneMono(s: NatState, nid: nat, info: DiskInfo)
    requires CacheOk(s.c, s.j, s.a)
    ensures var t := RemoveOne(s, nid, info);
            && OnlyDiffers(s.c, t.c, nid) && nid in t.c && t.c[nid].dirty
            && (forall m: nat :: Fresh(t.c, m) <==> Fresh(s.c, m))
  {
  }

  lemma RemovedStep(s0: NatState, s: NatState, i: nat, jmax: nat)
    requires Removed(s0, s, i) && NatOk(s, jmax) && i < |s.j|
    ensures var t := RemoveOne(s, s.j[i].nid, s.j[i].info);
            && Removed(s0, t, i + 1)
            && |DirtyNids(t.c)| == |DirtyNids(s.c)| + if s.j[i].nid in s.c && s.c[s.j[i].nid].dirty then 0 else 1
  {
    var nid := s.j[i].nid;
    var t := RemoveOne(s, nid, s.j[i].info);
    RemoveOneMono(s, nid, s.j[i].info);
    assert SameView(s0, t) by {
      RemoveOneOk(s, i, jmax);
      SameViewTrans(s0, s, t);
    }
    DirtyChange(s.c, t.c, nid);
    forall k | 0 <= k < i + 1 ensures t.j[k].nid in t.c && t.c[t.j[k].nid].dirty {
      assert t.j[k].nid != nid ==> t.j[k].nid in s.c;
    }
  }

  lemma SameViewTrans(s: NatState, t: NatState, u: NatState)
    requires SameView(s, t) && SameView(t, u)
    ensures SameView(s, u)
  {
    forall nid: nat | HasNid(s.a, nid) ensures ViewOf(u, nid) == ViewOf(s, nid) {
      assert HasNid(t.a, nid);
    }
  }

  predicate ValidAddr(blk: nat) { blk != NULL_ADDR && blk != NEW_ADDR }

  function SetAddr(s: NatState, nid: nat, ni: Info, addr: nat): NatState
    requires 0 < s.a.per
  {
    var e := if nid !in s.c then Entry(ni, false, true, false)
             else if addr == NEW_ADDR then s.c[nid].(info := ni) else s.c[nid];
    var version := if e.info.blk != NEW_ADDR && addr == NULL_ADDR then (e.info.version + 1) % 256 else e.info.version;
    var new_ne := addr == NEW_ADDR;
    s.(c := s.c[nid := Entry(Info(e.info.ino, addr, version), true, e.checkpointed && ValidAddr(addr), new_ne)],
       sets := if new_ne then Unlist(s.sets, s.a.per, nid) else MarkSet(s.sets, s.a.per, nid, e.dirty && !e.prealloc))
  }

  /** __set_nat_cache_dirty for NEW_ADDR: the entry leaves the list of its set, and entry_cnt stays. */
  function Unlist(sets: map<nat, NatSet>, per: nat, nid: nat): map<nat, NatSet> {
    var b := BlockOf(per, nid);
    if b in sets then sets[b := sets[b].(nids := sets[b].nids - {nid})] else sets
  }

  /** The counts of the sets stay right exactly when no release of the nid waits to be flushed. */
  lemma SetAddrSets(s: NatState, nid: nat, ni: Info, addr: nat)
    requires SetsOk(s.c, s.sets, s.a.per)
    requires nid in s.c ==> (s.c[nid].prealloc <==> s.c[nid].info.blk == NEW_ADDR)
    ensures var t := SetAddr(s, nid, ni, addr);
            SetsOk(t.c, t.sets, t.a.per) <==> !(addr == NEW_ADDR && Flushable(s.c, nid))
  {
    var t := SetAddr(s, nid, ni, addr);
    assert OnlyDiffers(s.c, t.c, nid);
    if addr == NEW_ADDR && Flushable(s.c, nid) {
      CountStays(s, t, nid);
    } else if addr == NEW_ADDR {
      UnlistNothing(s, nid);
      CleanSets(s, t, nid);
    } else {
      MarkSetOk(s.c, s.sets, s.a.per, nid, t.c);
    }
  }

  lemma CountStays(s: NatState, t: NatState, nid: nat)
    requires SetsOk(s.c, s.sets, s.a.per) && OnlyDiffers(s.c, t.c, nid) && Flushable(s.c, nid) && !Flushable(t.c, nid)
    requires t.sets == Unlist(s.sets, s.a.per, nid) && t.a == s.a
    ensures !SetsOk(t.c, t.sets, t.a.per)
  {
    var b := BlockOf(s.a.per, nid);
    FlushSetChange(s.c, t.c, s.a.per, nid, b);
    assert SetOk(s.c, s.a.per, b, s.sets[b]);
    assert nid in FlushSet(s.c, s.a.per, b);
    assert !SetOk(t.c, t.a.per, b, t.sets[b]);
  }

  lemma UnlistNothing(s: NatState, nid: nat)
    requires SetsOk(s.c, s.sets, s.a.per) && !Flushable(s.c, nid)
    ensures Unlist(s.sets, s.a.per, nid) == s.sets
  {
    var b := BlockOf(s.a.per, nid);
    if b in s.sets {
      assert SetOk(s.c, s.a.per, b, s.sets[b]);
      assert s.sets[b].nids - {nid} == s.sets[b].nids;
    }
  }

  lemma SetAddrCache(s: NatState, nid: nat, ni: Info, addr: nat)
    requires CacheOk(s.c, s.j, s.a) && HasNid(s.a, nid)
    ensures var t := SetAddr(s, nid, ni, addr);
            && CacheOk(t.c, t.j, t.a) && ViewOf(t, nid).blk == addr
            && (forall m: nat :: m != nid && HasNid(s.a, m) ==> ViewOf(t, m) == ViewOf(s, m))
  {
  }

  lemma SetAddrOk(s: NatState, f: FreeIds, nid: nat, ni: Info, addr: nat, jmax: nat)
    requires Between(s, f, jmax) && HasNid(s.a, nid) && ni.blk == ViewOf(s, nid).blk
    requires addr == NEW_ADDR ==> ni.blk == NULL_ADDR && !IsFree(f, nid)
    requires ni.blk == NULL_ADDR ==> addr == NEW_ADDR
    ensures var t := SetAddr(s, nid, ni, addr);
            && (Between(t, f, jmax) <==> !(addr == NEW_ADDR && Flushable(s.c, nid))) && ViewOf(t, nid).blk == addr
            && (forall m: nat :: m != nid && HasNid(s.a, m) ==> ViewOf(t, m) == ViewOf(s, m))
            && |DirtyNids(t.c)| == |DirtyNids(s.c)| + if nid in s.c && s.c[nid].dirty then 0 else 1
  {
    var t := SetAddr(s, nid, ni, addr);
    assert OnlyDiffers(s.c, t.c, nid);
    SetAddrSets(s, nid, ni, addr);
    SetAddrCache(s, nid, ni, addr);
    DirtyChange(s.c, t.c, nid);
    BitsFollow(f, s, t);
    SetAddrFree(s, f, t, nid);
  }

  lemma SetAddrFree(s: NatState, f: FreeIds, t: NatState, nid: nat)
    requires FreeUnused(f, s) && FreeClean(f, s) && FreedUncheckpointed(s.c)
    requires t.a == s.a && t.j == s.j && OnlyDiffers(s.c, t.c, nid) && !IsFree(f, nid)
    requires nid in t.c && (t.c[nid].info.blk == NULL_ADDR ==> !t.c[nid].checkpointed)
    ensures FreeUnused(f, t) && FreeClean(f, t) && FreedUncheckpointed(t.c)
  {
    forall n: nat | IsFree(f, n)
      ensures n != 0 && HasNid(t.a, n) && ViewOf(t, n).blk == NULL_ADDR
      ensures n in t.c ==> !t.c[n].dirty
    {
      assert n != nid && (n in s.c <==> n in t.c);
    }
  }

  lemma FillOk(s: NatState, f: FreeIds, jmax: nat, nid: nat, ni: Info)
    requires Between(s, f, jmax) && HasNid(s.a, nid) && nid !in s.c && ni == OnDisk(s.j, s.a, nid)
    ensures var t := s.(c := s.c[nid := Entry(ni, false, true, false)]);
            Between(t, f, jmax) && SameView(s, t) && |DirtyNids(t.c)| == |DirtyNids(s.c)|
  {
    var t := s.(c := s.c[nid := Entry(ni, false, true, false)]);
    assert OnlyDiffers(s.c, t.c, nid);
    DirtyChange(s.c, t.c, nid);
    CleanChangeOk(s, t, f, nid, jmax);
  }

  lemma EvictOk(s: NatState, f: FreeIds, jmax: nat, nid: nat)
    requires Between(s, f, jmax) && nid in s.c && !s.c[nid].dirty
    ensures var t := s.(c := s.c - {nid}); Between(t, f, jmax) && SameView(s, t) && |DirtyNids(t.c)| == |DirtyNids(s.c)|
  {
    var t := s.(c := s.c - {nid});
    assert OnlyDiffers(s.c, t.c, nid);
    DirtyChange(s.c, t.c, nid);
    CleanChangeOk(s, t, f, nid, jmax);
  }

  lemma CleanSets(s: NatState, t: NatState, nid: nat)
    requires SetsOk(s.c, s.sets, s.a.per) && t == s.(c := t.c) && OnlyDiffers(s.c, t.c, nid)
    requires !Flushable(s.c, nid) && !Flushable(t.c, nid)
    ensures SetsOk(t.c, t.sets, t.a.per)
  {
    forall b | b in s.sets ensures SetOk(t.c, s.a.per, b, s.sets[b]) {
      assert SetOk(s.c, s.a.per, b, s.sets[b]);
      FlushSetChange(s.c, t.c, s.a.per, nid, b);
    }
    forall m: nat | Flushable(t.c, m) ensures BlockOf(t.a.per, m) in t.sets {
      assert Flushable(s.c, m);
    }
  }

  lemma CleanCache(s: NatState, t: NatState, nid: nat, jmax: nat)
    requires JournalOk(s.j, s.a, jmax) && CacheOk(s.c, s.j, s.a) && t == s.(c := t.c) && OnlyDiffers(s.c, t.c, nid)
    requires HasNid(s.a, nid)
    requires nid in s.c ==> !s.c[nid].dirty
    requires nid in t.c ==> t.c[nid] == Entry(OnDisk(s.j, s.a, nid), false, true, false)
    ensures CacheOk(t.c, t.j, t.a) && SameView(s, t)
  {
  }

  lemma BitsFollow(f: FreeIds, s: NatState, t: NatState)
    requires BitsOk(f, s) && t.j == s.j && t.a == s.a
    requires forall n: nat :: n in s.c && s.c[n].dirty ==> n in t.c && t.c[n].dirty
    ensures BitsOk(f, t)
  {
    forall n: nat | n in f.bits ensures BitOk(t, n) {
      assert BitOk(s, n);
    }
  }

  /** Adding or dropping a clean entry that agrees with the device. */
  lemma CleanChangeOk(s: NatState, t: NatState, f: FreeIds, nid: nat, jmax: nat)
    requires Between(s, f, jmax) && t == s.(c := t.c) && OnlyDiffers(s.c, t.c, nid) && HasNid(s.a, nid)
    requires nid in s.c ==> !s.c[nid].dirty
    requires nid in t.c ==> t.c[nid] == Entry(OnDisk(s.j, s.a, nid), false, true, false)
    ensures Between(t, f, jmax) && SameView(s, t)
  {
    CleanSets(s, t, nid);
    CleanCache(s, t, nid, jmax);
    SameViewFree(f, f, s, t, 0);
    BitsFollow(f, s, t);
  }

  /** A flush empties the journal exactly when there is something to flush and NAT bits are in use or the
      dirty entries do not all fit. */
  ghost predicate WillEmpty(s: NatState, jmax: nat, natBits: bool) {
    var dirty := |DirtyNids(s.c)|;
    dirty != 0 && (natBits || dirty > jmax - |s.j|)
  }

  /** The flush will empty a journal that holds a newer entry for the nid than its block does. */
  ghost predicate Resurfaces(s: NatState, jmax: nat, natBits: bool, nid: nat)
    requires AreaOk(s.a) && HasNid(s.a, nid)
  {
    WillEmpty(s, jmax, natBits) && JGet(s.j, nid).Some? && JGet(s.j, nid).value != InBlock(s.a, nid)
  }

  /** Room for the rest of a set: in the journal, or none of it is in the journal. */
  ghost predicate FlushRoom(s: NatState, s0: NatState, rest: set<nat>, toJournal: bool, jmax: nat) {
    if toJournal then |s.j| + |rest| <= jmax else s.j == s0.j && forall nid: nat :: nid in rest ==> !InJournal(s.j, nid)
  }

  lemma FlushRoomStep(s: NatState, s0: NatState, b: nat, rest: set<nat>, nid: nat, toJournal: bool, jmax: nat)
    requires FlushRoom(s, s0, rest, toJournal, jmax) && nid in rest && FlushProg(s0, s, b, rest) && NatOk(s, jmax)
    ensures if toJournal then |s.j| < jmax else !InJournal(s.j, nid)
    ensures Flushable(s.c, nid) && BlockOf(s.a.per, nid) in s.sets && HasNid(s.a, nid)
    ensures FlushRoom(FlushOne(s, nid, toJournal), s0, rest - {nid}, toJournal, jmax)
  {
    assert nid in FlushSet(s.c, s.a.per, b);
    assert |rest| == |rest - {nid}| + 1;
    if toJournal { JSetGet(s.j, nid, s.c[nid].info, nid); }
  }

  /** Freed entries that have been flushed are known to the allocator and counted as available; nothing it
      knew is forgotten. */
  ghost predicate Freed(f: FreeIds, g: FreeIds, c: Cache, c': Cache) {
    && f.tree.Keys <= g.tree.Keys && f.available <= g.available
    && forall nid: nat :: nid != 0 && Flushable(c, nid) && c[nid].info.blk == NULL_ADDR && !Flushable(c', nid) ==>
         nid in g.tree && f.available < g.available
  }

  lemma FreedStep(f: FreeIds, g: FreeIds, s0: NatState, s: NatState, b: nat, rest: set<nat>, nid: nat, toJournal: bool)
    requires Freed(f, g, s0.c, s.c) && FlushProg(s0, s, b, rest) && nid in rest && AreaOk(s.a) && HasNid(s.a, nid)
    requires Flushable(s.c, nid) && BlockOf(s.a.per, nid) in s.sets
    ensures Freed(f, FlushIds(g, s.a.per, nid, s.c[nid].info.blk), s0.c, FlushOne(s, nid, toJournal).c)
  {
    var t := FlushOne(s, nid, toJournal);
    assert OnlyDiffers(s.c, t.c, nid);
    assert ViewOf(s, nid) == ViewOf(s0, nid);
    assert nid in FlushSet(s0.c, s0.a.per, b);
    forall m: nat | m != 0 && Flushable(s0.c, m) && s0.c[m].info.blk == NULL_ADDR && !Flushable(t.c, m)
      ensures m in FlushIds(g, s.a.per, nid, s.c[nid].info.blk).tree
      ensures f.available < FlushIds(g, s.a.per, nid, s.c[nid].info.blk).available
    {
      assert m != nid ==> !Flushable(s.c, m);
    }
  }

  lemma FreedTrans(f: FreeIds, g: FreeIds, h: FreeIds, s: NatState, t: NatState, u: NatState)
    requires Freed(f, g, s.c, t.c) && Freed(g, h, t.c, u.c) && SameView(s, t)
    requires CacheOk(s.c, s.j, s.a)
    ensures Freed(f, h, s.c, u.c)
  {
    forall nid: nat | nid != 0 && Flushable(s.c, nid) && s.c[nid].info.blk == NULL_ADDR && !Flushable(u.c, nid)
      ensures nid in h.tree && f.available < h.available
    {
      assert EntryOk(s.c[nid], s.j, s.a, nid);
      if Flushable(t.c, nid) { assert ViewOf(t, nid) == ViewOf(s, nid); }
    }
  }

  /** What holds of a set's flush when `rest` is still to come. */
  ghost predicate Round(s0: NatState, s: NatState, b: nat, rest: set<nat>, toJournal: bool, jmax: nat, f0: FreeIds,
                        f: FreeIds) {
    FlushProg(s0, s, b, rest) && FlushRoom(s, s0, rest, toJournal, jmax) && Freed(f0, f, s0.c, s.c)
  }

  lemma RoundStep(s0: NatState, s: NatState, b: nat, rest: set<nat>, nid: nat, toJournal: bool, jmax: nat, f0: FreeIds,
                  f: FreeIds)
    requires Round(s0, s, b, rest, toJournal, jmax, f0, f) && nid in rest && NatOk(s, jmax)
    ensures if toJournal then |s.j| < jmax else !InJournal(s.j, nid)
    ensures Flushable(s.c, nid) && BlockOf(s.a.per, nid) in s.sets && HasNid(s.a, nid)
    ensures var t := FlushOne(s, nid, toJournal);
            && Round(s0, t, b, rest - {nid}, toJournal, jmax, f0, FlushIds(f, s.a.per, nid, s.c[nid].info.blk))
            && t.sets.Keys == s.sets.Keys && (toJournal ==> t.a == s.a)
  {
    FlushRoomStep(s, s0, b, rest, nid, toJournal, jmax);
    FlushProgStep(s0, s, b, rest, nid, toJournal, jmax);
    FreedStep(f0, f, s0, s, b, rest, nid, toJournal);
  }

  /** A set without entries can go. */
  lemma DropSet(s: NatState, f: FreeIds, b: nat, jmax: nat)
    requires Mid(s, f, jmax) && b in s.sets && FlushSet(s.c, s.a.per, b) == {}
    ensures Mid(s.(sets := s.sets - {b}), f, jmax)
  {
    forall nid: nat | Flushable(s.c, nid) ensures BlockOf(s.a.per, nid) in s.sets - {b} {
      assert nid in FlushSet(s.c, s.a.per, BlockOf(s.a.per, nid));
    }
    SameViewFree(f, f, s, s.(sets := s.sets - {b}), 0);
  }
}
