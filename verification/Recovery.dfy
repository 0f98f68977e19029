/** Roll-forward after a crash: the node blocks written since the checkpoint form a chain.  Pass one
    walks it and lists the inodes with an fsync mark; pass two walks it again, with no guard of its own,
    and replays their node blocks. */
module Recovery {
  import opened Common

  /** What the walk reads of a node block: is it from this checkpoint's period and a direct node,
      its marks, its owner, and the address of the next one. */
  datatype Page = Page(recoverable: bool, fsync: bool, dent: bool, isInode: bool, ino: nat, next: nat)

  /** The node blocks at valid addresses. */
  type Dev = map<nat, Page>

  /** What looking up the inode of a marked block does: found, not there (yet), or an error. */
  datatype Outcome = Got | NoEnt | Fail

  datatype Entry = Entry(ino: nat, blkaddr: nat, lastDentry: Option<nat>)

  datatype Verdict = Fine | Looped | Failed

  predicate Live(dev: Dev, b: nat) { b in dev && dev[b].recoverable }

  /** c is all of the chain that starts at b. */
  predicate IsChain(dev: Dev, b: nat, c: seq<nat>)
    decreases |c|
  {
    if c == [] then !Live(dev, b) else c[0] == b && Live(dev, b) && IsChain(dev, dev[b].next, c[1..])
  }

  /** c is a beginning of the chain that starts at b, and `at` is where it goes on. */
  predicate IsPart(dev: Dev, b: nat, c: seq<nat>, at: nat)
    decreases |c|
  {
    if c == [] then at == b else c[0] == b && Live(dev, b) && IsPart(dev, dev[b].next, c[1..], at)
  }

  lemma {:induction false} PartStep(dev: Dev, b: nat, c: seq<nat>, at: nat)
    requires IsPart(dev, b, c, at) && Live(dev, at)
    ensures IsPart(dev, b, c + [at], dev[at].next)
    decreases |c|
  {
    if c == [] {
      assert [at][1..] == [];
    } else {
      assert (c + [at])[1..] == c[1..] + [at];
      PartStep(dev, dev[b].next, c[1..], at);
    }
  }

  lemma {:induction false} PartDone(dev: Dev, b: nat, c: seq<nat>, at: nat)
    requires IsPart(dev, b, c, at) && !Live(dev, at)
    ensures IsChain(dev, b, c)
    decreases |c|
  {
    if c != [] { PartDone(dev, dev[b].next, c[1..], at); }
  }

  /** A chain has the walked part as its beginning and goes on after it. */
  lemma {:induction false} PartOfChain(dev: Dev, b: nat, c: seq<nat>, at: nat, whole: seq<nat>)
    requires IsPart(dev, b, c, at) && IsChain(dev, b, whole)
    ensures |c| <= |whole| && c == whole[..|c|] && IsChain(dev, at, whole[|c|..])
    decreases |c|
  {
    if c == [] {
      assert whole[0..] == whole;
    } else {
      PartOfChain(dev, dev[b].next, c[1..], at, whole[1..]);
      assert whole[1..][|c| - 1..] == whole[|c|..];
      assert c == [c[0]] + c[1..] && whole[..|c|] == [whole[0]] + whole[1..][..|c| - 1];
    }
  }

  lemma {:induction false} ChainUnique(dev: Dev, b: nat, c: seq<nat>, d: seq<nat>)
    requires IsChain(dev, b, c) && IsChain(dev, b, d)
    ensures c == d
    decreases |c|
  {
    if c != [] {
      ChainUnique(dev, dev[b].next, c[1..], d[1..]);
      assert c == [b] + c[1..] && d == [b] + d[1..];
    }
  }

  lemma {:induction false} ChainTail(dev: Dev, b: nat, c: seq<nat>, i: nat)
    requires IsChain(dev, b, c) && i < |c|
    ensures IsChain(dev, c[i], c[i..]) && Live(dev, c[i]) && IsChain(dev, dev[c[i]].next, c[i + 1..])
    decreases |c|
  {
    if i == 0 {
      assert c[0..] == c;
    } else {
      ChainTail(dev, dev[b].next, c[1..], i - 1);
      assert c[1..][i - 1..] == c[i..] && c[1..][i..] == c[i + 1..];
    }
  }

  /** A chain that ends visits no block twice. */
  lemma ChainDistinct(dev: Dev, b: nat, c: seq<nat>, i: nat, j: nat)
    requires IsChain(dev, b, c) && i < |c| && j < |c| && c[i] == c[j]
    ensures i == j
  {
    ChainTail(dev, b, c, i);
    ChainTail(dev, b, c, j);
    ChainUnique(dev, c[i], c[i..], c[j..]);
    assert |c[i..]| == |c| - i && |c[j..]| == |c| - j;
  }

  /** A block that names itself as the next one starts no chain that ends. */
  lemma SelfLoop(dev: Dev, b: nat, c: seq<nat>)
    requires Live(dev, b) && dev[b].next == b
    ensures !IsChain(dev, b, c)
  {
    if IsChain(dev, b, c) {
      assert |c[1..]| == |c| - 1;
      ChainUnique(dev, b, c, c[1..]);
    }
  }

  // ---- What the walks are to find, said about the chain

  /** Block k of the chain is an fsync-marked block of this inode. */
  predicate Marks(dev: Dev, c: seq<nat>, k: nat, ino: nat)
    requires k < |c|
  {
    c[k] in dev && dev[c[k]].fsync && dev[c[k]].ino == ino
  }

  /** One past the inode's last marked block among the first i, 0 if it has none. */
  function LastMark(dev: Dev, c: seq<nat>, i: nat, ino: nat): (r: nat)
    requires i <= |c|
    ensures r <= i
    ensures r > 0 ==> Marks(dev, c, r - 1, ino)
    ensures forall k :: r <= k < i ==> !Marks(dev, c, k, ino)
  {
    if i == 0 then 0 else if Marks(dev, c, i - 1, ino) then i else LastMark(dev, c, i - 1, ino)
  }

  /** The inode was found at one of its marked blocks among the first i. */
  predicate Listed(dev: Dev, c: seq<nat>, got: nat -> Outcome, i: nat, ino: nat)
    requires i <= |c|
  {
    exists k: nat :: k < i && Marks(dev, c, k, ino) && got(k) == Got
  }

  /** The last marked inode block with a directory mark, from where the inode is listed on. */
  function LastDent(dev: Dev, c: seq<nat>, got: nat -> Outcome, i: nat, ino: nat): Option<nat>
    requires i <= |c|
  {
    if i == 0 then None
    else if Marks(dev, c, i - 1, ino) && dev[c[i - 1]].isInode && dev[c[i - 1]].dent && Listed(dev, c, got, i, ino)
    then Some(c[i - 1])
    else LastDent(dev, c, got, i - 1, ino)
  }

  function Inos(list: seq<Entry>): set<nat> { set e | e in list :: e.ino }

  predicate DistinctInos(list: seq<Entry>) { forall i, j :: 0 <= i < j < |list| ==> list[i].ino != list[j].ino }

  /** The entry says where the inode's last marked block is, and its last directory mark. */
  predicate EntryOk(dev: Dev, c: seq<nat>, got: nat -> Outcome, i: nat, e: Entry)
    requires i <= |c|
  {
    && Listed(dev, c, got, i, e.ino) && LastMark(dev, c, i, e.ino) > 0
    && e.blkaddr == c[LastMark(dev, c, i, e.ino) - 1] && e.lastDentry == LastDent(dev, c, got, i, e.ino)
  }

  /** The list after the first i blocks: each listed inode once, with its entry right. */
  ghost predicate ListOk(dev: Dev, c: seq<nat>, got: nat -> Outcome, i: nat, list: seq<Entry>)
    requires i <= |c|
  {
    && DistinctInos(list)
    && (forall ino :: Listed(dev, c, got, i, ino) ==> ino in Inos(list))
    && (forall e :: e in list ==> EntryOk(dev, c, got, i, e))
  }

  /** Extending the walked part changes nothing said about the blocks before. */
  lemma {:induction false} Extend(dev: Dev, c: seq<nat>, d: seq<nat>, got: nat -> Outcome, i: nat, ino: nat)
    requires i <= |c| <= |d| && c == d[..|c|]
    ensures LastMark(dev, d, i, ino) == LastMark(dev, c, i, ino)
    ensures Listed(dev, d, got, i, ino) == Listed(dev, c, got, i, ino)
    ensures LastDent(dev, d, got, i, ino) == LastDent(dev, c, got, i, ino)
  {
    assert forall k: nat :: k < |c| ==> Marks(dev, d, k, ino) == Marks(dev, c, k, ino);
    if i > 0 { Extend(dev, c, d, got, i - 1, ino); }
  }

  lemma ExtendList(dev: Dev, c: seq<nat>, d: seq<nat>, got: nat -> Outcome, list: seq<Entry>)
    requires |c| <= |d| && c == d[..|c|] && ListOk(dev, c, got, |c|, list)
    ensures ListOk(dev, d, got, |c|, list)
  {
    forall ino: nat ensures Listed(dev, d, got, |c|, ino) == Listed(dev, c, got, |c|, ino) {
      Extend(dev, c, d, got, |c|, ino);
    }
    forall e | e in list ensures EntryOk(dev, d, got, |c|, e) {
      Extend(dev, c, d, got, |c|, e.ino);
    }
  }

  /** One more block that does not mark an inode leaves what is said about the inode. */
  lemma Unmarked(dev: Dev, c: seq<nat>, got: nat -> Outcome, i: nat, ino: nat)
    requires i < |c| && !Marks(dev, c, i, ino)
    ensures Listed(dev, c, got, i + 1, ino) == Listed(dev, c, got, i, ino)
    ensures LastMark(dev, c, i + 1, ino) == LastMark(dev, c, i, ino)
    ensures LastDent(dev, c, got, i + 1, ino) == LastDent(dev, c, got, i, ino)
  {
  }

  /** get_fsync_inode: the place of an inode in the list, or its length. */
  method GetFsyncInode(list: seq<Entry>, ino: nat) returns (x: nat)
    ensures x <= |list| && (x < |list| ==> list[x].ino == ino)
    ensures x == |list| <==> ino !in Inos(list)
  {
    x := 0;
    while x < |list| && list[x].ino != ino
      invariant x <= |list| && forall k :: 0 <= k < x ==> list[k].ino != ino
    {
      x := x + 1;
    }
    if x < |list| { assert list[x] in list; }
  }

  function Touched(p: Page, b: nat, was: Option<nat>): Option<nat> { if p.isInode && p.dent then Some(b) else was }

  /** The entry of the inode that block i marks, once it is there. */
  lemma MarkedEntry(dev: Dev, c: seq<nat>, got: nat -> Outcome, i: nat, was: Option<nat>)
    requires i < |c| && c[i] in dev && Marks(dev, c, i, dev[c[i]].ino)
    requires Listed(dev, c, got, i + 1, dev[c[i]].ino) && was == LastDent(dev, c, got, i, dev[c[i]].ino)
    ensures EntryOk(dev, c, got, i + 1, Entry(dev[c[i]].ino, c[i], Touched(dev[c[i]], c[i], was)))
  {
    assert LastMark(dev, c, i + 1, dev[c[i]].ino) == i + 1;
  }

  lemma OtherEntry(dev: Dev, c: seq<nat>, got: nat -> Outcome, i: nat, e: Entry)
    requires i < |c| && EntryOk(dev, c, got, i, e) && !Marks(dev, c, i, e.ino)
    ensures EntryOk(dev, c, got, i + 1, e)
  {
    Unmarked(dev, c, got, i, e.ino);
  }

  /** Before an inode is listed it has no directory mark. */
  lemma {:induction false} NoDentYet(dev: Dev, c: seq<nat>, got: nat -> Outcome, i: nat, ino: nat)
    requires i <= |c| && !Listed(dev, c, got, i, ino)
    ensures LastDent(dev, c, got, i, ino) == None
  {
    if i > 0 { NoDentYet(dev, c, got, i - 1, ino); }
  }

  lemma ListedStep(dev: Dev, c: seq<nat>, got: nat -> Outcome, i: nat, ino: nat)
    requires i < |c|
    ensures Listed(dev, c, got, i + 1, ino) <==> Listed(dev, c, got, i, ino) || (Marks(dev, c, i, ino) && got(i) == Got)
  {
  }

  lemma StepPlain(dev: Dev, c: seq<nat>, got: nat -> Outcome, i: nat, list: seq<Entry>)
    requires i < |c| && c[i] in dev && ListOk(dev, c, got, i, list)
    requires !dev[c[i]].fsync || (dev[c[i]].ino !in Inos(list) && got(i) != Got)
    ensures ListOk(dev, c, got, i + 1, list)
  {
    forall ino: nat | Listed(dev, c, got, i + 1, ino) ensures ino in Inos(list) {
      ListedStep(dev, c, got, i, ino);
    }
    forall e | e in list ensures EntryOk(dev, c, got, i + 1, e) {
      assert e.ino in Inos(list);
      OtherEntry(dev, c, got, i, e);
    }
  }

  lemma StepKnown(dev: Dev, c: seq<nat>, got: nat -> Outcome, i: nat, list: seq<Entry>, x: nat)
    requires i < |c| && c[i] in dev && ListOk(dev, c, got, i, list)
    requires dev[c[i]].fsync && x < |list| && list[x].ino == dev[c[i]].ino
    ensures var e := Entry(list[x].ino, c[i], Touched(dev[c[i]], c[i], list[x].lastDentry));
            ListOk(dev, c, got, i + 1, list[x := e])
  {
    var e0 := Entry(list[x].ino, c[i], Touched(dev[c[i]], c[i], list[x].lastDentry));
    var new_ := list[x := e0];
    assert list[x] in list;
    forall ino: nat | Listed(dev, c, got, i + 1, ino) ensures ino in Inos(new_) {
      ListedStep(dev, c, got, i, ino);
      InosUpdate(list, x, e0);
    }
    forall e | e in new_ ensures EntryOk(dev, c, got, i + 1, e) {
      var y :| 0 <= y < |new_| && new_[y] == e;
      if y == x {
        ListedStep(dev, c, got, i, e.ino);
        MarkedEntry(dev, c, got, i, list[x].lastDentry);
      } else {
        assert e in list;
        OtherEntry(dev, c, got, i, e);
      }
    }
  }

  lemma InosUpdate(list: seq<Entry>, x: nat, e: Entry)
    requires x < |list| && e.ino == list[x].ino
    ensures Inos(list[x := e]) == Inos(list)
  {
    var u := list[x := e];
    forall n | n in Inos(list) ensures n in Inos(u) {
      var y :| 0 <= y < |list| && list[y].ino == n;
      assert u[y] in u;
    }
    forall n | n in Inos(u) ensures n in Inos(list) {
      var y :| 0 <= y < |u| && u[y].ino == n;
      assert list[y] in list;
    }
  }

  lemma StepNew(dev: Dev, c: seq<nat>, got: nat -> Outcome, i: nat, list: seq<Entry>)
    requires i < |c| && c[i] in dev && ListOk(dev, c, got, i, list)
    requires dev[c[i]].fsync && dev[c[i]].ino !in Inos(list) && got(i) == Got
    ensures ListOk(dev, c, got, i + 1, list + [Entry(dev[c[i]].ino, c[i], Touched(dev[c[i]], c[i], None))])
  {
    var e0 := Entry(dev[c[i]].ino, c[i], Touched(dev[c[i]], c[i], None));
    var new_ := list + [e0];
    assert e0 in new_;
    forall ino: nat | Listed(dev, c, got, i + 1, ino) ensures ino in Inos(new_) {
      ListedStep(dev, c, got, i, ino);
      assert ino in Inos(list) ==> ino in Inos(new_);
    }
    forall e | e in new_ ensures EntryOk(dev, c, got, i + 1, e) {
      if e in list {
        assert e.ino in Inos(list);
        OtherEntry(dev, c, got, i, e);
      } else {
        ListedStep(dev, c, got, i, e0.ino);
        NoDentYet(dev, c, got, i, e0.ino);
        MarkedEntry(dev, c, got, i, None);
      }
    }
    forall k | 0 <= k < |list| ensures list[k].ino != e0.ino {
      assert list[k] in list && list[k].ino in Inos(list);
    }
  }

  class RollForward {
    const dev: Dev
    var list: seq<Entry>
    var log: seq<nat>
    var dents: seq<nat>

    constructor (dev: Dev)
      ensures this.dev == dev && list == [] && log == [] && dents == []
    {
      this.dev := dev;
      list, log, dents := [], [], [];
    }

    /** One fsync-marked block of pass one; false when an error other than a missing inode comes up. */
    method Mark(blkaddr: nat, out: Outcome, ghost c: seq<nat>, ghost got: nat -> Outcome) returns (ok: bool)
      requires blkaddr in dev && dev[blkaddr].fsync && |c| > 0 && c[|c| - 1] == blkaddr && got(|c| - 1) == out
      requires ListOk(dev, c, got, |c| - 1, list)
      modifies this`list
      ensures ok ==> ListOk(dev, c, got, |c|, list)
      ensures !ok ==> out.Fail?
    {
      var p := dev[blkaddr];
      var x := GetFsyncInode(list, p.ino);
      if x < |list| {
        StepKnown(dev, c, got, |c| - 1, list, x);
        list := list[x := Entry(p.ino, blkaddr, Touched(p, blkaddr, list[x].lastDentry))];
      } else if out.Fail? {
        return false;
      } else if out.NoEnt? {
        StepPlain(dev, c, got, |c| - 1, list);
      } else {
        StepNew(dev, c, got, |c| - 1, list);
        list := list + [Entry(p.ino, blkaddr, Touched(p, blkaddr, None))];
      }
      return true;
    }

    /** find_fsync_dnodes; got(i) is what looking up the inode does at the i-th block of the walk.
        Barring errors from outside, it accepts exactly the chains that end before `freeBlocks` blocks. */
    method FindFsyncDnodes(start: nat, freeBlocks: nat, got: nat -> Outcome) returns (v: Verdict, ghost c: seq<nat>)
      requires list == []
      modifies this`list
      ensures v.Fine? ==> IsChain(dev, start, c) && (c == [] || |c| < freeBlocks) && ListOk(dev, c, got, |c|, list)
      ensures v.Failed? ==> exists i: nat :: got(i) == Fail
      ensures v.Looped? ==> forall d :: IsChain(dev, start, d) ==> |d| > 0 && |d| >= freeBlocks
    {
      c := [];
      var blkaddr, loopCnt := start, 0;
      while true
        invariant IsPart(dev, start, c, blkaddr) && loopCnt == |c| && (c == [] || loopCnt < freeBlocks)
        invariant ListOk(dev, c, got, |c|, list)
        decreases freeBlocks - loopCnt
      {
        if blkaddr !in dev || !dev[blkaddr].recoverable {
          PartDone(dev, start, c, blkaddr);
          return Fine, c;
        }
        ghost var was := c;
        PartStep(dev, start, c, blkaddr);
        c := c + [blkaddr];
        ExtendList(dev, was, c, got, list);
        if dev[blkaddr].fsync {
          var ok := Mark(blkaddr, got(loopCnt), c, got);
          if !ok {
            return Failed, c;
          }
        } else {
          StepPlain(dev, c, got, loopCnt, list);
        }
        loopCnt := loopCnt + 1;
        if loopCnt >= freeBlocks || blkaddr == dev[blkaddr].next {
          forall d | IsChain(dev, start, d) ensures |d| > 0 && |d| >= freeBlocks {
            PartOfChain(dev, start, c, dev[blkaddr].next, d);
            if blkaddr == dev[blkaddr].next { SelfLoop(dev, blkaddr, d[|c|..]); }
          }
          return Looped, c;
        }
        blkaddr := dev[blkaddr].next;
      }
    }

    /** recover_data: replays, block by block, whatever belongs to a listed inode, and drops the inode after its last
        marked block.  works(b) is whether the replay of block b goes through.  The chain pass one saw is what makes
        the loop end: it replays exactly the blocks of each listed inode up to its last marked one, each directory
        entry once at its own block, and leaves the list empty. */
    method RecoverData(start: nat, works: nat -> bool, ghost c: seq<nat>, ghost got: nat -> Outcome) returns (ok: bool)
      requires IsChain(dev, start, c) && ListOk(dev, c, got, |c|, list) && log == [] && dents == []
      modifies this
      ensures ok ==> list == [] && log == Replayed(dev, c, old(list), |c|) && dents == Dented(dev, c, old(list), |c|)
      ensures (forall i :: 0 <= i < |c| ==> works(c[i])) ==> ok
    {
      var blkaddr := start;
      ghost var k := 0;
      ghost var list0 := list;
      assert c[0..] == c;
      AllWaiting(dev, c, got, list);
      while true
        invariant k <= |c| && IsChain(dev, blkaddr, c[k..])
        invariant Waiting(dev, c, list0, k, list)
        invariant log == Replayed(dev, c, list0, k) && dents == Dented(dev, c, list0, k)
        decreases |c| - k
      {
        if blkaddr !in dev || !dev[blkaddr].recoverable {
          break;
        }
        assert blkaddr == c[k] && c[k..][1..] == c[k + 1..];
        var ok1 := ReplayBlock(blkaddr, works, start, c, got, list0, k);
        if !ok1 {
          return false;
        }
        k := k + 1;
        blkaddr := dev[blkaddr].next;
      }
      ok := true;
    }

    /** What pass two does with one block. */
    method ReplayBlock(blkaddr: nat, works: nat -> bool, ghost start: nat, ghost c: seq<nat>, ghost got: nat -> Outcome,
                       ghost list0: seq<Entry>, ghost k: nat) returns (ok: bool)
      requires k < |c| && blkaddr == c[k] && blkaddr in dev && IsChain(dev, start, c)
      requires ListOk(dev, c, got, |c|, list0) && Waiting(dev, c, list0, k, list)
      requires log == Replayed(dev, c, list0, k) && dents == Dented(dev, c, list0, k)
      modifies this
      ensures ok ==> Waiting(dev, c, list0, k + 1, list)
      ensures ok ==> log == Replayed(dev, c, list0, k + 1) && dents == Dented(dev, c, list0, k + 1)
      ensures works(blkaddr) ==> ok
    {
      var x := GetFsyncInode(list, dev[blkaddr].ino);
      if x < |list| {
        ok := ReplayEntry(blkaddr, x, works, start, c, got, list0, k);
      } else {
        NotDue(dev, start, c, got, list0, k, list);
        Stay(dev, c, list0, k, list);
        ok := true;
      }
    }

    /** The block belongs to the x-th entry of the list. */
    method ReplayEntry(blkaddr: nat, x: nat, works: nat -> bool, ghost start: nat, ghost c: seq<nat>,
                       ghost got: nat -> Outcome,
                       ghost list0: seq<Entry>, ghost k: nat) returns (ok: bool)
      requires k < |c| && blkaddr == c[k] && blkaddr in dev && IsChain(dev, start, c)
      requires ListOk(dev, c, got, |c|, list0) && Waiting(dev, c, list0, k, list)
      requires log == Replayed(dev, c, list0, k) && dents == Dented(dev, c, list0, k)
      requires x < |list| && list[x].ino == dev[blkaddr].ino
      requires forall e :: e in list && e.ino == list[x].ino ==> e == list[x]
      modifies this
      ensures ok ==> Waiting(dev, c, list0, k + 1, list)
      ensures ok ==> log == Replayed(dev, c, list0, k + 1) && dents == Dented(dev, c, list0, k + 1)
      ensures works(blkaddr) ==> ok
    {
      var e := list[x];
      assert e in list;
      DueNow(dev, start, c, got, list0, k, e);
      if !works(blkaddr) {
        return false;
      }
      if e.lastDentry == Some(blkaddr) {
        dents := dents + [blkaddr];
      }
      log := log + [blkaddr];
      if e.blkaddr == blkaddr {
        Drop(dev, c, list0, k, list, x);
        list := list[..x] + list[x + 1..];
      } else {
        Stay(dev, c, list0, k, list);
      }
      return true;
    }
  }

  // ---- What pass two is to do

  /** Block k belongs to a listed inode and is not past that inode's last marked block. */
  predicate Due(dev: Dev, c: seq<nat>, list: seq<Entry>, k: nat)
    requires k < |c|
  {
    exists e :: e in list && c[k] in dev && e.ino == dev[c[k]].ino && k < LastMark(dev, c, |c|, e.ino)
  }

  function Replayed(dev: Dev, c: seq<nat>, list: seq<Entry>, k: nat): seq<nat>
    requires k <= |c|
  {
    if k == 0 then [] else Replayed(dev, c, list, k - 1) + if Due(dev, c, list, k - 1) then [c[k - 1]] else []
  }

  /** Block k is the one a listed inode's directory entry is to be recovered from. */
  predicate HasDent(dev: Dev, c: seq<nat>, list: seq<Entry>, k: nat)
    requires k < |c|
  {
    exists e :: e in list && c[k] in dev && e.ino == dev[c[k]].ino && e.lastDentry == Some(c[k])
  }

  function Dented(dev: Dev, c: seq<nat>, list: seq<Entry>, k: nat): seq<nat>
    requires k <= |c|
  {
    if k == 0 then [] else Dented(dev, c, list, k - 1) + if HasDent(dev, c, list, k - 1) then [c[k - 1]] else []
  }

  /** Before block k, the list holds the inodes whose last marked block is still to come. */
  ghost predicate Waiting(dev: Dev, c: seq<nat>, list0: seq<Entry>, k: nat, list: seq<Entry>) {
    && DistinctInos(list) && (list != [] ==> k < |c|)
    && (forall i :: 0 <= i < |list| ==> list[i] in list0 && k < LastMark(dev, c, |c|, list[i].ino))
    && (forall e :: e in list0 && k < LastMark(dev, c, |c|, e.ino) ==> e in list)
  }

  lemma SomeoneWaits(dev: Dev, c: seq<nat>, k: nat, list: seq<Entry>)
    requires forall i :: 0 <= i < |list| ==> k < LastMark(dev, c, |c|, list[i].ino)
    ensures list != [] ==> k < |c|
  {
    if list != [] { assert LastMark(dev, c, |c|, list[0].ino) <= |c|; }
  }

  lemma AllWaiting(dev: Dev, c: seq<nat>, got: nat -> Outcome, list: seq<Entry>)
    requires ListOk(dev, c, got, |c|, list)
    ensures Waiting(dev, c, list, 0, list)
  {
    forall i | 0 <= i < |list| ensures list[i] in list && 0 < LastMark(dev, c, |c|, list[i].ino) {
      assert EntryOk(dev, c, got, |c|, list[i]);
    }
    SomeoneWaits(dev, c, 0, list);
  }

  /** The block at an inode's last-marked address is its last marked block: addresses do not repeat. */
  lemma LastMarkAt(dev: Dev, start: nat, c: seq<nat>, got: nat -> Outcome, k: nat, e: Entry)
    requires IsChain(dev, start, c) && EntryOk(dev, c, got, |c|, e) && k < |c|
    ensures e.blkaddr == c[k] <==> k + 1 == LastMark(dev, c, |c|, e.ino)
  {
    if e.blkaddr == c[k] { ChainDistinct(dev, start, c, k, LastMark(dev, c, |c|, e.ino) - 1); }
  }

  lemma {:induction false} DentPlace(dev: Dev, c: seq<nat>, got: nat -> Outcome, i: nat, ino: nat) returns (j: nat)
    requires i <= |c| && LastDent(dev, c, got, i, ino).Some?
    ensures j < i && c[j] == LastDent(dev, c, got, i, ino).value && Marks(dev, c, j, ino)
  {
    if Marks(dev, c, i - 1, ino) && dev[c[i - 1]].isInode && dev[c[i - 1]].dent && Listed(dev, c, got, i, ino) {
      j := i - 1;
    } else {
      j := DentPlace(dev, c, got, i - 1, ino);
    }
  }

  lemma DentIsBefore(dev: Dev, start: nat, c: seq<nat>, got: nat -> Outcome, k: nat, e: Entry)
    requires IsChain(dev, start, c) && EntryOk(dev, c, got, |c|, e) && k < |c| && e.lastDentry == Some(c[k])
    ensures k < LastMark(dev, c, |c|, e.ino)
  {
    var j := DentPlace(dev, c, got, |c|, e.ino);
    ChainDistinct(dev, start, c, j, k);
  }

  lemma SameIno(list: seq<Entry>, e: Entry, f: Entry)
    requires DistinctInos(list) && e in list && f in list && e.ino == f.ino
    ensures e == f
  {
    var i :| 0 <= i < |list| && list[i] == e;
    var j :| 0 <= j < |list| && list[j] == f;
  }

  lemma DueNow(dev: Dev, start: nat, c: seq<nat>, got: nat -> Outcome, list0: seq<Entry>, k: nat, e: Entry)
    requires k < |c| && c[k] in dev && IsChain(dev, start, c) && ListOk(dev, c, got, |c|, list0)
    requires e in list0 && e.ino == dev[c[k]].ino && k < LastMark(dev, c, |c|, e.ino)
    ensures Due(dev, c, list0, k) && (HasDent(dev, c, list0, k) <==> e.lastDentry == Some(c[k]))
    ensures e.blkaddr == c[k] <==> k + 1 == LastMark(dev, c, |c|, e.ino)
  {
    LastMarkAt(dev, start, c, got, k, e);
    forall f | f in list0 && f.ino == e.ino ensures f == e { SameIno(list0, e, f); }
  }

  lemma NotDue(dev: Dev, start: nat, c: seq<nat>, got: nat -> Outcome, list0: seq<Entry>, k: nat, list: seq<Entry>)
    requires k < |c| && c[k] in dev && IsChain(dev, start, c) && ListOk(dev, c, got, |c|, list0)
    requires Waiting(dev, c, list0, k, list) && dev[c[k]].ino !in Inos(list)
    ensures !Due(dev, c, list0, k) && !HasDent(dev, c, list0, k)
  {
    forall e | e in list0 && e.ino == dev[c[k]].ino
      ensures k >= LastMark(dev, c, |c|, e.ino) && e.lastDentry != Some(c[k])
    {
      assert e in list ==> e.ino in Inos(list);
      if e.lastDentry == Some(c[k]) { DentIsBefore(dev, start, c, got, k, e); }
    }
  }

  /** Nobody's last marked block was this one. */
  lemma Stay(dev: Dev, c: seq<nat>, list0: seq<Entry>, k: nat, list: seq<Entry>)
    requires k < |c| && c[k] in dev && Waiting(dev, c, list0, k, list)
    requires forall e :: e in list && e.ino == dev[c[k]].ino ==> LastMark(dev, c, |c|, e.ino) != k + 1
    ensures Waiting(dev, c, list0, k + 1, list)
  {
    forall i | 0 <= i < |list| ensures LastMark(dev, c, |c|, list[i].ino) != k + 1 {
      assert list[i] in list;
      assert LastMark(dev, c, |c|, list[i].ino) == k + 1 ==> Marks(dev, c, k, list[i].ino);
    }
    SomeoneWaits(dev, c, k + 1, list);
  }

  lemma Drop(dev: Dev, c: seq<nat>, list0: seq<Entry>, k: nat, list: seq<Entry>, x: nat)
    requires k < |c| && c[k] in dev && Waiting(dev, c, list0, k, list)
    requires x < |list| && list[x].ino == dev[c[k]].ino && LastMark(dev, c, |c|, list[x].ino) == k + 1
    ensures Waiting(dev, c, list0, k + 1, list[..x] + list[x + 1..])
  {
    var u := list[..x] + list[x + 1..];
    Removed(list, x);
    forall i | 0 <= i < |u| ensures u[i] in list0 && k + 1 < LastMark(dev, c, |c|, u[i].ino) {
      assert u[i] in list && u[i].ino != list[x].ino;
      assert !Marks(dev, c, k, u[i].ino);
    }
    SomeoneWaits(dev, c, k + 1, u);
  }

  lemma Removed(list: seq<Entry>, x: nat)
    requires DistinctInos(list) && x < |list|
    ensures var u := list[..x] + list[x + 1..];
            && DistinctInos(u)
            && (forall i :: 0 <= i < |u| ==> u[i] in list && u[i].ino != list[x].ino)
            && (forall e :: e in list && e != list[x] ==> e in u)
  {
    var u := list[..x] + list[x + 1..];
    assert forall i :: 0 <= i < |u| ==> u[i] == list[if i < x then i else i + 1];
    forall e | e in list && e != list[x] ensures e in u {
      var y :| 0 <= y < |list| && list[y] == e;
      assert u[if y < x then y else y - 1] == e;
    }
  }

  /** f2fs_recover_fsync_data: the two passes. Its check that pass two left the list empty never fires. */
  method RecoverFsyncData(dev: Dev, start: nat, freeBlocks: nat, got: nat -> Outcome, works: nat -> bool,
                          checkOnly: bool)
    returns (ok: bool, r: RollForward, ghost c: seq<nat>, ghost found: seq<Entry>)
    ensures ok ==> IsChain(dev, start, c) && ListOk(dev, c, got, |c|, found)
    ensures ok && !checkOnly ==>
              r.list == [] && r.log == Replayed(dev, c, found, |c|) && r.dents == Dented(dev, c, found, |c|)
    ensures (forall i: nat :: got(i) != Fail) && (forall b :: works(b)) ==>
              (ok <==> exists d :: IsChain(dev, start, d) && (d == [] || |d| < freeBlocks))
  {
    r := new RollForward(dev);
    var v;
    v, c := r.FindFsyncDnodes(start, freeBlocks, got);
    found := r.list;
    ok := v.Fine?;
    if ok && r.list != [] && !checkOnly {
      ok := r.RecoverData(start, works, c, got);
    } else if ok && r.list == [] {
      NothingDue(dev, c, |c|);
    }
  }

  lemma {:induction false} NothingDue(dev: Dev, c: seq<nat>, k: nat)
    requires k <= |c|
    ensures Replayed(dev, c, [], k) == [] && Dented(dev, c, [], k) == []
  {
    if k > 0 { NothingDue(dev, c, k - 1); }
  }
}
