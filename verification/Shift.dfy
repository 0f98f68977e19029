/** Collapse-range and insert-range: the block addresses of a file are moved, or its pages copied,
    chunk by chunk to their new places. */
module Shift {
  import opened Common

  /** A page that has a block: what it holds, and whether the last checkpoint refers to the block
      (a block without an address yet counts as such).  Such a block is copied, any other is moved. */
  datatype Blk = Blk(data: int, checkpointed: bool)

  type Cells = map<nat, Blk>

  function Data(c: Cells, p: nat): Option<int> { if p in c then Some(c[p].data) else None }

  /** Which direct node a page belongs to, and how many pages from this one on it still covers. */
  datatype Layout = Layout(dnodeOf: nat -> nat, span: nat -> nat)

  ghost predicate LayoutOk(l: Layout) {
    forall p: nat :: l.span(p) >= 1 && forall q: nat :: p <= q < p + l.span(p) ==> l.dnodeOf(q) == l.dnodeOf(p)
  }

  predicate Same(c: Cells, now: Cells, p: nat) { (p in now <==> p in c) && (p in c ==> now[p] == c[p]) }

  /** The page belongs to [from, from + len). */
  predicate In(p: nat, from: nat, len: nat) { from <= p < from + len }

  /** What a page holds after the len pages at src have gone to dst. */
  function Moved(c: Cells, src: nat, dst: nat, len: nat, p: nat): Option<int> {
    if In(p, dst, len) then Data(c, p - dst + src) else if In(p, src, len) then None else Data(c, p)
  }

  ghost predicate IsMoved(c: Cells, now: Cells, src: nat, dst: nat, len: nat) {
    forall p: nat :: Data(now, p) == Moved(c, src, dst, len, p)
  }

  /** Moving towards the front, or to a free range that does not overlap. */
  ghost predicate CanMove(c: Cells, src: nat, dst: nat, len: nat, full: bool) {
    if full then dst < src else dst >= src + len && forall p :: In(p, dst, len) ==> p !in c
  }

  /** The chunk's addresses have been read out: those that can move are no longer in the file. */
  ghost predicate ReadState(c: Cells, now: Cells, src: nat, len: nat) {
    forall p: nat :: if In(p, src, len) && p in c && !c[p].checkpointed then p !in now
                     else Same(c, now, p)
  }

  /** The first i pages of the chunk have arrived, the others are as they were read out. */
  ghost predicate CloneState(c: Cells, now: Cells, src: nat, dst: nat, len: nat, i: nat) {
    forall p: nat :: CloneAt(c, now, src, dst, len, i, p)
  }

  ghost predicate CloneAt(c: Cells, now: Cells, src: nat, dst: nat, len: nat, i: nat, p: nat) {
    if In(p, dst, i) then Data(now, p) == Data(c, p - dst + src)
    else if In(p, src, i) then p !in now
    else if In(p, src, len) && p in c && !c[p].checkpointed then p !in now
    else Same(c, now, p)
  }

  lemma CloneStart(c: Cells, now: Cells, src: nat, dst: nat, len: nat)
    requires ReadState(c, now, src, len)
    ensures CloneState(c, now, src, dst, len, 0)
  {
  }

  /** A hole or a block to move arrives: the old page at the destination goes, and the block, if any, comes. */
  lemma ArriveMoved(c: Cells, now: Cells, src: nat, dst: nat, len: nat, i: nat)
    requires CloneState(c, now, src, dst, len, i) && i < len && dst != src
    requires src + i !in c || !c[src + i].checkpointed
    requires dst < src || dst >= src + len
    ensures var cleared := now - {dst + i};
            CloneState(c, if src + i in c then cleared[dst + i := c[src + i]] else cleared, src, dst, len, i + 1)
  {
    var cleared := now - {dst + i};
    var then_ := if src + i in c then cleared[dst + i := c[src + i]] else cleared;
    assert CloneAt(c, now, src, dst, len, i, src + i);
    var j := i + 1;
    forall p: nat ensures CloneAt(c, then_, src, dst, len, j, p) {
      assert CloneAt(c, now, src, dst, len, i, p);
    }
  }

  /** A page to copy arrives, and its source becomes a hole. */
  lemma ArriveCopied(c: Cells, now: Cells, src: nat, dst: nat, len: nat, i: nat, b: Blk)
    requires CloneState(c, now, src, dst, len, i) && i < len
    requires src + i in c && c[src + i].checkpointed && b.data == c[src + i].data
    requires dst < src || dst >= src + len
    ensures src + i in now && now[src + i] == c[src + i]
    ensures CloneState(c, now[dst + i := b] - {src + i}, src, dst, len, i + 1)
  {
    assert CloneAt(c, now, src, dst, len, i, src + i);
    var j, then_ := i + 1, now[dst + i := b] - {src + i};
    forall p: nat ensures CloneAt(c, then_, src, dst, len, j, p) {
      assert CloneAt(c, now, src, dst, len, i, p);
    }
  }

  /** A hole is passed over where the destination is a hole already. */
  lemma SkipHole(c: Cells, now: Cells, src: nat, dst: nat, len: nat, i: nat)
    requires CloneState(c, now, src, dst, len, i) && i < len && src + i !in c && CanMove(c, src, dst, len, false)
    ensures CloneState(c, now, src, dst, len, i + 1)
  {
    var j := i + 1;
    forall p: nat ensures CloneAt(c, now, src, dst, len, j, p) {
      assert CloneAt(c, now, src, dst, len, i, p);
    }
  }

  lemma CloneDone(c: Cells, now: Cells, src: nat, dst: nat, len: nat)
    requires CloneState(c, now, src, dst, len, len)
    ensures IsMoved(c, now, src, dst, len)
  {
    forall p: nat ensures Data(now, p) == Moved(c, src, dst, len, p) {
      assert CloneAt(c, now, src, dst, len, len, p);
    }
  }

  function Min(a: nat, b: nat): nat { if a < b then a else b }

  function Cell(c: Cells, p: nat): Option<Blk> { if p in c then Some(c[p]) else None }

  /** The arrays after the first k pages from `off` on have been read out. */
  ghost predicate ReadArrays(c: Cells, off: nat, blk: seq<Option<Blk>>, rep: seq<bool>, k: nat) {
    && |blk| == |rep|
    && (forall i :: 0 <= i < |blk| ==> blk[i] == if i < k then Cell(c, off + i) else None)
    && (forall i :: 0 <= i < |rep| ==> rep[i] == (i < k && off + i in c && !c[off + i].checkpointed))
  }

  lemma ReadHole(c: Cells, now: Cells, off: nat, blk: seq<Option<Blk>>, rep: seq<bool>, k: nat, done: nat)
    requires ReadState(c, now, off, k) && ReadArrays(c, off, blk, rep, k)
    requires forall p: nat :: off + k <= p < off + k + done ==> p !in c
    ensures ReadState(c, now, off, k + done) && ReadArrays(c, off, blk, rep, k + done)
  {
  }

  lemma ReadEntry(c: Cells, off: nat, blk: seq<Option<Blk>>, rep: seq<bool>, k: nat)
    requires ReadArrays(c, off, blk, rep, k) && k < |blk|
    ensures rep[k] == false
    ensures ReadArrays(c, off, blk[k := Cell(c, off + k)],
                       if off + k in c && !c[off + k].checkpointed then rep[k := true] else rep, k + 1)
  {
  }

  lemma ReadStep(c: Cells, now: Cells, off: nat, k: nat)
    requires ReadState(c, now, off, k)
    ensures Cell(now, off + k) == Cell(c, off + k)
    ensures ReadState(c, if off + k in c && !c[off + k].checkpointed then now - {off + k} else now, off, k + 1)
  {
  }

  class File {
    const layout: Layout
    var cells: Cells
    var dnodes: set<nat>

    /** A page with a block has its direct node. */
    ghost predicate Valid()
      reads this
    {
      LayoutOk(layout) && forall p: nat :: p in cells ==> layout.dnodeOf(p) in dnodes
    }

    /** The pages of one direct node in __read_out_blkaddrs. */
    method ReadDnode(blk: array<Option<Blk>>, rep: array<bool>, off: nat, from: nat, end: nat, ghost c: Cells)
      requires Valid() && from <= end <= blk.Length == rep.Length
      requires ReadState(c, cells, off, from) && ReadArrays(c, off, blk[..], rep[..], from)
      modifies this`cells, blk, rep
      ensures Valid() && ReadState(c, cells, off, end) && ReadArrays(c, off, blk[..], rep[..], end)
    {
      for k := from to end
        invariant Valid() && ReadState(c, cells, off, k) && ReadArrays(c, off, blk[..], rep[..], k)
      {
        ReadStep(c, cells, off, k);
        ReadEntry(c, off, blk[..], rep[..], k);
        blk[k] := Cell(cells, off + k);
        if off + k in cells && !cells[off + k].checkpointed {
          cells := cells - {off + k};
          rep[k] := true;
        }
      }
    }

    /** __read_out_blkaddrs, error-free: a missing direct node is skipped as a whole. */
    method ReadOut(blk: array<Option<Blk>>, rep: array<bool>, off: nat)
      requires Valid() && blk.Length == rep.Length && ReadArrays(cells, off, blk[..], rep[..], 0)
      modifies this`cells, blk, rep
      ensures Valid() && ReadState(old(cells), cells, off, blk.Length)
      ensures ReadArrays(old(cells), off, blk[..], rep[..], blk.Length)
    {
      var k, len := 0, blk.Length;
      while k < len
        invariant Valid() && k <= len
        invariant ReadState(old(cells), cells, off, k) && ReadArrays(old(cells), off, blk[..], rep[..], k)
      {
        var done := Min(layout.span(off + k), len - k);
        if layout.dnodeOf(off + k) !in dnodes {
          ReadHole(old(cells), cells, off, blk[..], rep[..], k, done);
        } else {
          ReadDnode(blk, rep, off, k, k + done, old(cells));
        }
        k := k + done;
      }
    }

    /** The part of __clone_blkaddrs that works on one direct node of the destination: blocks to move and holes. */
    method CloneRun(blk: array<Option<Blk>>, rep: array<bool>, src: nat, dst: nat, from: nat, ghost c: Cells)
      returns (i: nat)
      requires Valid() && from < blk.Length == rep.Length && (dst < src || dst >= src + blk.Length)
      requires ReadArrays(c, src, blk[..], rep[..], blk.Length) && (rep[from] || blk[from].None?)
      requires CloneState(c, cells, src, dst, blk.Length, from)
      modifies this
      ensures Valid() && from < i <= blk.Length && CloneState(c, cells, src, dst, blk.Length, i)
    {
      i := from;
      dnodes := dnodes + {layout.dnodeOf(dst + i)};
      var ilen := Min(layout.span(dst + i), blk.Length - i);
      while true
        invariant Valid() && from <= i && 1 <= ilen <= blk.Length - i && (rep[i] || blk[i].None?)
        invariant i + ilen <= from + layout.span(dst + from) && layout.dnodeOf(dst + from) in dnodes
        invariant CloneState(c, cells, src, dst, blk.Length, i)
        decreases ilen
      {
        assert blk[..][i] == Cell(c, src + i) && rep[..][i] == (src + i in c && !c[src + i].checkpointed);
        ArriveMoved(c, cells, src, dst, blk.Length, i);
        cells := cells - {dst + i};
        if rep[i] {
          cells := cells[dst + i := blk[i].value];
        }
        i := i + 1;
        ilen := ilen - 1;
        if !(ilen > 0 && (rep[i] || blk[i].None?)) {
          break;
        }
      }
    }

    /** __clone_blkaddrs, error-free. */
    method Clone(blk: array<Option<Blk>>, rep: array<bool>, src: nat, dst: nat, full: bool, ghost c: Cells)
      requires Valid() && blk.Length == rep.Length && CanMove(c, src, dst, blk.Length, full)
      requires ReadArrays(c, src, blk[..], rep[..], blk.Length) && ReadState(c, cells, src, blk.Length)
      modifies this
      ensures Valid() && IsMoved(c, cells, src, dst, blk.Length)
    {
      var i, len := 0, blk.Length;
      CloneStart(c, cells, src, dst, len);
      while i < len
        invariant Valid() && i <= len && CloneState(c, cells, src, dst, len, i)
      {
        assert blk[..][i] == Cell(c, src + i) && rep[..][i] == (src + i in c && !c[src + i].checkpointed);
        if blk[i].None? && !full {
          SkipHole(c, cells, src, dst, len, i);
          i := i + 1;
        } else if rep[i] || blk[i].None? {
          i := CloneRun(blk, rep, src, dst, i, c);
        } else {
          ArriveCopied(c, cells, src, dst, len, i, Blk(c[src + i].data, true));
          dnodes := dnodes + {layout.dnodeOf(dst + i)};
          cells := cells[dst + i := Blk(cells[src + i].data, true)];
          cells := cells - {src + i};
          i := i + 1;
        }
      }
      CloneDone(c, cells, src, dst, len);
    }

    /** One chunk of __exchange_data_block. */
    method ExchangeChunk(src: nat, dst: nat, olen: nat, full: bool)
      requires Valid() && CanMove(cells, src, dst, olen, full)
      modifies this
      ensures Valid() && IsMoved(old(cells), cells, src, dst, olen)
    {
      var blk := new Option<Blk>[olen](_ => None);
      var rep := new bool[olen](_ => false);
      ReadOut(blk, rep, src);
      Clone(blk, rep, src, dst, full, old(cells));
    }

    /** __exchange_data_block, error-free; `chunk` is the largest number of pages handled at once. */
    method Exchange(src: nat, dst: nat, len: nat, full: bool, chunk: nat)
      requires Valid() && chunk >= 1 && CanMove(cells, src, dst, len, full)
      modifies this
      ensures Valid() && IsMoved(old(cells), cells, src, dst, len)
    {
      var m := 0;
      while m < len
        invariant Valid() && m <= len && IsMoved(old(cells), cells, src, dst, m)
      {
        var olen := Min(chunk, len - m);
        ghost var was := cells;
        MoveOn(old(cells), was, src, dst, m, olen, len, full);
        ExchangeChunk(src + m, dst + m, olen, full);
        MovedTwice(old(cells), was, cells, src, dst, m, olen, len, full);
        m := m + olen;
      }
    }

    /** f2fs_do_collapse */
    method DoCollapse(start: nat, end: nat, nrpages: nat, chunk: nat)
      requires Valid() && chunk >= 1 && start < end <= nrpages
      modifies this
      ensures Valid() && IsMoved(old(cells), cells, end, start, nrpages - end)
    {
      Exchange(end, start, nrpages - end, true, chunk);
    }

    /** f2fs_truncate_blocks at a page boundary. */
    method Truncate(from: nat)
      requires Valid()
      modifies this`cells
      ensures Valid() && forall p: nat :: Data(cells, p) == if p < from then Data(old(cells), p) else None
    {
      cells := map p | p in cells && p < from :: cells[p];
    }

    /** The page side of f2fs_collapse_range: pages from `end` on move down over [start, end), nothing below moves,
        and nothing is left past the new end. */
    method CollapseRange(start: nat, end: nat, nrpages: nat, chunk: nat)
      requires Valid() && chunk >= 1 && start < end <= nrpages && forall p: nat :: p in cells ==> p < nrpages
      modifies this
      ensures Valid()
      ensures forall p: nat :: Data(cells, p) == if p < start then Data(old(cells), p)
                                                 else Data(old(cells), p + (end - start))
    {
      DoCollapse(start, end, nrpages, chunk);
      ghost var mid := cells;
      Truncate(nrpages - (end - start));
      Collapsed(old(cells), mid, cells, start, end, nrpages);
    }

    /** The page side of f2fs_insert_range: pages from `start` on move up by delta, the gap is all
        holes, nothing below moves. */
    method InsertRange(start: nat, delta: nat, nrpages: nat, chunk: nat)
      requires Valid() && chunk >= 1 && delta >= 1 && start <= nrpages
      modifies this
      ensures Valid()
      ensures forall p: nat :: Data(cells, p) ==
                if p < start then Data(old(cells), p)
                else if p < start + delta then None
                else if p < nrpages + delta then Data(old(cells), p - delta) else None
    {
      Truncate(nrpages);
      ghost var c := cells;
      var idx := nrpages;
      RaisedStart(c, nrpages, delta);
      while idx > start
        invariant Valid() && start <= idx <= nrpages && IsRaised(c, cells, idx, delta)
      {
        var nr := Min(idx - start, delta);
        idx := idx - nr;
        ghost var was := cells;
        GapFree(c, was, idx, nr, delta);
        Exchange(idx, idx + delta, nr, false, chunk);
        RaisedOn(c, was, cells, idx, nr, delta);
      }
      Inserted(old(cells), c, cells, start, delta, nrpages);
    }
  }

  /** The pages from idx on have been raised by delta. */
  function Raised(c: Cells, idx: nat, delta: nat, p: nat): Option<int> {
    if p < idx then Data(c, p) else if p < idx + delta then None else Data(c, p - delta)
  }

  ghost predicate IsRaised(c: Cells, now: Cells, idx: nat, delta: nat) {
    forall p: nat :: Data(now, p) == Raised(c, idx, delta, p)
  }

  /** The pages above the next batch have left room for it. */
  lemma GapFree(c: Cells, was: Cells, idx: nat, nr: nat, delta: nat)
    requires nr <= delta && IsRaised(c, was, idx + nr, delta)
    ensures CanMove(was, idx, idx + delta, nr, false)
  {
    forall p: nat | In(p, idx + delta, nr) ensures p !in was {
      assert Data(was, p) == Raised(c, idx + nr, delta, p) == None;
    }
  }

  lemma RaisedStart(c: Cells, nrpages: nat, delta: nat)
    requires forall p: nat :: p >= nrpages ==> Data(c, p) == None
    ensures IsRaised(c, c, nrpages, delta)
  {
  }

  lemma Inserted(c: Cells, cut: Cells, now: Cells, start: nat, delta: nat, nrpages: nat)
    requires start <= nrpages && IsRaised(cut, now, start, delta)
    requires forall p: nat :: Data(cut, p) == if p < nrpages then Data(c, p) else None
    ensures forall p: nat :: Data(now, p) ==
              if p < start then Data(c, p)
              else if p < start + delta then None
              else if p < nrpages + delta then Data(c, p - delta) else None
  {
    forall p: nat
      ensures Data(now, p) == if p < start then Data(c, p)
                              else if p < start + delta then None
                              else if p < nrpages + delta then Data(c, p - delta) else None
    {
      assert Data(now, p) == Raised(cut, start, delta, p);
    }
  }

  lemma RaisedOn(c: Cells, was: Cells, now: Cells, idx: nat, nr: nat, delta: nat)
    requires nr <= delta && IsRaised(c, was, idx + nr, delta)
    requires IsMoved(was, now, idx, idx + delta, nr)
    ensures IsRaised(c, now, idx, delta)
  {
    forall p: nat ensures Data(now, p) == Raised(c, idx, delta, p) {
      assert Data(now, p) == Moved(was, idx, idx + delta, nr, p);
    }
  }

  lemma Collapsed(c: Cells, mid: Cells, now: Cells, start: nat, end: nat, nrpages: nat)
    requires start < end <= nrpages && forall p: nat :: p in c ==> p < nrpages
    requires IsMoved(c, mid, end, start, nrpages - end)
    requires forall p: nat :: Data(now, p) == if p < nrpages - (end - start) then Data(mid, p) else None
    ensures forall p: nat :: Data(now, p) == if p < start then Data(c, p) else Data(c, p + (end - start))
  {
    forall p: nat ensures Data(now, p) == if p < start then Data(c, p) else Data(c, p + (end - start)) {
      assert Data(mid, p) == Moved(c, end, start, nrpages - end, p);
    }
  }

  /** After m pages the rest can still be moved, and it has not been touched. */
  lemma MoveOn(c: Cells, was: Cells, src: nat, dst: nat, m: nat, olen: nat, len: nat, full: bool)
    requires CanMove(c, src, dst, len, full) && m + olen <= len
    requires IsMoved(c, was, src, dst, m)
    ensures CanMove(was, src + m, dst + m, olen, full)
  {
    if !full {
      forall p: nat | In(p, dst + m, olen) ensures p !in was {
        assert Data(was, p) == Moved(c, src, dst, m, p) == Data(c, p);
      }
    }
  }

  lemma MovedTwice(c: Cells, was: Cells, now: Cells, src: nat, dst: nat, m: nat, olen: nat, len: nat, full: bool)
    requires CanMove(c, src, dst, len, full) && m + olen <= len
    requires IsMoved(c, was, src, dst, m)
    requires IsMoved(was, now, src + m, dst + m, olen)
    ensures IsMoved(c, now, src, dst, m + olen)
  {
    forall p: nat ensures Data(now, p) == Moved(c, src, dst, m + olen, p) {
      if In(p, dst + m, olen) {
        assert Data(was, p - dst + src) == Data(c, p - dst + src);
      }
    }
  }
}
