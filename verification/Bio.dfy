/** Merging pages into bios and redirecting bios to the NVM.  Only a bio's start sector is
    redirected, so a bio must not leave the segment it starts in. */
module Bio {
  import opened Arith
  import opened Common
  import opened MptTable
  import Tiering

  /** Where segment 0 begins, blocks per segment, the first main-area segment of the SSD, and the NVM main area. */
  datatype Geo = Geo(seg0: nat, bps: nat, mainSeg: nat, nvmMain: nat)

  type Geometry = g: Geo | g.bps >= 1 witness Geo(0, 512, 0, 0)

  function SegOf(g: Geometry, b: nat): nat
    requires g.seg0 <= b
  {
    (b - g.seg0) / g.bps
  }

  function OffOf(g: Geometry, b: nat): nat
    requires g.seg0 <= b
  {
    (b - g.seg0) % g.bps
  }

  /** A block of the SSD's main area that the table covers. */
  predicate InMain(g: Geometry, t: Table, b: nat) {
    g.seg0 <= b && g.mainSeg <= SegOf(g, b) && t.nvm + (SegOf(g, b) - g.mainSeg) < |t.mpt|
  }

  datatype Target = OnSsd(blk: nat) | OnNvm(blk: nat)

  function EntryOf(g: Geometry, t: Table, b: nat): Entry
    requires InMain(g, t, b)
  {
    t.mpt[t.nvm + (SegOf(g, b) - g.mainSeg)]
  }

  /** nvm_redirect_bio: where a data or node bio that starts at this block goes. */
  function Redirect(g: Geometry, t: Table, b: nat): Target
    requires InMain(g, t, b)
  {
    var e := EntryOf(g, t, b);
    if e.redirect then OnNvm(g.nvmMain + e.value * g.bps + OffOf(g, b)) else OnSsd(b)
  }

  /** The i-th block of a bio that starts there. */
  function Advance(x: Target, i: nat): Target {
    match x
    case OnSsd(b) => OnSsd(b + i)
    case OnNvm(b) => OnNvm(b + i)
  }

  datatype Page = Page(blk: nat, op: int)
  /** pad is the number of dummy pages that fill it up to the I/O size. */
  datatype Bio = Bio(start: nat, op: int, pages: seq<Page>, pad: nat)

  /** Consecutive blocks of one segment, all with the bio's operation. */
  ghost predicate GoodBio(g: Geometry, b: Bio) {
    b.pages != [] && g.seg0 <= b.start && forall i :: 0 <= i < |b.pages| ==> PageOk(g, b, i)
  }

  predicate PageOk(g: Geometry, b: Bio, i: nat)
    requires i < |b.pages| && g.seg0 <= b.start
  {
    b.pages[i].blk == b.start + i && b.pages[i].op == b.op && SegOf(g, b.start + i) == SegOf(g, b.start)
  }

  lemma SameSegment(g: Geometry, a: nat, b: nat)
    requires g.seg0 <= a <= b && SegOf(g, a) == SegOf(g, b)
    ensures OffOf(g, b) == OffOf(g, a) + (b - a)
  {
    var x, y := a - g.seg0, b - g.seg0;
    assert x == x / g.bps * g.bps + x % g.bps;
    assert y == y / g.bps * g.bps + y % g.bps;
  }

  /** Redirecting the start of a good bio sends every page to exactly the block that the table
      assigns to the page's own block. */
  lemma EveryPageArrives(g: Geometry, t: Table, b: Bio, i: nat)
    requires GoodBio(g, b) && i < |b.pages| && InMain(g, t, b.start)
    ensures InMain(g, t, b.pages[i].blk)
    ensures Advance(Redirect(g, t, b.start), i) == Redirect(g, t, b.pages[i].blk)
  {
    assert PageOk(g, b, i);
    RedirectOn(g, t, b.start, i);
  }

  lemma RedirectOn(g: Geometry, t: Table, b: nat, i: nat)
    requires InMain(g, t, b) && SegOf(g, b + i) == SegOf(g, b)
    ensures InMain(g, t, b + i) && Advance(Redirect(g, t, b), i) == Redirect(g, t, b + i)
  {
    SameSegment(g, b, b + i);
  }

  /** Two blocks in a row, the second in the next segment: one bio would do right by both exactly
      when neither is redirected, or both are and to neighbouring NVM segments. */
  lemma CrossingExact(g: Geometry, t: Table, b: nat)
    requires InMain(g, t, b) && InMain(g, t, b + 1) && SegOf(g, b + 1) != SegOf(g, b)
    ensures var e, f := EntryOf(g, t, b), EntryOf(g, t, b + 1);
            Advance(Redirect(g, t, b), 1) == Redirect(g, t, b + 1)
            <==> (!e.redirect && !f.redirect) || (e.redirect && f.redirect && f.value == e.value + 1)
  {
    var e, f := EntryOf(g, t, b), EntryOf(g, t, b + 1);
    LastOfSegment(g, b);
    if e.redirect && f.redirect {
      Scale(e.value, f.value, g.bps);
    }
  }

  lemma LastOfSegment(g: Geometry, b: nat)
    requires g.seg0 <= b && SegOf(g, b + 1) != SegOf(g, b)
    ensures OffOf(g, b) == g.bps - 1 && OffOf(g, b + 1) == 0
  {
    var x := b - g.seg0;
    var q, r := x / g.bps, x % g.bps;
    assert x == q * g.bps + r;
    if r < g.bps - 1 {
      DivIs(x + 1, q, r + 1, g.bps);
    } else {
      assert x + 1 == (q + 1) * g.bps + 0;
      DivIs(x + 1, q + 1, 0, g.bps);
    }
  }

  lemma Scale(a: nat, b: nat, u: nat)
    requires u >= 1
    ensures a * u + u == b * u <==> b == a + 1
  {
    assert (a + 1) * u == a * u + u;
    if b > a + 1 { MulLe(a + 2, b, u); assert (a + 2) * u == a * u + u + u; } else if b < a + 1 { MulLe(b, a, u); }
  }

  /** Distinct SSD blocks never share an NVM block, whatever the table holds. */
  lemma NeverShared(g: Geometry, t: Table, a: nat, b: nat)
    requires Inv(t) && InMain(g, t, a) && InMain(g, t, b) && a != b
    requires Redirect(g, t, a).OnNvm? && Redirect(g, t, b).OnNvm?
    ensures Redirect(g, t, a) != Redirect(g, t, b)
  {
    var x, y := SegOf(g, a) - g.mainSeg, SegOf(g, b) - g.mainSeg;
    if x == y {
      if a < b { SameSegment(g, a, b); } else { SameSegment(g, b, a); }
    } else {
      assert Paired(t, t.nvm + x) && Paired(t, t.nvm + y);
      Tiering.NoSharing(t, x, y);
      Apart(t.mpt[t.nvm + x].value, OffOf(g, a), t.mpt[t.nvm + y].value, OffOf(g, b), g.bps);
    }
  }

  lemma Apart(m: nat, i: nat, n: nat, j: nat, u: nat)
    requires i < u && j < u && m != n
    ensures m * u + i != n * u + j
  {
    if m < n { MulLe(m + 1, n, u); assert (m + 1) * u == m * u + u; }
    else { MulLe(n + 1, m, u); assert (n + 1) * u == n * u + u; }
  }

  // ---- Filling up to the I/O size

  function PadOf(n: nat, ioSize: nat): nat
    requires ioSize >= 1
  {
    if n % ioSize == 0 then 0 else ioSize - n % ioSize
  }

  /** The part of __submit_bio that appends dummy pages. */
  method FillDummies(n: nat, ioSize: nat) returns (pad: nat)
    requires ioSize >= 1
    ensures pad == PadOf(n, ioSize) && pad < ioSize
  {
    var start := n % ioSize;
    pad := 0;
    if start != 0 {
      while start < ioSize
        invariant n % ioSize <= start <= ioSize && pad == start - n % ioSize
      {
        pad := pad + 1;
        start := start + 1;
      }
    }
  }

  /** A submitted bio is good, starts at a multiple of the I/O size and is filled up to one. */
  ghost predicate Sent(g: Geometry, ioSize: nat, b: Bio)
    requires ioSize >= 1
  {
    GoodBio(g, b) && b.start % ioSize == 0 && b.pad == PadOf(|b.pages|, ioSize)
  }

  lemma Multiple(x: nat, u: nat) returns (k: nat)
    requires u >= 1 && x % u == 0
    ensures x == k * u
  {
    k := x / u;
  }

  lemma PadMultiple(n: nat, u: nat) returns (k: nat)
    requires u >= 1
    ensures n + PadOf(n, u) == k * u
  {
    var q := n / u;
    assert n == q * u + n % u;
    k := if n % u == 0 then q else q + 1;
    assert (q + 1) * u == q * u + u;
  }

  /** The offset in the segment of a block at a multiple of the I/O size is one too. */
  lemma OffsetMultiple(g: Geometry, b: nat, u: nat) returns (k: int)
    requires u >= 1 && g.seg0 <= b && b % u == 0 && g.seg0 % u == 0 && g.bps % u == 0
    ensures OffOf(g, b) == k * u
  {
    var x := Multiple(b, u);
    var y := Multiple(g.seg0, u);
    var z := Multiple(g.bps, u);
    var q := SegOf(g, b);
    assert OffOf(g, b) == b - g.seg0 - q * g.bps;
    k := x - y - q * z;
    assert q * (z * u) == (q * z) * u;
    Times3(x, y, q * z, u);
  }

  lemma Times3(x: int, y: int, z: int, u: int)
    ensures (x - y - z) * u == x * u - y * u - z * u
  {
  }

  lemma BelowMultiple(k: int, j: int, u: int)
    requires u >= 1 && k * u < j * u + u
    ensures k * u <= j * u
  {
    if k > j {
      MulLe(j + 1, k, u);
      MulStep(j + 1, u);
    } else {
      MulLe(k, j, u);
    }
  }

  /** Where the I/O size divides the segment, the dummy pages stay inside it too, ... */
  lemma PadInside(g: Geometry, ioSize: nat, b: Bio)
    requires ioSize >= 1 && Sent(g, ioSize, b) && g.seg0 % ioSize == 0 && g.bps % ioSize == 0
    ensures OffOf(g, b.start) + |b.pages| + b.pad <= g.bps
  {
    var n := |b.pages|;
    assert PageOk(g, b, n - 1);
    SameSegment(g, b.start, b.start + (n - 1));
    var o := OffsetMultiple(g, b.start, ioSize);
    var p := PadMultiple(n, ioSize);
    var s := Multiple(g.bps, ioSize);
    Times3(o, -p, 0, ioSize);
    assert (o + p) * ioSize == o * ioSize + p * ioSize;
    BelowMultiple(o + p, s, ioSize);
  }

  /** ... and so the whole of the bio, dummies included, goes where the table says block by block. */
  lemma EveryDummyArrives(g: Geometry, t: Table, ioSize: nat, b: Bio, i: nat)
    requires ioSize >= 1 && Sent(g, ioSize, b) && g.seg0 % ioSize == 0 && g.bps % ioSize == 0
    requires InMain(g, t, b.start) && i < |b.pages| + b.pad
    ensures InMain(g, t, b.start + i) && Advance(Redirect(g, t, b.start), i) == Redirect(g, t, b.start + i)
  {
    PadInside(g, ioSize, b);
    var x := b.start - g.seg0;
    assert x == SegOf(g, b.start) * g.bps + OffOf(g, b.start);
    DivIs(x + i, SegOf(g, b.start), OffOf(g, b.start) + i, g.bps);
    RedirectOn(g, t, b.start, i);
  }

  // ---- Building bios

  function Pages(bios: seq<Bio>): seq<Page> {
    if bios == [] then [] else Pages(bios[..|bios| - 1]) + bios[|bios| - 1].pages
  }

  /** A bio under construction: pages and the last block taken. */
  ghost predicate Building(g: Geometry, bio: Option<Bio>, last: nat) {
    bio.Some? ==> GoodBio(g, bio.value) && last == bio.value.start + |bio.value.pages| - 1
  }

  ghost predicate AllGood(g: Geometry, bios: seq<Bio>) { forall i :: 0 <= i < |bios| ==> GoodBio(g, bios[i]) }

  function Current(bio: Option<Bio>): seq<Page> { if bio.Some? then bio.value.pages else [] }

  function Added(bio: Option<Bio>, p: Page): Bio {
    if bio.Some? then bio.value.(pages := bio.value.pages + [p]) else Bio(p.blk, p.op, [p], 0)
  }

  lemma AddedGood(g: Geometry, bio: Option<Bio>, last: nat, p: Page)
    requires Building(g, bio, last) && g.seg0 <= p.blk
    requires bio.Some? ==> p.blk == last + 1 && p.op == bio.value.op && SegOf(g, p.blk) == SegOf(g, last)
    ensures Building(g, Some(Added(bio, p)), p.blk) && Current(Some(Added(bio, p))) == Current(bio) + [p]
  {
    var b := Added(bio, p);
    if bio.Some? {
      var n := |bio.value.pages|;
      assert PageOk(g, bio.value, n - 1);
      forall i | 0 <= i < |b.pages| ensures PageOk(g, b, i) {
        if i < n { assert PageOk(g, bio.value, i); }
      }
    } else {
      assert PageOk(g, b, 0);
    }
  }

  /** Padding touches no page. */
  lemma PadKeeps(g: Geometry, b: Bio, pad: nat)
    requires GoodBio(g, b)
    ensures GoodBio(g, b.(pad := pad))
  {
    forall i | 0 <= i < |b.pages| ensures PageOk(g, b.(pad := pad), i) {
      assert PageOk(g, b, i);
    }
  }

  lemma PagesSubmit(bios: seq<Bio>, b: Bio)
    ensures Pages(bios + [b]) == Pages(bios) + b.pages
  {
    assert (bios + [b])[..|bios|] == bios;
  }

  /** One of the write streams: f2fs_bio_info, and the bios handed to the device so far. */
  class WriteIo {
    const g: Geometry
    const ioSize: nat
    var bio: Option<Bio>
    var last: nat
    var submitted: seq<Bio>

    ghost predicate Valid()
      reads this
    {
      && ioSize >= 1 && (forall i :: 0 <= i < |submitted| ==> Sent(g, ioSize, submitted[i]))
      && Building(g, bio, last) && (bio.Some? ==> bio.value.start % ioSize == 0)
    }

    /** Every page taken, in order. */
    ghost function Taken(): seq<Page>
      reads this
    {
      Pages(submitted) + Current(bio)
    }

    constructor (g: Geometry, ioSize: nat)
      requires ioSize >= 1
      ensures Valid() && Taken() == [] && this.g == g && this.ioSize == ioSize
    {
      this.g, this.ioSize := g, ioSize;
      bio, last, submitted := None, 0, [];
    }

    /** __submit_merged_bio */
    method SubmitMerged()
      requires Valid()
      modifies this`bio, this`submitted
      ensures Valid() && bio == None && Taken() == old(Taken())
    {
      if bio.Some? {
        var pad := FillDummies(|bio.value.pages|, ioSize);
        var b := bio.value.(pad := pad);
        PagesSubmit(submitted, b);
        PadKeeps(g, bio.value, pad);
        submitted := submitted + [b];
        bio := None;
      }
    }

    /** f2fs_submit_page_write for a data or node page; `sameDev` is __same_bdev, `room` whether the present bio can
        take one more page.  False: the page must be offered again, because a bio may only start at a multiple of
        ioSize. */
    method SubmitPage(p: Page, sameDev: bool, room: bool) returns (taken: bool)
      requires Valid() && g.seg0 <= p.blk
      modifies this
      ensures Valid() && Taken() == old(Taken()) + if taken then [p] else []
      ensures !taken ==> bio == None && p.blk % ioSize != 0
    {
      FlushUnless(p, sameDev, room);
      taken := bio.Some? || p.blk % ioSize == 0;
      if taken {
        Append(p);
      }
    }

    /** The page joins the present bio or starts a new one. */
    method Append(p: Page)
      requires Valid() && g.seg0 <= p.blk && (bio.None? ==> p.blk % ioSize == 0)
      requires bio.Some? ==> p.blk == last + 1 && p.op == bio.value.op && SegOf(g, p.blk) == SegOf(g, last)
      modifies this`bio, this`last
      ensures Valid() && Taken() == old(Taken()) + [p]
    {
      AddedGood(g, bio, last, p);
      bio := Some(Added(bio, p));
      last := p.blk;
    }

    /** The present bio goes out unless the page can be added to it. */
    method FlushUnless(p: Page, sameDev: bool, room: bool)
      requires Valid() && g.seg0 <= p.blk
      modifies this`bio, this`submitted
      ensures Valid() && Taken() == old(Taken())
      ensures bio.Some? ==> last + 1 == p.blk && bio.value.op == p.op && SegOf(g, last) == SegOf(g, p.blk)
    {
      if bio.Some? && (last + 1 != p.blk || bio.value.op != p.op || !sameDev) {
        SubmitMerged();
      }
      if bio.Some? && SegOf(g, last) != SegOf(g, p.blk) {
        SubmitMerged();
      }
      if bio.Some? && !room {
        SubmitMerged();
      }
    }
  }

  /** One page of a read: mapped to a block, a hole, or already in memory. */
  datatype Item = Mapped(blk: nat) | Hole | InMemory

  function Blocks(items: seq<Item>): seq<Page> {
    if items == [] then [] else
      var n := |items| - 1;
      Blocks(items[..n]) + if items[n].Mapped? then [Page(items[n].blk, 0)] else []
  }

  /** Submits the present read bio, if any. */
  method Flush(bios: seq<Bio>, bio: Option<Bio>, ghost g: Geometry) returns (r: seq<Bio>)
    requires AllGood(g, bios) && (bio.Some? ==> GoodBio(g, bio.value))
    ensures AllGood(g, r) && Pages(r) == Pages(bios) + Current(bio)
  {
    r := bios;
    if bio.Some? {
      PagesSubmit(bios, bio.value);
      r := bios + [bio.value];
    }
  }

  /** The bio-building part of f2fs_mpage_readpages. */
  method ReadPages(g: Geometry, items: seq<Item>, sameDev: nat -> bool, room: nat -> bool) returns (bios: seq<Bio>)
    requires forall i :: 0 <= i < |items| && items[i].Mapped? ==> g.seg0 <= items[i].blk
    ensures AllGood(g, bios) && Pages(bios) == Blocks(items)
  {
    bios := [];
    var bio: Option<Bio>, last := None, 0;
    for n := 0 to |items|
      invariant AllGood(g, bios) && Building(g, bio, last) && (bio.Some? ==> bio.value.op == 0)
      invariant Pages(bios) + Current(bio) == Blocks(items[..n])
    {
      BlocksStep(items, n);
      if items[n].InMemory? {
        bios := Flush(bios, bio, g);
        bio := None;
      } else if items[n].Mapped? {
        bios, bio, last := ReadPage(g, bios, bio, last, items[n].blk, sameDev(n), room(n));
      }
    }
    assert items[..|items|] == items;
    bios := Flush(bios, bio, g);
  }

  lemma BlocksStep(items: seq<Item>, n: nat)
    requires n < |items|
    ensures Blocks(items[..n + 1]) == Blocks(items[..n]) + if items[n].Mapped? then [Page(items[n].blk, 0)] else []
  {
    assert items[..n + 1][..n] == items[..n];
  }

  /** One mapped page: a new bio where the blocks do not follow on, the device or the segment changes, or the bio is
      full. */
  method ReadPage(g: Geometry, bios0: seq<Bio>, bio0: Option<Bio>, last0: nat, blk: nat, sameDev: bool, room: bool)
    returns (bios: seq<Bio>, bio: Option<Bio>, last: nat)
    requires AllGood(g, bios0) && Building(g, bio0, last0) && (bio0.Some? ==> bio0.value.op == 0) && g.seg0 <= blk
    ensures AllGood(g, bios) && Building(g, bio, last) && (bio.Some? ==> bio.value.op == 0)
    ensures Pages(bios) + Current(bio) == Pages(bios0) + Current(bio0) + [Page(blk, 0)]
  {
    bios, bio := bios0, bio0;
    if bio.Some? && (last0 + 1 != blk || !sameDev) {
      bios := Flush(bios, bio, g);
      bio := None;
    }
    if bio.Some? && (SegOf(g, last0) != SegOf(g, blk) || !room) {
      bios := Flush(bios, bio, g);
      bio := None;
    }
    AddedGood(g, bio, last0, Page(blk, 0));
    bio := Some(Added(bio, Page(blk, 0)));
    last := blk;
  }
}
