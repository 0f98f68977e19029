/** Directories: names hashed over levels of buckets, each bucket a few blocks, each block a bitmap of slots with
    entries that take one or more slots in a row. */
module Dir {
  import opened Common

  type Name = seq<int>

  const SLOTS: nat := 214
  const SLOT_LEN: nat := 8
  const NAME_LEN: nat := 255
  const MAX_DEPTH: nat := 63
  const HALF_DEPTH: nat := 31
  const MAX_BUCKETS: nat := 0x4000_0000
  const U32: nat := 0x1_0000_0000

  // ---- One block

  /** The entry in a slot: the name is the file name area from this slot on. */
  datatype Dentry = Dentry(hash: nat, name: Name, ino: nat)

  datatype Block = Block(bits: seq<bool>, dents: seq<Dentry>)

  predicate Sized(b: Block) { |b.bits| == SLOTS && |b.dents| == SLOTS }

  function SlotsOf(len: nat): nat { (len + SLOT_LEN - 1) / SLOT_LEN }

  predicate AllSet(bits: seq<bool>, from: nat, len: nat) {
    from + len <= |bits| && forall i :: from <= i < from + len ==> bits[i]
  }

  predicate AllClear(bits: seq<bool>, from: nat, len: nat) {
    from + len <= |bits| && forall i :: from <= i < from + len ==> !bits[i]
  }

  /** From pos on, the set bits are runs, one for each entry. */
  predicate Runs(b: Block, pos: nat)
    requires Sized(b)
    decreases b, SLOTS - pos
  {
    if pos >= SLOTS then pos == SLOTS
    else if !b.bits[pos] then Runs(b, pos + 1)
    else
      var s := SlotsOf(|b.dents[pos].name|);
      s >= 1 && AllSet(b.bits, pos, s) && Runs(b, pos + s)
  }

  /** Where the entries from pos on are. */
  function Starts(b: Block, pos: nat): set<nat>
    requires Sized(b) && Runs(b, pos)
    decreases b, SLOTS - pos
  {
    if pos >= SLOTS then {}
    else if !b.bits[pos] then Starts(b, pos + 1)
    else {pos} + Starts(b, pos + SlotsOf(|b.dents[pos].name|))
  }

  lemma {:induction false} StartsRange(b: Block, pos: nat, p: nat)
    requires Sized(b) && Runs(b, pos) && p in Starts(b, pos)
    ensures pos <= p < SLOTS && AllSet(b.bits, p, SlotsOf(|b.dents[p].name|)) && SlotsOf(|b.dents[p].name|) >= 1
    decreases SLOTS - pos
  {
    if !b.bits[pos] {
      StartsRange(b, pos + 1, p);
    } else if p != pos {
      StartsRange(b, pos + SlotsOf(|b.dents[pos].name|), p);
    }
  }

  /** Blocks that agree from pos on have the same entries there. */
  lemma {:induction false} SameFrom(b: Block, c: Block, pos: nat)
    requires Sized(b) && Sized(c) && Runs(b, pos)
    requires forall i :: pos <= i < SLOTS ==> b.bits[i] == c.bits[i] && b.dents[i] == c.dents[i]
    ensures Runs(c, pos) && Starts(c, pos) == Starts(b, pos)
    decreases SLOTS - pos
  {
    if pos < SLOTS {
      SameFrom(b, c, if !b.bits[pos] then pos + 1 else pos + SlotsOf(|b.dents[pos].name|));
    }
  }

  /** Free slots hold no entries. */
  lemma {:induction false} SkipClear(b: Block, pos: nat, s: nat)
    requires Sized(b) && AllClear(b.bits, pos, s) && Runs(b, pos)
    ensures Runs(b, pos + s) && Starts(b, pos) == Starts(b, pos + s)
    decreases s
  {
    if s > 0 { SkipClear(b, pos + 1, s - 1); }
  }

  lemma {:induction false} ClearSkipped(b: Block, pos: nat, s: nat)
    requires Sized(b) && AllClear(b.bits, pos, s) && Runs(b, pos + s)
    ensures Runs(b, pos) && Starts(b, pos) == Starts(b, pos + s)
    decreases s
  {
    if s > 0 { ClearSkipped(b, pos + 1, s - 1); }
  }

  /** b and c differ at most in the slots [p, p + s). */
  predicate SameBut(b: Block, c: Block, p: nat, s: nat)
    requires Sized(b) && Sized(c)
  {
    forall i :: 0 <= i < SLOTS && !(p <= i < p + s) ==> b.bits[i] == c.bits[i] && b.dents[i] == c.dents[i]
  }

  /** A run of set bits ends before a free slot, and nothing in it changes. */
  lemma RunKept(b: Block, c: Block, pos: nat, t: nat, p: nat, s: nat)
    requires Sized(b) && Sized(c) && pos <= p && s >= 1 && t >= 1
    requires AllSet(b.bits, pos, t) && AllClear(b.bits, p, s) && SameBut(b, c, p, s)
    ensures pos + t <= p && AllSet(c.bits, pos, t) && c.dents[pos] == b.dents[pos]
  {
    assert !b.bits[p];
  }

  /** Writing an entry into free slots adds exactly it. */
  lemma {:induction false} WriteAdds(b: Block, c: Block, pos: nat, p: nat, d: Dentry)
    requires Sized(b) && Sized(c) && Runs(b, pos) && pos <= p && |d.name| >= 1
    requires AllClear(b.bits, p, SlotsOf(|d.name|)) && SameBut(b, c, p, SlotsOf(|d.name|))
    requires AllSet(c.bits, p, SlotsOf(|d.name|)) && c.dents[p] == d
    ensures Runs(c, pos) && Starts(c, pos) == Starts(b, pos) + {p}
    decreases SLOTS - pos
  {
    var s := SlotsOf(|d.name|);
    if pos == p {
      SkipClear(b, p, s);
      SameFrom(b, c, p + s);
    } else if !b.bits[pos] {
      WriteAdds(b, c, pos + 1, p, d);
    } else {
      var t := SlotsOf(|b.dents[pos].name|);
      RunKept(b, c, pos, t, p, s);
      WriteAdds(b, c, pos + t, p, d);
    }
  }

  /** Clearing the slots of an entry removes exactly it. */
  lemma {:induction false} ClearRemoves(b: Block, c: Block, pos: nat, p: nat)
    requires Sized(b) && Sized(c) && Runs(b, pos) && p in Starts(b, pos) && p < SLOTS
    requires SameBut(b, c, p, SlotsOf(|b.dents[p].name|)) && AllClear(c.bits, p, SlotsOf(|b.dents[p].name|))
    ensures Runs(c, pos) && Starts(c, pos) == Starts(b, pos) - {p}
    decreases SLOTS - pos
  {
    var s := SlotsOf(|b.dents[p].name|);
    StartsRange(b, pos, p);
    if pos == p {
      SameFrom(b, c, p + s);
      ClearSkipped(c, p, s);
      NotBefore(b, p + s, p);
    } else if !b.bits[pos] {
      ClearRemoves(b, c, pos + 1, p);
    } else {
      var t := SlotsOf(|b.dents[pos].name|);
      StartsRange(b, pos + t, p);
      assert AllSet(c.bits, pos, t);
      ClearRemoves(b, c, pos + t, p);
      assert c.bits[pos];
    }
  }

  lemma {:induction false} FreeIsNoStart(b: Block, pos: nat, p: nat)
    requires Sized(b) && Runs(b, pos) && p < SLOTS && !b.bits[p]
    ensures p !in Starts(b, pos)
    decreases SLOTS - pos
  {
    if pos < SLOTS { FreeIsNoStart(b, if !b.bits[pos] then pos + 1 else pos + SlotsOf(|b.dents[pos].name|), p); }
  }

  lemma NotBefore(b: Block, pos: nat, p: nat)
    requires Sized(b) && Runs(b, pos) && p < pos
    ensures p !in Starts(b, pos)
  {
    if p in Starts(b, pos) { StartsRange(b, pos, p); }
  }

  /** m is the length of the longest run of clear bits. */
  ghost predicate LongestFree(bits: seq<bool>, m: nat) {
    && (exists q: nat :: AllClear(bits, q, m))
    && forall q: nat, s: nat :: AllClear(bits, q, s) ==> s <= m
  }

  /** Before pos the last `len` bits are clear, the one before them is set, and m is the longest run before that one. */
  ghost predicate Scanned(bits: seq<bool>, pos: nat, m: nat, len: nat) {
    && len <= pos <= |bits| && AllClear(bits, pos - len, len) && (pos > len ==> bits[pos - len - 1])
    && LongestFree(bits[..pos - len], m)
  }

  lemma ScanClear(bits: seq<bool>, pos: nat, m: nat, len: nat)
    requires Scanned(bits, pos, m, len) && pos < |bits| && !bits[pos]
    ensures Scanned(bits, pos + 1, m, len + 1)
  {
    assert pos + 1 - (len + 1) == pos - len;
  }

  lemma ScanSet(bits: seq<bool>, pos: nat, m: nat, len: nat, s: nat)
    requires Scanned(bits, pos, m, len) && AllSet(bits, pos, s) && s >= 1
    ensures Scanned(bits, pos + s, if len > m then len else m, 0)
  {
    var m' := if len > m then len else m;
    ScanEnd(bits, pos, m, len);
    var q: nat :| AllClear(bits[..pos], q, m');
    var more := bits[..pos + s];
    assert AllClear(more, q, m');
    forall q: nat, t: nat | AllClear(more, q, t) ensures t <= m' {
      if t > 0 {
        assert !more[q + t - 1];
        assert AllClear(bits[..pos], q, t);
      }
    }
  }

  lemma ScanEnd(bits: seq<bool>, pos: nat, m: nat, len: nat)
    requires Scanned(bits, pos, m, len)
    ensures LongestFree(bits[..pos], if len > m then len else m)
  {
    var m' := if len > m then len else m;
    var head, all := bits[..pos - len], bits[..pos];
    if len > m {
      assert AllClear(all, pos - len, len);
    } else {
      var q: nat :| AllClear(head, q, m);
      assert AllClear(all, q, m);
    }
    forall q: nat, t: nat | AllClear(all, q, t) ensures t <= m' {
      if q + t <= pos - len {
        forall i | q <= i < q + t ensures !head[i] { assert !all[i]; }
        assert AllClear(head, q, t);
      }
    }
  }

  /** f2fs_find_target_dentry: the entry of this block with this name, and the longest run of free slots before it.  (An
      entry without a name, which the source steps over, does not start a run.) */
  method FindTarget(b: Block, name: Name, hash: nat) returns (r: Option<nat>, maxSlots: nat)
    requires Sized(b) && Runs(b, 0)
    ensures r.Some? ==> r.value in Starts(b, 0) && r.value < SLOTS
    ensures r.Some? ==> b.dents[r.value].hash == hash && b.dents[r.value].name == name
    ensures r.None? ==> NoTargetIn(b, name, hash)
    ensures LongestFree(b.bits[..if r.Some? then r.value else SLOTS], maxSlots)
  {
    var pos, len := 0, 0;
    maxSlots := 0;
    assert AllClear(b.bits[..0], 0, 0);
    while pos < SLOTS
      invariant pos <= SLOTS && Runs(b, pos) && Starts(b, pos) <= Starts(b, 0) && Scanned(b.bits, pos, maxSlots, len)
      invariant forall p :: p in Starts(b, 0) && p !in Starts(b, pos) ==>
                  p < SLOTS && (b.dents[p].hash != hash || b.dents[p].name != name)
    {
      if !b.bits[pos] {
        ScanClear(b.bits, pos, maxSlots, len);
        pos, len := pos + 1, len + 1;
      } else {
        if b.dents[pos].hash == hash && b.dents[pos].name == name {
          r := Some(pos);
          break;
        }
        var slots := SlotsOf(|b.dents[pos].name|);
        ScanSet(b.bits, pos, maxSlots, len, slots);
        maxSlots := if len > maxSlots then len else maxSlots;
        pos, len := pos + slots, 0;
      }
    }
    ScanEnd(b.bits, pos, maxSlots, len);
    maxSlots := if len > maxSlots then len else maxSlots;
    if pos >= SLOTS {
      r := None;
    }
  }

  /** f2fs_room_for_filename: the first place where `slots` bits in a row are clear, or `max` exactly if there is
      none. */
  method RoomForFilename(bits: seq<bool>, slots: nat, max: nat) returns (r: nat)
    requires |bits| == max && slots >= 1
    ensures r <= max && (r < max ==> AllClear(bits, r, slots))
    ensures forall q :: 0 <= q < r ==> !AllClear(bits, q, slots)
  {
    var start := 0;
    while true
      invariant start <= max && forall q :: 0 <= q < start ==> !AllClear(bits, q, slots)
      decreases max - start
    {
      var zs := start;
      while zs < max && bits[zs]
        invariant start <= zs <= max && forall q :: 0 <= q < zs ==> !AllClear(bits, q, slots)
      {
        zs := zs + 1;
      }
      if zs >= max {
        return max;
      }
      var ze := zs;
      while ze < max && !bits[ze]
        invariant zs <= ze <= max && forall i :: zs <= i < ze ==> !bits[i]
      {
        ze := ze + 1;
      }
      if ze - zs >= slots {
        return zs;
      }
      NoneBefore(bits, slots, zs, ze);
      if ze + 1 >= max {
        return max;
      }
      start := ze + 1;
    }
  }

  /** A run of clear bits that is too short, up to a set bit or the end, leaves no room up to there. */
  lemma NoneBefore(bits: seq<bool>, slots: nat, zs: nat, ze: nat)
    requires slots >= 1 && zs <= ze <= |bits| && ze - zs < slots && (ze < |bits| ==> bits[ze])
    ensures forall q :: zs <= q <= ze ==> !AllClear(bits, q, slots)
  {
    forall q | zs <= q <= ze ensures !AllClear(bits, q, slots) {
      if ze < |bits| && q + slots <= |bits| { assert q <= ze < q + slots; }
    }
  }

  const NO_NAME: Name := []

  /** f2fs_update_dentry: the entry, its bits, and empty names in its other slots. */
  method UpdateDentry(b: Block, p: nat, d: Dentry) returns (c: Block)
    requires Sized(b) && Runs(b, 0) && |d.name| >= 1 && AllClear(b.bits, p, SlotsOf(|d.name|)) && p < SLOTS
    ensures Sized(c) && Runs(c, 0) && Starts(c, 0) == Starts(b, 0) + {p} && c.dents[p] == d
    ensures SameBut(b, c, p, SlotsOf(|d.name|)) && p !in Starts(b, 0)
  {
    var slots := SlotsOf(|d.name|);
    c := b.(dents := b.dents[p := d]);
    for i := 0 to slots
      invariant Sized(c) && SameBut(b, c, p, slots) && c.dents[p] == d && AllSet(c.bits, p, i)
    {
      c := c.(bits := c.bits[p + i := true]);
      if i > 0 {
        c := c.(dents := c.dents[p + i := c.dents[p + i].(name := NO_NAME)]);
      }
    }
    WriteAdds(b, c, 0, p, d);
    FreeIsNoStart(b, 0, p);
  }

  /** The part of f2fs_delete_entry inside the block. */
  method ClearDentry(b: Block, p: nat) returns (c: Block)
    requires Sized(b) && Runs(b, 0) && p in Starts(b, 0) && p < SLOTS
    ensures Sized(c) && Runs(c, 0) && Starts(c, 0) == Starts(b, 0) - {p} && c.dents == b.dents
  {
    StartsRange(b, 0, p);
    var slots := SlotsOf(|b.dents[p].name|);
    c := b;
    for i := 0 to slots
      invariant Sized(c) && SameBut(b, c, p, slots) && c.dents == b.dents && AllClear(c.bits, p, i)
    {
      c := c.(bits := c.bits[p + i := false]);
    }
    ClearRemoves(b, c, 0, p);
  }

  // ---- Levels and buckets

  function Pow2(n: nat): (r: nat)
    ensures r >= 1
  {
    if n == 0 then 1 else 2 * Pow2(n - 1)
  }

  /** dir_buckets */
  function Buckets(level: nat, dirLevel: nat): (r: nat)
    ensures r >= 1
  {
    if level + dirLevel < HALF_DEPTH then Pow2(level + dirLevel) else MAX_BUCKETS
  }

  /** bucket_blocks */
  function BucketBlocks(level: nat): nat { if level < HALF_DEPTH then 2 else 4 }

  /** What dir_block_index adds up before it adds the bucket; the products are 32 bits wide. */
  function LevelStart(level: nat, dirLevel: nat): nat {
    if level == 0 then 0
    else LevelStart(level - 1, dirLevel) + Buckets(level - 1, dirLevel) * BucketBlocks(level - 1) % U32
  }

  function BlockIndex(level: nat, dirLevel: nat, idx: nat): nat {
    LevelStart(level, dirLevel) + idx * BucketBlocks(level)
  }

  /** dir_block_index */
  method DirBlockIndex(level: nat, dirLevel: nat, idx: nat) returns (bidx: nat)
    ensures bidx == BlockIndex(level, dirLevel, idx)
  {
    bidx := 0;
    for i := 0 to level
      invariant bidx == LevelStart(i, dirLevel)
    {
      bidx := bidx + Buckets(i, dirLevel) * BucketBlocks(i) % U32;
    }
    bidx := bidx + idx * BucketBlocks(level);
  }

  lemma {:induction false} PowBound(n: nat)
    requires n < HALF_DEPTH
    ensures Pow2(n) <= MAX_BUCKETS
  {
    PowMono(n, 30);
    Pow30();
  }

  /** Every level has twice as many buckets as the one before, until there are 2^30. */
  lemma BucketsDouble(level: nat, dirLevel: nat)
    ensures Buckets(0, 0) == 1 && Buckets(level, dirLevel) == Buckets(level + dirLevel, 0) <= MAX_BUCKETS
    ensures var n := 2 * Buckets(level, dirLevel);
            Buckets(level + 1, dirLevel) == if n <= MAX_BUCKETS then n else MAX_BUCKETS
  {
    var n := level + dirLevel;
    Pow30();
    if n < HALF_DEPTH { PowBound(n); }
    if n + 1 < HALF_DEPTH { PowBound(n + 1); }
  }

  lemma {:induction false} PowMono(m: nat, n: nat)
    requires m <= n
    ensures Pow2(m) <= Pow2(n)
    decreases n - m
  {
    if m < n { PowMono(m + 1, n); }
  }

  lemma Pow30()
    ensures Pow2(30) == MAX_BUCKETS
  {
    assert Pow2(5) == 32;
    PowAdd(5, 5);
    PowAdd(10, 10);
    PowAdd(20, 10);
  }

  lemma {:induction false} PowAdd(m: nat, n: nat)
    ensures Pow2(m + n) == Pow2(m) * Pow2(n)
  {
    if n > 0 { PowAdd(m, n - 1); }
  }

  lemma Below32(n: nat)
    requires n <= MAX_BUCKETS
    ensures n * 2 % U32 == n * 2
  {
  }

  /** Below level 31 a level's blocks end where the next level's begin; from 31 on the 32-bit product is 0. */
  lemma LevelEnd(level: nat, dirLevel: nat)
    ensures level < HALF_DEPTH ==>
              LevelStart(level + 1, dirLevel) == BlockIndex(level, dirLevel, Buckets(level, dirLevel))
    ensures level >= HALF_DEPTH ==> LevelStart(level + 1, dirLevel) == LevelStart(level, dirLevel)
  {
    BucketsDouble(level, dirLevel);
    if level < HALF_DEPTH {
      Below32(Buckets(level, dirLevel));
    } else {
      assert Buckets(level, dirLevel) == MAX_BUCKETS;
    }
  }

  lemma {:induction false} StartMono(l: nat, m: nat, dirLevel: nat)
    requires l <= m
    ensures LevelStart(l, dirLevel) <= LevelStart(m, dirLevel)
    decreases m
  {
    if l < m { StartMono(l, m - 1, dirLevel); }
  }

  /** No block that a directory can have lies on a level from 31 on. */
  lemma HighStart(dirLevel: nat)
    ensures LevelStart(HALF_DEPTH, dirLevel) >= U32 / 2
  {
    LevelEnd(30, dirLevel);
    BucketsDouble(29, dirLevel);
    Pow30();
    if 30 + dirLevel < HALF_DEPTH { assert Buckets(30, dirLevel) == Pow2(30); }
  }

  /** Block b belongs to this bucket of this level. */
  predicate InBucket(b: nat, level: nat, dirLevel: nat, idx: nat) {
    BlockIndex(level, dirLevel, idx) <= b < BlockIndex(level, dirLevel, idx) + BucketBlocks(level)
  }

  lemma {:induction false} HighLevels(l: nat, dirLevel: nat)
    requires l >= HALF_DEPTH
    ensures LevelStart(l, dirLevel) == LevelStart(HALF_DEPTH, dirLevel)
  {
    if l > HALF_DEPTH {
      LevelEnd(l - 1, dirLevel);
      HighLevels(l - 1, dirLevel);
    }
  }

  /** Two different buckets share a block exactly when they have the same number on two of the levels from 31 on. */
  lemma BucketsDisjointExact(l: nat, i: nat, m: nat, j: nat, dirLevel: nat)
    requires l <= m && i < Buckets(l, dirLevel) && j < Buckets(m, dirLevel) && (l, i) != (m, j)
    ensures (exists b :: InBucket(b, l, dirLevel, i) && InBucket(b, m, dirLevel, j)) <==> l >= HALF_DEPTH && i == j
  {
    if l >= HALF_DEPTH {
      HighLevels(l, dirLevel);
      HighLevels(m, dirLevel);
      if i == j {
        assert InBucket(BlockIndex(l, dirLevel, i), l, dirLevel, i) &&
               InBucket(BlockIndex(l, dirLevel, i), m, dirLevel, j);
      }
    } else if l < m {
      LevelEnd(l, dirLevel);
      StartMono(l + 1, m, dirLevel);
    }
  }

  // ---- The directory

  /** The fixed hash of names, the directory's i_dir_level and the largest number of blocks a file can have. */
  datatype Config = Config(hash: Name -> nat, dirLevel: nat, maxBlocks: nat)

  type Blocks = map<nat, Block>

  /** Where every name is: block and slot. */
  type Places = map<Name, (nat, nat)>

  function Bucket(k: Config, level: nat, name: Name): nat { k.hash(name) % Buckets(level, k.dirLevel) }

  /** The block belongs to the name's bucket on this level. */
  predicate HomeAt(k: Config, b: nat, level: nat, name: Name) { InBucket(b, level, k.dirLevel, Bucket(k, level, name)) }

  /** ... on some level below the directory's depth. */
  ghost predicate Home(k: Config, b: nat, depth: nat, name: Name) {
    exists level: nat :: level < depth && HomeAt(k, b, level, name)
  }

  ghost predicate BlockOk(k: Config, b: nat, blk: Block) { b < k.maxBlocks && Sized(blk) && Runs(blk, 0) }

  /** The entry at this slot has its own hash, is where the places say, and in a bucket a lookup visits. */
  ghost predicate EntryOk(k: Config, b: nat, blk: Block, p: nat, depth: nat, at: Places) {
    && p < |blk.dents| && var d := blk.dents[p];
    && d.hash == k.hash(d.name) && d.name in at && at[d.name] == (b, p) && Home(k, b, depth, d.name)
  }

  ghost predicate PlaceOk(blocks: Blocks, n: Name, place: (nat, nat)) {
    && place.0 in blocks && Sized(blocks[place.0]) && Runs(blocks[place.0], 0)
    && place.1 in Starts(blocks[place.0], 0) && place.1 < SLOTS && blocks[place.0].dents[place.1].name == n
  }

  ghost predicate DirOk(k: Config, blocks: Blocks, depth: nat, at: Places) {
    && k.maxBlocks < U32 / 2 && depth <= MAX_DEPTH
    && (forall b :: b in blocks ==> BlockOk(k, b, blocks[b]))
    && (forall b, p :: b in blocks && p in Starts(blocks[b], 0) ==> EntryOk(k, b, blocks[b], p, depth, at))
    && (forall n :: n in at ==> PlaceOk(blocks, n, at[n]))
  }

  const EMPTY: Block := Block(seq(SLOTS, _ => false), seq(SLOTS, _ => Dentry(0, [], 0)))

  lemma NoEntries(b: Block)
    requires Sized(b) && forall i :: 0 <= i < SLOTS ==> !b.bits[i]
    ensures Runs(b, 0) && Starts(b, 0) == {}
  {
    ClearSkipped(b, 0, SLOTS);
  }

  lemma GrowBlock(k: Config, blocks: Blocks, depth: nat, at: Places, b: nat)
    requires DirOk(k, blocks, depth, at) && b !in blocks && b < k.maxBlocks
    ensures DirOk(k, blocks[b := EMPTY], depth, at)
  {
    NoEntries(EMPTY);
  }

  lemma GrowDepth(k: Config, blocks: Blocks, depth: nat, depth': nat, at: Places)
    requires DirOk(k, blocks, depth, at) && depth <= depth' <= MAX_DEPTH
    ensures DirOk(k, blocks, depth', at)
  {
    forall b, p | b in blocks && p in Starts(blocks[b], 0) ensures EntryOk(k, b, blocks[b], p, depth', at) {
      assert EntryOk(k, b, blocks[b], p, depth, at);
    }
  }

  lemma AddOk(k: Config, blocks: Blocks, depth: nat, at: Places, b: nat, p: nat, c: Block, d: Dentry)
    requires DirOk(k, blocks, depth, at) && b in blocks && Sized(c) && Runs(c, 0) && p < SLOTS
    requires Starts(c, 0) == Starts(blocks[b], 0) + {p} && c.dents[p] == d && p !in Starts(blocks[b], 0)
    requires forall q :: q in Starts(blocks[b], 0) ==> q < SLOTS && c.dents[q] == blocks[b].dents[q]
    requires d.name !in at && d.hash == k.hash(d.name) && Home(k, b, depth, d.name)
    ensures DirOk(k, blocks[b := c], depth, at[d.name := (b, p)])
  {
    var blocks', at' := blocks[b := c], at[d.name := (b, p)];
    forall b1, p1 | b1 in blocks' && p1 in Starts(blocks'[b1], 0) ensures EntryOk(k, b1, blocks'[b1], p1, depth, at') {
      if (b1, p1) != (b, p) { assert EntryOk(k, b1, blocks[b1], p1, depth, at); }
    }
    forall n | n in at' ensures PlaceOk(blocks', n, at'[n]) {
      if n != d.name { assert PlaceOk(blocks, n, at[n]); }
    }
  }

  lemma DeleteOk(k: Config, blocks: Blocks, depth: nat, at: Places, b: nat, p: nat, c: Block)
    requires DirOk(k, blocks, depth, at) && b in blocks && p in Starts(blocks[b], 0) && p < SLOTS
    requires Sized(c) && Runs(c, 0) && Starts(c, 0) == Starts(blocks[b], 0) - {p} && c.dents == blocks[b].dents
    ensures blocks[b].dents[p].name in at && DirOk(k, blocks[b := c], depth, at - {blocks[b].dents[p].name})
  {
    assert EntryOk(k, b, blocks[b], p, depth, at);
    var name := blocks[b].dents[p].name;
    DeleteEntries(k, blocks, blocks[b := c], depth, at, b, p, c, name);
    DeletePlaces(k, blocks, depth, at, b, p, c, name);
  }

  lemma DeleteEntries(k: Config, blocks: Blocks, blocks': Blocks, depth: nat, at: Places, b: nat, p: nat, c: Block,
                      name: Name)
    requires DirOk(k, blocks, depth, at) && b in blocks && name in at && at[name] == (b, p)
    requires Sized(c) && Runs(c, 0) && Starts(c, 0) == Starts(blocks[b], 0) - {p} && c.dents == blocks[b].dents
    requires blocks' == blocks[b := c]
    ensures forall b1, p1 :: b1 in blocks' && p1 in Starts(blocks'[b1], 0) ==>
              EntryOk(k, b1, blocks'[b1], p1, depth, at - {name})
  {
    forall b1, p1 | b1 in blocks' && p1 in Starts(blocks'[b1], 0)
      ensures EntryOk(k, b1, blocks'[b1], p1, depth, at - {name})
    {
      assert p1 in Starts(blocks[b1], 0) && (b1, p1) != (b, p);
      EntryStays(k, b1, blocks[b1], blocks'[b1], p1, depth, at, name);
    }
  }

  lemma EntryStays(k: Config, b: nat, blk: Block, c: Block, p: nat, depth: nat, at: Places, name: Name)
    requires EntryOk(k, b, blk, p, depth, at) && c.dents == blk.dents && name in at && at[name] != (b, p)
    ensures EntryOk(k, b, c, p, depth, at - {name})
  {
  }

  lemma DeletePlaces(k: Config, blocks: Blocks, depth: nat, at: Places, b: nat, p: nat, c: Block, name: Name)
    requires DirOk(k, blocks, depth, at) && b in blocks && name in at && at[name] == (b, p)
    requires Sized(c) && Runs(c, 0) && Starts(c, 0) == Starts(blocks[b], 0) - {p} && c.dents == blocks[b].dents
    ensures forall n :: n in at && n != name ==> PlaceOk(blocks[b := c], n, at[n])
  {
    forall n | n in at && n != name ensures PlaceOk(blocks[b := c], n, at[n]) {
      assert PlaceOk(blocks, n, at[n]) && PlaceOk(blocks, name, at[name]);
    }
  }

  lemma DropOk(k: Config, blocks: Blocks, depth: nat, at: Places, b: nat)
    requires DirOk(k, blocks, depth, at) && b in blocks && Starts(blocks[b], 0) == {}
    ensures DirOk(k, blocks - {b}, depth, at)
  {
    forall n | n in at ensures PlaceOk(blocks - {b}, n, at[n]) {
      assert PlaceOk(blocks, n, at[n]);
    }
  }

  /** The name is in none of the blocks of its bucket on this level. */
  ghost predicate AbsentAt(k: Config, blocks: Blocks, level: nat, name: Name) {
    forall b :: b in blocks && HomeAt(k, b, level, name) ==> AbsentIn(blocks[b], name)
  }

  ghost predicate AbsentIn(blk: Block, name: Name) {
    Sized(blk) && Runs(blk, 0) && forall p :: p in Starts(blk, 0) ==> p >= SLOTS || blk.dents[p].name != name
  }

  lemma AbsentHere(k: Config, blocks: Blocks, level: nat, name: Name, b: nat, p: nat)
    requires AbsentAt(k, blocks, level, name) && b in blocks && HomeAt(k, b, level, name) && Sized(blocks[b])
    requires Runs(blocks[b], 0)
    requires p in Starts(blocks[b], 0) && p < SLOTS
    ensures blocks[b].dents[p].name != name
  {
    assert AbsentIn(blocks[b], name);
  }

  lemma HomeLevel(k: Config, b: nat, depth: nat, name: Name) returns (level: nat)
    requires Home(k, b, depth, name)
    ensures level < depth && HomeAt(k, b, level, name)
  {
    level :| level < depth && HomeAt(k, b, level, name);
  }

  lemma PlaceHome(k: Config, blocks: Blocks, depth: nat, at: Places, name: Name)
    requires DirOk(k, blocks, depth, at) && name in at
    ensures PlaceOk(blocks, name, at[name]) && Home(k, at[name].0, depth, name)
  {
    var b, p := at[name].0, at[name].1;
    assert PlaceOk(blocks, name, at[name]);
    assert EntryOk(k, b, blocks[b], p, depth, at);
  }

  /** A name that is in none of its buckets below the depth is not in the directory. */
  lemma AbsentEverywhere(k: Config, blocks: Blocks, depth: nat, at: Places, name: Name)
    requires DirOk(k, blocks, depth, at) && forall level: nat :: level < depth ==> AbsentAt(k, blocks, level, name)
    ensures name !in at
  {
    if name in at {
      PlaceHome(k, blocks, depth, at, name);
      var level := HomeLevel(k, at[name].0, depth, name);
      AbsentHere(k, blocks, level, name, at[name].0, at[name].1);
    }
  }

  /** None of the blocks from lo to hi has an entry that a search for this name stops at. */
  ghost predicate NoTarget(blocks: Blocks, lo: nat, hi: nat, name: Name, hash: nat) {
    forall b: nat :: lo <= b < hi && b in blocks ==> NoTargetIn(blocks[b], name, hash)
  }

  ghost predicate NoTargetIn(blk: Block, name: Name, hash: nat) {
    && Sized(blk) && Runs(blk, 0)
    && forall p :: p in Starts(blk, 0) ==> p >= SLOTS || blk.dents[p].hash != hash || blk.dents[p].name != name
  }

  /** Somewhere `slots` bits in a row are clear. */
  ghost predicate HasRoom(bits: seq<bool>, slots: nat) { exists q: nat :: AllClear(bits, q, slots) }

  lemma RoomExact(bits: seq<bool>, m: nat, slots: nat)
    requires LongestFree(bits, m)
    ensures HasRoom(bits, slots) <==> slots <= m
  {
    if slots <= m {
      var q: nat :| AllClear(bits, q, m);
      assert AllClear(bits, q, slots);
    }
  }

  /** One of the blocks from lo to hi is missing or has room. */
  ghost predicate RoomIn(blocks: Blocks, lo: nat, hi: nat, slots: nat) {
    exists b: nat :: lo <= b < hi && RoomAt(blocks, b, slots)
  }

  ghost predicate RoomAt(blocks: Blocks, b: nat, slots: nat) { b in blocks ==> HasRoom(blocks[b].bits, slots) }

  /** One of the blocks that find_in_level visits on this level is missing or has room for the name. */
  ghost predicate RoomOnLevel(k: Config, blocks: Blocks, level: nat, name: Name) {
    var lo := BlockIndex(level, k.dirLevel, Bucket(k, level, name)) % U32;
    RoomIn(blocks, lo, (lo + BucketBlocks(level)) % U32, SlotsOf(|name|))
  }

  /** The loop of find_in_level. */
  method ScanBlocks(blocks: Blocks, lo: nat, hi: nat, name: Name, hash: nat, slots: nat)
    returns (r: Option<(nat, nat)>, room: bool)
    requires forall b :: b in blocks ==> Sized(blocks[b]) && Runs(blocks[b], 0)
    ensures r.Some? ==> PlaceOk(blocks, name, r.value)
    ensures r.None? ==> NoTarget(blocks, lo, hi, name, hash) && (room <==> RoomIn(blocks, lo, hi, slots))
  {
    var bidx := lo;
    room := false;
    while bidx < hi
      invariant lo <= bidx && (bidx <= hi || bidx == lo) && NoTarget(blocks, lo, bidx, name, hash)
      invariant room <==> RoomIn(blocks, lo, bidx, slots)
    {
      var here := true;
      if bidx in blocks {
        var p, maxSlots := FindTarget(blocks[bidx], name, hash);
        if p.Some? {
          return Some((bidx, p.value)), room;
        }
        assert NoTargetIn(blocks[bidx], name, hash);
        assert blocks[bidx].bits[..SLOTS] == blocks[bidx].bits;
        RoomExact(blocks[bidx].bits, maxSlots, slots);
        here := maxSlots >= slots;
      }
      assert here <==> RoomAt(blocks, bidx, slots);
      room := room || here;
      bidx := bidx + 1;
    }
    return None, room;
  }

  /** What the 32-bit block numbers of the lookup cover: all blocks of the bucket that can exist. */
  lemma CoversBucket(k: Config, blocks: Blocks, depth: nat, at: Places, level: nat, name: Name, lo: nat, hi: nat)
    requires DirOk(k, blocks, depth, at)
    requires var first := BlockIndex(level, k.dirLevel, Bucket(k, level, name));
             lo == first % U32 && hi == (lo + BucketBlocks(level)) % U32
    requires NoTarget(blocks, lo, hi, name, k.hash(name))
    ensures AbsentAt(k, blocks, level, name)
  {
    var first, n := BlockIndex(level, k.dirLevel, Bucket(k, level, name)), BucketBlocks(level);
    forall b | b in blocks && HomeAt(k, b, level, name) ensures AbsentIn(blocks[b], name) {
      assert BlockOk(k, b, blocks[b]);
      CoversOne(blocks, first, n, b, k.maxBlocks, name, k.hash(name));
      TargetAbsent(k, blocks, depth, at, b, name);
    }
  }

  lemma CoversOne(blocks: Blocks, first: nat, n: nat, b: nat, max: nat, name: Name, hash: nat)
    requires b in blocks && first <= b < first + n && b < max < U32 / 2 && n <= 4
    requires NoTarget(blocks, first % U32, (first % U32 + n) % U32, name, hash)
    ensures NoTargetIn(blocks[b], name, hash)
  {
    InWindow(first, b, n, max);
  }

  lemma InWindow(first: nat, b: nat, n: nat, max: nat)
    requires first <= b < first + n && b < max < U32 / 2 && n <= 4
    ensures first % U32 == first && (first + n) % U32 == first + n
  {
  }

  /** Block b of a bucket that begins at bidx is the first one missing and can be made. */
  predicate Gap(k: Config, blocks: Blocks, bidx: nat, nblock: nat, b: nat, alloc: nat -> bool) {
    && bidx <= b < bidx + nblock && b !in blocks && b < k.maxBlocks && alloc(b)
    && forall c :: bidx <= c < b ==> c in blocks
  }

  /** No placement explains these blocks: a name has two entries, or one that no lookup finds. */
  ghost predicate Broken(k: Config, blocks: Blocks, depth: nat) { forall at: Places :: !DirOk(k, blocks, depth, at) }

  class Directory {
    const k: Config
    var blocks: Blocks
    var depth: nat
    var chash: nat
    var clevel: nat
    var task: Option<nat>
    ghost var at: Places

    ghost predicate Sound()
      reads this
    {
      DirOk(k, blocks, depth, at)
    }

    /** The level hint is below the depth. */
    ghost predicate Valid()
      reads this
    {
      Sound() && clevel < depth
    }

    /** The map that the directory is. */
    ghost function View(): map<Name, nat>
      requires Sound()
      reads this
    {
      ViewOf(blocks, at)
    }

    /** Where f2fs_add_regular_entry begins to look for room. */
    function FirstLevel(name: Name): nat
      reads this
    {
      if chash == k.hash(name) then clevel else 0
    }

    constructor (k: Config)
      requires k.maxBlocks < U32 / 2
      ensures Valid() && View() == map[] && this.k == k && blocks == map[] && depth == 1 && task == None
    {
      this.k := k;
      blocks, depth, chash, clevel, task, at := map[], 1, 0, 0, None, map[];
    }

    /** find_in_level: the hint is left exactly when a block of the bucket is missing or has room.  Block numbers are 32
        bits here. */
    method FindInLevel(level: nat, name: Name) returns (r: Option<(nat, nat)>)
      requires Valid() && level < depth
      modifies this`chash, this`clevel
      ensures Valid()
      ensures r.Some? ==> PlaceOk(blocks, name, r.value) && chash == old(chash) && clevel == old(clevel)
      ensures r.None? ==>
                var hint := old(chash) != k.hash(name) && RoomOnLevel(k, blocks, level, name);
                && AbsentAt(k, blocks, level, name)
                && (chash, clevel) == if hint then (k.hash(name), level) else (old(chash), old(clevel))
    {
      var room;
      r, room := ScanLevel(level, name);
      if r.None? && room && chash != k.hash(name) {
        chash, clevel := k.hash(name), level;
      }
    }

    method ScanLevel(level: nat, name: Name) returns (r: Option<(nat, nat)>, room: bool)
      requires Sound()
      ensures r.Some? ==> PlaceOk(blocks, name, r.value)
      ensures r.None? ==> AbsentAt(k, blocks, level, name) && (room <==> RoomOnLevel(k, blocks, level, name))
    {
      var hash := k.hash(name);
      var nbucket, nblock := Buckets(level, k.dirLevel), BucketBlocks(level);
      var first := DirBlockIndex(level, k.dirLevel, hash % nbucket);
      var bidx := first % U32;
      var end := (bidx + nblock) % U32;
      assert forall b :: b in blocks ==> BlockOk(k, b, blocks[b]);
      r, room := ScanBlocks(blocks, bidx, end, name, hash, SlotsOf(|name|));
      if r.None? { CoversBucket(k, blocks, depth, at, level, name, bidx, end); }
    }

    /** __f2fs_find_entry in the hands of a task, which it remembers if it finds nothing. */
    method FindEntry(name: Name, current: nat) returns (r: Option<(nat, nat)>)
      requires Valid()
      modifies this`chash, this`clevel, this`task
      ensures Valid() && View() == old(View())
      ensures r == if name in View() then Some(at[name]) else None
      ensures task == if r.None? then Some(current) else old(task)
    {
      var level := 0;
      while level < depth
        invariant Valid() && level <= depth && forall l: nat :: l < level ==> AbsentAt(k, blocks, l, name)
        invariant task == old(task)
      {
        r := FindInLevel(level, name);
        if r.Some? {
          FoundIsPlace(k, blocks, depth, at, name, r.value);
          return;
        }
        level := level + 1;
      }
      AbsentEverywhere(k, blocks, depth, at, name);
      task := Some(current);
      r := None;
    }

    /** f2fs_get_new_data_page */
    method OpenBlock(block: nat, alloc: nat -> bool) returns (ok: bool)
      requires Sound()
      modifies this`blocks
      ensures Sound() && View() == old(View())
      ensures ok <==> block in old(blocks) || (block < k.maxBlocks && alloc(block))
      ensures blocks == if block in old(blocks) || !ok then old(blocks) else old(blocks)[block := EMPTY]
      ensures ok ==> BlockOk(k, block, blocks[block])
      ensures ok && block !in old(blocks) ==> forall s: nat :: s <= SLOTS ==> AllClear(blocks[block].bits, 0, s)
    {
      ok := true;
      if block !in blocks {
        if block >= k.maxBlocks || !alloc(block) {
          return false;
        }
        GrowBlock(k, blocks, depth, at, block);
        SameView(blocks, blocks[block := EMPTY], at);
        blocks := blocks[block := EMPTY];
      }
    }

    /** The blocks of one bucket in f2fs_add_regular_entry: the first with room, made if it is not there.  alloc(b) is
        whether block b can be made.  Some(None): no room here; None: a block could not be made. */
    method FindRoom(bidx: nat, nblock: nat, slots: nat, alloc: nat -> bool) returns (r: Option<Option<(nat, nat)>>)
      requires Sound() && 1 <= slots <= SLOTS
      modifies this`blocks
      ensures Sound() && View() == old(View())
      ensures r.Some? && r.value.Some? ==>
                var (b, p) := r.value.value;
                && bidx <= b < bidx + nblock && b in blocks && p < SLOTS && Sized(blocks[b])
                && AllClear(blocks[b].bits, p, slots)
      ensures bidx >= k.maxBlocks && nblock > 0 ==> r.None?
      ensures forall b :: Gap(k, old(blocks), bidx, nblock, b, alloc) ==>
                r.Some? && r.value.Some? && blocks.Keys <= old(blocks).Keys + {b}
    {
      for block := bidx to bidx + nblock
        invariant Sound() && View() == old(View()) && (block > bidx ==> bidx < k.maxBlocks)
        invariant forall b :: Gap(k, old(blocks), bidx, nblock, b, alloc) ==> block <= b && blocks == old(blocks)
      {
        ghost var made := block !in blocks;
        var there := OpenBlock(block, alloc);
        if !there {
          return None;
        }
        var p := RoomForFilename(blocks[block].bits, slots, SLOTS);
        assert made ==> AllClear(blocks[block].bits, 0, slots);
        if p < SLOTS {
          return Some(Some((block, p)));
        }
      }
      return Some(None);
    }

    /** One level of f2fs_add_regular_entry: entered, given up, or no room here. */
    method AddAt(name: Name, ino: nat, level: nat, cur: nat, alloc: nat -> bool) returns (r: Option<bool>)
      requires Sound() && 1 <= |name| <= NAME_LEN && depth <= cur <= MAX_DEPTH
      modifies this`blocks, this`depth, this`at
      ensures r != Some(true) ==> Sound() && View() == old(View()) && depth == old(depth)
      ensures r == None ==> level < HALF_DEPTH
      ensures r == Some(true) ==> depth == cur
      ensures r == Some(true) && name !in old(View()) && level < cur ==> Sound() && View() == old(View())[name := ino]
      ensures r == Some(true) && (name in old(View()) || level >= cur) ==> Broken(k, blocks, depth)
      ensures forall b :: GapAt(k, old(blocks), level, name, b, alloc) ==>
                            r == Some(true) && blocks.Keys <= old(blocks).Keys + {b}
    {
      var nbucket, nblock := Buckets(level, k.dirLevel), BucketBlocks(level);
      var bidx := DirBlockIndex(level, k.dirLevel, k.hash(name) % nbucket);
      var room := FindRoom(bidx, nblock, SlotsOf(|name|), alloc);
      if room.None? {
        return Some(false);
      }
      LowLevel(k, level, bidx);
      if room.value.None? {
        return None;
      }
      var b, p := room.value.value.0, room.value.value.1;
      HomeExact(k, b, level, cur, name);
      Enter(name, ino, b, p, cur);
      return Some(true);
    }

    /** f2fs_add_regular_entry.  The name is one more in the map exactly when it was not there and the hint is not above
        the depth. */
    method AddEntry(name: Name, ino: nat, alloc: nat -> bool) returns (ok: bool)
      requires Sound() && 1 <= |name| <= NAME_LEN
      modifies this`blocks, this`depth, this`chash, this`at
      ensures depth >= old(depth)
      ensures !ok ==> Sound() && View() == old(View())
      ensures ok && name !in old(View()) && old(FirstLevel(name)) <= old(depth) ==>
                Sound() && View() == old(View())[name := ino]
      ensures ok && !(name !in old(View()) && old(FirstLevel(name)) <= old(depth)) ==> Broken(k, blocks, depth)
      ensures forall b :: OpensAt(k, old(blocks), old(depth), old(FirstLevel(name)), name, b, alloc) ==>
                            ok && depth == old(depth) && blocks.Keys <= old(blocks).Keys + {b}
    {
      var hash := k.hash(name);
      var level, cur := 0, depth;
      if chash == hash {
        level := clevel;
        chash := 0;
      }
      ghost var first := level;
      while true
        invariant Sound() && View() == old(View()) && depth <= cur && depth == old(depth)
        invariant first <= level && (first <= depth ==> level <= cur <= MAX_DEPTH) && (first > depth ==> cur == depth)
        invariant forall b :: OpensAt(k, old(blocks), depth, first, name, b, alloc) ==>
                    level == first && blocks == old(blocks) && cur == depth
        decreases HALF_DEPTH - level
      {
        if cur == MAX_DEPTH {
          return false;
        }
        if level == cur {
          cur := cur + 1;
        }
        var r := AddAt(name, ino, level, cur, alloc);
        if r.Some? {
          return r.value;
        }
        level := level + 1;
      }
    }

    /** The new entry is written and the depth recorded. */
    method Enter(name: Name, ino: nat, b: nat, p: nat, cur: nat)
      requires Sound() && |name| >= 1 && b in blocks && p < SLOTS && Sized(blocks[b])
      requires AllClear(blocks[b].bits, p, SlotsOf(|name|)) && depth <= cur <= MAX_DEPTH
      modifies this`blocks, this`depth, this`at
      ensures depth == cur && blocks.Keys == old(blocks).Keys
      ensures name !in old(at) && Home(k, b, cur, name) ==> Sound() && View() == old(View())[name := ino]
      ensures name in old(at) || !Home(k, b, cur, name) ==> Broken(k, blocks, depth)
    {
      var d := Dentry(k.hash(name), name, ino);
      assert BlockOk(k, b, blocks[b]);
      var c := UpdateDentry(blocks[b], p, d);
      OthersKept(blocks[b], c, p, SlotsOf(|name|));
      if name !in at && Home(k, b, cur, name) {
        EnterOk(k, blocks, depth, cur, at, b, p, c, d);
      } else {
        EnterBreaks(k, blocks, depth, cur, at, b, p, c, d);
      }
      blocks, depth, at := blocks[b := c], cur, at[name := (b, p)];
    }

    /** The lookup of f2fs_do_add_link. */
    method LookFirst(name: Name, current: nat) returns (found: bool)
      requires Valid()
      modifies this`chash, this`clevel, this`task
      ensures Valid() && View() == old(View())
      ensures found <==> old(task) != Some(current) && name in View()
      ensures task == if old(task) == Some(current) then old(task) else None
    {
      found := false;
      if task != Some(current) {
        var e := FindEntry(name, current);
        task := None;
        found := e.Some?;
      }
    }

    /** f2fs_do_add_link: a lookup first, unless the last task that looked something up in vain is this one. */
    method AddLink(name: Name, ino: nat, current: nat, alloc: nat -> bool) returns (r: Linked)
      requires Valid() && 1 <= |name| <= NAME_LEN
      modifies this
      ensures task == if old(task) == Some(current) then old(task) else None
      ensures r.Exists? <==> old(task) != Some(current) && name in old(View())
      ensures r.Added? && name in old(View()) ==> old(task) == Some(current) && Broken(k, blocks, depth)
      ensures !(r.Added? && name in old(View())) ==>
                Valid() && View() == if r.Added? then old(View())[name := ino] else old(View())
      ensures forall b :: OpensAt(k, old(blocks), old(depth), 0, name, b, alloc) && old(depth) == 1 && !r.Exists? ==>
                            r.Added? && depth == 1 && blocks.Keys <= old(blocks).Keys + {b}
    {
      var found := LookFirst(name, current);
      if found {
        return Exists;
      }
      assert depth == 1 ==> FirstLevel(name) == 0;
      var ok := AddEntry(name, ino, alloc);
      return if ok then Added else NoSpace;
    }

    /** A lookup, and the deletion of what it found. */
    method Unlink(name: Name, current: nat, gone: bool) returns (found: bool)
      requires Valid()
      modifies this
      ensures Valid() && (found <==> name in old(View())) && View() == old(View()) - {name}
      ensures task == if found then old(task) else Some(current)
    {
      var e := FindEntry(name, current);
      found := e.Some?;
      if e.Some? {
        DeleteEntry(e.value.0, e.value.1, gone, name);
      }
    }

    /** f2fs_delete_entry for an entry that a lookup found; `gone` is whether an empty block could be given back. */
    method DeleteEntry(b: nat, p: nat, gone: bool, ghost name: Name)
      requires Sound() && name in at && at[name] == (b, p)
      modifies this`blocks, this`at
      ensures Sound() && View() == old(View()) - {name}
    {
      assert PlaceOk(blocks, name, (b, p));
      var c := ClearDentry(blocks[b], p);
      RemoveOk(k, blocks, depth, at, b, p, c, name);
      var bit := FirstSet(c.bits);
      blocks, at := blocks[b := c], at - {name};
      if bit == SLOTS && gone {
        DropAll(k, blocks, depth, at, b);
        blocks := blocks - {b};
      }
    }
  }

  /** Block b is the first one missing of the name's bucket on a level below the depth, and can be made. */
  predicate OpensAt(k: Config, blocks: Blocks, depth: nat, level: nat, name: Name, b: nat, alloc: nat -> bool) {
    level < depth < MAX_DEPTH && GapAt(k, blocks, level, name, b, alloc)
  }

  predicate GapAt(k: Config, blocks: Blocks, level: nat, name: Name, b: nat, alloc: nat -> bool) {
    Gap(k, blocks, BlockIndex(level, k.dirLevel, Bucket(k, level, name)), BucketBlocks(level), b, alloc)
  }

  lemma LowLevel(k: Config, level: nat, bidx: nat)
    requires k.maxBlocks < U32 / 2 && LevelStart(level, k.dirLevel) <= bidx < k.maxBlocks
    ensures level < HALF_DEPTH
  {
    if level >= HALF_DEPTH {
      HighLevels(level, k.dirLevel);
      HighStart(k.dirLevel);
    }
  }

  /** A block of the name's bucket on a low level is visited by lookups exactly when that level is below the depth. */
  lemma HomeExact(k: Config, b: nat, level: nat, depth: nat, name: Name)
    requires level < HALF_DEPTH && HomeAt(k, b, level, name)
    ensures Home(k, b, depth, name) <==> level < depth
  {
    if Home(k, b, depth, name) {
      var l := HomeLevel(k, b, depth, name);
      if l < level {
        BucketsDisjointExact(l, Bucket(k, l, name), level, Bucket(k, level, name), k.dirLevel);
      }
    }
  }

  lemma OnePlace(k: Config, blocks: Blocks, depth: nat, at: Places, name: Name, b0: nat, p0: nat, b: nat, p: nat)
    requires b0 in blocks && b in blocks && Sized(blocks[b0]) && Runs(blocks[b0], 0) && Sized(blocks[b])
    requires Runs(blocks[b], 0)
    requires p0 in Starts(blocks[b0], 0) && p in Starts(blocks[b], 0) && p0 < SLOTS && p < SLOTS && (b0, p0) != (b, p)
    requires blocks[b0].dents[p0].name == name == blocks[b].dents[p].name
    ensures !DirOk(k, blocks, depth, at)
  {
    assert EntryOk(k, b0, blocks[b0], p0, depth, at) && EntryOk(k, b, blocks[b], p, depth, at) ==> false;
  }

  /** A second entry of a name, or one outside its buckets, leaves no placement that explains the blocks. */
  lemma EnterBreaks(k: Config, blocks: Blocks, depth: nat, cur: nat, at: Places, b: nat, p: nat, c: Block, d: Dentry)
    requires DirOk(k, blocks, depth, at) && b in blocks && Sized(c) && Runs(c, 0) && p < SLOTS
    requires Starts(c, 0) == Starts(blocks[b], 0) + {p} && c.dents[p] == d && p !in Starts(blocks[b], 0)
    requires forall q :: q in Starts(blocks[b], 0) ==> q < SLOTS && c.dents[q] == blocks[b].dents[q]
    requires d.name in at || !Home(k, b, cur, d.name)
    ensures Broken(k, blocks[b := c], cur)
  {
    var blocks' := blocks[b := c];
    forall at': Places ensures !DirOk(k, blocks', cur, at') {
      if d.name in at {
        var b0, p0 := at[d.name].0, at[d.name].1;
        assert PlaceOk(blocks, d.name, at[d.name]);
        assert p0 in Starts(blocks'[b0], 0) && blocks'[b0].dents[p0].name == d.name && (b0, p0) != (b, p);
        OnePlace(k, blocks', cur, at', d.name, b0, p0, b, p);
      } else {
        assert p in Starts(blocks'[b], 0) && !EntryOk(k, b, blocks'[b], p, cur, at');
      }
    }
  }

  /** find_next_bit_le from the beginning. */
  method FirstSet(bits: seq<bool>) returns (r: nat)
    ensures r <= |bits| && (r < |bits| ==> bits[r]) && forall i :: 0 <= i < r ==> !bits[i]
  {
    r := 0;
    while r < |bits| && !bits[r]
      invariant r <= |bits| && forall i :: 0 <= i < r ==> !bits[i]
    {
      r := r + 1;
    }
  }

  lemma EnterOk(k: Config, blocks: Blocks, depth: nat, cur: nat, at: Places, b: nat, p: nat, c: Block, d: Dentry)
    requires DirOk(k, blocks, depth, at) && b in blocks && d.name !in at && d.hash == k.hash(d.name) && p < SLOTS
    requires depth <= cur <= MAX_DEPTH && Home(k, b, cur, d.name) && Sized(c) && Runs(c, 0) && c.dents[p] == d
    requires Starts(c, 0) == Starts(blocks[b], 0) + {p} && p !in Starts(blocks[b], 0)
    requires forall q :: q in Starts(blocks[b], 0) ==> q < SLOTS && c.dents[q] == blocks[b].dents[q]
    ensures DirOk(k, blocks[b := c], cur, at[d.name := (b, p)])
    ensures ViewOf(blocks[b := c], at[d.name := (b, p)]) == ViewOf(blocks, at)[d.name := d.ino]
  {
    assert BlockOk(k, b, blocks[b]);
    AddView(blocks, at, b, p, c, d);
    EnterDir(k, blocks, depth, cur, at, b, p, c, d);
  }

  lemma EnterDir(k: Config, blocks: Blocks, depth: nat, cur: nat, at: Places, b: nat, p: nat, c: Block, d: Dentry)
    requires DirOk(k, blocks, depth, at) && b in blocks && d.name !in at && d.hash == k.hash(d.name) && p < SLOTS
    requires depth <= cur <= MAX_DEPTH && Home(k, b, cur, d.name) && Sized(c) && Runs(c, 0) && c.dents[p] == d
    requires Starts(c, 0) == Starts(blocks[b], 0) + {p} && p !in Starts(blocks[b], 0)
    requires forall q :: q in Starts(blocks[b], 0) ==> q < SLOTS && c.dents[q] == blocks[b].dents[q]
    ensures DirOk(k, blocks[b := c], cur, at[d.name := (b, p)])
  {
    GrowDepth(k, blocks, depth, cur, at);
    AddOk(k, blocks, cur, at, b, p, c, d);
  }

  lemma RemoveOk(k: Config, blocks: Blocks, depth: nat, at: Places, b: nat, p: nat, c: Block, name: Name)
    requires DirOk(k, blocks, depth, at) && name in at && at[name] == (b, p) && PlaceOk(blocks, name, (b, p))
    requires Sized(c) && Runs(c, 0) && Starts(c, 0) == Starts(blocks[b], 0) - {p} && c.dents == blocks[b].dents
    ensures DirOk(k, blocks[b := c], depth, at - {name})
    ensures ViewOf(blocks[b := c], at - {name}) == ViewOf(blocks, at) - {name}
  {
    DeleteOk(k, blocks, depth, at, b, p, c);
    DeleteView(blocks, at, b, p, c, name);
  }

  lemma DropAll(k: Config, blocks: Blocks, depth: nat, at: Places, b: nat)
    requires DirOk(k, blocks, depth, at) && b in blocks && Sized(blocks[b])
    requires forall i :: 0 <= i < SLOTS ==> !blocks[b].bits[i]
    ensures DirOk(k, blocks - {b}, depth, at) && ViewOf(blocks - {b}, at) == ViewOf(blocks, at)
  {
    NoEntries(blocks[b]);
    DropOk(k, blocks, depth, at, b);
    DropView(blocks, at, b);
  }

  ghost function ViewOf(blocks: Blocks, at: Places): map<Name, nat> { map n | n in at :: ViewAt(blocks, n, at[n]) }

  ghost function ViewAt(blocks: Blocks, n: Name, place: (nat, nat)): nat {
    if PlaceOk(blocks, n, place) then blocks[place.0].dents[place.1].ino else 0
  }

  lemma TargetAbsent(k: Config, blocks: Blocks, depth: nat, at: Places, b: nat, name: Name)
    requires DirOk(k, blocks, depth, at) && b in blocks && NoTargetIn(blocks[b], name, k.hash(name))
    ensures AbsentIn(blocks[b], name)
  {
    forall p | p in Starts(blocks[b], 0) ensures p >= SLOTS || blocks[b].dents[p].name != name {
      assert EntryOk(k, b, blocks[b], p, depth, at);
    }
  }

  lemma FoundIsPlace(k: Config, blocks: Blocks, depth: nat, at: Places, name: Name, place: (nat, nat))
    requires DirOk(k, blocks, depth, at) && PlaceOk(blocks, name, place)
    ensures name in at && at[name] == place
  {
    assert EntryOk(k, place.0, blocks[place.0], place.1, depth, at);
  }

  lemma SameView(blocks: Blocks, blocks': Blocks, at: Places)
    requires forall n :: n in at ==> PlaceOk(blocks, n, at[n])
    requires forall b :: b in blocks ==> b in blocks' && blocks'[b] == blocks[b]
    ensures forall n :: n in at ==> ViewAt(blocks', n, at[n]) == ViewAt(blocks, n, at[n])
  {
  }

  /** Other entries do not lie in the slots that were free. */
  lemma OthersKept(b: Block, c: Block, p: nat, s: nat)
    requires Sized(b) && Sized(c) && Runs(b, 0) && AllClear(b.bits, p, s) && SameBut(b, c, p, s)
    ensures forall q :: q in Starts(b, 0) ==> q < SLOTS && c.dents[q] == b.dents[q]
  {
    forall q | q in Starts(b, 0) ensures q < SLOTS && c.dents[q] == b.dents[q] {
      StartsRange(b, 0, q);
      assert b.bits[q];
    }
  }

  lemma AddView(blocks: Blocks, at: Places, b: nat, p: nat, c: Block, d: Dentry)
    requires forall n :: n in at ==> PlaceOk(blocks, n, at[n])
    requires b in blocks && Sized(blocks[b]) && Runs(blocks[b], 0) && Sized(c) && Runs(c, 0) && p < SLOTS
    requires d.name !in at
    requires Starts(c, 0) == Starts(blocks[b], 0) + {p} && c.dents[p] == d && p !in Starts(blocks[b], 0)
    requires forall q :: q in Starts(blocks[b], 0) ==> q < SLOTS && c.dents[q] == blocks[b].dents[q]
    ensures ViewOf(blocks[b := c], at[d.name := (b, p)]) == ViewOf(blocks, at)[d.name := d.ino]
  {
    forall n | n in at ensures ViewAt(blocks[b := c], n, at[n]) == ViewAt(blocks, n, at[n]) {
      assert PlaceOk(blocks, n, at[n]);
    }
    AddedMap(blocks, blocks[b := c], at, d.name, (b, p));
  }

  lemma AddedMap(blocks: Blocks, blocks': Blocks, at: Places, name: Name, place: (nat, nat))
    requires name !in at && forall n :: n in at ==> ViewAt(blocks', n, at[n]) == ViewAt(blocks, n, at[n])
    ensures ViewOf(blocks', at[name := place]) == ViewOf(blocks, at)[name := ViewAt(blocks', name, place)]
  {
  }

  lemma DeleteView(blocks: Blocks, at: Places, b: nat, p: nat, c: Block, name: Name)
    requires forall n :: n in at ==> PlaceOk(blocks, n, at[n])
    requires name in at && at[name] == (b, p) && Sized(c) && Runs(c, 0)
    requires PlaceOk(blocks, name, (b, p)) && Starts(c, 0) == Starts(blocks[b], 0) - {p} && c.dents == blocks[b].dents
    ensures forall n :: n in at && n != name ==> ViewAt(blocks[b := c], n, at[n]) == ViewAt(blocks, n, at[n])
  {
    forall n | n in at && n != name ensures ViewAt(blocks[b := c], n, at[n]) == ViewAt(blocks, n, at[n]) {
      assert PlaceOk(blocks, n, at[n]);
    }
  }

  lemma DropView(blocks: Blocks, at: Places, b: nat)
    requires forall n :: n in at ==> PlaceOk(blocks, n, at[n])
    requires b in blocks && Sized(blocks[b]) && Runs(blocks[b], 0) && Starts(blocks[b], 0) == {}
    ensures forall n :: n in at ==> ViewAt(blocks - {b}, n, at[n]) == ViewAt(blocks, n, at[n])
  {
    forall n | n in at ensures ViewAt(blocks - {b}, n, at[n]) == ViewAt(blocks, n, at[n]) {
      assert PlaceOk(blocks, n, at[n]);
    }
  }

  datatype Linked = Added | Exists | NoSpace

  /** What tasks do with a directory: a lookup, a link and a removal. */
  datatype Op =
    | Look(name: Name, current: nat)
    | Link(name: Name, ino: nat, current: nat, alloc: nat -> bool)
    | Remove(name: Name, current: nat, gone: bool)

  /** What a map would hold after the operations, given which of them went through. */
  ghost function After(ops: seq<Op>, done: seq<bool>): map<Name, nat>
    requires |ops| == |done|
  {
    if ops == [] then map[] else
      var i := |ops| - 1;
      OneOp(After(ops[..i], done[..i]), ops[i], done[i])
  }

  ghost function OneOp(m: map<Name, nat>, op: Op, done: bool): map<Name, nat> {
    if !done || op.Look? then m else if op.Link? then m[op.name := op.ino] else m - {op.name}
  }

  /** A link goes through only on a name that is not there, a lookup and a removal exactly on one that is. */
  ghost predicate Allowed(m: map<Name, nat>, op: Op, done: bool) {
    if op.Link? then done ==> op.name !in m else done <==> op.name in m
  }

  /** The name that each task has just looked up in vain. */
  type Missed = map<nat, Name>

  function Note(missed: Missed, op: Op, done: bool): Missed {
    if op.Look? && !done then missed[op.current := op.name] else missed - {op.current}
  }

  function MissedAfter(ops: seq<Op>, done: seq<bool>): Missed
    requires |ops| == |done|
  {
    if ops == [] then map[] else
      var i := |ops| - 1;
      Note(MissedAfter(ops[..i], done[..i]), ops[i], done[i])
  }

  /** The rule of the callers: a task links a name right after its own lookup that did not find it. */
  predicate Asked(missed: Missed, op: Op) {
    op.Link? ==> op.current in missed && missed[op.current] == op.name
  }

  /** What the task field stands for. */
  ghost predicate TaskOk(task: Option<nat>, missed: Missed, view: map<Name, nat>) {
    task.Some? && task.value in missed ==> missed[task.value] !in view
  }

  method DoOp(dir: Directory, op: Op, ghost missed: Missed) returns (done: bool)
    requires dir.Valid() && (op.Link? ==> 1 <= |op.name| <= NAME_LEN)
    requires TaskOk(dir.task, missed, dir.View()) && Asked(missed, op)
    modifies dir
    ensures dir.Valid() && dir.View() == OneOp(old(dir.View()), op, done) && Allowed(old(dir.View()), op, done)
    ensures TaskOk(dir.task, Note(missed, op, done), dir.View())
  {
    match op
    case Look(name, current) =>
      var e := dir.FindEntry(name, current);
      done := e.Some?;
    case Link(name, ino, current, alloc) =>
      var r := dir.AddLink(name, ino, current, alloc);
      done := r.Added?;
    case Remove(name, current, gone) =>
      done := dir.Unlink(name, current, gone);
  }

  /** Any interleaving of tasks that keep the callers' rule leaves exactly that map, each operation going through
      only as Allowed says; n is how far the rule is kept. */
  method RunOps(k: Config, ops: seq<Op>) returns (dir: Directory, done: seq<bool>, n: nat)
    requires k.maxBlocks < U32 / 2
    requires forall i :: 0 <= i < |ops| && ops[i].Link? ==> 1 <= |ops[i].name| <= NAME_LEN
    ensures fresh(dir) && dir.Valid() && |done| == n <= |ops| && dir.View() == After(ops[..n], done)
    ensures forall i :: 0 <= i < n ==> OpOk(ops, done, i)
    ensures n < |ops| ==> !Asked(MissedAfter(ops[..n], done), ops[n])
  {
    dir := new Directory(k);
    done, n := [], 0;
    var missed: Missed := map[];
    assert ops[..0] == [];
    while n < |ops| && Asked(missed, ops[n])
      invariant fresh(dir) && dir.Valid() && |done| == n <= |ops| && dir.View() == After(ops[..n], done)
      invariant missed == MissedAfter(ops[..n], done) && TaskOk(dir.task, missed, dir.View())
      invariant forall j :: 0 <= j < n ==> OpOk(ops, done, j)
    {
      var d := DoOp(dir, ops[n], missed);
      OpsStep(ops, done, d, n);
      missed := Note(missed, ops[n], d);
      done, n := done + [d], n + 1;
    }
  }

  ghost predicate OpOk(ops: seq<Op>, done: seq<bool>, j: nat)
    requires j < |ops| && j < |done|
  {
    && Asked(MissedAfter(ops[..j], done[..j]), ops[j])
    && Allowed(After(ops[..j], done[..j]), ops[j], done[j])
  }

  lemma OpsStep(ops: seq<Op>, done: seq<bool>, d: bool, i: nat)
    requires i < |ops| && |done| == i && forall j :: 0 <= j < i ==> OpOk(ops, done, j)
    requires Allowed(After(ops[..i], done), ops[i], d) && Asked(MissedAfter(ops[..i], done), ops[i])
    ensures forall j :: 0 <= j < i + 1 ==> OpOk(ops, done + [d], j)
    ensures After(ops[..i + 1], done + [d]) == OneOp(After(ops[..i], done), ops[i], d)
    ensures MissedAfter(ops[..i + 1], done + [d]) == Note(MissedAfter(ops[..i], done), ops[i], d)
  {
    assert ops[..i + 1][..i] == ops[..i] && (done + [d])[..i] == done;
    forall j | 0 <= j < i + 1 ensures OpOk(ops, done + [d], j) {
      assert (done + [d])[..j] == done[..j];
      if j < i { assert OpOk(ops, done, j); }
    }
  }

  /** A run outside the rule: both tasks miss x, the second makes it, the first misses y and then makes x again. */
  method SecondEntry(k: Config, x: Name, y: Name, i: nat, j: nat) returns (dir: Directory)
    requires 2 <= k.maxBlocks < U32 / 2 && k.dirLevel == 0 && x != y && 1 <= |x| <= NAME_LEN
    ensures fresh(dir) && dir.k == k && Broken(k, dir.blocks, dir.depth)
  {
    dir := FirstEntry(k, x, i);
    AddAgain(dir, x, y, j);
  }

  method FirstEntry(k: Config, x: Name, i: nat) returns (dir: Directory)
    requires 2 <= k.maxBlocks < U32 / 2 && k.dirLevel == 0 && 1 <= |x| <= NAME_LEN
    ensures fresh(dir) && dir.k == k && dir.Valid() && dir.View() == map[x := i] && dir.depth == 1
    ensures dir.blocks.Keys <= {0}
  {
    dir := new Directory(k);
    var e := dir.FindEntry(x, 1);
    e := dir.FindEntry(x, 2);
    var alloc := (b: nat) => true;
    FirstBucket(k, dir.blocks, x, 0, alloc);
    var r := dir.AddLink(x, i, 2, alloc);
  }

  method AddAgain(dir: Directory, x: Name, y: Name, j: nat)
    requires dir.Valid() && dir.View().Keys == {x} && dir.depth == 1 && dir.blocks.Keys <= {0}
    requires dir.k.maxBlocks >= 2 && dir.k.dirLevel == 0 && x != y && 1 <= |x| <= NAME_LEN
    modifies dir
    ensures Broken(dir.k, dir.blocks, dir.depth)
  {
    var e := dir.FindEntry(y, 1);
    var alloc := (b: nat) => true;
    FirstBucket(dir.k, dir.blocks, x, if 0 in dir.blocks then 1 else 0, alloc);
    var r := dir.AddLink(x, j, 1, alloc);
  }

  lemma FirstBucket(k: Config, blocks: Blocks, name: Name, b: nat, alloc: nat -> bool)
    requires k.maxBlocks >= 2 && k.dirLevel == 0 && b < 2 && b !in blocks && alloc(b)
    requires forall c :: 0 <= c < b ==> c in blocks
    ensures OpensAt(k, blocks, 1, 0, name, b, alloc)
  {
    assert Buckets(0, 0) == 1;
  }
}
