/** Extended attributes: entries packed one after another in a byte buffer whose first part
    lives in the inode and whose rest lives in a node block.  Sets and removes edit the joined
    buffer in place; lookups scan the inline part before they read the block. */
module Xattr {
  import opened Common

  newtype byte = x: int | 0 <= x < 256

  const HEADER: nat := 24
  const BLOCK: nat := 4072
  const PADDING: nat := 4
  const NAME_LEN: nat := 255
  const MAX_INLINE: nat := 3692

  const ENOSPC := 28
  const EEXIST := 17
  const ENODATA := 61
  const ERANGE := 34
  const E2BIG := 7

  // ---- Entries and their bytes

  datatype Key = Key(index: byte, name: seq<byte>)
  datatype Attr = Attr(key: Key, value: seq<byte>)

  predicate KeyOk(k: Key) { k.index != 0 && |k.name| <= NAME_LEN }
  predicate AttrOk(a: Attr) { KeyOk(a.key) && |a.value| < 65536 }

  function Align(n: nat): (r: nat)
    ensures n <= r < n + 4 && r % 4 == 0
  {
    (n + 3) / 4 * 4
  }

  function Zeros(n: nat): seq<byte> { seq(n, _ => 0 as byte) }

  function Size(a: Attr): (r: nat)
    ensures r >= 4 && r % 4 == 0
  {
    Align(4 + |a.key.name| + |a.value|)
  }

  function Head(a: Attr): (r: seq<byte>)
    requires AttrOk(a)
    ensures |r| == 4 && r[0] != 0
  {
    [a.key.index, |a.key.name| as byte, (|a.value| % 256) as byte, (|a.value| / 256) as byte]
  }

  function Pad(a: Attr): seq<byte> { Zeros(Size(a) - (4 + |a.key.name| + |a.value|)) }

  function Enc(a: Attr): (r: seq<byte>)
    requires AttrOk(a)
    ensures |r| == Size(a)
  {
    Head(a) + a.key.name + a.value + Pad(a)
  }

  predicate AllOk(attrs: seq<Attr>) { forall i :: 0 <= i < |attrs| ==> AttrOk(attrs[i]) }

  function EncAll(attrs: seq<Attr>): (r: seq<byte>)
    requires AllOk(attrs)
  {
    if attrs == [] then [] else Enc(attrs[0]) + EncAll(attrs[1..])
  }

  lemma {:induction false} EncAllAppend(s: seq<Attr>, t: seq<Attr>)
    requires AllOk(s) && AllOk(t)
    ensures AllOk(s + t) && EncAll(s + t) == EncAll(s) + EncAll(t)
  {
    if s == [] {
      assert s + t == t;
    } else {
      assert (s + t)[1..] == s[1..] + t;
      EncAllAppend(s[1..], t);
      assert Enc(s[0]) + (EncAll(s[1..]) + EncAll(t)) == Enc(s[0]) + EncAll(s[1..]) + EncAll(t);
    }
  }

  // ---- Reading the buffer

  predicate IsLast(b: seq<byte>, p: nat)
    requires p + 4 <= |b|
  {
    b[p] == 0 && b[p + 1] == 0 && b[p + 2] == 0 && b[p + 3] == 0
  }

  function ValueSize(b: seq<byte>, p: nat): nat
    requires p + 4 <= |b|
  {
    b[p + 2] as int + 256 * b[p + 3] as int
  }

  function EntrySize(b: seq<byte>, p: nat): (r: nat)
    requires p + 4 <= |b|
    ensures r >= 4
  {
    Align(4 + b[p + 1] as int + ValueSize(b, p))
  }

  /** From p on, the buffer holds these entries and then zeros, at least one terminator long. */
  ghost predicate At(b: seq<byte>, p: nat, attrs: seq<Attr>) {
    && AllOk(attrs) && p + |EncAll(attrs)| + 4 <= |b|
    && b[p..] == EncAll(attrs) + Zeros(|b| - p - |EncAll(attrs)|)
  }

  /** The fields of an entry are where the accessors look for them. */
  ghost predicate EntryAt(b: seq<byte>, p: nat, a: Attr) {
    && AttrOk(a) && p + Size(a) + 4 <= |b|
    && !IsLast(b, p) && EntrySize(b, p) == Size(a)
    && b[p] == a.key.index && b[p + 1] as int == |a.key.name| && ValueSize(b, p) == |a.value|
    && b[p + 4..p + 4 + |a.key.name|] == a.key.name
    && b[p + 4 + |a.key.name|..p + 4 + |a.key.name| + |a.value|] == a.value
  }

  lemma Slice(b: seq<byte>, p: nat, q: nat, i: nat, j: nat)
    requires p <= q <= |b| && i <= j <= q - p
    ensures b[p..q][i..j] == b[p + i..p + j]
  {
    var s, t := b[p..q][i..j], b[p + i..p + j];
    assert |s| == |t| && forall m :: 0 <= m < |s| ==> s[m] == b[p + i + m] == t[m];
  }

  lemma EncParts(a: Attr)
    requires AttrOk(a)
    ensures var n, v := |a.key.name|, |a.value|;
            && 4 + n + v <= |Enc(a)|
            && Enc(a)[0..4] == Head(a) && Enc(a)[4..4 + n] == a.key.name && Enc(a)[4 + n..4 + n + v] == a.value
  {
  }

  lemma EntryFields(b: seq<byte>, p: nat, a: Attr)
    requires AttrOk(a) && p + Size(a) + 4 <= |b| && b[p..p + Size(a)] == Enc(a)
    ensures EntryAt(b, p, a)
  {
    var n, v, q := |a.key.name|, |a.value|, p + Size(a);
    EncParts(a);
    Slice(b, p, q, 0, 4);
    assert forall i :: 0 <= i < 4 ==> b[p + i] == b[p..p + 4][i] == Head(a)[i];
    assert ValueSize(b, p) == v;
    Slice(b, p, q, 4, 4 + n);
    Slice(b, p, q, 4 + n, 4 + n + v);
  }

  lemma AtHead(b: seq<byte>, p: nat, attrs: seq<Attr>)
    requires At(b, p, attrs) && attrs != []
    ensures EntryAt(b, p, attrs[0]) && At(b, p + Size(attrs[0]), attrs[1..])
  {
    var a := attrs[0];
    var z := Zeros(|b| - p - |EncAll(attrs)|);
    assert b[p..] == Enc(a) + (EncAll(attrs[1..]) + z);
    assert b[p..p + Size(a)] == b[p..][..Size(a)] == Enc(a);
    assert b[p + Size(a)..] == b[p..][Size(a)..] == EncAll(attrs[1..]) + z;
    EntryFields(b, p, a);
  }

  lemma AtEnd(b: seq<byte>, p: nat)
    requires At(b, p, [])
    ensures IsLast(b, p)
  {
    assert forall i :: 0 <= i < 4 ==> b[p + i] == b[p..][i];
  }

  /** A longer zero tail, or a shorter one that keeps a terminator, changes nothing. */
  lemma AtPrefix(b: seq<byte>, c: seq<byte>, p: nat, attrs: seq<Attr>)
    requires At(b, p, attrs) && |c| <= |b| && c == b[..|c|] && p + |EncAll(attrs)| + 4 <= |c|
    ensures At(c, p, attrs)
  {
    assert c[p..] == b[p..][..|c| - p];
  }

  // ---- The map that a list of entries stands for

  function Get(attrs: seq<Attr>, k: Key): Option<seq<byte>> {
    if attrs == [] then None else if attrs[0].key == k then Some(attrs[0].value) else Get(attrs[1..], k)
  }

  /** No two entries have the same name. */
  predicate Distinct(attrs: seq<Attr>) {
    attrs == [] || (Get(attrs[1..], attrs[0].key).None? && Distinct(attrs[1..]))
  }

  predicate Good(attrs: seq<Attr>) { AllOk(attrs) && Distinct(attrs) }

  function Without(attrs: seq<Attr>, k: Key): seq<Attr> {
    if attrs == [] then [] else if attrs[0].key == k then attrs[1..] else [attrs[0]] + Without(attrs[1..], k)
  }

  /** The entries after the attribute gets this value, or goes away. */
  function Put(attrs: seq<Attr>, k: Key, value: Option<seq<byte>>): seq<Attr> {
    Without(attrs, k) + if value.Some? then [Attr(k, value.value)] else []
  }

  lemma {:induction false} GetWithout(attrs: seq<Attr>, k: Key, q: Key)
    requires Good(attrs)
    ensures Get(Without(attrs, k), q) == if q == k then None else Get(attrs, q)
    ensures AllOk(Without(attrs, k))
  {
    if attrs != [] && attrs[0].key != k {
      GetWithout(attrs[1..], k, q);
      assert Without(attrs, k)[1..] == Without(attrs[1..], k);
    }
  }

  lemma {:induction false} DistinctWithout(attrs: seq<Attr>, k: Key)
    requires Good(attrs)
    ensures Distinct(Without(attrs, k))
  {
    if attrs != [] && attrs[0].key != k {
      DistinctWithout(attrs[1..], k);
      GetWithout(attrs[1..], k, attrs[0].key);
      assert Without(attrs, k)[1..] == Without(attrs[1..], k);
    }
  }

  lemma {:induction false} GetAppend(s: seq<Attr>, a: Attr, q: Key)
    requires Distinct(s) && Get(s, a.key).None?
    ensures Get(s + [a], q) == if q == a.key then Some(a.value) else Get(s, q)
    ensures Distinct(s + [a])
  {
    if s == [] {
      assert s + [a] == [a];
    } else {
      assert (s + [a])[1..] == s[1..] + [a];
      GetAppend(s[1..], a, q);
      GetAppend(s[1..], a, s[0].key);
    }
  }

  /** Setting or removing one attribute is a map update: that name gets the value, all others keep theirs. */
  lemma PutIsUpdate(attrs: seq<Attr>, k: Key, value: Option<seq<byte>>, q: Key)
    requires Good(attrs) && KeyOk(k) && (value.Some? ==> |value.value| < 65536)
    ensures var r := Put(attrs, k, value);
            Good(r) && Get(r, q) == if q == k then value else Get(attrs, q)
  {
    var w := Without(attrs, k);
    GetWithout(attrs, k, q);
    GetWithout(attrs, k, k);
    DistinctWithout(attrs, k);
    if value.Some? {
      GetAppend(w, Attr(k, value.value), q);
    } else {
      assert w + [] == w;
    }
  }

  /** Entry i is the first with this name; i is the length if there is none. */
  ghost predicate FirstAt(attrs: seq<Attr>, k: Key, i: nat) {
    i <= |attrs| && (forall j :: 0 <= j < i ==> attrs[j].key != k) && (i < |attrs| ==> attrs[i].key == k)
  }

  lemma {:induction false} GetAt(attrs: seq<Attr>, k: Key, i: nat)
    requires FirstAt(attrs, k, i)
    ensures Get(attrs, k) == if i < |attrs| then Some(attrs[i].value) else None
  {
    if i > 0 { GetAt(attrs[1..], k, i - 1); }
  }

  lemma {:induction false} WithoutAt(attrs: seq<Attr>, k: Key, i: nat)
    requires FirstAt(attrs, k, i)
    ensures Without(attrs, k) == if i < |attrs| then attrs[..i] + attrs[i + 1..] else attrs
  {
    if i == |attrs| {
      if i > 0 { WithoutAt(attrs[1..], k, i - 1); }
    } else if i == 0 {
      assert attrs[..0] + attrs[1..] == attrs[1..];
    } else {
      var t := attrs[1..];
      WithoutAt(t, k, i - 1);
      assert attrs[..i] == [attrs[0]] + t[..i - 1] && attrs[i + 1..] == t[i..];
    }
  }

  // ---- Scanning

  /** The entry at p has this name. */
  predicate Matches(b: seq<byte>, p: nat, k: Key)
    requires p + 4 <= |b|
  {
    && b[p] == k.index && b[p + 1] as int == |k.name|
    && p + 4 + |k.name| <= |b| && b[p + 4..p + 4 + |k.name|] == k.name
  }

  /** A walk over attrs, which start at `base`, has come to entry j at p. */
  ghost predicate Walked(b: seq<byte>, base: nat, attrs: seq<Attr>, j: nat, p: nat) {
    AllOk(attrs) && j <= |attrs| && p == base + |EncAll(attrs[..j])| && At(b, p, attrs[j..])
  }

  lemma EncOneMore(attrs: seq<Attr>, j: nat)
    requires AllOk(attrs) && j < |attrs|
    ensures |EncAll(attrs[..j + 1])| == |EncAll(attrs[..j])| + Size(attrs[j])
  {
    assert attrs[..j + 1] == attrs[..j] + [attrs[j]];
    EncAllAppend(attrs[..j], [attrs[j]]);
    EncOne(attrs[j]);
  }

  lemma WalkStep(b: seq<byte>, base: nat, attrs: seq<Attr>, j: nat, p: nat)
    requires Walked(b, base, attrs, j, p)
    ensures p + 4 <= |b| && (IsLast(b, p) <==> j == |attrs|)
    ensures j < |attrs| ==> EntryAt(b, p, attrs[j]) && Walked(b, base, attrs, j + 1, p + EntrySize(b, p))
  {
    if j < |attrs| {
      AtHead(b, p, attrs[j..]);
      assert attrs[j..][0] == attrs[j] && attrs[j..][1..] == attrs[j + 1..];
      EncOneMore(attrs, j);
    } else {
      assert attrs[j..] == [];
      AtEnd(b, p);
    }
  }

  /** A scan of attrs, which start at `base`, stands before entry i: none of the earlier ones has the name. */
  ghost predicate Scanned(b: seq<byte>, base: nat, attrs: seq<Attr>, k: Key, i: nat, p: nat) {
    Walked(b, base, attrs, i, p) && forall j :: 0 <= j < i ==> attrs[j].key != k
  }

  lemma ScanStart(b: seq<byte>, base: nat, attrs: seq<Attr>, k: Key)
    requires At(b, base, attrs)
    ensures Scanned(b, base, attrs, k, 0, base)
  {
    assert attrs[0..] == attrs;
  }

  lemma ScanStep(b: seq<byte>, base: nat, attrs: seq<Attr>, k: Key, i: nat, p: nat)
    requires Scanned(b, base, attrs, k, i, p)
    ensures p + 4 <= |b| && (IsLast(b, p) <==> i == |attrs|)
    ensures i < |attrs| ==>
              && EntryAt(b, p, attrs[i]) && (Matches(b, p, k) <==> attrs[i].key == k)
              && (attrs[i].key != k ==> Scanned(b, base, attrs, k, i + 1, p + EntrySize(b, p)))
  {
    WalkStep(b, base, attrs, i, p);
  }

  /** __find_xattr, from any place in the buffer where a list of entries starts. */
  method FindXattr(b: seq<byte>, base: nat, k: Key, ghost attrs: seq<Attr>) returns (p: nat, ghost i: nat)
    requires At(b, base, attrs)
    ensures Scanned(b, base, attrs, k, i, p) && p + 4 <= |b|
    ensures i < |attrs| ==> attrs[i].key == k
  {
    p, i := base, 0;
    ScanStart(b, base, attrs, k);
    while !IsLast(b, p)
      invariant Scanned(b, base, attrs, k, i, p)
      decreases |b| - p
    {
      ScanStep(b, base, attrs, k, i, p);
      if Matches(b, p, k) {
        return;
      }
      p, i := p + EntrySize(b, p), i + 1;
    }
    ScanStep(b, base, attrs, k, i, p);
  }

  /** What a scan reads of an entry inside the first n bytes depends on those bytes alone. */
  lemma SameRead(b: seq<byte>, c: seq<byte>, n: nat, p: nat, k: Key)
    requires n <= |b| && n <= |c| && b[..n] == c[..n] && p + 4 <= n
    ensures IsLast(b, p) == IsLast(c, p) && EntrySize(b, p) == EntrySize(c, p)
    ensures p + EntrySize(b, p) <= n ==> Matches(b, p, k) == Matches(c, p, k)
  {
    assert forall i :: 0 <= i < n ==> b[i] == b[..n][i] == c[i];
    if p + EntrySize(b, p) <= n && b[p + 1] as int == |k.name| {
      var q := p + 4 + |k.name|;
      assert b[p + 4..q] == b[..n][p + 4..q] == c[..n][p + 4..q] == c[p + 4..q];
    }
  }

  lemma InlineStep(b: seq<byte>, whole: seq<byte>, n: nat, attrs: seq<Attr>, k: Key, i: nat, p: nat)
    requires Scanned(whole, HEADER, attrs, k, i, p) && n <= |b| && n <= |whole| && b[..n] == whole[..n] && p + 4 <= n
    ensures IsLast(b, p) <==> i == |attrs|
    ensures i < |attrs| && p + EntrySize(b, p) <= n ==> (Matches(b, p, k) <==> attrs[i].key == k)
    ensures i < |attrs| && attrs[i].key != k ==> Scanned(whole, HEADER, attrs, k, i + 1, p + EntrySize(b, p))
  {
    ScanStep(whole, HEADER, attrs, k, i, p);
    SameRead(b, whole, n, p, k);
  }

  datatype Inline = Hit(p: nat) | Stopped(last: nat)

  /** What the inline scan found, said about the joined buffer. */
  ghost predicate InlineResult(b: seq<byte>, inlineSize: nat, k: Key, whole: seq<byte>, attrs: seq<Attr>, r: Inline,
                               i: nat) {
    match r
    case Hit(p) =>
      && Scanned(whole, HEADER, attrs, k, i, p) && p + 4 <= inlineSize <= |b| && (IsLast(b, p) <==> i == |attrs|)
      && (i < |attrs| ==> attrs[i].key == k && p + EntrySize(b, p) <= inlineSize)
    case Stopped(last) => Scanned(whole, HEADER, attrs, k, i, last) && i < |attrs|
  }

  ghost predicate InlineAt(inlineSize: nat, k: Key, whole: seq<byte>, attrs: seq<Attr>, i: nat, p: nat) {
    if inlineSize < HEADER + 4 then p == HEADER else Scanned(whole, HEADER, attrs, k, i, p) && p + 4 <= inlineSize
  }

  /** __find_inline_xattr on a buffer that holds only the inline part so far; `whole` is the joined buffer.
      It gives up at the first entry that, or whose end, is not well inside the inline area.  An inline area too
      small for a header and a terminator makes it read a terminator that is not there. */
  method FindInline(b: seq<byte>, inlineSize: nat, k: Key, ghost whole: seq<byte>, ghost attrs: seq<Attr>)
    returns (r: Inline, ghost i: nat)
    requires At(whole, HEADER, attrs) && inlineSize <= |whole| && inlineSize <= |b| && HEADER + 4 <= |b|
    requires b[..inlineSize] == whole[..inlineSize]
    requires inlineSize < HEADER + 4 ==> IsLast(b, HEADER)
    ensures inlineSize >= HEADER + 4 ==> InlineResult(b, inlineSize, k, whole, attrs, r, i)
    ensures inlineSize < HEADER + 4 ==> r == Hit(HEADER)
  {
    var p := HEADER;
    i := 0;
    ScanStart(whole, HEADER, attrs, k);
    while !IsLast(b, p)
      invariant p + 4 <= |b| && InlineAt(inlineSize, k, whole, attrs, i, p)
      decreases inlineSize - p
    {
      InlineStep(b, whole, inlineSize, attrs, k, i, p);
      var next := p + EntrySize(b, p);
      if p + 4 > inlineSize || next + 4 > inlineSize {
        return Stopped(p), i;
      }
      if Matches(b, p, k) {
        return Hit(p), i;
      }
      p, i := next, i + 1;
    }
    if inlineSize >= HEADER + 4 { InlineStep(b, whole, inlineSize, attrs, k, i, p); }
    return Hit(p), i;
  }

  // ---- Editing the buffer

  function Splice(s: seq<byte>, at: nat, bytes: seq<byte>): (r: seq<byte>)
    requires at + |bytes| <= |s|
    ensures |r| == |s|
  {
    seq(|s|, i requires 0 <= i < |s| => if at <= i < at + |bytes| then bytes[i - at] else s[i])
  }

  /** memmove towards the front. */
  method MemMove(a: array<byte>, dst: nat, src: nat, n: nat)
    requires dst <= src && src + n <= a.Length
    modifies a
    ensures a[..] == Splice(old(a[..]), dst, old(a[..])[src..src + n])
  {
    for i := 0 to n
      invariant forall m :: dst <= m < dst + i ==> a[m] == old(a[src + (m - dst)])
      invariant forall m :: 0 <= m < dst || dst + i <= m < a.Length ==> a[m] == old(a[m])
    {
      a[dst + i] := a[src + i];
    }
    ghost var s := old(a[..]);
    forall m | 0 <= m < |s| ensures a[..][m] == Splice(s, dst, s[src..src + n])[m] {
      SpliceAt(s, dst, s[src..src + n], m);
    }
  }

  method MemCpy(a: array<byte>, at: nat, bytes: seq<byte>)
    requires at + |bytes| <= a.Length
    modifies a
    ensures a[..] == Splice(old(a[..]), at, bytes)
  {
    for i := 0 to |bytes|
      invariant forall m :: at <= m < at + i ==> a[m] == bytes[m - at]
      invariant forall m :: 0 <= m < at || at + i <= m < a.Length ==> a[m] == old(a[m])
    {
      a[at + i] := bytes[i];
    }
    ghost var s := old(a[..]);
    forall m | 0 <= m < |s| ensures a[..][m] == Splice(s, at, bytes)[m] {
      SpliceAt(s, at, bytes, m);
    }
  }

  /** The new entry, field by field in the order of the source; its padding is what was there before. */
  method WriteEntry(a: array<byte>, q: nat, attr: Attr)
    requires AttrOk(attr) && q + 4 + |attr.key.name| + |attr.value| <= a.Length
    modifies a
    ensures a[..] == Splice(old(a[..]), q, Head(attr) + attr.key.name + attr.value)
  {
    var n := |attr.key.name|;
    FieldsMakeEntry(a[..], q, attr);
    MemCpy(a, q, [attr.key.index, n as byte]);
    MemCpy(a, q + 4, attr.key.name);
    MemCpy(a, q + 4 + n, attr.value);
    MemCpy(a, q + 2, [(|attr.value| % 256) as byte, (|attr.value| / 256) as byte]);
  }

  lemma FieldsMakeEntry(s: seq<byte>, q: nat, a: Attr)
    requires AttrOk(a) && q + 4 + |a.key.name| + |a.value| <= |s|
    ensures var n := |a.key.name|;
            var s1 := Splice(s, q, [a.key.index, n as byte]);
            var s2 := Splice(Splice(s1, q + 4, a.key.name), q + 4 + n, a.value);
            Splice(s2, q + 2, [(|a.value| % 256) as byte, (|a.value| / 256) as byte])
            == Splice(s, q, Head(a) + a.key.name + a.value)
  {
    var n, v := a.key.name, a.value;
    var ids, size := [a.key.index, |n| as byte], [(|v| % 256) as byte, (|v| / 256) as byte];
    var s1 := Splice(s, q, ids);
    var s2 := Splice(s1, q + 4, n);
    var s3 := Splice(s2, q + 4 + |n|, v);
    var s4, t := Splice(s3, q + 2, size), Splice(s, q, Head(a) + n + v);
    forall m | 0 <= m < |s| ensures s4[m] == t[m] {
      SpliceAt(s, q, ids, m);
      SpliceAt(s1, q + 4, n, m);
      SpliceAt(s2, q + 4 + |n|, v, m);
      SpliceAt(s3, q + 2, size, m);
      SpliceAt(s, q, Head(a) + n + v, m);
    }
  }

  lemma SpliceAt(s: seq<byte>, at: nat, w: seq<byte>, m: nat)
    requires at + |w| <= |s| && m < |s|
    ensures Splice(s, at, w)[m] == if at <= m < at + |w| then w[m - at] else s[m]
  {
  }

  /** A buffer as header, these bytes, and zeros, at least one terminator long. */
  ghost predicate Laid(b: seq<byte>, bytes: seq<byte>) {
    && HEADER + |bytes| + PADDING <= |b|
    && forall m :: HEADER <= m < |b| ==> b[m] == if m < HEADER + |bytes| then bytes[m - HEADER] else 0
  }

  /** Moving the later bytes down over the old ones and clearing what they leave behind removes the old ones. */
  lemma RemoveBytes(b: seq<byte>, l: seq<byte>, e: seq<byte>, r: seq<byte>)
    requires Laid(b, l + e + r)
    ensures var here, last := HEADER + |l|, HEADER + |l + e + r|;
            && b[here + |e|..last] == r
            && Laid(Splice(Splice(b, here, r), last - |e|, Zeros(|e|)), l + r)
  {
    var here, last := HEADER + |l|, HEADER + |l + e + r|;
    assert b[here + |e|..last] == r;
    var c := Splice(b, here, r);
    var d := Splice(c, last - |e|, Zeros(|e|));
    forall m | HEADER <= m < |b| ensures d[m] == if m < HEADER + |l + r| then (l + r)[m - HEADER] else 0 {
      SpliceAt(b, here, r, m);
      SpliceAt(c, last - |e|, Zeros(|e|), m);
    }
  }

  /** Writing an entry over zeros leaves the zeros it does not cover as its padding and the tail. */
  lemma AppendBytes(b: seq<byte>, x: seq<byte>, a: Attr)
    requires Laid(b, x) && AttrOk(a) && HEADER + |x| + Size(a) + PADDING <= |b|
    ensures Laid(Splice(b, HEADER + |x|, Head(a) + a.key.name + a.value), x + Enc(a))
  {
    var w, q := Head(a) + a.key.name + a.value, HEADER + |x|;
    var c := Splice(b, q, w);
    forall m | HEADER <= m < |b| ensures c[m] == if m < HEADER + |x + Enc(a)| then (x + Enc(a))[m - HEADER] else 0 {
      SpliceAt(b, q, w, m);
      if q <= m < q + Size(a) { assert (x + Enc(a))[m - HEADER] == (w + Pad(a))[m - q]; }
    }
  }

  /** The buffer as header, entries, zeros. */
  ghost predicate Packed(b: seq<byte>, attrs: seq<Attr>) {
    AllOk(attrs) && Laid(b, EncAll(attrs))
  }

  lemma PackedIsAt(b: seq<byte>, attrs: seq<Attr>)
    ensures Packed(b, attrs) <==> At(b, HEADER, attrs)
  {
    if AllOk(attrs) { LaidIs(b, EncAll(attrs)); }
  }

  lemma LaidIs(b: seq<byte>, bytes: seq<byte>)
    ensures Laid(b, bytes) <==>
            HEADER + |bytes| + 4 <= |b| && b[HEADER..] == bytes + Zeros(|b| - HEADER - |bytes|)
  {
    if HEADER + |bytes| + 4 <= |b| {
      var t := bytes + Zeros(|b| - HEADER - |bytes|);
      assert forall m :: HEADER <= m < |b| ==> b[m] == b[HEADER..][m - HEADER];
      if Laid(b, bytes) {
        assert b[HEADER..] == t;
      }
    }
  }

  lemma EncOne(a: Attr)
    requires AttrOk(a)
    ensures EncAll([a]) == Enc(a)
  {
    assert EncAll([a]) == Enc(a) + EncAll([]);
  }

  lemma EncThree(l: seq<Attr>, a: Attr, r: seq<Attr>)
    requires AllOk(l) && AttrOk(a) && AllOk(r)
    ensures AllOk(l + [a] + r) && AllOk(l + r)
    ensures EncAll(l + [a] + r) == EncAll(l) + EncAll([a]) + EncAll(r) && EncAll(l + r) == EncAll(l) + EncAll(r)
    ensures |EncAll([a])| == Size(a)
  {
    EncAllAppend(l, [a]);
    EncAllAppend(l + [a], r);
    EncAllAppend(l, r);
    EncOne(a);
  }

  lemma SplitAt<T>(s: seq<T>, i: nat)
    requires i < |s|
    ensures s == s[..i] + [s[i]] + s[i + 1..]
  {
  }

  lemma EncSplit(attrs: seq<Attr>, i: nat)
    requires AllOk(attrs) && i < |attrs|
    ensures EncAll(attrs) == EncAll(attrs[..i]) + EncAll([attrs[i]]) + EncAll(attrs[i + 1..])
    ensures EncAll(attrs[..i] + attrs[i + 1..]) == EncAll(attrs[..i]) + EncAll(attrs[i + 1..])
    ensures |EncAll([attrs[i]])| == Size(attrs[i])
  {
    SplitAt(attrs, i);
    EncThree(attrs[..i], attrs[i], attrs[i + 1..]);
  }

  /** memmove, then memset. */
  method CloseGap(a: array<byte>, here: nat, size: nat, last: nat, ghost l: seq<byte>, ghost e: seq<byte>,
                  ghost r: seq<byte>)
    requires Laid(a[..], l + e + r) && here == HEADER + |l| && size == |e| && last == HEADER + |l + e + r|
    modifies a
    ensures Laid(a[..], l + r)
  {
    ghost var b := a[..];
    RemoveBytes(b, l, e, r);
    MemMove(a, here, here + size, last - (here + size));
    assert a[..] == Splice(b, here, r);
    MemCpy(a, last - size, Zeros(size));
  }

  /** Step 2 of __f2fs_setxattr. */
  method RemoveEntry(a: array<byte>, here: nat, last: nat, ghost attrs: seq<Attr>, ghost i: nat) returns (end: nat)
    requires Packed(a[..], attrs) && i < |attrs| && here == HEADER + |EncAll(attrs[..i])|
    requires last == HEADER + |EncAll(attrs)|
    requires EntryAt(a[..], here, attrs[i])
    modifies a
    ensures Packed(a[..], attrs[..i] + attrs[i + 1..]) && end == last - Size(attrs[i])
    ensures end == HEADER + |EncAll(attrs[..i] + attrs[i + 1..])|
  {
    EncSplit(attrs, i);
    var oldSize := EntrySize(a[..], here);
    CloseGap(a, here, oldSize, last, EncAll(attrs[..i]), EncAll([attrs[i]]), EncAll(attrs[i + 1..]));
    end := last - oldSize;
  }

  /** Step 3: the new entry goes where the zeros begin. */
  method AppendEntry(a: array<byte>, end: nat, attr: Attr, ghost attrs: seq<Attr>)
    requires Packed(a[..], attrs) && end == HEADER + |EncAll(attrs)| && AttrOk(attr)
    requires end + Size(attr) + PADDING <= a.Length
    modifies a
    ensures Packed(a[..], attrs + [attr]) && |EncAll(attrs + [attr])| == |EncAll(attrs)| + Size(attr)
  {
    AppendBytes(a[..], EncAll(attrs), attr);
    WriteEntry(a, end, attr);
    EncAllAppend(attrs, [attr]);
    EncOne(attr);
  }

  // ---- The inode

  /** The inline area followed by the node block, or by what kzalloc leaves in its place, and the padding. */
  function Joined(inline: seq<byte>, block: Option<seq<byte>>): seq<byte> {
    inline + (if block.Some? then block.value else Zeros(BLOCK)) + Zeros(PADDING)
  }

  /** What a set may answer, from the attributes alone. */
  function SetError(attrs: seq<Attr>, inlineSize: nat, hasBlock: bool, k: Key, value: Option<seq<byte>>,
                    create: bool, replace: bool, nidLeft: bool): int
  {
    if |k.name| > NAME_LEN then -ERANGE
    else if value.Some? && |value.value| > inlineSize + BLOCK - HEADER - 4 then -E2BIG
    else LateError(attrs, inlineSize, hasBlock, k, value, create, replace, nidLeft)
  }

  function LateError(attrs: seq<Attr>, inlineSize: nat, hasBlock: bool, k: Key, value: Option<seq<byte>>,
                     create: bool, replace: bool, nidLeft: bool): int
  {
    var e := EditError(attrs, inlineSize + BLOCK, k, value, create, replace);
    if e != 0 || Unchanged(attrs, k, value) then e
    else WriteError(HEADER + EndAfter(attrs, k, value), inlineSize, hasBlock, nidLeft)
  }

  /** The errors found while the buffer is edited ... */
  function EditError(attrs: seq<Attr>, max: nat, k: Key, value: Option<seq<byte>>, create: bool, replace: bool): int {
    var found := Get(attrs, k).Some?;
    if found && create then -EEXIST
    else if !found && replace then -ENODATA
    else if value.Some? && Get(attrs, k) != value && HEADER + EndAfter(attrs, k, value) > max then -E2BIG
    else 0
  }

  /** ... and while it is written back. */
  function WriteError(size: nat, inlineSize: nat, hasBlock: bool, nidLeft: bool): int {
    if size > inlineSize && !hasBlock && !nidLeft then -ENOSPC else 0
  }

  predicate Unchanged(attrs: seq<Attr>, k: Key, value: Option<seq<byte>>) { value.Some? && Get(attrs, k) == value }

  /** Bytes of entries there would be. */
  function EndAfter(attrs: seq<Attr>, k: Key, value: Option<seq<byte>>): nat {
    SizeAll(Without(attrs, k)) + if value.Some? then Size(Attr(k, value.value)) else 0
  }

  function SizeAll(attrs: seq<Attr>): nat { if attrs == [] then 0 else Size(attrs[0]) + SizeAll(attrs[1..]) }

  lemma {:induction false} SizeIs(attrs: seq<Attr>)
    requires AllOk(attrs)
    ensures SizeAll(attrs) == |EncAll(attrs)|
  {
    if attrs != [] { SizeIs(attrs[1..]); }
  }

  class XattrInode {
    const inlineSize: nat
    var inline: seq<byte>
    var block: Option<seq<byte>>
    ghost var attrs: seq<Attr>

    ghost predicate Valid()
      reads this
    {
      && inlineSize % 4 == 0 && inlineSize <= MAX_INLINE && |inline| == inlineSize
      && (block.Some? ==> |block.value| == BLOCK)
      && Good(attrs) && Packed(Joined(inline, block), attrs)
      && (block.None? && attrs != [] ==> HEADER + |EncAll(attrs)| <= inlineSize)
    }

    constructor (inlineSize: nat)
      requires inlineSize % 4 == 0 && inlineSize <= MAX_INLINE
      ensures Valid() && attrs == [] && this.inlineSize == inlineSize
    {
      this.inlineSize := inlineSize;
      inline, block, attrs := Zeros(inlineSize), None, [];
    }

    /** read_all_xattrs; a header that was never written gets its magic number and reference count. */
    method ReadAll() returns (a: array<byte>)
      requires Valid()
      ensures fresh(a) && a.Length == inlineSize + BLOCK + PADDING && Packed(a[..], attrs)
    {
      var b := Joined(inline, block);
      a := new byte[inlineSize + BLOCK + PADDING](i requires 0 <= i < |b| => b[i]);
      assert a[..] == b;
      if b[..4] != MAGIC {
        MemCpy(a, 0, MAGIC + [1, 0, 0, 0]);
        forall m | HEADER <= m < a.Length ensures a[..][m] == b[m] {
          SpliceAt(b, 0, MAGIC + [1, 0, 0, 0], m);
        }
      }
    }

    /** write_all_xattrs; `nidLeft` is whether a nid for a new node block can be had. */
    method WriteAll(a: array<byte>, hsize: nat, nidLeft: bool, ghost now: seq<Attr>) returns (err: int)
      requires Valid() && a.Length == inlineSize + BLOCK + PADDING
      requires Packed(a[..], now) && Good(now) && hsize == HEADER + |EncAll(now)|
      modifies this
      ensures Valid() && err == WriteError(hsize, inlineSize, old(block).Some?, nidLeft)
      ensures attrs == if err == 0 then now else old(attrs)
    {
      if hsize > inlineSize && block.None? && !nidLeft {
        return -ENOSPC;
      }
      var b := a[..];
      var toBlock := None;
      if inlineSize == 0 || hsize > inlineSize {
        toBlock := Some(b[inlineSize..inlineSize + BLOCK]);
      }
      assert Packed(Joined(b[..inlineSize], toBlock), now) by { Rejoin(b, inlineSize, now); }
      inline, block, attrs, err := b[..inlineSize], toBlock, now, 0;
    }

    /** __f2fs_setxattr.  It answers what SetError says, leaves the attributes alone on
        an error, and otherwise updates exactly the one name. */
    method SetXattr(k: Key, value: Option<seq<byte>>, create: bool, replace: bool, nidLeft: bool) returns (err: int)
      requires Valid() && k.index != 0
      modifies this
      ensures Valid()
      ensures err == SetError(old(attrs), inlineSize, old(block).Some?, k, value, create, replace, nidLeft)
      ensures err != 0 ==> attrs == old(attrs)
      ensures err == 0 ==> forall q :: Get(attrs, q) == if q == k then value else Get(old(attrs), q)
    {
      if |k.name| > NAME_LEN {
        return -ERANGE;
      }
      if value.Some? && |value.value| > inlineSize + BLOCK - HEADER - 4 {
        return -E2BIG;
      }
      PutForAll(attrs, k, value);
      err := SetInRange(k, value, create, replace, nidLeft);
    }

    /** __f2fs_setxattr after its checks on lengths. */
    method SetInRange(k: Key, value: Option<seq<byte>>, create: bool, replace: bool, nidLeft: bool) returns (err: int)
      requires Valid() && KeyOk(k) && (value.Some? ==> |value.value| < 65536)
      modifies this
      ensures Valid()
      ensures err == LateError(old(attrs), inlineSize, old(block).Some?, k, value, create, replace, nidLeft)
      ensures attrs == if err != 0 || Unchanged(old(attrs), k, value) then old(attrs) else Put(old(attrs), k, value)
    {
      var a, done, hsize;
      a, done, err, hsize := ReadAndEdit(k, value, create, replace);
      if !done {
        err := WriteAll(a, hsize, nidLeft, Put(attrs, k, value));
      }
    }

    /** Up to the edited buffer. */
    method ReadAndEdit(k: Key, value: Option<seq<byte>>, create: bool, replace: bool)
      returns (a: array<byte>, done: bool, err: int, hsize: nat)
      requires Valid() && KeyOk(k) && (value.Some? ==> |value.value| < 65536)
      ensures fresh(a) && a.Length == inlineSize + BLOCK + PADDING
      ensures err == EditError(attrs, inlineSize + BLOCK, k, value, create, replace)
      ensures done <==> err != 0 || Unchanged(attrs, k, value)
      ensures !done ==>
                && Packed(a[..], Put(attrs, k, value)) && Good(Put(attrs, k, value))
                && hsize == HEADER + EndAfter(attrs, k, value) == HEADER + |EncAll(Put(attrs, k, value))|
    {
      a := ReadAll();
      PutIsUpdate(attrs, k, value, k);
      done, err, hsize := EditBuffer(a, inlineSize + BLOCK, k, value, create, replace, attrs);
    }

    /** lookup_all_xattrs: the inline part first, the node block only if the name is not there.  It finds what one
        scan of the joined buffer finds, unless the inline area is too small for a header and a terminator: then it
        finds nothing. (Without a block, an area smaller than a header would have the source read past its buffer.) */
    method Lookup(k: Key) returns (found: bool, b: seq<byte>, p: nat, ghost i: nat)
      requires Valid() && (inlineSize == 0 || inlineSize >= HEADER || block.Some?)
      ensures found <==> !TooSmall(inlineSize) && Get(attrs, k).Some?
      ensures found ==> Answer(found, b, p, attrs, k, i)
    {
      var size := if block.Some? then BLOCK else 0;
      found, b, p, i := false, [], 0, 0;
      if size == 0 && inlineSize == 0 {
        return;
      }
      ghost var whole := LookupBuffer(inline, block);
      LookupSees(inline, block, attrs);
      var cur := HEADER;
      ScanStart(whole, HEADER, attrs, k);
      if inlineSize > 0 {
        assert whole[..inlineSize] == inline;
        var done;
        done, found, b, p, cur, i := InlineStage(inline, size, k, whole, attrs);
        if done {
          return;
        }
      }
      b := LookupBuffer(inline, block);
      found, p, i := BlockStage(b, cur, k, attrs, i);
    }

    /** f2fs_getxattr; without a buffer it answers the size only. */
    method GetXattr(k: Key, bufferSize: Option<nat>) returns (ret: int, data: seq<byte>)
      requires Valid() && (inlineSize == 0 || inlineSize >= HEADER || block.Some?)
      ensures var v := if TooSmall(inlineSize) then None else Get(attrs, k);
              if |k.name| > NAME_LEN then ret == -ERANGE && data == []
              else if v.None? then ret == -ENODATA && data == []
              else if bufferSize.Some? && |v.value| > bufferSize.value then ret == -ERANGE && data == []
              else ret == |v.value| && data == if bufferSize.Some? then v.value else []
    {
      data := [];
      if |k.name| > NAME_LEN {
        return -ERANGE, data;
      }
      var found, b, p, i := Lookup(k);
      if !found {
        return -ENODATA, data;
      }
      var size := ValueSize(b, p);
      if bufferSize.Some? && size > bufferSize.value {
        return -ERANGE, data;
      }
      if bufferSize.Some? {
        var q := p + 4 + b[p + 1] as int;
        data := b[q..q + size];
      }
      ret := size;
    }
  }

  /** An inline area that cannot hold a header and a terminator. */
  predicate TooSmall(inlineSize: nat) { 0 < inlineSize < HEADER + 4 }

  /** The lookup's buffer: no room is made for a block that does not exist. */
  function LookupBuffer(inline: seq<byte>, block: Option<seq<byte>>): seq<byte> {
    inline + (if block.Some? then block.value else []) + Zeros(PADDING)
  }

  lemma LookupSees(inline: seq<byte>, block: Option<seq<byte>>, attrs: seq<Attr>)
    requires Packed(Joined(inline, block), attrs)
    requires block.None? ==> HEADER + |EncAll(attrs)| <= |inline|
    ensures At(LookupBuffer(inline, block), HEADER, attrs)
  {
    var b, c := Joined(inline, block), LookupBuffer(inline, block);
    PackedIsAt(b, attrs);
    assert c == b[..|c|];
    AtPrefix(b, c, HEADER, attrs);
  }

  /** Going on from where the inline scan stopped is one scan of all entries. */
  lemma ScanOn(b: seq<byte>, attrs: seq<Attr>, k: Key, i: nat, last: nat, j: nat, p: nat)
    requires Scanned(b, HEADER, attrs, k, i, last) && Scanned(b, last, attrs[i..], k, j, p)
    ensures Scanned(b, HEADER, attrs, k, i + j, p)
  {
    assert attrs[i..][j..] == attrs[i + j..];
    assert attrs[..i + j] == attrs[..i] + attrs[i..][..j];
    EncAllAppend(attrs[..i], attrs[i..][..j]);
    forall m | 0 <= m < i + j ensures attrs[m].key != k {
      if m >= i { assert attrs[m] == attrs[i..][m - i]; }
    }
  }

  /** The fields of an entry inside the part that two buffers share read the same in both. */
  lemma SameEntry(b: seq<byte>, whole: seq<byte>, n: nat, p: nat, a: Attr)
    requires EntryAt(whole, p, a) && n <= |b| && n <= |whole| && b[..n] == whole[..n] && p + Size(a) <= n
    requires n + 4 <= |b|
    ensures EntryAt(b, p, a)
  {
    assert forall i :: 0 <= i < n ==> b[i] == b[..n][i] == whole[i];
    var x := p + 4 + |a.key.name|;
    assert b[p + 4..x] == whole[p + 4..x];
    assert b[x..x + |a.value|] == whole[x..x + |a.value|];
  }

  /** Found exactly if the map has the name, and then the entry at p is the one for it. */
  ghost predicate Answer(found: bool, b: seq<byte>, p: nat, attrs: seq<Attr>, k: Key, i: nat) {
    && (found <==> Get(attrs, k).Some?)
    && (found ==> i < |attrs| && EntryAt(b, p, attrs[i]) && Get(attrs, k) == Some(attrs[i].value))
  }

  method InlineStage(inline: seq<byte>, size: nat, k: Key, ghost whole: seq<byte>, ghost attrs: seq<Attr>)
    returns (done: bool, found: bool, b: seq<byte>, p: nat, cur: nat, ghost i: nat)
    requires At(whole, HEADER, attrs) && 0 < |inline| <= |whole| && whole[..|inline|] == inline && |inline| % 4 == 0
    requires HEADER <= |inline| + size
    ensures TooSmall(|inline|) ==> done && !found
    ensures done && !TooSmall(|inline|) ==> Answer(found, b, p, attrs, k, i)
    ensures !done ==> Scanned(whole, HEADER, attrs, k, i, cur)
  {
    var n := |inline|;
    b := inline + Zeros(size + PADDING);
    assert b[..n] == inline;
    var r: Inline;
    r, i := FindInline(b, n, k, whole, attrs);
    done, found, p, cur := r.Hit?, false, 0, 0;
    if done {
      p := r.p;
      found := !IsLast(b, p);
      if !TooSmall(n) {
        GetAt(attrs, k, i);
        ScanStep(whole, HEADER, attrs, k, i, p);
        SameRead(b, whole, n, p, k);
        if found { SameEntry(b, whole, n, p, attrs[i]); }
      }
    } else {
      cur := r.last;
    }
  }

  method BlockStage(b: seq<byte>, cur: nat, k: Key, ghost attrs: seq<Attr>, ghost i0: nat)
    returns (found: bool, p: nat, ghost i: nat)
    requires Scanned(b, HEADER, attrs, k, i0, cur)
    ensures p + 4 <= |b| && Answer(found, b, p, attrs, k, i)
  {
    ghost var j;
    p, j := FindXattr(b, cur, k, attrs[i0..]);
    ScanOn(b, attrs, k, i0, cur, j, p);
    i := i0 + j;
    ScanStep(b, HEADER, attrs, k, i, p);
    GetAt(attrs, k, i);
    found := !IsLast(b, p);
  }

  const MAGIC: seq<byte> := [0x11, 0x20, 0xF5, 0xF2]

  /** Whatever the split, reading back gives the joined buffer. */
  lemma Rejoin(b: seq<byte>, n: nat, attrs: seq<Attr>)
    requires Packed(b, attrs) && |b| == n + BLOCK + PADDING
    ensures HEADER + |EncAll(attrs)| <= n ==> Packed(Joined(b[..n], None), attrs)
    ensures Packed(Joined(b[..n], Some(b[n..n + BLOCK])), attrs)
  {
    var c := Joined(b[..n], Some(b[n..n + BLOCK]));
    assert forall m :: HEADER <= m < |b| ==> c[m] == b[m];
    if HEADER + |EncAll(attrs)| <= n {
      var d := Joined(b[..n], None);
      assert forall m :: HEADER <= m < |b| ==> d[m] == b[m];
    }
  }

  /** f2fs_xattr_value_same */
  predicate SameValue(b: seq<byte>, p: nat, value: seq<byte>, ghost a: Attr)
    requires EntryAt(b, p, a)
    ensures SameValue(b, p, value, a) <==> value == a.value
  {
    var q := p + 4 + b[p + 1] as int;
    ValueSize(b, p) == |value| && b[q..q + |value|] == value
  }

  /** The checks on the flags; done when the answer is known without an edit. */
  method CheckFlags(b: seq<byte>, here: nat, found: bool, k: Key, value: Option<seq<byte>>, create: bool, replace: bool,
                    ghost attrs: seq<Attr>, ghost i: nat) returns (done: bool, err: int)
    requires found <==> i < |attrs|
    requires i < |attrs| ==> EntryAt(b, here, attrs[i])
    requires Get(attrs, k) == if i < |attrs| then Some(attrs[i].value) else None
    ensures done <==> (found && (create || Unchanged(attrs, k, value))) || (!found && replace)
    ensures err == if found && create then -EEXIST else if !found && replace then -ENODATA else 0
  {
    done, err := false, 0;
    if found {
      if create {
        return true, -EEXIST;
      }
      if value.Some? && SameValue(b, here, value.value, attrs[i]) {
        done := true;
      }
    } else if replace {
      return true, -ENODATA;
    }
  }

  /** Removing the entry of a name frees its own size. */
  lemma Sizes(attrs: seq<Attr>, k: Key, i: nat)
    requires AllOk(attrs) && i <= |attrs| && (forall j :: 0 <= j < i ==> attrs[j].key != k)
    requires i < |attrs| ==> attrs[i].key == k
    ensures AllOk(Without(attrs, k))
    ensures |EncAll(attrs)| == |EncAll(Without(attrs, k))| + if i < |attrs| then Size(attrs[i]) else 0
  {
    WithoutAt(attrs, k, i);
    if i < |attrs| { EncSplit(attrs, i); }
  }

  /** The walk to the terminator. */
  method FindLast(b: seq<byte>, here: nat, ghost attrs: seq<Attr>, ghost i: nat) returns (last: nat)
    requires Walked(b, HEADER, attrs, i, here)
    ensures last == HEADER + |EncAll(attrs)| && last + 4 <= |b|
  {
    last := here;
    ghost var j: nat := i;
    while !IsLast(b, last)
      invariant Walked(b, HEADER, attrs, j, last)
      decreases |b| - last
    {
      WalkStep(b, HEADER, attrs, j, last);
      last, j := last + EntrySize(b, last), j + 1;
    }
    WalkStep(b, HEADER, attrs, j, last);
    assert attrs[..j] == attrs;
  }

  /** The free-space check: an old entry of the same name counts as free. */
  method HasRoom(b: seq<byte>, max: nat, here: nat, last: nat, found: bool, newSize: nat, ghost attrs: seq<Attr>,
                 ghost k: Key, ghost i: nat)
    returns (room: bool)
    requires Scanned(b, HEADER, attrs, k, i, here) && (i < |attrs| ==> attrs[i].key == k) && (found <==> i < |attrs|)
    requires last == HEADER + |EncAll(attrs)|
    ensures room <==> HEADER + SizeAll(Without(attrs, k)) + newSize <= max
  {
    ScanStep(b, HEADER, attrs, k, i, here);
    Sizes(attrs, k, i);
    SizeIs(Without(attrs, k));
    var free := max - last;
    if found {
      free := free + EntrySize(b, here);
    }
    room := free >= newSize;
  }

  /** Step 2 where there is an old entry. */
  method Clear(a: array<byte>, here: nat, last: nat, found: bool, ghost k: Key, ghost attrs: seq<Attr>, ghost i: nat)
    returns (end: nat)
    requires Packed(a[..], attrs) && Scanned(a[..], HEADER, attrs, k, i, here) && last == HEADER + |EncAll(attrs)|
    requires (i < |attrs| ==> attrs[i].key == k) && (found <==> i < |attrs|)
    modifies a
    ensures Packed(a[..], Without(attrs, k)) && end == HEADER + |EncAll(Without(attrs, k))|
  {
    ScanStep(a[..], HEADER, attrs, k, i, here);
    WithoutAt(attrs, k, i);
    end := last;
    if found {
      end := RemoveEntry(a, here, last, attrs, i);
    }
  }

  /** Steps 2 and 3 together: the buffer holds what Put says. */
  method Edit(a: array<byte>, here: nat, last: nat, found: bool, k: Key, value: Option<seq<byte>>,
              ghost attrs: seq<Attr>, ghost i: nat)
    returns (hsize: nat)
    requires Packed(a[..], attrs) && Scanned(a[..], HEADER, attrs, k, i, here) && last == HEADER + |EncAll(attrs)|
    requires (i < |attrs| ==> attrs[i].key == k) && (found <==> i < |attrs|)
    requires value.Some? ==> AttrOk(Attr(k, value.value)) && HEADER + EndAfter(attrs, k, value) + PADDING <= a.Length
    modifies a
    ensures Packed(a[..], Put(attrs, k, value)) && hsize == HEADER + EndAfter(attrs, k, value)
    ensures hsize == HEADER + |EncAll(Put(attrs, k, value))|
  {
    hsize := Clear(a, here, last, found, k, attrs, i);
    ghost var w := Without(attrs, k);
    SizeIs(w);
    if value.Some? {
      AppendEntry(a, hsize, Attr(k, value.value), w);
      hsize := hsize + Align(4 + |k.name| + |value.value|);
    } else {
      assert w + [] == w;
    }
  }

  /** The part of __f2fs_setxattr between reading and writing; done when there is nothing to write. */
  method EditBuffer(a: array<byte>, max: nat, k: Key, value: Option<seq<byte>>, create: bool, replace: bool,
                    ghost attrs: seq<Attr>)
    returns (done: bool, err: int, hsize: nat)
    requires a.Length == max + PADDING && Packed(a[..], attrs) && KeyOk(k) && (value.Some? ==> |value.value| < 65536)
    modifies a
    ensures err == EditError(attrs, max, k, value, create, replace)
    ensures done <==> err != 0 || Unchanged(attrs, k, value)
    ensures !done ==>
              && Packed(a[..], Put(attrs, k, value)) && hsize == HEADER + EndAfter(attrs, k, value)
              && hsize == HEADER + |EncAll(Put(attrs, k, value))|
  {
    hsize := 0;
    var here, last, found;
    ghost var i;
    done, err, here, last, found, i := Plan(a[..], max, k, value, create, replace, attrs);
    if !done {
      hsize := Edit(a, here, last, found, k, value, attrs, i);
    }
  }

  /** Its first step: flags, the place and the space, before anything is written. */
  method Plan(b: seq<byte>, max: nat, k: Key, value: Option<seq<byte>>, create: bool, replace: bool,
              ghost attrs: seq<Attr>)
    returns (done: bool, err: int, here: nat, last: nat, found: bool, ghost i: nat)
    requires |b| == max + PADDING && Packed(b, attrs)
    ensures err == EditError(attrs, max, k, value, create, replace)
    ensures done <==> err != 0 || Unchanged(attrs, k, value)
    ensures Scanned(b, HEADER, attrs, k, i, here) && (i < |attrs| ==> attrs[i].key == k) && (found <==> i < |attrs|)
    ensures !done ==> last == HEADER + |EncAll(attrs)| && (value.Some? ==> HEADER + EndAfter(attrs, k, value) <= max)
  {
    last := 0;
    done, err, here, found, i := FindAndCheck(b, k, value, create, replace, attrs);
    if !done {
      var room;
      last, room := Measure(b, max, here, found, k, value, attrs, i);
      if !room {
        done, err := true, -E2BIG;
      }
    }
  }

  method FindAndCheck(b: seq<byte>, k: Key, value: Option<seq<byte>>, create: bool, replace: bool,
                      ghost attrs: seq<Attr>)
    returns (done: bool, err: int, here: nat, found: bool, ghost i: nat)
    requires Packed(b, attrs)
    ensures found <==> Get(attrs, k).Some?
    ensures done <==> (found && (create || Unchanged(attrs, k, value))) || (!found && replace)
    ensures err == if found && create then -EEXIST else if !found && replace then -ENODATA else 0
    ensures Scanned(b, HEADER, attrs, k, i, here) && (i < |attrs| ==> attrs[i].key == k) && (found <==> i < |attrs|)
  {
    here, found, i := Locate(b, k, attrs);
    done, err := CheckFlags(b, here, found, k, value, create, replace, attrs, i);
  }

  /** The end of the entries, and whether the new one has room behind them. */
  method Measure(b: seq<byte>, max: nat, here: nat, found: bool, k: Key, value: Option<seq<byte>>,
                 ghost attrs: seq<Attr>, ghost i: nat)
    returns (last: nat, room: bool)
    requires Scanned(b, HEADER, attrs, k, i, here) && (i < |attrs| ==> attrs[i].key == k) && (found <==> i < |attrs|)
    ensures last == HEADER + |EncAll(attrs)|
    ensures room <==> value.Some? ==> HEADER + EndAfter(attrs, k, value) <= max
  {
    last := FindLast(b, here, attrs, i);
    room := true;
    if value.Some? {
      var newSize := Align(4 + |k.name| + |value.value|);
      room := HasRoom(b, max, here, last, found, newSize, attrs, k, i);
    }
  }

  /** The place in the buffer where the entry for the name is, or the terminator. */
  method Locate(b: seq<byte>, k: Key, ghost attrs: seq<Attr>) returns (here: nat, found: bool, ghost i: nat)
    requires Packed(b, attrs)
    ensures found <==> Get(attrs, k).Some?
    ensures Scanned(b, HEADER, attrs, k, i, here) && (found <==> i < |attrs|)
    ensures i < |attrs| ==> attrs[i].key == k && EntryAt(b, here, attrs[i])
    ensures Get(attrs, k) == if i < |attrs| then Some(attrs[i].value) else None
  {
    PackedIsAt(b, attrs);
    here, i := FindXattr(b, HEADER, k, attrs);
    ScanStep(b, HEADER, attrs, k, i, here);
    GetAt(attrs, k, i);
    found := !IsLast(b, here);
  }

  lemma PutForAll(attrs: seq<Attr>, k: Key, value: Option<seq<byte>>)
    requires Good(attrs) && KeyOk(k) && (value.Some? ==> |value.value| < 65536)
    ensures Good(Put(attrs, k, value))
    ensures forall q :: Get(Put(attrs, k, value), q) == if q == k then value else Get(attrs, q)
  {
    PutIsUpdate(attrs, k, value, k);
    forall q ensures Get(Put(attrs, k, value), q) == if q == k then value else Get(attrs, q) {
      PutIsUpdate(attrs, k, value, q);
    }
  }

  datatype Op = Op(k: Key, value: Option<seq<byte>>, create: bool, replace: bool, nidLeft: bool)

  /** What a finite map holds for q after the operations that succeeded. */
  function After(ops: seq<Op>, errs: seq<int>, q: Key): Option<seq<byte>>
    requires |ops| == |errs|
  {
    if ops == [] then None else
      var n := |ops| - 1;
      if errs[n] == 0 && ops[n].k == q then ops[n].value else After(ops[..n], errs[..n], q)
  }

  /** Any sequence of sets and removes on a new inode leaves exactly that map behind. */
  method RunOps(inlineSize: nat, ops: seq<Op>) returns (inode: XattrInode, errs: seq<int>)
    requires inlineSize % 4 == 0 && inlineSize <= MAX_INLINE && forall i :: 0 <= i < |ops| ==> ops[i].k.index != 0
    ensures fresh(inode) && inode.Valid() && inode.inlineSize == inlineSize && |errs| == |ops|
    ensures forall q :: Get(inode.attrs, q) == After(ops, errs, q)
  {
    inode := new XattrInode(inlineSize);
    errs := [];
    assert ops[..0] == [];
    for i := 0 to |ops|
      invariant fresh(inode) && inode.Valid() && inode.inlineSize == inlineSize && |errs| == i
      invariant forall q :: Get(inode.attrs, q) == After(ops[..i], errs, q)
    {
      var o := ops[i];
      ghost var was := inode.attrs;
      var e := inode.SetXattr(o.k, o.value, o.create, o.replace, o.nidLeft);
      AfterStep(ops, errs, i, e, was, inode.attrs);
      errs := errs + [e];
    }
    assert ops[..|ops|] == ops;
  }

  lemma AfterStep(ops: seq<Op>, errs: seq<int>, i: nat, e: int, was: seq<Attr>, now: seq<Attr>)
    requires i < |ops| && |errs| == i
    requires forall q :: Get(was, q) == After(ops[..i], errs, q)
    requires if e == 0 then forall q :: Get(now, q) == (if q == ops[i].k then ops[i].value else Get(was, q))
             else now == was
    ensures forall q :: Get(now, q) == After(ops[..i + 1], errs + [e], q)
  {
    assert ops[..i + 1][..i] == ops[..i] && (errs + [e])[..i] == errs;
  }
}
