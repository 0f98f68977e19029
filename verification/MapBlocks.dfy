/** f2fs_map_blocks for default lookups: from a page on, the longest run of pages that lie in consecutive blocks,
    from the extent cache if it knows the page, else by walking the file's node tree. */
module MapBlocks {
  import opened Common
  import opened ExtentCache
  import opened NodePath

  /** next is m_next_pgofs where the call sets it. */
  datatype Mapping = Mapping(pblk: nat, len: nat, mapped: bool, next: Option<nat>)

  /** Pages lblk, lblk + 1, ... lie in blocks pblk, pblk + 1, ... for len of them. */
  ghost predicate Run(file: FileMap, lblk: nat, pblk: nat, len: nat) {
    forall p: nat :: lblk <= p < lblk + len ==> p in file && file[p] == pblk + (p - lblk)
  }

  /** A run no longer than asked for; no run exactly if not mapped. */
  ghost predicate Answers(file: FileMap, lblk: nat, max: nat, m: Mapping) {
    && Run(file, lblk, m.pblk, m.len) && m.len <= max && (m.mapped <==> m.len > 0)
    && (m.next.Some? ==>
          m.next.value > lblk + m.len && forall p: nat :: lblk + m.len <= p < m.next.value ==> p !in file)
  }

  /** The run cannot be made longer. */
  ghost predicate Maximal(file: FileMap, lblk: nat, max: nat, m: Mapping) {
    m.len == max || lblk + m.len !in file || (m.len > 0 && file[lblk + m.len] != m.pblk + m.len)
  }

  /** The node blocks that exist, by their numbers: every page of the file has all nodes on its way. */
  ghost predicate NodesOk(g: Geometry, present: set<nat>, file: FileMap) {
    && (forall b: nat :: b in file ==> b < MaxBlocks(g))
    && forall p: Place :: IsPlace(g, p) && Index(g, p) in file ==> WayThere(g, present, p.ptr)
  }

  ghost predicate WayThere(g: Geometry, present: set<nat>, ptr: seq<nat>)
    requires IsNode(g, ptr)
  {
    forall i :: 1 <= i <= |ptr| ==> IsNode(g, ptr[..i]) && NodeNo(g, ptr[..i]) in present
  }

  /** Where a walk down to a page ends: at its block address with so many more in the same node, at a missing node, with
      the next page that does not need it, or nowhere because the page is beyond the tree. */
  datatype Dnode = Found(span: nat) | Missing(next: nat) | TooBig

  /** f2fs_get_dnode_of_data for a lookup, and f2fs_get_next_page_offset where it ends early. */
  method FindDnode(g: Geometry, present: set<nat>, file: FileMap, pgofs: nat) returns (r: Dnode)
    requires Fits(g) && NodesOk(g, present, file)
    ensures r.TooBig? <==> pgofs >= MaxBlocks(g)
    ensures r.Found? ==> r.span >= 1 && pgofs + r.span <= MaxBlocks(g)
    ensures r.Missing? ==> r.next > pgofs && forall b: nat :: pgofs <= b < r.next ==> b !in file
  {
    var offset, noffset := new nat[4], new nat[4];
    var level, p := GetNodePath(g, pgofs, offset, noffset);
    if level < 0 {
      return TooBig;
    }
    for i := 1 to level + 1 {
      if noffset[i] !in present {
        assert NodeNo(g, p.ptr[..i]) == noffset[..level + 1][i];
        var next := NextPageOffset(g, pgofs, i, level, p);
        HoleUpTo(g, present, file, p, i, next);
        return Missing(next);
      }
    }
    var span := (if level == 0 then g.d else g.a) - offset[level];
    assert offset[..level + 1][level] == p.o;
    NodeEnd(g, p);
    return Found(span);
  }

  lemma NodeEnd(g: Geometry, p: Place)
    requires IsPlace(g, p)
    ensures Index(g, p) - p.o + (if p.ptr == [] then g.d else g.a) <= MaxBlocks(g)
  {
    PlaceRange(g, Place(p.ptr, if p.ptr == [] then g.d - 1 else g.a - 1));
  }

  /** Pages that need a missing node are holes. */
  lemma HoleUpTo(g: Geometry, present: set<nat>, file: FileMap, p: Place, level: nat, next: nat)
    requires NodesOk(g, present, file) && IsPlace(g, p) && 1 <= level <= |p.ptr|
    requires IsNode(g, p.ptr[..level]) && NodeNo(g, p.ptr[..level]) !in present
    requires forall q :: IsPlace(g, q) && Index(g, p) <= Index(g, q) ==> (Shares(p, q, level) <==> Index(g, q) < next)
    ensures forall b: nat :: Index(g, p) <= b < next ==> b !in file
  {
    forall b: nat | Index(g, p) <= b < next ensures b !in file {
      if b < MaxBlocks(g) {
        var q := PlaceOf(g, b);
        assert !WayThere(g, present, q.ptr);
      }
    }
  }

  /** The blocks of one direct node; stop says why it ended there: a hole, or a block that does not follow on. */
  method WalkDnode(file: FileMap, lblk: nat, max: nat, m0: Mapping, span: nat) returns (m: Mapping, stop: bool)
    requires Answers(file, lblk, max, m0) && m0.len < max && m0.next == None && span >= 1
    ensures Answers(file, lblk, max, m) && m.len <= m0.len + span && (stop && m.len < max ==> m.len < m0.len + span)
    ensures if stop then Maximal(file, lblk, max, m) else m.len > m0.len && m.len < max && m.next == None
  {
    m := m0;
    var left := span;
    while left > 0
      invariant Answers(file, lblk, max, m) && m.len < max && m.next == None && left <= span
      invariant m.len == m0.len + (span - left)
      decreases left
    {
      var pgofs := lblk + m.len;
      if pgofs !in file {
        m := m.(next := Some(pgofs + 1));
        return m, true;
      }
      var blkaddr := file[pgofs];
      if m.len == 0 {
        m := Mapping(blkaddr, 1, true, None);
      } else if blkaddr == m.pblk + m.len {
        m := m.(len := m.len + 1);
      } else {
        return m, true;
      }
      left := left - 1;
      if m.len == max {
        return m, true;
      }
    }
    return m, false;
  }

  /** The walk over the nodes; tooBig is the error of a page beyond the tree. */
  method MapFromNodes(file: FileMap, g: Geometry, present: set<nat>, lblk: nat, max: nat)
    returns (m: Mapping, tooBig: bool)
    requires Fits(g) && NodesOk(g, present, file) && max > 0
    ensures Answers(file, lblk, max, m) && Maximal(file, lblk, max, m)
    ensures tooBig <==> m.len < max && lblk + m.len >= MaxBlocks(g)
  {
    m, tooBig := Mapping(0, 0, false, None), false;
    while true
      invariant Answers(file, lblk, max, m) && m.len < max && m.next == None
      decreases max - m.len
    {
      var d := FindDnode(g, present, file, lblk + m.len);
      if d.TooBig? {
        return m, true;
      }
      if d.Missing? {
        m := m.(next := Some(d.next));
        return m, false;
      }
      var stop;
      m, stop := WalkDnode(file, lblk, max, m, d.span);
      if stop {
        return m, false;
      }
    }
  }

  /** f2fs_map_blocks.  None: nothing was asked for.  Whether the cache answers or the nodes do, the answer is a true
      run; from the nodes it is as long as it can be. */
  method Map(t: ExtentTree, file: FileMap, g: Geometry, present: set<nat>, lblk: nat, max: nat)
    returns (r: Option<Mapping>, fromCache: bool, tooBig: bool)
    requires t.Valid() && t.file == file && Fits(g) && NodesOk(g, present, file)
    modifies t`cached
    ensures t.Valid() && (r.None? <==> max == 0)
    ensures r.Some? ==> Answers(file, lblk, max, r.value)
    ensures r.Some? && !fromCache ==> Maximal(file, lblk, max, r.value)
    ensures r.Some? && fromCache ==> r.value.len > 0
    ensures tooBig <==> r.Some? && !fromCache && r.value.len < max && lblk + r.value.len >= MaxBlocks(g)
  {
    fromCache, tooBig := false, false;
    if max == 0 {
      return None, fromCache, tooBig;
    }
    var ei := t.Lookup(lblk);
    if ei.Some? {
      return Some(FromExtent(ei.value, lblk, max)), true, tooBig;
    }
    var m;
    m, tooBig := MapFromNodes(file, g, present, lblk, max);
    r := Some(m);
  }

  function FromExtent(e: Extent, lblk: nat, max: nat): Mapping
    requires e.Has(lblk)
  {
    var rest := e.fofs + e.len - lblk;
    Mapping(e.blk + lblk - e.fofs, if max < rest then max else rest, true, None)
  }
}
