/**
 New memory for the heap: the first segment, a region behind the top's segment, a region
 before some segment, and a region on its own, for which the old top is retired.
 */
module Growth {
  import opened Words
  import opened Rings
  import opened Chunks
  import opened Blocks
  import opened BoundaryTags
  import opened Layout
  import opened Placement
  import opened Coalescing
  import opened Policy

  /** Bytes of a chunk that holds a segment record. */
  const RECORD_SIZE: nat := 24

  /** What the system promises of a region: it lies apart from the memory it gave before,
      ends on a word boundary below 2^32, and has room for a top. */
  ghost predicate RegionOk(segs: seq<Segment>, r: Segment) {
    && r.base > 0 && End(r) < WORD && End(r) % 4 == 0
    && AlignAsChunk(r.base) + TOP_FOOT_SIZE < End(r)
    && forall i :: 0 <= i < |segs| ==> End(segs[i]) <= r.base || End(r) <= segs[i].base
  }

  function NewTop(segs: seq<Segment>, r: Segment): Block
    requires AlignAsChunk(r.base) <= End(r)
  {
    Block(End(r) - AlignAsChunk(r.base), Top, |segs|)
  }

  /** The old top becomes a free chunk up to `csp`, if there is room for one, then a record
      chunk, then the closing run of fenceposts. */
  function Retired(b: Blocks, top: nat, csp: nat): Blocks
    requires top in b && top <= csp && csp + RECORD_SIZE <= Next(b, top)
  {
    if csp == top then Split(b, top, RECORD_SIZE, Record, Fence)
    else Split(Split(b, top, csp - top, Free, Top), csp, RECORD_SIZE, Record, Fence)
  }

  /** Where the record goes: `asp` unless the chunk before it would be too small. */
  function RecordAt(top: nat, end: nat): nat
    requires end >= 47
  {
    var asp := AlignAsChunk(end - (RECORD_SIZE + 16 + 7));
    if asp < top + 16 then top else asp
  }

  // ----- Tilings -----

  lemma NewTopTiled(b: Blocks, segs: seq<Segment>, r: Segment)
    requires Tiled(b, segs) && RegionOk(segs, r)
    ensures AlignAsChunk(r.base) !in b
    ensures forall a :: a in b ==> Next(b, a) <= r.base || End(r) <= a
    ensures Tiled(b[AlignAsChunk(r.base) := NewTop(segs, r)], segs + [r])
  {
    var a0 := AlignAsChunk(r.base);
    var b', segs' := b[a0 := NewTop(segs, r)], segs + [r];
    forall a | a in b ensures Next(b, a) <= r.base || End(r) <= a {
      assert BlockOk(b, segs, a);
    }
    assert a0 in b ==> BlockOk(b, segs, a0);
    forall a | a in b' ensures BlockOk(b', segs', a) {
      if a != a0 { assert BlockOk(b, segs, a); }
    }
    forall a, c | a in b' && c in b' ensures Apart(b', a, c) {
      if a != a0 && c != a0 { assert Apart(b, a, c); }
    }
    forall i | 0 <= i < |segs'| ensures SegmentOk(b', segs', i) {
      if i < |segs| { assert SegmentOk(b, segs, i); }
    }
  }

  /** A segment joined with the region next to it stays apart from the others. */
  lemma JoinedApart(segs: seq<Segment>, i: nat, r: Segment, s: Segment)
    requires Disjoint(segs) && RegionOk(segs, r) && i < |segs| && s.size == segs[i].size + r.size
    requires forall x :: 0 <= x < |segs| ==> segs[x].size > 0
    requires (s.base == r.base && End(r) == segs[i].base) || (s.base == segs[i].base && End(segs[i]) == r.base)
    ensures Disjoint(segs[i := s])
  {
    var segs' := segs[i := s];
    forall x, y | 0 <= x < |segs'| && 0 <= y < |segs'| && x != y
      ensures End(segs'[x]) <= segs'[y].base || End(segs'[y]) <= segs'[x].base
    {
      assert End(segs[x]) <= segs[y].base || End(segs[y]) <= segs[x].base;
      assert End(segs[x]) <= r.base || End(r) <= segs[x].base;
      assert End(segs[y]) <= r.base || End(r) <= segs[y].base;
    }
  }

  lemma BeyondTop(b: Blocks, segs: seq<Segment>, top: nat, r: Segment, c: nat)
    requires Tiled(b, segs) && RegionOk(segs, r) && top in b && b[top].kind == Top && b[top].seg < |segs|
    requires r.base == End(segs[b[top].seg]) && c in b && top < c
    ensures End(r) <= c
  {
    assert BlockOk(b, segs, c) && BlockOk(b, segs, top) && Apart(b, top, c);
  }

  function Longer(b: Blocks, top: nat, n: nat): Blocks
    requires top in b
  {
    b[top := b[top].(size := b[top].size + n)]
  }

  function Extended(segs: seq<Segment>, i: nat, r: Segment): seq<Segment>
    requires i < |segs|
  {
    segs[i := Segment(segs[i].base, segs[i].size + r.size)]
  }

  lemma LongerTopTiled(b: Blocks, segs: seq<Segment>, top: nat, r: Segment, l: nat)
    requires Tiled(b, segs) && RegionOk(segs, r) && top in b && b[top].kind == Top && b[top].seg == l < |segs|
    requires r.base == End(segs[l])
    ensures Tiled(Longer(b, top, r.size), Extended(segs, l, r))
  {
    var b', segs' := Longer(b, top, r.size), Extended(segs, l, r);
    forall a | a in b' ensures BlockOk(b', segs', a) {
      assert BlockOk(b, segs, a);
      if a != top && b[a].seg == l { LastOfSegment(b, segs, a, top); }
    }
    forall a, c | a in b' && c in b' ensures Apart(b', a, c) {
      assert Apart(b, a, c);
      if a == top && top < c { BeyondTop(b, segs, top, r, c); }
    }
    forall i | 0 <= i < |segs'| ensures SegmentOk(b', segs', i) {
      assert SegmentOk(b, segs, i);
    }
    forall x | 0 <= x < |segs| ensures segs[x].size > 0 { assert SegmentOk(b, segs, x); }
    JoinedApart(segs, l, r, segs'[l]);
  }

  /** Only one chunk ends a segment. */
  lemma LastOfSegment(b: Blocks, segs: seq<Segment>, a: nat, t: nat)
    requires Tiled(b, segs) && a in b && t in b && a != t && !Regular(b[t].kind) && b[a].seg == b[t].seg
    ensures Regular(b[a].kind)
  {
    assert BlockOk(b, segs, a) && BlockOk(b, segs, t) && Apart(b, a, t) && Apart(b, t, a);
  }

  /** The region before segment i with its first two chunks: one of n bytes in use, and the
      rest of the region in hand. */
  function Prepended(b: Blocks, segs: seq<Segment>, i: nat, r: Segment, n: nat): Blocks
    requires i < |segs| && AlignAsChunk(r.base) + n <= AlignAsChunk(segs[i].base)
  {
    var p, first := AlignAsChunk(r.base), AlignAsChunk(segs[i].base);
    b[p := Block(n, Used, i)][p + n := Block(first - p - n, Loose, i)]
  }

  function Joined(segs: seq<Segment>, i: nat, r: Segment): seq<Segment>
    requires i < |segs|
  {
    segs[i := Segment(r.base, segs[i].size + r.size)]
  }

  lemma BesideRegion(b: Blocks, segs: seq<Segment>, i: nat, r: Segment, a: nat)
    requires Tiled(b, segs) && RegionOk(segs, r) && i < |segs| && segs[i].base == End(r) && a in b
    ensures Next(b, a) <= r.base || AlignAsChunk(segs[i].base) <= a
  {
    var first := AlignAsChunk(segs[i].base);
    assert SegmentOk(b, segs, i) && BlockOk(b, segs, first) && BlockOk(b, segs, a) && Apart(b, first, a);
    assert Apart(b, a, first);
  }

  lemma PrependedApart(b: Blocks, segs: seq<Segment>, i: nat, r: Segment, n: nat)
    requires NoOverlap(b) && i < |segs| && AlignAsChunk(r.base) + n + 16 <= AlignAsChunk(segs[i].base)
    requires forall a :: a in b ==> Next(b, a) <= r.base || AlignAsChunk(segs[i].base) <= a
    ensures NoOverlap(Prepended(b, segs, i, r, n))
  {
    var b' := Prepended(b, segs, i, r, n);
    forall a, c | a in b' && c in b' ensures Apart(b', a, c) {
      assert a in b && c in b ==> Apart(b, a, c);
    }
  }

  lemma PrependedBlock(b: Blocks, segs: seq<Segment>, i: nat, r: Segment, n: nat, a: nat)
    requires Tiled(b, segs) && RegionOk(segs, r) && i < |segs| && segs[i].base == End(r)
    requires n % 8 == 0 && n >= 16 && AlignAsChunk(r.base) + n + 16 <= AlignAsChunk(segs[i].base)
    requires a in Prepended(b, segs, i, r, n)
    ensures BlockOk(Prepended(b, segs, i, r, n), Joined(segs, i, r), a)
  {
    var p, first := AlignAsChunk(r.base), AlignAsChunk(segs[i].base);
    assert SegmentOk(b, segs, i) && BlockOk(b, segs, first);
    if a != p && a != p + n {
      PrependedOld(b, segs, i, r, n, a);
    }
  }

  lemma PrependedOld(b: Blocks, segs: seq<Segment>, i: nat, r: Segment, n: nat, a: nat)
    requires Tiled(b, segs) && RegionOk(segs, r) && i < |segs| && segs[i].base == End(r)
    requires n % 8 == 0 && n >= 16 && AlignAsChunk(r.base) + n + 16 <= AlignAsChunk(segs[i].base)
    requires a in b && a != AlignAsChunk(r.base) && a != AlignAsChunk(r.base) + n
    ensures BlockOk(Prepended(b, segs, i, r, n), Joined(segs, i, r), a)
  {
    assert BlockOk(b, segs, a);
    if Regular(b[a].kind) {
      BesideRegion(b, segs, i, r, Next(b, a));
    }
  }

  lemma PrependedSegment(b: Blocks, segs: seq<Segment>, i: nat, r: Segment, n: nat, j: nat)
    requires Tiled(b, segs) && RegionOk(segs, r) && i < |segs| && segs[i].base == End(r)
    requires n % 8 == 0 && n >= 16 && AlignAsChunk(r.base) + n + 16 <= AlignAsChunk(segs[i].base)
    requires j < |segs|
    ensures SegmentOk(Prepended(b, segs, i, r, n), Joined(segs, i, r), j)
  {
    var f := AlignAsChunk(segs[j].base);
    assert SegmentOk(b, segs, i) && SegmentOk(b, segs, j) && BlockOk(b, segs, f);
    BesideRegion(b, segs, i, r, f);
  }

  lemma PrependTiled(b: Blocks, segs: seq<Segment>, i: nat, r: Segment, n: nat)
    requires Tiled(b, segs) && RegionOk(segs, r) && i < |segs| && segs[i].base == End(r)
    requires n % 8 == 0 && n >= 16 && AlignAsChunk(r.base) + n + 16 <= AlignAsChunk(segs[i].base)
    ensures forall a :: a in b ==> Next(b, a) <= r.base || AlignAsChunk(segs[i].base) <= a
    ensures Tiled(Prepended(b, segs, i, r, n), Joined(segs, i, r))
  {
    var p, first := AlignAsChunk(r.base), AlignAsChunk(segs[i].base);
    var b', segs' := Prepended(b, segs, i, r, n), Joined(segs, i, r);
    forall a | a in b ensures Next(b, a) <= r.base || first <= a {
      BesideRegion(b, segs, i, r, a);
    }
    forall a | a in b' ensures BlockOk(b', segs', a) {
      PrependedBlock(b, segs, i, r, n, a);
    }
    PrependedApart(b, segs, i, r, n);
    forall j | 0 <= j < |segs'| ensures SegmentOk(b', segs', j) {
      PrependedSegment(b, segs, i, r, n, j);
    }
    forall x | 0 <= x < |segs| ensures segs[x].size > 0 { assert SegmentOk(b, segs, x); }
    JoinedApart(segs, i, r, segs'[i]);
  }

  // ----- Tags -----

  lemma NewTopTagged(b: Blocks, segs: seq<Segment>, head: Heads, foot: Links, r: Segment, head': Heads)
    requires Tiled(b, segs) && RegionOk(segs, r) && Tagged(b, head, foot, 0)
    requires forall a :: a in b ==> HeadAt(head', a) == HeadAt(head, a)
    requires var a0 := AlignAsChunk(r.base); HeadAt(head', a0) == Head(End(r) - a0 - TOP_FOOT_SIZE, false, true)
    ensures Tagged(b[AlignAsChunk(r.base) := NewTop(segs, r)], head', foot, 0)
  {
    NewTopTiled(b, segs, r);
    var a0 := AlignAsChunk(r.base);
    var b' := b[a0 := NewTop(segs, r)];
    assert 0 in b ==> BlockOk(b, segs, 0);
    forall a | a in b' ensures TagOk(b', head', foot, 0, a) {
      if a != a0 { assert TagOk(b, head, foot, 0, a) && BlockOk(b, segs, a); }
    }
  }

  lemma LongerTopTagged(b: Blocks, segs: seq<Segment>, head: Heads, foot: Links, top: nat, n: nat, head': Heads)
    requires Tiled(b, segs) && Tagged(b, head, foot, 0) && top in b && b[top].kind == Top
    requires HeadsBut(b, head, head', top, top) && b[top].size > TOP_FOOT_SIZE
    requires HeadAt(head', top) == Head(b[top].size + n - TOP_FOOT_SIZE, false, true)
    ensures Tagged(Longer(b, top, n), head', foot, 0)
  {
    var b' := Longer(b, top, n);
    assert 0 in b ==> BlockOk(b, segs, 0);
    assert TagOk(b, head, foot, 0, top);
    forall a | a in b' ensures TagOk(b', head', foot, 0, a) {
      assert TagOk(b, head, foot, 0, a) && BlockOk(b, segs, a);
    }
  }

  /** The rest of the region is in hand; its head word is not yet written. */
  lemma PrependTagged(b: Blocks, segs: seq<Segment>, head: Heads, foot: Links, i: nat, r: Segment, n: nat, head': Heads)
    requires Tiled(b, segs) && Tagged(b, head, foot, 0) && RegionOk(segs, r) && i < |segs| && segs[i].base == End(r)
    requires n % 8 == 0 && n >= 16 && AlignAsChunk(r.base) + n + 16 <= AlignAsChunk(segs[i].base)
    requires forall a :: a in b ==> HeadAt(head', a) == HeadAt(head, a)
    requires HeadAt(head', AlignAsChunk(r.base)) == Head(n, true, true)
    requires HeadAt(head', AlignAsChunk(r.base) + n).pinuse
    ensures Tagged(Prepended(b, segs, i, r, n), head', foot, AlignAsChunk(r.base) + n)
  {
    var p, q, first := AlignAsChunk(r.base), AlignAsChunk(r.base) + n, AlignAsChunk(segs[i].base);
    var b' := Prepended(b, segs, i, r, n);
    PrependTiled(b, segs, i, r, n);
    assert SegmentOk(b, segs, i);
    assert 0 in b ==> BlockOk(b, segs, 0);
    forall a | a in b' ensures TagOk(b', head', foot, q, a) {
      if a != p && a != q { PrependTagOld(b, segs, head, foot, i, r, n, head', a); }
    }
  }

  lemma PrependTagOld(b: Blocks, segs: seq<Segment>, head: Heads, foot: Links, i: nat, r: Segment, n: nat, head': Heads,
                      a: nat)
    requires Tiled(b, segs) && Tagged(b, head, foot, 0) && RegionOk(segs, r) && i < |segs| && segs[i].base == End(r)
    requires n % 8 == 0 && n >= 16 && AlignAsChunk(r.base) + n + 16 <= AlignAsChunk(segs[i].base)
    requires forall a :: a in b ==> HeadAt(head', a) == HeadAt(head, a)
    requires HeadAt(head', AlignAsChunk(r.base) + n).pinuse
    requires forall a :: a in b ==> Next(b, a) <= r.base || AlignAsChunk(segs[i].base) <= a
    requires a in b && a != AlignAsChunk(r.base) && a != AlignAsChunk(r.base) + n
    ensures TagOk(Prepended(b, segs, i, r, n), head', foot, AlignAsChunk(r.base) + n, a)
  {
    assert TagOk(b, head, foot, 0, a) && BlockOk(b, segs, a);
    assert SegmentOk(b, segs, i);
    assert 0 in b ==> BlockOk(b, segs, 0);
  }

  /** The first chunk of a segment has no free chunk before it. */
  lemma FirstPinuse(b: Blocks, segs: seq<Segment>, head: Heads, foot: Links, i: nat)
    requires Tiled(b, segs) && Tagged(b, head, foot, 0) && i < |segs|
    ensures var f := AlignAsChunk(segs[i].base); f in b && HeadAt(head, f).pinuse && b[f].kind != Fence
  {
    var f := AlignAsChunk(segs[i].base);
    assert SegmentOk(b, segs, i) && TagOk(b, head, foot, 0, f);
    assert 0 in b ==> BlockOk(b, segs, 0);
    if !HeadAt(head, f).pinuse {
      var q := f - Get(foot, f);
      assert PrevFree(b, foot, 0, f);
      FuseKeepsFirst(b, segs, q, i);
    }
  }

  // ----- Retiring the old top -----

  lemma RecordFits(top: nat, end: nat, topsize: nat)
    requires end == top + topsize + TOP_FOOT_SIZE && topsize > 0 && end % 4 == 0 && top % 8 == 0 && top > 0
    ensures end >= 47
    ensures var csp := RecordAt(top, end);
            csp % 8 == 0 && (csp == top || csp >= top + 16) && csp + RECORD_SIZE + 16 <= end
  {
  }

  lemma RetiredTiled(b: Blocks, segs: seq<Segment>, top: nat, csp: nat)
    requires Tiled(b, segs) && top in b && b[top].kind == Top
    requires csp % 8 == 0 && (csp == top || csp >= top + 16) && csp + RECORD_SIZE + 16 <= Next(b, top)
    ensures Tiled(Retired(b, top, csp), segs)
    ensures csp != top ==> csp !in b
    ensures csp + RECORD_SIZE !in b
  {
    assert BlockOk(b, segs, top);
    NoneInside(b, segs, top, csp + RECORD_SIZE);
    if csp == top {
      SplitTiled(b, segs, top, RECORD_SIZE, Record, Fence);
    } else {
      NoneInside(b, segs, top, csp);
      SplitTiled(b, segs, top, csp - top, Free, Top);
      SplitTiled(Split(b, top, csp - top, Free, Top), segs, csp, RECORD_SIZE, Record, Fence);
    }
  }

  ghost predicate RetiredHeads(b: Blocks, head: Heads, top: nat, csp: nat, head': Heads)
    requires top in b && top <= csp
  {
    && (forall a :: a in b && a != top ==> HeadAt(head', a) == HeadAt(head, a))
    && (csp != top ==> HeadAt(head', top) == Head(csp - top, false, true))
    && HeadAt(head', csp) == Head(RECORD_SIZE, true, csp == top)
    && HeadAt(head', csp + RECORD_SIZE) == FENCEPOST_HEAD
  }

  lemma RetiredTag(b: Blocks, segs: seq<Segment>, head: Heads, foot: Links, top: nat, csp: nat, head': Heads,
                   foot': Links, a: nat)
    requires Tiled(b, segs) && Tagged(b, head, foot, 0) && top in b && b[top].kind == Top
    requires csp % 8 == 0 && (csp == top || csp >= top + 16) && csp + RECORD_SIZE + 16 <= Next(b, top)
    requires RetiredHeads(b, head, top, csp, head') && foot' == if csp == top then foot else foot[csp := csp - top]
    requires a in b && a != top && (csp == top || csp !in b) && csp + RECORD_SIZE !in b
    ensures a in Retired(b, top, csp) && TagOk(Retired(b, top, csp), head', foot', 0, a)
  {
    assert TagOk(b, head, foot, 0, top) && BlockOk(b, segs, top);
    assert TagOk(b, head, foot, 0, a) && BlockOk(b, segs, a);
    Ordered(b, segs, a, top);
  }

  lemma RetiredTagged(b: Blocks, segs: seq<Segment>, head: Heads, foot: Links, top: nat, csp: nat, head': Heads)
    requires Tiled(b, segs) && Tagged(b, head, foot, 0) && top in b && b[top].kind == Top
    requires csp % 8 == 0 && (csp == top || csp >= top + 16) && csp + RECORD_SIZE + 16 <= Next(b, top)
    requires RetiredHeads(b, head, top, csp, head')
    ensures Tagged(Retired(b, top, csp), head', if csp == top then foot else foot[csp := csp - top], 0)
  {
    RetiredTiled(b, segs, top, csp);
    var b', foot' := Retired(b, top, csp), if csp == top then foot else foot[csp := csp - top];
    assert TagOk(b, head, foot, 0, top) && BlockOk(b, segs, top);
    assert 0 in b ==> BlockOk(b, segs, 0);
    forall a | a in b' ensures TagOk(b', head', foot', 0, a) {
      if a in b && a != top {
        RetiredTag(b, segs, head, foot, top, csp, head', foot', a);
      }
    }
  }

  // ----- The whole heap -----

  function TopSizeIn(r: Segment): nat
    requires AlignAsChunk(r.base) + TOP_FOOT_SIZE <= End(r)
  {
    End(r) - AlignAsChunk(r.base) - TOP_FOOT_SIZE
  }

  /** `init_top`: the head of the new top and the fake head behind it. */
  function TopHeads(head: Heads, a: nat, size: nat): Heads {
    head[a := Head(size, false, true)][a + size := TOP_FOOT_HEAD]
  }

  lemma FirstMem(head: Heads, foot: Links, r: Segment)
    requires RegionOk([], r)
    ensures MemOk(map[AlignAsChunk(r.base) := NewTop([], r)], [r], TopHeads(head, AlignAsChunk(r.base), TopSizeIn(r)),
                  foot,
                  0, AlignAsChunk(r.base), TopSizeIn(r))
  {
    NewTopTiled(map[], [], r);
    var a0, b: Blocks := AlignAsChunk(r.base), map[];
    var head' := TopHeads(head, a0, TopSizeIn(r));
    NewTopTagged(b, [], head, foot, r, head');
    assert b[a0 := NewTop([], r)] == map[a0 := NewTop([], r)];
    assert [] + [r] == [r];
  }

  /** The region behind the top makes the top longer. */
  lemma LongerMem(b: Blocks, segs: seq<Segment>, head: Heads, foot: Links, top: nat, topsize: nat, r: Segment)
    requires MemOk(b, segs, head, foot, 0, top, topsize) && RegionOk(segs, r) && |segs| > 0
    requires r.base == End(segs[|segs| - 1]) && top != 0
    ensures MemOk(Longer(b, top, r.size), Extended(segs, |segs| - 1, r), TopHeads(head, top, topsize + r.size), foot,
                  0, top, topsize + r.size)
  {
    var l, b', head' := |segs| - 1, Longer(b, top, r.size), TopHeads(head, top, topsize + r.size);
    LongerTopTiled(b, segs, top, r, l);
    NoneInTop(b, segs, head, foot, top, topsize, r);
    LongerTopTagged(b, segs, head, foot, top, r.size, head');
  }

  lemma NoneInTop(b: Blocks, segs: seq<Segment>, head: Heads, foot: Links, top: nat, topsize: nat, r: Segment)
    requires MemOk(b, segs, head, foot, 0, top, topsize) && RegionOk(segs, r) && |segs| > 0
    requires r.base == End(segs[|segs| - 1]) && top != 0
    ensures topsize > 0 && topsize + r.size > 0 && top + topsize + r.size !in b
  {
    assert TagOk(b, head, foot, 0, top) && BlockOk(b, segs, top);
    var a := top + topsize + r.size;
    if a in b { BeyondTop(b, segs, top, r, a); }
  }

  /** `add_segment`: the new top, then the old one retired. */
  lemma AddedMem(b: Blocks, segs: seq<Segment>, head: Heads, foot: Links, top: nat, topsize: nat, r: Segment, csp: nat,
                 head': Heads)
    returns (b': Blocks)
    requires MemOk(b, segs, head, foot, 0, top, topsize) && RegionOk(segs, r) && top != 0
    requires csp % 8 == 0 && (csp == top || csp >= top + 16) && csp + RECORD_SIZE + 16 <= Next(b, top)
    requires RetiredHeads(b, head, top, csp, head')
    requires HeadAt(head', AlignAsChunk(r.base)) == Head(TopSizeIn(r), false, true)
    requires HeadAt(head', AlignAsChunk(r.base) + TopSizeIn(r)) == TOP_FOOT_HEAD
    ensures AlignAsChunk(r.base) !in Retired(b, top, csp)
    ensures b' == Retired(b, top, csp)[AlignAsChunk(r.base) := NewTop(segs, r)]
    ensures MemOk(b', segs + [r], head', if csp == top then foot else foot[csp := csp - top], 0, AlignAsChunk(r.base),
                  TopSizeIn(r))
  {
    var foot' := if csp == top then foot else foot[csp := csp - top];
    var b1 := Retired(b, top, csp);
    RetiredTiled(b, segs, top, csp);
    RetiredTagged(b, segs, head, foot, top, csp, head');
    NewTopTiled(b1, segs, r);
    NewTopTagged(b1, segs, head', foot', r, head');
    b' := b1[AlignAsChunk(r.base) := NewTop(segs, r)];
  }

  /** The region before segment i, with a chunk of n bytes handed out of it and the rest in
      hand. */
  lemma PrependMem(b: Blocks, segs: seq<Segment>, head: Heads, foot: Links, top: nat, topsize: nat, i: nat, r: Segment,
                   n: nat, h: Head)
    requires MemOk(b, segs, head, foot, 0, top, topsize) && RegionOk(segs, r) && i < |segs| && segs[i].base == End(r)
    requires n % 8 == 0 && n >= 16 && AlignAsChunk(r.base) + n + 16 <= AlignAsChunk(segs[i].base) && h.pinuse
    ensures AlignAsChunk(r.base) !in b && AlignAsChunk(r.base) + n !in b && AlignAsChunk(segs[i].base) in b
    ensures var p := AlignAsChunk(r.base);
            MemOk(Prepended(b, segs, i, r, n), Joined(segs, i, r), head[p := Head(n, true, true)][p + n := h], foot,
                  p + n, top, topsize)
  {
    var p := AlignAsChunk(r.base);
    var head' := head[p := Head(n, true, true)][p + n := h];
    PrependTiled(b, segs, i, r, n);
    assert SegmentOk(b, segs, i);
    assert p in b ==> BlockOk(b, segs, p);
    assert top != 0 ==> BlockOk(b, segs, top);
    PrependTagged(b, segs, head, foot, i, r, n, head');
  }

  /** The rest of the prepended region is dealt with as if it had been in use and was freed:
      it joins the old first chunk when that is free or the top. */
  ghost predicate PrependedTo(b: Blocks, b': Blocks, segs: seq<Segment>, i: nat, r: Segment, n: nat)
    requires i < |segs| && AlignAsChunk(r.base) + n <= AlignAsChunk(segs[i].base)
  {
    var q := AlignAsChunk(r.base) + n;
    FreedAs(Retag(Prepended(b, segs, i, r, n), q, Used), b', q, q)
  }

  lemma PrependHeld(b: Blocks, segs: seq<Segment>, i: nat, r: Segment, n: nat)
    requires Tiled(b, segs) && RegionOk(segs, r) && i < |segs| && segs[i].base == End(r)
    requires n % 8 == 0 && n >= 16 && AlignAsChunk(r.base) + n + 16 <= AlignAsChunk(segs[i].base)
    ensures var b1, q, first := Prepended(b, segs, i, r, n), AlignAsChunk(r.base) + n, AlignAsChunk(segs[i].base);
            && Tiled(Retag(b1, q, Used), Joined(segs, i, r)) && Backward(Retag(b1, q, Used), b1, q, q)
            && Next(b1, q) == first && first in b1 && first in b && b1[first] == b[first]
  {
    var b1, q := Prepended(b, segs, i, r, n), AlignAsChunk(r.base) + n;
    PrependTiled(b, segs, i, r, n);
    RetagTiled(b1, Joined(segs, i, r), q, Used);
    var b0 := Retag(b1, q, Used);
    assert SegmentOk(b, segs, i);
    forall a | a in b0 && b0[a].kind == Free ensures Next(b0, a) != q {
      assert a in b && BlockOk(b, segs, a);
    }
    forall a | a in b0 && a != q ensures !(q <= a < Next(b0, q)) {
      assert a in b ==> BlockOk(b, segs, a);
    }
    assert b1 == Merged(b0, q, q, Next(b0, q), Loose);
  }

  /** The chunk q in hand lies behind a chunk in use. Its head word is not yet written; h
      stands for it. */
  ghost predicate RegionRest(b0: Blocks, b1: Blocks, segs: seq<Segment>, head: Heads, foot: Links, q: nat, top: nat,
                             topsize: nat, h: Head) {
    && MemOk(b1, segs, head[q := h], foot, q, top, topsize) && h.pinuse
    && q in b0 && q in b1 && b0[q].kind == Used && Tiled(b0, segs) && Backward(b0, b1, q, q)
    && Next(b1, q) == Next(b0, q) && Next(b1, q) in b1 && Next(b1, q) in b0 && b0[Next(b1, q)] == b1[Next(b1, q)]
  }

  lemma RestToTop(b0: Blocks, b1: Blocks, segs: seq<Segment>, head: Heads, foot: Links, q: nat, top: nat, topsize: nat,
                  h: Head)
    requires RegionRest(b0, b1, segs, head, foot, q, top, topsize, h) && Next(b1, q) == top
    ensures FreedAs(b0, Fuse(b1, q, Top), q, q)
    ensures MemOk(Fuse(b1, q, Top), segs, head[q := Head(b1[q].size + topsize, false, true)], foot, 0, q,
                  b1[q].size + topsize)
  {
    var h' := Head(b1[q].size + topsize, false, true);
    TagFacts(b1, segs, head[q := h], foot, q, top, topsize, top);
    JoinTopMem(b1, segs, head[q := h], foot, q, top, topsize);
    assert head[q := h][q := h'] == head[q := h'];
    FusedForward(b0, segs, b1, q, q);
  }

  lemma RestToNext(b0: Blocks, b1: Blocks, segs: seq<Segment>, head: Heads, foot: Links, q: nat, top: nat, topsize: nat,
                   h: Head, s: nat)
    returns (b: Blocks)
    requires RegionRest(b0, b1, segs, head, foot, q, top, topsize, h) && b1[Next(b1, q)].kind == Free
    requires s == b1[q].size + b1[Next(b1, q)].size
    ensures b == Retag(Fuse(b1, q, Loose), q, Free) && q in b && b[q].size == s && FreedAs(b0, b, q, q)
    ensures MemOk(b, segs, head[q := Head(s, false, true)], foot[q + s := s], 0, top, topsize)
    ensures MemOk(b, segs, SetPinuse(head, q + s, false)[q := Head(s, false, true)], foot[q + s := s], 0, top, topsize)
  {
    var h' := Head(s, false, true);
    TagFacts(b1, segs, head[q := h], foot, q, top, topsize, q);
    JoinNextMem(b1, segs, head[q := h], foot, q, top, topsize, s);
    assert head[q := h][q := h'] == head[q := h'];
    OverHead(head, q, h, q + s, h');
    FusedForward(b0, segs, b1, q, q);
    b := Retag(Fuse(b1, q, Loose), q, Free);
  }

  lemma OverHead(head: Heads, q: nat, h: Head, n: nat, h': Head)
    requires n != q
    ensures SetPinuse(head[q := h], n, false)[q := h'] == SetPinuse(head, n, false)[q := h']
  {
  }

  lemma RestAlone(b0: Blocks, b1: Blocks, segs: seq<Segment>, head: Heads, foot: Links, q: nat, top: nat, topsize: nat,
                  h: Head, s: nat)
    returns (b: Blocks)
    requires RegionRest(b0, b1, segs, head, foot, q, top, topsize, h) && InUse(b1[Next(b1, q)].kind) && s == b1[q].size
    ensures b == Retag(b1, q, Free) && q in b && b[q].size == s && FreedAs(b0, b, q, q)
    ensures MemOk(b, segs, SetPinuse(head, q + s, false)[q := Head(s, false, true)], foot[q + s := s], 0, top, topsize)
  {
    var h' := Head(s, false, true);
    TagFacts(b1, segs, head[q := h], foot, q, top, topsize, q);
    SettleMem(b1, segs, head[q := h], foot, q, top, topsize, SetPinuse(head[q := h], q + s, false)[q := h']);
    OverHead(head, q, h, q + s, h');
    SettledForward(b0, segs, b1, q, q);
    b := Retag(b1, q, Free);
  }

  /** Where a record may go inside the old top. */
  predicate RecordRoom(top: nat, csp: nat, end: nat) {
    csp % 8 == 0 && (csp == top || csp >= top + 16) && csp + RECORD_SIZE + 16 <= end
  }

  /** b' is b with the region r as its newest segment. */
  ghost predicate AddedTo(b: Blocks, b': Blocks, segs: seq<Segment>, top: nat, r: Segment) {
    && top in b && AlignAsChunk(r.base) <= End(r) && Next(b, top) >= 47
    && var csp := RecordAt(top, Next(b, top));
       RecordRoom(top, csp, Next(b, top)) && b' == Retired(b, top, csp)[AlignAsChunk(r.base) := NewTop(segs, r)]
  }

  lemma SegmentAdded(b: Blocks, segs: seq<Segment>, head: Heads, foot: Links, top: nat, topsize: nat, r: Segment,
                     csp: nat, head': Heads)
    returns (b': Blocks)
    requires MemOk(b, segs, head, foot, 0, top, topsize) && RegionOk(segs, r) && top != 0
    requires RecordRoom(top, csp, Next(b, top)) && RetiredHeads(b, head, top, csp, head')
    requires Next(b, top) >= 47 && csp == RecordAt(top, Next(b, top))
    requires HeadAt(head', AlignAsChunk(r.base)) == Head(TopSizeIn(r), false, true)
    requires HeadAt(head', AlignAsChunk(r.base) + TopSizeIn(r)) == TOP_FOOT_HEAD
    ensures b' == Retired(b, top, csp)[AlignAsChunk(r.base) := NewTop(segs, r)] && AddedTo(b, b', segs, top, r)
    ensures MemOk(b', segs + [r], head', if csp == top then foot else foot[csp := csp - top], 0, AlignAsChunk(r.base),
                  TopSizeIn(r))
    ensures csp != top ==> top in b' && b'[top].size == csp - top
  {
    b' := AddedMem(b, segs, head, foot, top, topsize, r, csp, head');
    NewTopTiled(b, segs, r);
  }

  lemma SegmentAddedBinned(b: Blocks, segs: seq<Segment>, head: Heads, foot: Links, top: nat, topsize: nat, dv: nat,
                           dvsize: nat,
                           small: Content, large: Content, r: Segment, csp: nat)
    requires MemOk(b, segs, head, foot, 0, top, topsize) && RegionOk(segs, r) && top != 0
    requires RecordRoom(top, csp, Next(b, top))
    requires Binned(b, dv, dvsize, 0, 0, small, large)
    ensures Binned(Retired(b, top, csp)[AlignAsChunk(r.base) := NewTop(segs, r)], dv, dvsize, 0,
                   if csp == top then 0 else top, small, large)
  {
    var b' := Retired(b, top, csp)[AlignAsChunk(r.base) := NewTop(segs, r)];
    RetiredTiled(b, segs, top, csp);
    NewTopTiled(b, segs, r);
    assert BlockOk(b, segs, top);
    Rebinned(b, dv, dvsize, 0, 0, small, large, b', dv, dvsize, 0, if csp == top then 0 else top);
  }

  /** The heads that `add_segment` writes, in its order: the new top, the record, the
      fenceposts, and the free chunk before the record. */
  lemma RetiringHeads(b: Blocks, segs: seq<Segment>, head: Heads, foot: Links, top: nat, topsize: nat, r: Segment,
                      csp: nat, end: nat,
                      h2: Heads, h3: Heads, h4: Heads)
    requires MemOk(b, segs, head, foot, 0, top, topsize) && RegionOk(segs, r) && top != 0 && end == Next(b, top)
    requires RecordRoom(top, csp, end)
    requires h2 == TopHeads(head, AlignAsChunk(r.base), TopSizeIn(r))[csp := Head(RECORD_SIZE, true, true)]
    requires HeadAt(h3, csp + RECORD_SIZE) == FENCEPOST_HEAD
    requires forall a: nat :: a < csp + RECORD_SIZE || a >= end ==> HeadAt(h3, a) == HeadAt(h2, a)
    requires h4 == if csp != top then SetPinuse(h3, csp, false)[top := Head(csp - top, false, true)] else h3
    ensures RetiredHeads(b, head, top, csp, h4)
    ensures var a := AlignAsChunk(r.base);
            HeadAt(h4, a) == Head(TopSizeIn(r), false, true) && HeadAt(h4, a + TopSizeIn(r)) == TOP_FOOT_HEAD
  {
    NewTopTiled(b, segs, r);
    assert BlockOk(b, segs, top);
    NewHeads(b, segs, top, r, csp, end, head, h2, h3, h4);
    forall a | a in b && a != top ensures HeadAt(h4, a) == HeadAt(head, a) {
      OldHead(b, segs, top, r, csp, end, head, h2, h3, h4, a);
    }
  }

  lemma NewHeads(b: Blocks, segs: seq<Segment>, top: nat, r: Segment, csp: nat, end: nat, head: Heads, h2: Heads,
                 h3: Heads, h4: Heads)
    requires RegionOk(segs, r) && top in b && end == Next(b, top) && RecordRoom(top, csp, end)
    requires end <= r.base || End(r) <= top
    requires h2 == TopHeads(head, AlignAsChunk(r.base), TopSizeIn(r))[csp := Head(RECORD_SIZE, true, true)]
    requires forall a: nat :: a < csp + RECORD_SIZE || a >= end ==> HeadAt(h3, a) == HeadAt(h2, a)
    requires h4 == if csp != top then SetPinuse(h3, csp, false)[top := Head(csp - top, false, true)] else h3
    ensures var a := AlignAsChunk(r.base);
            HeadAt(h4, a) == Head(TopSizeIn(r), false, true) && HeadAt(h4, a + TopSizeIn(r)) == TOP_FOOT_HEAD
    ensures HeadAt(h4, csp) == Head(RECORD_SIZE, true, csp == top)
    ensures HeadAt(h4, csp + RECORD_SIZE) == HeadAt(h3, csp + RECORD_SIZE)
  {
    var a0: nat := AlignAsChunk(r.base);
    var a1: nat := a0 + TopSizeIn(r);
    assert HeadAt(h3, a0) == HeadAt(h2, a0) && HeadAt(h3, a1) == HeadAt(h2, a1);
    assert HeadAt(h3, csp) == HeadAt(h2, csp);
  }

  lemma OldHead(b: Blocks, segs: seq<Segment>, top: nat, r: Segment, csp: nat, end: nat, head: Heads, h2: Heads,
                h3: Heads, h4: Heads, a: nat)
    requires Tiled(b, segs) && RegionOk(segs, r) && top in b && end == Next(b, top) && RecordRoom(top, csp, end)
    requires a in b && a != top
    requires Next(b, a) <= r.base || End(r) <= a
    requires h2 == TopHeads(head, AlignAsChunk(r.base), TopSizeIn(r))[csp := Head(RECORD_SIZE, true, true)]
    requires forall a: nat :: a < csp + RECORD_SIZE || a >= end ==> HeadAt(h3, a) == HeadAt(h2, a)
    requires h4 == if csp != top then SetPinuse(h3, csp, false)[top := Head(csp - top, false, true)] else h3
    ensures HeadAt(h4, a) == HeadAt(head, a)
  {
    Ordered(b, segs, a, top);
    Ordered(b, segs, top, a);
    assert HeadAt(h3, a) == HeadAt(h2, a);
  }

  /** How the segments change when the system gives region r: it is the first, or lies right
      behind the top's segment, or right before some segment, or apart from all. */
  ghost predicate Grown(segs: seq<Segment>, segs': seq<Segment>, top: nat, r: Segment) {
    if top == 0 then segs' == [r]
    else if ContinuesTop(segs, r) then segs' == Extended(segs, |segs| - 1, r)
    else
      if PrecedesSome(segs, r) then exists i: nat :: i < |segs| && segs[i].base == End(r) && segs' == Joined(segs, i, r)
    else segs' == segs + [r]
  }

  /** The chunks when region r has gone to the top, or has become a new one. */
  ghost predicate GrownBlocks(b: Blocks, b': Blocks, segs: seq<Segment>, top: nat, r: Segment) {
    if top == 0 then AlignAsChunk(r.base) <= End(r) && b' == map[AlignAsChunk(r.base) := NewTop([], r)]
    else if ContinuesTop(segs, r) then top in b && b' == Longer(b, top, r.size)
    else AddedTo(b, b', segs, top, r)
  }

  /** The request is served from the top, if it is now large enough. */
  ghost predicate GrownServed(b: Blocks, b': Blocks, segs: seq<Segment>, top: nat, r: Segment, nb: nat, mem: nat) {
    exists b1: Blocks ::
      && GrownBlocks(b, b1, segs, top, r)
      && if mem == 0 then b' == b1
         else mem > 8 && mem - 8 in b1 && b1[mem - 8].kind == Top && Handed(b1, b', mem - 8, nb)
  }

  /** It is served from the start of the region, and the rest joins segment i. */
  ghost predicate RegionServed(b: Blocks, b': Blocks, segs: seq<Segment>, r: Segment, nb: nat, mem: nat, dv: nat,
                               dv': nat) {
    exists i: nat ::
      && i < |segs| && segs[i].base == End(r) && AlignAsChunk(r.base) + nb <= AlignAsChunk(segs[i].base)
      && mem == AlignAsChunk(r.base) + 8 && PrependedTo(b, b', segs, i, r, nb)
      && dv' == PrependedDv(b, segs, i, r, nb, dv)
  }

  /** The designated victim, if the rest of the region joins it, starts there. */
  function PrependedDv(b: Blocks, segs: seq<Segment>, i: nat, r: Segment, n: nat, dv: nat): nat
    requires i < |segs| && AlignAsChunk(r.base) + n <= AlignAsChunk(segs[i].base)
  {
    if AlignAsChunk(segs[i].base) == dv then AlignAsChunk(r.base) + n else dv
  }

  predicate ContinuesTop(segs: seq<Segment>, r: Segment) {
    |segs| > 0 && r.base == End(segs[|segs| - 1])
  }

  predicate PrecedesSome(segs: seq<Segment>, r: Segment) {
    exists i :: 0 <= i < |segs| && segs[i].base == End(r)
  }

  /** What the system must respect when it gives region r for a request of nb bytes. A region
      right before a segment must have room for the request and one more chunk: nothing in
      the code looks at its size. */
  ghost predicate RegionFor(segs: seq<Segment>, top: nat, r: Segment, nb: nat) {
    && RegionOk(segs, r)
    && (top != 0 && !ContinuesTop(segs, r) ==>
          forall i ::
            0 <= i < |segs| && segs[i].base == End(r) ==> AlignAsChunk(r.base) + nb + 16 <= AlignAsChunk(segs[i].base))
  }

  /** The top's size after growth, when the request is not served by prepending. */
  function GrownTop(segs: seq<Segment>, top: nat, topsize: nat, r: Segment): nat
    requires AlignAsChunk(r.base) + TOP_FOOT_SIZE <= End(r)
  {
    if top != 0 && ContinuesTop(segs, r) then topsize + r.size else TopSizeIn(r)
  }

  /** Retiring the top takes nothing from clients and gives them nothing. */
  lemma AddedUsed(b: Blocks, segs: seq<Segment>, b': Blocks, top: nat, r: Segment)
    requires Tiled(b, segs) && RegionOk(segs, r) && AddedTo(b, b', segs, top, r) && b[top].kind == Top
    ensures UsedChunks(b') == UsedChunks(b)
  {
    var csp := RecordAt(top, Next(b, top));
    RetiredTiled(b, segs, top, csp);
    NewTopTiled(b, segs, r);
    assert BlockOk(b, segs, top);
  }

  /** No chunk starts in the region. */
  lemma PrependedFresh(b: Blocks, segs: seq<Segment>, i: nat, r: Segment, n: nat)
    requires Tiled(b, segs) && RegionOk(segs, r) && i < |segs| && segs[i].base == End(r)
    requires n % 8 == 0 && n >= 16 && AlignAsChunk(r.base) + n + 16 <= AlignAsChunk(segs[i].base)
    ensures AlignAsChunk(r.base) !in b && AlignAsChunk(r.base) + n !in b && AlignAsChunk(r.base) + n > 0
  {
    PrependTiled(b, segs, i, r, n);
    forall a | a in b ensures Next(b, a) > a { assert BlockOk(b, segs, a); }
  }

  /** The bins do not notice the region. */
  lemma PrependedBinned(b: Blocks, segs: seq<Segment>, dv: nat, dvsize: nat, small: Content, large: Content, r: Segment,
                        i: nat, n: nat)
    requires Tiled(b, segs) && Binned(b, dv, dvsize, 0, 0, small, large) && RegionOk(segs, r) && i < |segs|
    requires segs[i].base == End(r)
    requires n % 8 == 0 && n >= 16 && AlignAsChunk(r.base) + n + 16 <= AlignAsChunk(segs[i].base)
    ensures var p, q := AlignAsChunk(r.base), AlignAsChunk(r.base) + n;
            && Binned(Prepended(b, segs, i, r, n), dv, dvsize, q, 0, small, large) && dv != q && p !in b && q !in b
            && q > 0
  {
    var p, q := AlignAsChunk(r.base), AlignAsChunk(r.base) + n;
    PrependedFresh(b, segs, i, r, n);
    Rebinned(b, dv, dvsize, 0, 0, small, large, Prepended(b, segs, i, r, n), dv, dvsize, q, 0);
  }

  /** Prepending hands out exactly the chunk of nb bytes at the start of the region. */
  lemma PrependedUsed(b: Blocks, segs: seq<Segment>, b': Blocks, i: nat, r: Segment, n: nat)
    requires Tiled(b, segs) && RegionOk(segs, r) && i < |segs| && segs[i].base == End(r)
    requires n % 8 == 0 && n >= 16 && AlignAsChunk(r.base) + n + 16 <= AlignAsChunk(segs[i].base)
    requires PrependedTo(b, b', segs, i, r, n)
    ensures AlignAsChunk(r.base) !in UsedChunks(b)
    ensures UsedChunks(b') == UsedChunks(b)[AlignAsChunk(r.base) := n]
  {
    var p, q := AlignAsChunk(r.base), AlignAsChunk(r.base) + n;
    var b0 := Retag(Prepended(b, segs, i, r, n), q, Used);
    PrependHeld(b, segs, i, r, n);
    FreedUsed(b0, Joined(segs, i, r), b', q);
    PrependedFresh(b, segs, i, r, n);
    TwoMoreUsed(b, p, n, q, b0);
  }

  /** Two new chunks in use, one of which is given back. */
  lemma TwoMoreUsed(b: Blocks, p: nat, n: nat, q: nat, b0: Blocks)
    requires p !in b && q !in b && p != q && p in b0 && q in b0 && b0 == b[p := Block(n, Used, b0[p].seg)][q := b0[q]]
    ensures Without(UsedChunks(b0), q) == UsedChunks(b)[p := n]
  {
  }

  /** The 32-bit quantities of `prepend_alloc` are right exactly when the region has room
      for the request and one more chunk. Both of its assertions also hold for some
      regions that are too small, because q wraps around. */
  lemma PrependNeeds(p: nat, oldfirst: nat, nb: nat)
    requires p < oldfirst < WORD && nb < WORD && nb > 0
    ensures var q, qsize := (p + nb) % WORD, (oldfirst - p + WORD - nb) % WORD;
            p < q && q < oldfirst && qsize >= 16 && q + qsize == oldfirst <==> p + nb + 16 <= oldfirst
  {
    var q, qsize := (p + nb) % WORD, (oldfirst - p + WORD - nb) % WORD;
    if p + nb < WORD {
      assert q == p + nb;
      if nb <= oldfirst - p { assert qsize == oldfirst - p - nb; }
    } else {
      assert q == p + nb - WORD;
    }
  }

  /** A request that is too big is served by `prepend_alloc` from any region that lies right
      before a segment, although its assertions hold. */
  lemma PrependWraps(p: nat, oldfirst: nat)
    requires 0 < p && p + 16 <= oldfirst < WORD
    ensures var nb := WORD - 1; var q, qsize := (p + nb) % WORD, (oldfirst - p + WORD - nb) % WORD;
            oldfirst > q && qsize >= 16 && q < p
  {
    assert (p + (WORD - 1)) % WORD == p - 1;
  }

  /** The chunk it returns then reaches over the first chunk of the segment, whatever that is
      used for. */
  lemma PrependOverlaps(b: Blocks, segs: seq<Segment>, i: nat, r: Segment)
    requires Tiled(b, segs) && RegionOk(segs, r) && i < |segs| && segs[i].base == End(r)
    ensures var p, c, nb := AlignAsChunk(r.base), AlignAsChunk(segs[i].base), WORD - 1;
            var q, qsize := (p + nb) % WORD, (c - p + WORD - nb) % WORD;
            && c > q && qsize >= 16
            && c in b && p + 8 <= c && Next(b, c) <= p + nb
  {
    var p, c := AlignAsChunk(r.base), AlignAsChunk(segs[i].base);
    assert SegmentOk(b, segs, i);
    assert BlockOk(b, segs, c);
    assert End(segs[b[c].seg]) < WORD && 0 < p && p + 16 <= c && c < WORD by { assert SegmentOk(b, segs, b[c].seg); }
    PrependWraps(p, c);
  }

  /** A heap of one segment, whose first chunk is in use, and a page right before it. A
      request that is too big, for which the padded size is 2^32 - 1, finds nothing in this
      heap. */
  lemma PrependWitness() returns (b: Blocks, segs: seq<Segment>, top: nat, r: Segment)
    ensures Tiled(b, segs) && RegionOk(segs, r) && |segs| == 1 && segs[0].base == End(r) && top in b
    ensures b[top].kind == Top
    ensures !ContinuesTop(segs, r) && AlignAsChunk(segs[0].base) in b && b[AlignAsChunk(segs[0].base)].kind == Used
    ensures var p, c := AlignAsChunk(r.base), AlignAsChunk(segs[0].base); p + 8 <= c && Next(b, c) <= p + (WORD - 1)
  {
    segs, r, top := [Segment(0x2000, 0x1000)], Segment(0x1000, 0x1000), 0x2018;
    b := map[0x2000 := Block(0x18, Used, 0), 0x2018 := Block(0xFE8, Top, 0)];
    forall a | a in b ensures BlockOk(b, segs, a) { }
    forall a, c | a in b && c in b ensures Apart(b, a, c) { }
    assert SegmentOk(b, segs, 0);
    PrependOverlaps(b, segs, 0, r);
  }
}
