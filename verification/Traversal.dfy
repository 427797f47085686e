/** The traversal of a segment that the check routines make: chunk by chunk to the end. */
module Traversal {
  import opened Rings
  import opened Chunks
  import opened Blocks
  import opened BoundaryTags
  import opened Layout

  /** The chunks from `a` on, each found by the size of the one before. */
  ghost function Walk(b: Blocks, a: nat, end: nat): seq<nat>
    decreases end - a
  {
    if a in b && a < end && b[a].size > 0 then [a] + Walk(b, Next(b, a), end) else []
  }

  ghost function Bytes(b: Blocks, w: seq<nat>): nat {
    if w == [] then 0 else (if w[0] in b then b[w[0]].size else 0) + Bytes(b, w[1..])
  }

  /** The walk from a chunk accounts for every byte up to the end of its segment. */
  lemma {:induction false} WalkCovers(b: Blocks, segs: seq<Segment>, a: nat)
    requires Tiled(b, segs) && a in b
    ensures b[a].seg < |segs| && a < End(segs[b[a].seg])
    ensures Bytes(b, Walk(b, a, End(segs[b[a].seg]))) == End(segs[b[a].seg]) - a
    decreases if b[a].seg < |segs| then End(segs[b[a].seg]) - a else 0
  {
    assert BlockOk(b, segs, a);
    var e := End(segs[b[a].seg]);
    var w := Walk(b, Next(b, a), e);
    assert Walk(b, a, e) == [a] + w && ([a] + w)[1..] == w;
    if Regular(b[a].kind) {
      WalkCovers(b, segs, Next(b, a));
    } else {
      assert w == [];
    }
  }

  /** It meets every chunk of the segment that lies further on. */
  lemma {:induction false} WalkMeets(b: Blocks, segs: seq<Segment>, a: nat, c: nat)
    requires Tiled(b, segs) && a in b && c in b && a <= c && b[a].seg == b[c].seg < |segs|
    ensures c in Walk(b, a, End(segs[b[a].seg]))
    decreases End(segs[b[a].seg]) - a
  {
    assert BlockOk(b, segs, a) && BlockOk(b, segs, c) && Apart(b, a, c);
    if a < c {
      WalkMeets(b, segs, Next(b, a), c);
    }
  }

  /** Bytes of the chunks of segment i, from its first one on. */
  ghost function SegmentBytes(b: Blocks, segs: seq<Segment>, i: nat): nat
    requires i < |segs|
  {
    Bytes(b, Walk(b, AlignAsChunk(segs[i].base), End(segs[i])))
  }

  /** However the segments are tiled, the chunks of each, with the top and its foot, add up
      to the segment: operations that keep the segments conserve bytes. */
  lemma Conserved(b: Blocks, b': Blocks, segs: seq<Segment>, i: nat)
    requires Tiled(b, segs) && Tiled(b', segs) && i < |segs|
    ensures SegmentBytes(b, segs, i) == SegmentBytes(b', segs, i) == End(segs[i]) - AlignAsChunk(segs[i].base)
    ensures forall c :: c in b && b[c].seg == i ==> c in Walk(b, AlignAsChunk(segs[i].base), End(segs[i]))
  {
    assert SegmentOk(b, segs, i) && SegmentOk(b', segs, i);
    var first := AlignAsChunk(segs[i].base);
    WalkCovers(b, segs, first);
    WalkCovers(b', segs, first);
    forall c | c in b && b[c].seg == i ensures c in Walk(b, first, End(segs[i])) {
      assert BlockOk(b, segs, c) && Apart(b, c, first) && BlockOk(b, segs, first);
      WalkMeets(b, segs, first, c);
    }
  }

  /** No two free chunks are neighbours, and none is next to the top. */
  lemma Coalesced(b: Blocks, segs: seq<Segment>, head: Heads, foot: Links, top: nat, topsize: nat, a: nat)
    requires MemOk(b, segs, head, foot, 0, top, topsize) && a in b && b[a].kind == Free
    ensures Next(b, a) in b && InUse(b[Next(b, a)].kind)
    ensures !HeadAt(head, Next(b, a)).pinuse && Get(foot, Next(b, a)) == b[a].size
  {
    NextFacts(b, segs, head, foot, 0, top, topsize, a);
    assert TagOk(b, head, foot, 0, a) && BlockOk(b, segs, a);
    assert 0 in b ==> BlockOk(b, segs, 0);
  }
}
