/**
 The chunks of the heap as they lie in memory: which addresses start a chunk, how far each
 reaches and what it is for. The segments obtained from the system are tiled by chunks.
 */
module Blocks {
  import opened Words

  /** Loose marks the one chunk that an operation has in hand: it is neither in use nor yet
      a free chunk with proper head and foot. A record holds a segment descriptor; a fence
      is the run of fenceposts that closes a segment; the top closes the newest one. */
  datatype Kind = Used | Free | Loose | Record | Fence | Top

  /** A chunk of `size` bytes in segment number `seg`. */
  datatype Block = Block(size: nat, kind: Kind, seg: nat)

  type Blocks = map<nat, Block>

  datatype Segment = Segment(base: nat, size: nat)

  const TOP_FOOT_SIZE: nat := 40

  /** `align_as_chunk`: the first chunk address at or above `a`. */
  function AlignAsChunk(a: nat): nat {
    (a + 7) / 8 * 8
  }

  function End(s: Segment): nat {
    s.base + s.size
  }

  predicate InUse(k: Kind) {
    k == Used || k == Record || k == Fence
  }

  /** Regular chunks are followed by another chunk of their segment. */
  predicate Regular(k: Kind) {
    k == Used || k == Free || k == Loose || k == Record
  }

  function Next(b: Blocks, a: nat): nat
    requires a in b
  {
    a + b[a].size
  }

  /** A chunk lies inside its segment, and ends it exactly when it is the top or a fence. */
  ghost predicate Fits(b: Blocks, segs: seq<Segment>, a: nat)
    requires a in b
  {
    var g := b[a].seg;
    && g < |segs| && segs[g].base <= a
    && if Regular(b[a].kind) then Next(b, a) < End(segs[g]) else Next(b, a) == End(segs[g])
  }

  ghost predicate BlockOk(b: Blocks, segs: seq<Segment>, a: nat)
    requires a in b
  {
    && a % 8 == 0 && a > 0 && b[a].size > 0
    && Fits(b, segs, a)
    && (Regular(b[a].kind) ==>
          b[a].size % 8 == 0 && b[a].size >= 16 && Next(b, a) in b && b[Next(b, a)].seg == b[a].seg)
  }

  ghost predicate SegmentOk(b: Blocks, segs: seq<Segment>, i: nat)
    requires i < |segs|
  {
    && segs[i].base > 0 && End(segs[i]) < WORD && End(segs[i]) % 4 == 0 && segs[i].size > 0
    && AlignAsChunk(segs[i].base) in b && b[AlignAsChunk(segs[i].base)].kind != Fence
    && b[AlignAsChunk(segs[i].base)].seg == i
  }

  ghost predicate Apart(b: Blocks, a: nat, c: nat)
    requires a in b && c in b
  {
    a < c ==> Next(b, a) <= c
  }

  ghost predicate NoOverlap(b: Blocks) {
    forall a, c {:trigger Apart(b, a, c)} :: a in b && c in b ==> Apart(b, a, c)
  }

  ghost predicate Disjoint(segs: seq<Segment>) {
    forall i, j ::
      0 <= i < |segs| && 0 <= j < |segs| && i != j ==> End(segs[i]) <= segs[j].base || End(segs[j]) <= segs[i].base
  }

  /** The chunks tile the segments. */
  ghost predicate Tiled(b: Blocks, segs: seq<Segment>) {
    && (forall a {:trigger BlockOk(b, segs, a)} :: a in b ==> BlockOk(b, segs, a))
    && NoOverlap(b)
    && (forall i {:trigger SegmentOk(b, segs, i)} :: 0 <= i < |segs| ==> SegmentOk(b, segs, i))
    && Disjoint(segs)
  }

  // ----- Changes to the tiling -----

  function Retag(b: Blocks, p: nat, k: Kind): Blocks
    requires p in b
  {
    b[p := b[p].(kind := k)]
  }

  function Split(b: Blocks, p: nat, n: nat, k1: Kind, k2: Kind): Blocks
    requires p in b && n <= b[p].size
  {
    b[p := Block(n, k1, b[p].seg)][p + n := Block(b[p].size - n, k2, b[p].seg)]
  }

  /** Chunk p swallows the chunk after it. */
  function Fuse(b: Blocks, p: nat, k: Kind): Blocks
    requires p in b && Next(b, p) in b
  {
    (map a | a in b && a != Next(b, p) :: b[a])[p := Block(b[p].size + b[Next(b, p)].size, k, b[p].seg)]
  }

  lemma RetagTiled(b: Blocks, segs: seq<Segment>, p: nat, k: Kind)
    requires Tiled(b, segs) && p in b && (Regular(k) <==> Regular(b[p].kind))
    requires k == Fence ==> b[p].kind == Fence
    ensures Tiled(Retag(b, p, k), segs)
  {
    var b' := Retag(b, p, k);
    forall a | a in b' ensures BlockOk(b', segs, a) { assert BlockOk(b, segs, a); }
    forall a, c | a in b' && c in b' ensures Apart(b', a, c) { assert Apart(b, a, c); }
    forall i | 0 <= i < |segs| ensures SegmentOk(b', segs, i) { assert SegmentOk(b, segs, i); }
  }

  /** The condition on the two parts of a split. */
  ghost predicate Splits(b: Blocks, p: nat, n: nat, k1: Kind, k2: Kind) {
    && p in b && n % 8 == 0 && 16 <= n < b[p].size && Regular(k1)
    && (Regular(k2) <==> Regular(b[p].kind))
    && (Regular(k2) ==> b[p].size - n >= 16)
  }

  /** No chunk starts strictly inside another. */
  lemma NoneInside(b: Blocks, segs: seq<Segment>, p: nat, a: nat)
    requires Tiled(b, segs) && p in b && p < a < Next(b, p)
    ensures a !in b
  {
    assert a in b ==> Apart(b, p, a);
  }

  lemma SplitTiled(b: Blocks, segs: seq<Segment>, p: nat, n: nat, k1: Kind, k2: Kind)
    requires Tiled(b, segs) && Splits(b, p, n, k1, k2)
    ensures Tiled(Split(b, p, n, k1, k2), segs)
  {
    var b' := Split(b, p, n, k1, k2);
    assert BlockOk(b, segs, p);
    forall a | a in b' ensures BlockOk(b', segs, a) {
      if a != p + n { assert BlockOk(b, segs, a); }
    }
    SplitApart(b, p, n, k1, k2);
    NoneInside(b, segs, p, p + n);
    forall i | 0 <= i < |segs| ensures SegmentOk(b', segs, i) {
      assert SegmentOk(b, segs, i);
    }
  }

  lemma SplitApart(b: Blocks, p: nat, n: nat, k1: Kind, k2: Kind)
    requires NoOverlap(b) && p in b && 0 < n < b[p].size
    ensures NoOverlap(Split(b, p, n, k1, k2))
  {
    var b' := Split(b, p, n, k1, k2);
    forall a, c | a in b' && c in b' ensures Apart(b', a, c) {
      var a0, c0 := if a == p + n then p else a, if c == p + n then p else c;
      assert Apart(b, a0, c0) && Apart(b, p, c0) && Apart(b, a0, p) && Apart(b, p, a0);
    }
  }

  /** The first chunk of a segment is swallowed by no other. */
  lemma FuseKeepsFirst(b: Blocks, segs: seq<Segment>, p: nat, i: nat)
    requires Tiled(b, segs) && p in b && Regular(b[p].kind) && i < |segs|
    ensures Next(b, p) != AlignAsChunk(segs[i].base)
  {
    assert SegmentOk(b, segs, i) && BlockOk(b, segs, p);
  }

  lemma FuseApart(b: Blocks, p: nat, k: Kind)
    requires NoOverlap(b) && p in b && Next(b, p) in b && b[p].size > 0
    ensures NoOverlap(Fuse(b, p, k))
  {
    var n, b' := Next(b, p), Fuse(b, p, k);
    forall a, c | a in b' && c in b' ensures Apart(b', a, c) {
      assert Apart(b, a, c) && Apart(b, n, c);
    }
  }

  lemma FuseTiled(b: Blocks, segs: seq<Segment>, p: nat, k: Kind)
    requires Tiled(b, segs) && p in b && Regular(b[p].kind) && Next(b, p) in b
    requires (Regular(k) <==> Regular(b[Next(b, p)].kind)) && k != Fence
    ensures Tiled(Fuse(b, p, k), segs)
  {
    var n, b' := Next(b, p), Fuse(b, p, k);
    assert BlockOk(b, segs, p) && BlockOk(b, segs, n);
    forall a | a in b' ensures BlockOk(b', segs, a) {
      assert BlockOk(b, segs, a);
      if a != p { assert Apart(b, a, p) && Apart(b, p, a); }
    }
    FuseApart(b, p, k);
    forall i | 0 <= i < |segs| ensures SegmentOk(b', segs, i) {
      assert SegmentOk(b, segs, i);
      FuseKeepsFirst(b, segs, p, i);
    }
  }
}
