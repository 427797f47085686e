/** What freeing a chunk means: it becomes one free chunk with its free neighbours. */
module Coalescing {
  import opened Words
  import opened BinIndex
  import opened Rings
  import opened Chunks
  import opened Blocks
  import opened BoundaryTags
  import opened Layout
  import opened Policy

  /** The chunks that start in [lo, hi) give way to one. */
  function Merged(b: Blocks, p: nat, lo: nat, hi: nat, k: Kind): Blocks
    requires p in b && lo <= hi
  {
    (map a | a in b && !(lo <= a < hi) :: b[a])[lo := Block(hi - lo, k, b[p].seg)]
  }

  /** The free space before p starts at lo. */
  ghost predicate StartsAt(b: Blocks, p: nat, lo: nat) {
    if lo == p then forall a :: a in b && b[a].kind == Free ==> Next(b, a) != p
    else lo in b && b[lo].kind == Free && Next(b, lo) == p
  }

  /** The space after p that freeing p adds to it. */
  function EndOf(b: Blocks, p: nat): nat
    requires p in b
  {
    var n := Next(b, p);
    if n in b && (b[n].kind == Free || b[n].kind == Top) then Next(b, n) else n
  }

  function BecomesKind(b: Blocks, p: nat): Kind
    requires p in b
  {
    var n := Next(b, p);
    if n in b && b[n].kind == Top then Top else Free
  }

  /** b' is b with p freed: exactly p and its free neighbours become one chunk, which is the
      top if p was next to it; every other chunk is as before. */
  ghost predicate Freed(b: Blocks, b': Blocks, p: nat) {
    exists lo: nat :: FreedAs(b, b', p, lo)
  }

  /** The chunk that p becomes starts at lo. */
  ghost predicate FreedAs(b: Blocks, b': Blocks, p: nat, lo: nat) {
    && p in b && lo <= EndOf(b, p) && StartsAt(b, p, lo)
    && b' == Merged(b, p, lo, EndOf(b, p), BecomesKind(b, p))
  }

  /** The designated victim after p has been freed: the new chunk takes the place of the one
      that was behind p; one that was before p stays where it is, unless it is now part of the
      top; any other stays. */
  function DvThen(b: Blocks, p: nat, lo: nat, dv: nat): nat
    requires p in b
  {
    if Next(b, p) == dv then lo else if lo == dv && BecomesKind(b, p) == Top then 0 else dv
  }

  /** p is freed, and this is what becomes of the designated victim. */
  ghost predicate FreedWith(b: Blocks, b': Blocks, p: nat, dv: nat, dv': nat, dvsize': nat) {
    exists lo: nat ::
      && FreedAs(b, b', p, lo) && dv' == DvThen(b, p, lo, dv)
      && dvsize' == if dv' in b' && dv' != 0 then b'[dv'].size else 0
  }

  /** A chunk in use is resized where it is. If it has a chunk or more too many, these are freed; if
      it is too small, it takes them from the top. */
  ghost predicate Reshaped(b: Blocks, b': Blocks, p: nat, nb: nat, dv: nat, dv': nat, dvsize': nat) {
    && p in b
    && if b[p].size >= nb + MIN_CHUNK_SIZE then
         FreedWith(Split(b, p, nb, Used, Used), b', p + nb, dv, dv', dvsize')
       else
         && dv' == dv
         && if b[p].size >= nb then b' == b
            else
              && Next(b, p) in b && nb <= b[p].size + b[Next(b, p)].size
              && b' == Split(Fuse(b, p, Top), p, nb, Used, Top)
  }

  /** Chunk v is chosen and handed out, and chunk p is freed after that. */
  ghost predicate Replaced(b: Blocks, st: Stock, b': Blocks, v: nat, nb: nat, p: nat, dv': nat, dvsize': nat) {
    exists b1: Blocks, dv1: nat :: Served(b, st, b1, dv1, v, nb) && FreedWith(b1, b', p, dv1, dv', dvsize')
  }

  /** Chunk p is freed; 0 stands for none. */
  ghost predicate MaybeFreed(b: Blocks, b': Blocks, p: nat, dv: nat, dv': nat, dvsize': nat) {
    if p == 0 then b' == b && dv' == dv else FreedWith(b, b', p, dv, dv', dvsize')
  }

  /** The chunks at p and at q are freed one after the other. */
  ghost predicate BothFreed(b: Blocks, b': Blocks, p: nat, q: nat, dv: nat, dv': nat, dvsize': nat) {
    exists b1: Blocks, dv1: nat, size1: nat ::
      MaybeFreed(b, b1, p, dv, dv1, size1) && MaybeFreed(b1, b', q, dv1, dv', dvsize')
  }

  /** The chunk from q on is carved out of chunk p, which is in use; what is before it is freed, and
      then what it has more than nb bytes, if that is more than a chunk. */
  ghost predicate Carved(b: Blocks, b': Blocks, p: nat, q: nat, nb: nat, dv: nat, dv': nat, dvsize': nat) {
    exists b1: Blocks, b2: Blocks, n: nat ::
      Cut(b, b1, b2, p, q, nb, n)
      && BothFreed(b2, b', if q == p then 0 else p, if n > nb + MIN_CHUNK_SIZE then q + nb else 0, dv, dv', dvsize')
  }

  ghost predicate Cut(b: Blocks, b1: Blocks, b2: Blocks, p: nat, q: nat, nb: nat, n: nat) {
    && p in b && p <= q && q - p <= b[p].size && b1 == (if q == p then b else Split(b, p, q - p, Used, Used))
    && q in b1 && n == b1[q].size
    && b2 == if n > nb + MIN_CHUNK_SIZE then Split(b1, q, nb, Used, Used) else b1
  }

  lemma CarvedIs(b: Blocks, b1: Blocks, b2: Blocks, b': Blocks, p: nat, q: nat, nb: nat, lead: nat, t: nat, dv: nat,
                 dv': nat, dvsize': nat)
    requires p in b && p <= q && q - p <= b[p].size && b1 == (if q == p then b else Split(b, p, q - p, Used, Used))
    requires q in b1 && lead == (if q == p then 0 else p)
    requires t == (if b1[q].size > nb + MIN_CHUNK_SIZE then q + nb else 0)
    requires b2 == if b1[q].size > nb + MIN_CHUNK_SIZE then Split(b1, q, nb, Used, Used) else b1
    requires BothFreed(b2, b', lead, t, dv, dv', dvsize')
    ensures Carved(b, b', p, q, nb, dv, dv', dvsize')
  {
    assert Cut(b, b1, b2, p, q, nb, b1[q].size);
  }

  /** Chunk v is chosen and handed out for n bytes, and a chunk for nb bytes carved out of it. */
  ghost predicate CarvedOut(b: Blocks, st: Stock, b': Blocks, v: nat, n: nat, q: nat, nb: nat, dv': nat, dvsize': nat) {
    exists b1: Blocks, dv1: nat :: Served(b, st, b1, dv1, v, n) && Carved(b1, b', v, q, nb, dv1, dv', dvsize')
  }

  /** p in hand, with its free predecessor from lo on. */
  ghost predicate Backward(b: Blocks, b': Blocks, p: nat, lo: nat)
    requires p in b
  {
    lo <= Next(b, p) && StartsAt(b, p, lo) && b' == Merged(b, p, lo, Next(b, p), Loose)
  }

  lemma AloneBackward(b: Blocks, segs: seq<Segment>, head: Heads, foot: Links, top: nat, topsize: nat, p: nat)
    requires MemOk(b, segs, head, foot, 0, top, topsize) && p in b && b[p].kind == Used && HeadAt(head, p).pinuse
    ensures Backward(b, Retag(b, p, Loose), p, p)
  {
    forall a | a in b && b[a].kind == Free ensures Next(b, a) != p {
      assert TagOk(b, head, foot, 0, a);
    }
    forall a | a in b && a != p ensures !(p <= a < Next(b, p)) {
      assert Apart(b, p, a) && Apart(b, a, p) && BlockOk(b, segs, p);
    }
    assert Retag(b, p, Loose) == Merged(b, p, p, Next(b, p), Loose);
  }

  lemma MergedBackward(b: Blocks, segs: seq<Segment>, p: nat, q: nat)
    requires Tiled(b, segs) && p in b && b[p].kind == Used && q in b && b[q].kind == Free && Next(b, q) == p && p != q
    ensures q in Retag(b, p, Loose) && Next(Retag(b, p, Loose), q) in Retag(b, p, Loose)
    ensures Backward(b, Fuse(Retag(b, p, Loose), q, Loose), p, q)
  {
    assert BlockOk(b, segs, p) && BlockOk(b, segs, q);
    forall a | a in b && a != p && a != q ensures !(q <= a < Next(b, p)) {
      assert Apart(b, p, a) && Apart(b, a, p) && Apart(b, q, a) && Apart(b, a, q);
    }
    assert Fuse(Retag(b, p, Loose), q, Loose) == Merged(b, p, q, Next(b, p), Loose);
  }

  /** The chunk after p is untouched by the backward step. */
  lemma BackwardNext(b: Blocks, segs: seq<Segment>, b': Blocks, p: nat, lo: nat)
    requires Tiled(b, segs) && p in b && b[p].kind == Used && Backward(b, b', p, lo)
    ensures Next(b, p) in b && Next(b, p) in b' && b'[Next(b, p)] == b[Next(b, p)]
    ensures lo in b' && lo < Next(b, p) && Next(b', lo) == Next(b, p)
  {
    assert BlockOk(b, segs, p);
  }

  lemma SettledForward(b: Blocks, segs: seq<Segment>, b': Blocks, p: nat, lo: nat)
    requires Tiled(b, segs) && p in b && b[p].kind == Used && Backward(b, b', p, lo)
    requires Next(b, p) in b && InUse(b[Next(b, p)].kind)
    ensures lo in b' && FreedAs(b, Retag(b', lo, Free), p, lo)
  {
    assert Retag(b', lo, Free) == Merged(b, p, lo, EndOf(b, p), BecomesKind(b, p));
  }

  lemma FusedForward(b: Blocks, segs: seq<Segment>, b': Blocks, p: nat, lo: nat)
    requires Tiled(b, segs) && p in b && b[p].kind == Used && Backward(b, b', p, lo)
    requires Next(b, p) in b && (b[Next(b, p)].kind == Free || b[Next(b, p)].kind == Top)
    ensures lo in b' && Next(b', lo) in b'
    ensures b[Next(b, p)].kind == Free ==> FreedAs(b, Retag(Fuse(b', lo, Loose), lo, Free), p, lo)
    ensures b[Next(b, p)].kind == Top ==> FreedAs(b, Fuse(b', lo, Top), p, lo)
  {
    BackwardNext(b, segs, b', p, lo);
    var n := Next(b, p);
    assert BlockOk(b, segs, n);
    forall a | a in b && a != n ensures !(n <= a < Next(b, n)) {
      assert Apart(b, n, a) && Apart(b, a, n);
    }
    if b[n].kind == Free {
      var r := Retag(Fuse(b', lo, Loose), lo, Free);
      assert r == Merged(b, p, lo, EndOf(b, p), BecomesKind(b, p));
    } else {
      var r := Fuse(b', lo, Top);
      assert r == Merged(b, p, lo, EndOf(b, p), BecomesKind(b, p));
    }
  }

  /** Freeing p takes it, and no other chunk, from the clients. */
  lemma FreedUsed(b: Blocks, segs: seq<Segment>, b': Blocks, p: nat)
    requires Tiled(b, segs) && Freed(b, b', p) && b[p].kind == Used
    ensures UsedChunks(b') == Without(UsedChunks(b), p)
  {
    var lo: nat :| FreedAs(b, b', p, lo);
    var n := Next(b, p);
    assert BlockOk(b, segs, p) && (lo in b ==> BlockOk(b, segs, lo));
    forall a | a in b && b[a].kind == Used && a != p ensures !(lo <= a < EndOf(b, p)) {
      assert Apart(b, a, p) && Apart(b, p, a) && BlockOk(b, segs, a);
      assert lo in b ==> Apart(b, lo, a) && Apart(b, a, lo);
      assert n in b ==> Apart(b, n, a) && Apart(b, a, n);
    }
  }
}
