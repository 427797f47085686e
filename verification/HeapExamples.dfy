/** A run of the heap in which an aligned block comes out 16 bytes larger than needed. */
module HeapExamples {
  import opened Words
  import opened BinIndex
  import opened Chunks
  import opened Blocks
  import opened Layout
  import opened Placement
  import opened Policy
  import opened Coalescing
  import opened Growth
  import opened Alignment
  import H = Heap

  const REGION := Segment(0x1000, 0x1000)

  const FIRST: nat := 0x1000

  /** Two chunks of 56 bytes at the start of the region, and then the top. */
  function TwoChunks(k: Kind): Blocks {
    map[FIRST := Block(56, k, 0), FIRST + 56 := Block(56, Used, 0), FIRST + 112 := Block(0x1000 - 112, Top, 0)]
  }

  function OneChunk(): Blocks {
    map[FIRST := Block(56, Used, 0), FIRST + 56 := Block(0x1000 - 56, Top, 0)]
  }

  /** With no free chunk the top is chosen, if it is large enough. */
  lemma TopChosen(h: H.Heap, t: nat, nb: nat)
    requires h.Valid() && t in h.blocks && h.blocks[t].kind == Top && nb + 64 <= h.blocks[t].size && nb > 0
    requires forall a :: a in h.blocks && a != t ==> h.blocks[a].kind == Used
    ensures !Exhausted(h.InStock(), nb) && forall v :: Chosen(h.InStock(), nb, v) ==> v == t
  {
    assert h.top == t;
    h.TopSegment();
    forall a: nat ensures a !in h.small.content && a !in h.trees.content {
      assert Place(h.blocks, h.dv, 0, h.small.content, h.trees.content, a);
    }
  }

  /** A single free chunk, of the size or of 8 bytes more, is chosen. */
  lemma OnlyFree(h: H.Heap, p: nat, nb: nat)
    requires h.Valid() && FreeOf(h.blocks, p, nb + 8) && 16 <= nb < MIN_LARGE_SIZE - 8
    requires forall a :: a in h.blocks && a != p ==> h.blocks[a].kind != Free
    ensures !Exhausted(h.InStock(), nb) && forall v :: Chosen(h.InStock(), nb, v) ==> v == p
  {
    forall a: nat ensures (a in h.small.content || a in h.trees.content ==> a == p) && a !in h.trees.content {
      assert Place(h.blocks, h.dv, 0, h.small.content, h.trees.content, a);
    }
    assert Place(h.blocks, h.dv, 0, h.small.content, h.trees.content, p);
  }

  lemma Sizes(h: H.Heap)
    ensures h.PaddedSize(52) == 56 && h.PaddedSize(12) == 16 && RoundedAlignment(16) == 16
    ensures h.PaddedSize(h.AlignRequest(16, 12)) == 48
  {
  }

  /** The region becomes the top, and the block is cut off it. */
  lemma FirstBlock(b: Blocks, mem: nat)
    requires GrownServed(map[], b, [], 0, REGION, 56, mem) && mem != 0
    ensures b == OneChunk()
  {
    var b1: Blocks :| GrownBlocks(map[], b1, [], 0, REGION) && mem > 8 && mem - 8 in b1 && Handed(b1, b, mem - 8, 56);
    assert b1 == map[FIRST := Block(0x1000, Top, 0)];
  }

  lemma SecondBlock(b: Blocks)
    requires Handed(OneChunk(), b, FIRST + 56, 56)
    ensures b == TwoChunks(Used)
  {
  }

  /** Nothing is free next to the first block. */
  lemma FirstFreed(b: Blocks)
    requires Freed(TwoChunks(Used), b, FIRST)
    ensures b == TwoChunks(Free)
  {
    var t := TwoChunks(Used);
    var lo: nat :| FreedAs(t, b, FIRST, lo);
    assert lo == FIRST && EndOf(t, FIRST) == FIRST + 56;
  }

  /** The first call makes the region the top. */
  method FirstCall() returns (h: H.Heap)
    ensures fresh(h) && fresh(h.small) && fresh(h.trees) && h.Valid() && h.blocks == OneChunk()
  {
    h := new H.Heap();
    Sizes(h);
    var m := h.DlMalloc(52, H.Some(REGION));
    FirstBlock(h.blocks, m);
  }

  method TwoBlocks() returns (h: H.Heap)
    ensures fresh(h) && fresh(h.small) && fresh(h.trees) && h.Valid() && h.blocks == TwoChunks(Used)
  {
    h := FirstCall();
    Sizes(h);
    TopChosen(h, FIRST + 56, 56);
    var m := h.DlMalloc(52, H.None);
    SecondBlock(h.blocks);
  }

  method OneFreed() returns (h: H.Heap)
    ensures fresh(h) && fresh(h.small) && fresh(h.trees) && h.Valid() && h.blocks == TwoChunks(Free)
  {
    h := TwoBlocks();
    assert h.Live(FIRST + 8);
    h.DlFree(FIRST + 8);
    FirstFreed(h.blocks);
  }

  /** Two blocks of 52 bytes, the first freed, and then 12 bytes aligned to 16. */
  method LargerBlock() returns (h: H.Heap, mem: nat)
    ensures h.Valid() && mem > 8 && mem - 8 in UsedChunks(h.blocks)
    ensures UsedChunks(h.blocks)[mem - 8] == h.PaddedSize(12) + 16
  {
    h := OneFreed();
    Sizes(h);
    OnlyFree(h, FIRST, 48);
    ghost var st := h.InStock();
    ghost var p;
    mem, p := h.DlMemalign(16, 12, H.None);
    SixteenMore(h, st, p, mem);
  }

  lemma SixteenMore(h: H.Heap, st: Stock, p: nat, mem: nat)
    requires h.HandedFrom(TwoChunks(Free), st, p, mem, 16, 16, 48) && forall v :: Chosen(st, 48, v) ==> v == FIRST
    ensures mem - 8 in UsedChunks(h.blocks) && UsedChunks(h.blocks)[mem - 8] == 32
  {
  }
}
