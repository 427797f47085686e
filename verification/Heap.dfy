/**
 The allocator itself: `malloc_state` with its operations. The words of a chunk are kept
 by field: heads and feet here, the links of free chunks in the two families of bins, the
 bytes that clients store in `data`.
 */
module Heap {
  import opened Words
  import opened BinIndex
  import opened Rings
  import opened Chunks
  import opened Blocks
  import opened BoundaryTags
  import opened Layout
  import opened Placement
  import opened Coalescing
  import opened Policy
  import opened Growth
  import opened Alignment
  import S = SmallBins
  import T = TreeBins
  import M = Memory

  datatype Option<T> = None | Some(value: T)

  class Heap {
    var head: Heads
    var foot: Links
    var dv: nat
    var dvsize: nat
    var top: nat
    var topsize: nat
    var segs: seq<Segment>
    const small: S.SmallBins
    const trees: T.TreeBins
    const memory: M.Memory

    ghost var blocks: Blocks

    /** The invariant while chunk `hot` (if not 0) is in hand and the free chunk `spare`
        (if not 0) is in no bin. */
    ghost predicate Inv(hot: nat, spare: nat)
      reads this, small, trees
    {
      && small.Valid() && trees.Valid()
      && MemOk(blocks, segs, head, foot, hot, top, topsize)
      && Binned(blocks, dv, dvsize, hot, spare, small.content, trees.content)
    }

    ghost predicate Valid()
      reads this, small, trees
    {
      Inv(0, 0)
    }

    /** The part of the invariant that concerns the bins. */
    ghost predicate BinsInv(hot: nat, spare: nat)
      reads this, small, trees
    {
      && small.Valid() && trees.Valid()
      && Binned(blocks, dv, dvsize, hot, spare, small.content, trees.content)
    }

    constructor ()
      ensures Valid() && blocks == map[] && segs == [] && top == 0 && dv == 0
      ensures fresh(small) && fresh(trees) && fresh(memory) && memory.bytes == map[]
    {
      head, foot, dv, dvsize, top, topsize, segs := map[], map[], 0, 0, 0, 0, [];
      blocks := map[];
      small := new S.SmallBins();
      trees := new T.TreeBins();
      memory := new M.Memory();
      new;
      forall a: nat ensures Place(blocks, dv, 0, small.content, trees.content, a) {
      }
    }

    // ----- Relays to the bins -----

    lemma LargeSized(hot: nat, spare: nat)
      requires Inv(hot, spare)
      ensures T.Sized(head, trees.content)
    {
      forall a | a in trees.content ensures ChunkSize(head, a) == trees.content[a] {
        assert Place(blocks, dv, spare, small.content, trees.content, a);
        TagFacts(blocks, segs, head, foot, hot, top, topsize, a);
      }
    }

    lemma BinnedSizes(hot: nat, v: nat)
      requires BinsInv(hot, 0) && (v in small.content || v in trees.content)
      ensures v in blocks && (v in small.content <==> blocks[v].size < MIN_LARGE_SIZE)
      ensures v in small.content ==> small.content[v] == blocks[v].size
      ensures v in trees.content ==> v !in small.content
      ensures blocks[v].kind == Free
    {
      assert Place(blocks, dv, 0, small.content, trees.content, v);
    }

    /** A free chunk other than the designated victim is in a bin. */
    lemma FreeIsBinned(hot: nat, v: nat)
      requires BinsInv(hot, 0) && v in blocks && blocks[v].kind == Free && v != dv
      ensures v in small.content || v in trees.content
    {
      assert Place(blocks, dv, 0, small.content, trees.content, v);
    }

    /** `unlink_chunk` */
    method UnlinkChunk(v: nat, s: nat, ghost hot: nat)
      requires BinsInv(hot, 0) && (v in small.content || v in trees.content) && v in blocks && s == blocks[v].size
      modifies small, trees
      ensures BinsInv(hot, v)
    {
      BinnedSizes(hot, v);
      TakeBinned(blocks, dv, dvsize, hot, small.content, trees.content, v);
      if IsSmall(s) {
        small.Unlink(v, s);
      } else {
        ghost var _, _ := trees.Unlink(v);
      }
    }

    /** `insert_chunk` */
    method InsertChunk(p: nat, s: nat)
      requires Inv(0, p) && p != 0 && p in blocks && s == blocks[p].size
      modifies small, trees
      ensures Inv(0, 0)
    {
      TagFacts(blocks, segs, head, foot, 0, top, topsize, p);
      PutBinned(blocks, dv, dvsize, 0, small.content, trees.content, p);
      if IsSmall(s) {
        small.Insert(p, s);
      } else {
        LargeSized(0, p);
        trees.Insert(head, p, s);
      }
    }

    // ----- Rewriting boundary tags -----

    /** `set_size_and_pinuse_of_free_chunk` */
    method SetFreeChunk(p: nat, s: nat)
      modifies `head, `foot
      ensures head == old(head)[p := Head(s, false, true)] && foot == old(foot)[p + s := s]
      ensures unchanged(small) && unchanged(trees)
    {
      head := head[p := Head(s, false, true)];
      foot := foot[p + s := s];
    }

    /** `set_free_with_pinuse` */
    method SetFreeWithPinuse(p: nat, s: nat, n: nat)
      modifies `head, `foot
      ensures head == SetPinuse(old(head), n, false)[p := Head(s, false, true)] && foot == old(foot)[p + s := s]
      ensures unchanged(small) && unchanged(trees)
    {
      head := SetPinuse(head, n, false);
      SetFreeChunk(p, s);
    }

    /** `set_free_with_pinuse`, with which the chunks become those of b. */
    method BecomeFree(p: nat, s: nat, n: nat, ghost b: Blocks, ghost spare: nat)
      requires small.Valid() && trees.Valid() && Binned(b, dv, dvsize, 0, spare, small.content, trees.content)
      requires MemOk(b, segs, SetPinuse(head, n, false)[p := Head(s, false, true)], foot[p + s := s], 0, top, topsize)
      modifies `head, `foot, `blocks
      ensures Inv(0, spare) && blocks == b
    {
      SetFreeWithPinuse(p, s, n);
      blocks := b;
    }

    /** `set_size_and_pinuse_of_free_chunk`, with which the chunks become those of b. */
    method BecomeFreeHere(p: nat, s: nat, ghost b: Blocks, ghost spare: nat)
      requires small.Valid() && trees.Valid() && Binned(b, dv, dvsize, 0, spare, small.content, trees.content)
      requires MemOk(b, segs, head[p := Head(s, false, true)], foot[p + s := s], 0, top, topsize)
      modifies `head, `foot, `blocks
      ensures Inv(0, spare) && blocks == b
    {
      SetFreeChunk(p, s);
      blocks := b;
    }

    /** `set_inuse_and_pinuse` */
    method SetInuseAndPinuse(p: nat, s: nat)
      modifies `head
      ensures head == SetPinuse(old(head)[p := Head(s, true, true)], p + s, true)
      ensures unchanged(small) && unchanged(trees)
    {
      head := head[p := Head(s, true, true)];
      head := SetPinuse(head, p + s, true);
    }

    /** `set_size_and_pinuse_of_inuse_chunk` */
    method SetInuseChunk(p: nat, s: nat)
      modifies `head
      ensures head == old(head)[p := Head(s, true, true)]
      ensures unchanged(small) && unchanged(trees)
    {
      head := head[p := Head(s, true, true)];
    }

    /** `set_inuse`: the chunk's own pinuse bit stays. */
    method SetInuse(p: nat, s: nat)
      modifies `head
      ensures head == SetPinuse(old(head)[p := Head(s, true, HeadAt(old(head), p).pinuse)], p + s, true)
      ensures unchanged(small) && unchanged(trees)
    {
      head := head[p := Head(s, true, HeadAt(head, p).pinuse)];
      head := SetPinuse(head, p + s, true);
    }

    // ----- Free -----

    /** The block that `mem` stands for is a chunk in use by the client. */
    ghost predicate Live(mem: nat)
      reads this
    {
      mem >= 8 && mem - 8 in blocks && blocks[mem - 8].kind == Used
    }

    /** A chunk in use is taken in hand; no word changes. */
    ghost method TakeInHand(p: nat)
      requires Inv(0, 0) && p in blocks && blocks[p].kind == Used
      modifies `blocks
      ensures Inv(p, 0) && p in blocks && blocks == Retag(old(blocks), p, Loose) && dv != p && p > 0
      ensures ChunkSize(head, p) == blocks[p].size
      ensures HeadAt(head, p).pinuse ==> Backward(old(blocks), blocks, p, p)
      ensures var n := Next(blocks, p); n != p && n in blocks && blocks[n].kind != Fence && HeadAt(head, n).pinuse
    {
      TagFacts(blocks, segs, head, foot, 0, top, topsize, p);
      NextFacts(blocks, segs, head, foot, 0, top, topsize, p);
      HeatMem(blocks, segs, head, foot, top, topsize, p);
      HeatBinned(blocks, dv, dvsize, small.content, trees.content, p);
      if HeadAt(head, p).pinuse {
        AloneBackward(blocks, segs, head, foot, top, topsize, p);
      }
      blocks := Retag(blocks, p, Loose);
    }

    /** The free chunk before the one in hand leaves its bin, unless it is the designated
        victim, and joins it. */
    method JoinPrevious(p: nat, ghost b0: Blocks) returns (prev: nat, prevsize: nat)
      requires Inv(p, 0) && p in blocks && p > 0 && dv != p && !HeadAt(head, p).pinuse
      requires Tiled(b0, segs) && p in b0 && b0[p].kind == Used && blocks == Retag(b0, p, Loose)
      modifies `blocks, small, trees
      ensures Inv(prev, 0) && prev in blocks && prev > 0 && Backward(b0, blocks, p, prev)
      ensures HeadAt(head, prev).pinuse && blocks[prev].size == prevsize + b0[p].size && prev == p - prevsize
    {
      PrevFacts(blocks, segs, head, foot, p, top, topsize, p);
      prevsize := Get(foot, p);
      prev := p - prevsize;
      TagFacts(blocks, segs, head, foot, p, top, topsize, prev);
      MergedBackward(b0, segs, p, prev);
      AbsorbPrevMem(blocks, segs, head, foot, p, top, topsize, prev);
      if prev != dv {
        FreeIsBinned(p, prev);
        UnlinkChunk(prev, prevsize, p);
        AbsorbPrevBinned(blocks, dv, dvsize, p, prev, small.content, trees.content, prev);
      } else {
        AbsorbPrevBinned(blocks, dv, dvsize, p, 0, small.content, trees.content, prev);
      }
      blocks := Fuse(blocks, prev, Loose);
    }

    /** The state while a chunk p is in hand on behalf of freeing p0 in b0. */
    ghost predicate Holding(p: nat, b0: Blocks, p0: nat)
      reads this, small, trees
    {
      && Inv(p, 0) && p in blocks && p > 0 && HeadAt(head, p).pinuse
      && Tiled(b0, segs) && p0 in b0 && b0[p0].kind == Used && Backward(b0, blocks, p0, p)
    }

    /** The chunk in hand becomes free, between chunks in use. It is the designated victim
        or goes to no bin yet. */
    method Settle(p: nat, psize: nat, next: nat, ghost b0: Blocks, ghost p0: nat)
      requires Holding(p, b0, p0) && psize == blocks[p].size && next == Next(blocks, p)
      requires next in blocks && InUse(blocks[next].kind)
      modifies `head, `foot, `blocks, `dvsize
      ensures p == dv ==> Inv(0, 0)
      ensures p != dv ==> Inv(0, p)
      ensures FreedAs(b0, blocks, p0, p) && p in blocks && blocks[p].size == psize
    {
      BackwardNext(b0, segs, blocks, p0, p);
      SettledForward(b0, segs, blocks, p0, p);
      SettleBinned(blocks, dv, dvsize, p, small.content, trees.content);
      TagFacts(blocks, segs, head, foot, p, top, topsize, p);
      SettleMem(blocks, segs, head, foot, p, top, topsize, SetPinuse(head, next, false)[p := Head(psize, false, true)]);
      if p == dv {
        dvsize := psize;
      }
      BecomeFree(p, psize, next, Retag(blocks, p, Free), if p == dv then 0 else p);
    }

    lemma TopJoined(p: nat, b0: Blocks, p0: nat, s: nat) returns (b: Blocks)
      requires Holding(p, b0, p0) && Next(blocks, p) == top && s == topsize + blocks[p].size
      ensures top in blocks
      ensures && MemOk(b, segs, head[p := Head(s, false, true)], foot, 0, p, s)
              && (p == dv ==> Binned(b, 0, 0, 0, 0, small.content, trees.content))
              && (p != dv ==> Binned(b, dv, dvsize, 0, 0, small.content, trees.content))
              && FreedAs(b0, b, p0, p)
    {
      NextFacts(blocks, segs, head, foot, p, top, topsize, p);
      TagFacts(blocks, segs, head, foot, p, top, topsize, p);
      TagFacts(blocks, segs, head, foot, p, top, topsize, top);
      BackwardNext(b0, segs, blocks, p0, p);
      FusedForward(b0, segs, blocks, p0, p);
      JoinTopMem(blocks, segs, head, foot, p, top, topsize);
      JoinTopBinned(blocks, dv, dvsize, p, small.content, trees.content);
      b := Fuse(blocks, p, Top);
    }

    /** The chunk in hand joins the top after it. */
    method JoinTop(p: nat, psize: nat, ghost b0: Blocks, ghost p0: nat)
      requires Holding(p, b0, p0) && psize == blocks[p].size && p + psize == top
      modifies `head, `blocks, `dv, `dvsize, `top, `topsize
      ensures Inv(0, 0) && FreedAs(b0, blocks, p0, p) && dv == DvThen(b0, p0, p, old(dv))
    {
      var tsize := topsize + psize;
      ghost var b := TopJoined(p, b0, p0, tsize);
      if p == dv {
        dv := 0;
        dvsize := 0;
      }
      BecomeTop(p, tsize, b);
    }

    /** The top starts at p, with which the chunks become those of b. */
    method BecomeTop(p: nat, tsize: nat, ghost b: Blocks)
      requires small.Valid() && trees.Valid() && Binned(b, dv, dvsize, 0, 0, small.content, trees.content)
      requires MemOk(b, segs, head[p := Head(tsize, false, true)], foot, 0, p, tsize)
      modifies `head, `top, `topsize, `blocks
      ensures Inv(0, 0) && blocks == b
    {
      topsize := tsize;
      top := p;
      head := head[p := Head(tsize, false, true)];
      blocks := b;
    }

    /** The chunk in hand has swallowed the free chunk after it and becomes free itself. */
    lemma NextJoinedMem(p: nat, b0: Blocks, p0: nat, s: nat) returns (b: Blocks)
      requires Holding(p, b0, p0) && Next(blocks, p) in blocks && blocks[Next(blocks, p)].kind == Free
      requires s == blocks[p].size + blocks[Next(blocks, p)].size
      ensures b == Retag(Fuse(blocks, p, Loose), p, Free) && p in b && b[p].size == s
      ensures MemOk(b, segs, head[p := Head(s, false, true)], foot[p + s := s], 0, top, topsize)
      ensures FreedAs(b0, b, p0, p)
    {
      TagFacts(blocks, segs, head, foot, p, top, topsize, p);
      TagFacts(blocks, segs, head, foot, p, top, topsize, Next(blocks, p));
      BackwardNext(b0, segs, blocks, p0, p);
      FusedForward(b0, segs, blocks, p0, p);
      JoinNextMem(blocks, segs, head, foot, p, top, topsize, s);
      b := Retag(Fuse(blocks, p, Loose), p, Free);
    }

    lemma DvJoined(p: nat, b0: Blocks, p0: nat, s: nat) returns (b: Blocks)
      requires Holding(p, b0, p0) && Next(blocks, p) == dv && s == dvsize + blocks[p].size
      ensures MemOk(b, segs, head[p := Head(s, false, true)], foot[p + s := s], 0, top, topsize)
      ensures FreedAs(b0, b, p0, p)
      ensures Binned(b, p, s, 0, 0, small.content, trees.content)
    {
      NextFacts(blocks, segs, head, foot, p, top, topsize, p);
      TagFacts(blocks, segs, head, foot, p, top, topsize, p);
      b := NextJoinedMem(p, b0, p0, s);
      AbsorbDvBinned(blocks, dv, dvsize, p, small.content, trees.content, s);
    }

    /** The chunk in hand joins the designated victim after it and takes its place. */
    method JoinDv(p: nat, psize: nat, ghost b0: Blocks, ghost p0: nat)
      requires Holding(p, b0, p0) && psize == blocks[p].size && p + psize == dv
      modifies `head, `foot, `blocks, `dv, `dvsize
      ensures Inv(0, 0) && FreedAs(b0, blocks, p0, p) && dv == DvThen(b0, p0, p, old(dv))
    {
      var dsize := dvsize + psize;
      ghost var b := DvJoined(p, b0, p0, dsize);
      dvsize := dsize;
      dv := p;
      BecomeFreeHere(p, dsize, b, 0);
    }

    /** Taking the chunk after the one in hand out of its bin. */
    method UnlinkNext(p: nat, next: nat, nsize: nat, ghost s: nat, ghost b: Blocks)
      requires BinsInv(p, 0) && p in blocks && p > 0 && p < next == Next(blocks, p)
      requires next in blocks && blocks[next].kind == Free && next != dv && nsize == blocks[next].size && nsize > 0
      requires b == Retag(Fuse(blocks, p, Loose), p, Free) && s == blocks[p].size + nsize
      modifies small, trees
      ensures small.Valid() && trees.Valid()
      ensures p != dv ==> Binned(b, dv, dvsize, 0, p, small.content, trees.content)
      ensures p == dv ==> Binned(b, dv, s, 0, 0, small.content, trees.content)
    {
      FreeIsBinned(p, next);
      UnlinkChunk(next, nsize, p);
      AbsorbNextBinned(blocks, dv, dvsize, p, small.content, trees.content, next);
      SettleBinned(Fuse(blocks, p, Loose), dv, dvsize, p, small.content, trees.content);
    }

    /** The chunk in hand joins the binned chunk after it. */
    method JoinNext(p: nat, psize: nat, next: nat, ghost b0: Blocks, ghost p0: nat) returns (s: nat)
      requires Holding(p, b0, p0) && psize == blocks[p].size && p + psize == next
      requires next in blocks && blocks[next].kind == Free && next != dv
      modifies `head, `foot, `blocks, `dvsize, small, trees
      ensures p == dv ==> Inv(0, 0)
      ensures p != dv ==> Inv(0, p)
      ensures FreedAs(b0, blocks, p0, p) && p in blocks && s == blocks[p].size
    {
      var nsize := ChunkSize(head, next);
      assert nsize == blocks[next].size && nsize > 0
          && p < next by { TagFacts(blocks, segs, head, foot, p, top, topsize, next); }
      s := psize + nsize;
      ghost var b := NextJoinedMem(p, b0, p0, s);
      UnlinkNext(p, next, nsize, s, b);
      if p == dv {
        dvsize := s;
      }
      BecomeFreeHere(p, s, b, if p == dv then 0 else p);
    }

    /** `dlfree` */
    method DlFree(mem: nat)
      requires Valid() && (mem != 0 ==> Live(mem))
      modifies this, small, trees
      ensures Valid() && segs == old(segs)
      ensures mem == 0 ==> blocks == old(blocks)
      ensures mem != 0 ==>
                && FreedWith(old(blocks), blocks, mem - 8, old(dv), dv, dvsize)
                && UsedChunks(blocks) == Without(UsedChunks(old(blocks)), mem - 8)
    {
      if mem != 0 {
        ghost var b0 := blocks;
        FreeChunk(mem - 8);
        FreedUsed(b0, segs, blocks, mem - 8);
      }
    }

    method FreeChunk(p0: nat)
      requires Valid() && p0 in blocks && blocks[p0].kind == Used
      modifies this, small, trees
      ensures Valid() && segs == old(segs) && FreedWith(old(blocks), blocks, p0, old(dv), dv, dvsize)
    {
      ghost var b0 := blocks;
      TakeInHand(p0);
      var psize := ChunkSize(head, p0);
      var next := p0 + psize;
      if HeadAt(head, p0).pinuse {
        ConsolidateForward(p0, psize, next, b0, p0);
      } else {
        FreeAfterFree(p0, psize, next, b0);
      }
    }

    /** The chunk before p0 is free. If it is the designated victim and nothing free follows,
        it stays the designated victim. */
    method FreeAfterFree(p0: nat, size: nat, next: nat, ghost b0: Blocks)
      requires Inv(p0, 0) && p0 in blocks && p0 > 0 && dv != p0 && !HeadAt(head, p0).pinuse
      requires Tiled(b0, segs) && p0 in b0 && b0[p0].kind == Used && blocks == Retag(b0, p0, Loose)
      requires size == blocks[p0].size && next == p0 + size
      requires next != p0 && next in blocks && blocks[next].kind != Fence && HeadAt(head, next).pinuse
      modifies this, small, trees
      ensures Valid() && segs == old(segs) && FreedWith(b0, blocks, p0, old(dv), dv, dvsize)
    {
      var p, prevsize := JoinPrevious(p0, b0);
      var psize := size + prevsize;
      assert next in blocks && next != p && blocks[next].kind != Fence by { BackwardNext(b0, segs, blocks, p0, p); }
      if p == dv && HeadAt(head, next).cinuse && HeadAt(head, next).pinuse {
        TagFacts(blocks, segs, head, foot, p, top, topsize, next);
        Settle(p, psize, next, b0, p0);
      } else {
        ConsolidateForward(p, psize, next, b0, p0);
      }
    }

    lemma NextKind(p: nat, next: nat, b0: Blocks, p0: nat)
      requires Holding(p, b0, p0) && next in blocks && next == Next(blocks, p)
      ensures p > 0 && if HeadAt(head, next).cinuse then InUse(blocks[next].kind)
                       else next == top || blocks[next].kind == Free || blocks[next].kind == Fence
    {
      TagFacts(blocks, segs, head, foot, p, top, topsize, next);
      TagFacts(blocks, segs, head, foot, p, top, topsize, p);
    }

    /** The second half of `dlfree`: the chunk in hand joins what is free after it, and goes
        to its bin unless it has become part of the top or the designated victim. */
    method ConsolidateForward(p: nat, psize: nat, next: nat, ghost b0: Blocks, ghost p0: nat)
      requires Holding(p, b0, p0) && psize == blocks[p].size && p + psize == next
      requires next in blocks && blocks[next].kind != Fence
      requires p == dv ==> !HeadAt(head, next).cinuse
      modifies this, small, trees
      ensures Valid() && segs == old(segs) && FreedAs(b0, blocks, p0, p) && dv == DvThen(b0, p0, p, old(dv))
    {
      NextKind(p, next, b0, p0);
      var s := psize;
      if !HeadAt(head, next).cinuse {
        if next == top {
          JoinTop(p, psize, b0, p0);
          return;
        } else if next == dv {
          JoinDv(p, psize, b0, p0);
          return;
        } else {
          s := JoinNext(p, psize, next, b0, p0);
          if p == dv {
            return;
          }
        }
      } else {
        Settle(p, psize, next, b0, p0);
      }
      InsertChunk(p, s);
    }

    // ----- Malloc -----

    ghost function InStock(): Stock
      reads this, small, trees
    {
      Stock(small.content, trees.content, dv, dvsize, top, topsize)
    }

    /** If chunk v is binned, it is the one that its list has first. */
    ghost predicate Foremost(v: nat)
      reads small, trees
    {
      && (v in small.content ==>
            && small.content[v] / 8 < |small.bins| && small.bins[small.content[v] / 8] != []
            && small.bins[small.content[v] / 8][0] == v)
      && (v in trees.content ==> trees.content[v] in trees.queue && v == T.First(trees.queue, trees.content[v]))
    }

    /** The chunk that a search of the trees finds. */
    lemma LargeForemost(v: nat)
      requires Valid() && v in trees.content && trees.content[v] in trees.queue
      requires v == T.First(trees.queue, trees.content[v])
      ensures Foremost(v) && v != dv && FreeOf(blocks, v, trees.content[v])
    {
      assert Place(blocks, dv, 0, small.content, trees.content, v);
    }

    /** The designated victim and the top are in no bin. */
    lemma UnbinnedForemost()
      requires Valid()
      ensures Foremost(dv) && Foremost(top) && (dv != 0 ==> FreeOf(blocks, dv, dvsize))
      ensures top != 0 ==> top in blocks && blocks[top].kind == Top && top != dv
    {
      assert Place(blocks, dv, 0, small.content, trees.content, dv);
      assert Place(blocks, dv, 0, small.content, trees.content, top);
    }

    /** A chunk size that a request can be padded to. */
    ghost predicate Padded(nb: nat) {
      nb % 8 == 0 && MIN_CHUNK_SIZE <= nb < WORD
    }

    /** A chunk that has left its bin is handed out, its remainder going to no bin yet. */
    lemma SpareHanded(v: nat, nb: nat) returns (b: Blocks)
      requires Inv(0, v) && v != 0 && v in blocks && Padded(nb) && nb <= blocks[v].size
      ensures Handed(blocks, b, v, nb) && v + nb > 0
      ensures var n := blocks[v].size; n < nb + 16 ==>
                MemOk(b, segs, SetPinuse(head[v := Head(n, true, true)], v + n, true), foot, 0, top, topsize)
                && Binned(b, dv, dvsize, 0, 0, small.content, trees.content)
      ensures var n := blocks[v].size; n >= nb + 16 ==>
                MemOk(b, segs, head[v := Head(nb, true, true)][v + nb := Head(n - nb, false, true)],
                      foot[v + n := n - nb], 0, top, topsize)
                && Binned(b, dv, dvsize, 0, v + nb, small.content, trees.content)
                && v + nb in b && b[v + nb].size == n - nb
    {
      TagFacts(blocks, segs, head, foot, 0, top, topsize, v);
      if blocks[v].size < nb + 16 {
        b := Retag(blocks, v, Used);
        UseWholeMem(blocks, segs, head, foot, top, topsize, v);
        UseWholeBinned(blocks, dv, dvsize, v, small.content, trees.content, v);
      } else {
        b := Split(blocks, v, nb, Used, Free);
        NoneInside(blocks, segs, v, v + nb);
        UseSplitMem(blocks, segs, head, foot, top, topsize, v, nb);
        UseSplitBinned(blocks, dv, dvsize, v, small.content, trees.content, v, nb);
      }
    }

    /** A chunk that has left its bin is handed out whole. */
    method HandWhole(v: nat, size: nat, ghost nb: nat)
      requires Inv(0, v) && v != 0 && v in blocks && size == blocks[v].size && Padded(nb) && nb <= size < nb + 16
      modifies `head, `blocks
      ensures Inv(0, 0) && Handed(old(blocks), blocks, v, nb)
    {
      ghost var b := SpareHanded(v, nb);
      SetInuseAndPinuse(v, size);
      blocks := b;
    }

    /** A chunk that has left its bin is split: nb bytes are handed out. */
    method HandSplit(v: nat, nb: nat, rsize: nat) returns (r: nat)
      requires Inv(0, v) && v != 0 && v in blocks && Padded(nb) && rsize >= 16 && blocks[v].size == nb + rsize
      modifies `head, `foot, `blocks
      ensures r == v + nb && r > 0 && Inv(0, r) && Handed(old(blocks), blocks, v, nb) && r in blocks
      ensures blocks[r].size == rsize
    {
      ghost var b := SpareHanded(v, nb);
      SetInuseChunk(v, nb);
      r := v + nb;
      SetFreeChunk(r, rsize);
      blocks := b;
    }

    /** `replace_dv`, when the designated victim is known to be small. */
    method ReplaceDv(r: nat, rsize: nat)
      requires Inv(0, r) && r > 0 && r in blocks && blocks[r].size == rsize && dvsize < MIN_LARGE_SIZE
      modifies `dv, `dvsize, small
      ensures Inv(0, 0) && dv == r && dvsize == rsize
    {
      TagFacts(blocks, segs, head, foot, 0, top, topsize, r);
      ReplaceBinned(blocks, dv, dvsize, small.content, trees.content, r);
      if dvsize != 0 {
        TagFacts(blocks, segs, head, foot, 0, top, topsize, dv);
        PutBinned(blocks, r, rsize, 0, small.content, trees.content, dv);
        small.Insert(dv, dvsize);
      }
      dvsize := rsize;
      dv := r;
    }

    /** The designated victim serves the request. */
    lemma DvHanded(nb: nat) returns (b: Blocks)
      requires Valid() && Padded(nb) && nb <= dvsize
      ensures dv > 0 && Handed(blocks, b, dv, nb)
      ensures dvsize < nb + 16 ==>
                MemOk(b, segs, SetPinuse(head[dv := Head(dvsize, true, true)], dv + dvsize, true), foot, 0, top,
                      topsize)
                && Binned(b, 0, 0, 0, 0, small.content, trees.content)
      ensures dvsize >= nb + 16 ==>
                MemOk(b, segs, head[dv := Head(nb, true, true)][dv + nb := Head(dvsize - nb, false, true)],
                      foot[dv + dvsize := dvsize - nb], 0, top, topsize)
                && Binned(b, dv + nb, dvsize - nb, 0, 0, small.content, trees.content)
    {
      TagFacts(blocks, segs, head, foot, 0, top, topsize, dv);
      if dvsize < nb + 16 {
        b := Retag(blocks, dv, Used);
        UseWholeMem(blocks, segs, head, foot, top, topsize, dv);
        UseWholeBinned(blocks, dv, dvsize, 0, small.content, trees.content, dv);
      } else {
        b := Split(blocks, dv, nb, Used, Free);
        NoneInside(blocks, segs, dv, dv + nb);
        UseSplitMem(blocks, segs, head, foot, top, topsize, dv, nb);
        UseSplitBinned(blocks, dv, dvsize, 0, small.content, trees.content, dv, nb);
      }
    }

    method UseDv(nb: nat) returns (mem: nat)
      requires Valid() && Padded(nb) && nb <= dvsize
      modifies `head, `foot, `blocks, `dv, `dvsize
      ensures Valid() && mem == old(dv) + 8 && old(dv) in old(blocks) && Handed(old(blocks), blocks, old(dv), nb)
      ensures dv == DvServed(old(blocks), old(dv), old(dv), nb)
    {
      ghost var b := DvHanded(nb);
      var rsize := dvsize - nb;
      var p := dv;
      if rsize >= MIN_CHUNK_SIZE {
        var r := p + nb;
        SwapHeads(head, r, Head(rsize, false, true), p, Head(nb, true, true));
        ghost var f := r + rsize;
        assert f == p + dvsize;
        dv := r;
        dvsize := rsize;
        CutFromDv(p, nb, r, rsize, b);
      } else {
        var dvs := dvsize;
        dvsize := 0;
        dv := 0;
        TakeDv(p, dvs, b);
      }
      mem := p + 8;
    }

    /** The words when the designated victim is cut. */
    method CutFromDv(p: nat, nb: nat, r: nat, rsize: nat, ghost b: Blocks)
      requires small.Valid() && trees.Valid() && Binned(b, dv, dvsize, 0, 0, small.content, trees.content)
      requires MemOk(b, segs, head[r := Head(rsize, false, true)][p := Head(nb, true, true)], foot[r + rsize := rsize],
                     0, top, topsize)
      modifies `head, `foot, `blocks
      ensures Valid() && blocks == b
    {
      SetFreeChunk(r, rsize);
      SetInuseChunk(p, nb);
      blocks := b;
    }

    /** The words when it is handed out whole. */
    method TakeDv(p: nat, dvs: nat, ghost b: Blocks)
      requires small.Valid() && trees.Valid() && Binned(b, dv, dvsize, 0, 0, small.content, trees.content)
      requires MemOk(b, segs, SetPinuse(head[p := Head(dvs, true, true)], p + dvs, true), foot, 0, top, topsize)
      modifies `head, `blocks
      ensures Valid() && blocks == b
    {
      SetInuseAndPinuse(p, dvs);
      blocks := b;
    }

    lemma SwapHeads(h: Heads, x: nat, hx: Head, y: nat, hy: Head)
      requires x != y
      ensures h[x := hx][y := hy] == h[y := hy][x := hx]
    {
    }

    /** The low end of the top serves the request. */
    lemma TopHanded(nb: nat) returns (b: Blocks)
      requires Valid() && Padded(nb) && nb < topsize
      ensures top > 0 && Handed(blocks, b, top, nb)
      ensures MemOk(b, segs, head[top + nb := Head(topsize - nb, false, true)][top := Head(nb, true, true)], foot, 0,
                    top + nb, topsize - nb)
      ensures Binned(b, dv, dvsize, 0, 0, small.content, trees.content)
    {
      UseTopMem(blocks, segs, head, foot, top, topsize, nb);
      b := Split(blocks, top, nb, Used, Top);
      TagFacts(blocks, segs, head, foot, 0, top, topsize, top);
      NoneInside(blocks, segs, top, top + nb);
      SameFreeBinned(blocks, dv, dvsize, small.content, trees.content, b);
    }

    method UseTop(nb: nat) returns (mem: nat)
      requires Valid() && Padded(nb) && nb < topsize
      modifies `head, `blocks, `top, `topsize
      ensures Valid() && mem == old(top) + 8 && Handed(old(blocks), blocks, old(top), nb)
    {
      ghost var b := TopHanded(nb);
      var rsize := topsize - nb;
      topsize := rsize;
      var p := top;
      var r := p + nb;
      top := r;
      head := head[r := Head(rsize, false, true)];
      SetInuseChunk(p, nb);
      mem := p + 8;
      blocks := b;
    }

    /** The end of both tree searches: chunk v, found with remainder rsize, leaves its trie
        and is handed out. A remainder r large enough to be a chunk is left in no bin. */
    method TakeLarge(v: nat, nb: nat, rsize: nat) returns (r: nat)
      requires Valid() && Padded(nb) && v in trees.content && trees.content[v] == nb + rsize
      modifies `head, `foot, `blocks, trees
      ensures Handed(old(blocks), blocks, v, nb)
      ensures r == 0 ==> rsize < 16 && Inv(0, 0)
      ensures r != 0 ==> rsize >= 16 && Inv(0, r) && r in blocks && blocks[r].size == rsize && r == v + nb
    {
      BinnedSizes(0, v);
      TagFacts(blocks, segs, head, foot, 0, top, topsize, v);
      assert blocks[v].size == nb + rsize by { assert Place(blocks, dv, 0, small.content, trees.content, v); }
      TakeBinned(blocks, dv, dvsize, 0, small.content, trees.content, v);
      ghost var _, _ := trees.Unlink(v);
      r := 0;
      if rsize < MIN_CHUNK_SIZE {
        HandWhole(v, rsize + nb, nb);
      } else {
        r := HandSplit(v, nb, rsize);
      }
    }

    /** The wrapped comparison with the designated victim's remainder decides whether the
        best tree chunk is the better choice. */
    lemma FitDecision(nb: nat, v: nat, rsize: nat)
      requires Valid() && Padded(nb) && trees.BestFitting(nb, v, rsize)
      ensures v != 0 ==> v in trees.content && trees.content[v] == nb + rsize && v > 0
      ensures v != 0 && rsize < T.Remainder(dvsize, nb) <==> v != 0 && BetterThanDv(InStock(), nb, v)
      ensures v == 0 || !BetterThanDv(InStock(), nb, v) ==> forall a :: !BetterThanDv(InStock(), nb, a)
    {
      trees.FitIsLeast(nb, v, rsize);
      DvBound();
      if v != 0 {
        assert Place(blocks, dv, 0, small.content, trees.content, v);
        TagFacts(blocks, segs, head, foot, 0, top, topsize, v);
        T.RemainderTest(dvsize, nb, WORD - nb);
      }
    }

    /** `tmalloc_large` takes a best fitting tree chunk, unless there is none or the
        designated victim fits at least as well. */
    method TmallocLarge(nb: nat) returns (mem: nat)
      requires Valid() && Padded(nb) && nb >= MIN_LARGE_SIZE
      modifies this, small, trees
      ensures Valid() && segs == old(segs)
      ensures mem == 0 ==> unchanged(this) && unchanged(small) && unchanged(trees)
      ensures mem == 0 <==> forall v :: !BetterThanDv(old(InStock()), nb, v)
      ensures mem != 0 ==>
                mem > 8 && BetterThanDv(old(InStock()), nb, mem - 8) && Handed(old(blocks), blocks, mem - 8, nb)
      ensures mem != 0 ==> dv == old(dv) && old(Foremost(mem - 8))
    {
      LargeSized(0, 0);
      var v, rsize := trees.BestFit(head, nb);
      FitDecision(nb, v, rsize);
      mem := 0;
      if v != 0 && rsize < T.Remainder(dvsize, nb) {
        LargeForemost(v);
        var r := TakeLarge(v, nb, rsize);
        if r != 0 {
          InsertChunk(r, rsize);
        }
        mem := v + 8;
      }
    }

    lemma DvBound()
      requires Valid()
      ensures dvsize < WORD && dvsize % 8 == 0
    {
      if dvsize != 0 {
        TagFacts(blocks, segs, head, foot, 0, top, topsize, dv);
      }
    }

    /** `tmalloc_small` takes a least tree chunk; the remainder becomes the designated
        victim. */
    method TmallocSmall(nb: nat) returns (mem: nat)
      requires Valid() && Padded(nb) && nb < MIN_LARGE_SIZE && dvsize < nb && trees.treemap != 0
      modifies this, small, trees
      ensures Valid() && segs == old(segs)
      ensures mem > 8 && Least(old(trees.content), nb, mem - 8) && Handed(old(blocks), blocks, mem - 8, nb)
      ensures mem - 8 in old(blocks) && dv == DvServed(old(blocks), old(dv), mem - 8, nb) && old(Foremost(mem - 8))
    {
      LargeSized(0, 0);
      var v, rsize := trees.SmallestFit(head, nb);
      trees.FitIsLeast(nb, v, rsize);
      LargeForemost(v);
      var r := TakeLarge(v, nb, rsize);
      if r != 0 {
        ReplaceDv(r, rsize);
      }
      mem := v + 8;
    }

    /** The front chunk of small bin i, cut to nb bytes or whole. */
    method TakeSmall(nb: nat, i: nat) returns (p: nat, r: nat)
      requires Valid() && Padded(nb) && i < NSMALLBINS && Bit(small.smallmap, i) && nb <= 8 * i
      modifies `head, `foot, `blocks, small
      ensures |old(small.bins)| == NSMALLBINS && |old(small.bins)[i]| > 0 && p == old(small.bins)[i][0]
      ensures p > 0 && Handed(old(blocks), blocks, p, nb)
      ensures r == 0 ==> 8 * i < nb + 16 && Inv(0, 0)
      ensures r != 0 ==> 8 * i >= nb + 16 && Inv(0, r) && r in blocks && blocks[r].size == 8 * i - nb && r == p + nb
      ensures p in old(blocks) && old(blocks)[p] == Block(8 * i, Free, old(blocks)[p].seg) && p != dv
      ensures old(Foremost(p))
    {
      p := small.Front(i);
      BinnedSizes(0, p);
      TakeBinned(blocks, dv, dvsize, 0, small.content, trees.content, p);
      small.UnlinkFirst(p, i);
      r := 0;
      if 8 * i < nb + MIN_CHUNK_SIZE {
        HandWhole(p, 8 * i, nb);
      } else {
        r := HandSplit(p, nb, 8 * i - nb);
      }
    }

    /** Small requests: the bin of the request or the next one if either has a chunk;
        otherwise, when the designated victim does not do, the next marked small bin or the
        trees. Returns 0 when the request is left to the designated victim or the top. */
    method SmallRequest(nb: nat) returns (mem: nat)
      requires Valid() && Padded(nb) && nb < MIN_LARGE_SIZE
      modifies this, small, trees
      ensures Valid() && segs == old(segs)
      ensures mem == 0 ==> unchanged(this) && unchanged(small) && unchanged(trees)
      ensures mem == 0 ==>
                && !Remainderless(old(InStock()), nb)
                && (nb <= dvsize || (NoneFits(small.content, nb) && NoneFits(trees.content, nb)))
      ensures mem != 0 ==> mem > 8 && old(Foremost(mem - 8))
      ensures mem == 0 || (mem > 8 && Served(old(blocks), old(InStock()), blocks, dv, mem - 8, nb))
    {
      mem := 0;
      var idx := SmallIndex(nb);
      var smallbits := Shr(small.smallmap, idx);
      if And(smallbits, 3) != 0 {
        mem := NearBin(nb, idx, smallbits);
      } else {
        NotNear(nb);
        if nb > dvsize {
          mem := BeyondDv(nb, idx, smallbits);
        }
      }
    }

    /** Neither a remainderless fit nor the designated victim does: the least binned chunk
        that does, if any. */
    method BeyondDv(nb: nat, idx: nat, smallbits: nat) returns (mem: nat)
      requires Valid() && Padded(nb) && nb < MIN_LARGE_SIZE && idx == nb / 8 && smallbits == Shr(small.smallmap, idx)
      requires And(smallbits, 3) == 0 && dvsize < nb && !Remainderless(InStock(), nb)
      modifies this, small, trees
      ensures Valid() && segs == old(segs)
      ensures mem == 0 ==> unchanged(this) && unchanged(small) && unchanged(trees)
      ensures mem == 0 ==> NoneFits(small.content, nb) && NoneFits(trees.content, nb)
      ensures mem != 0 ==>
                mem > 8 && Handed(old(blocks), blocks, mem - 8, nb) && ChosenSmall(old(InStock()), nb, mem - 8)
      ensures mem != 0 ==>
                mem - 8 in old(blocks) && dv == DvServed(old(blocks), old(dv), mem - 8, nb) && old(Foremost(mem - 8))
    {
      mem := 0;
      if smallbits != 0 {
        mem := FarBin(nb, idx, smallbits);
      } else {
        NoSmall(idx);
        if trees.treemap != 0 {
          LargeNotNone(nb);
          mem := TmallocSmall(nb);
        } else {
          trees.Unmarked();
        }
      }
    }

    /** A remainderless fit, from the bin of the request or the one after it. */
    method NearBin(nb: nat, idx: nat, smallbits: nat) returns (mem: nat)
      requires Valid() && Padded(nb) && nb < MIN_LARGE_SIZE && idx == nb / 8 && smallbits == Shr(small.smallmap, idx)
      requires And(smallbits, 3) != 0
      modifies this, small
      ensures Valid() && segs == old(segs) && mem > 8
      ensures Remainderless(old(InStock()), nb) && Handed(old(blocks), blocks, mem - 8, nb)
      ensures ChosenSmall(old(InStock()), nb, mem - 8)
      ensures mem - 8 in old(blocks) && dv == DvServed(old(blocks), old(dv), mem - 8, nb) && old(Foremost(mem - 8))
    {
      assert small.smallmap < WORD;
      NearMarked(small.smallmap, idx);
      var i := idx + And(Not(smallbits), 1);
      NearChosen(nb, i);
      var p, _ := TakeSmall(nb, i);
      mem := p + 8;
    }

    /** A chunk of the next marked small bin; the remainder becomes the designated victim. */
    method FarBin(nb: nat, idx: nat, smallbits: nat) returns (mem: nat)
      requires Valid() && Padded(nb) && nb < MIN_LARGE_SIZE && idx == nb / 8 && smallbits == Shr(small.smallmap, idx)
      requires And(smallbits, 3) == 0 && smallbits != 0 && dvsize < nb && !Remainderless(InStock(), nb)
      modifies this, small
      ensures Valid() && segs == old(segs) && mem > 8
      ensures Handed(old(blocks), blocks, mem - 8, nb) && ChosenSmall(old(InStock()), nb, mem - 8)
      ensures mem - 8 in old(blocks) && dv == DvServed(old(blocks), old(dv), mem - 8, nb) && old(Foremost(mem - 8))
    {
      var i := FarIndex(nb, idx, smallbits);
      FarChosen(nb, i);
      var p, r := TakeSmall(nb, i);
      var rsize := 8 * i - nb;
      ReplaceDv(r, rsize);
      mem := p + 8;
    }

    method FarIndex(nb: nat, idx: nat, smallbits: nat) returns (i: nat)
      requires small.Valid() && nb < MIN_LARGE_SIZE && idx == nb / 8 && smallbits == Shr(small.smallmap, idx)
      requires And(smallbits, 3) == 0 && smallbits != 0
      ensures idx + 2 <= i < NSMALLBINS && Bit(small.smallmap, i)
      ensures forall j :: idx <= j < i ==> !Bit(small.smallmap, j)
    {
      assert small.smallmap < WORD;
      NextMarkedShifted(small.smallmap, idx);
      var leftbits := And(Shl(smallbits, idx), LeftBits(Idx2Bit(idx)));
      FarMarked(small.smallmap, idx, leftbits);
      i := Bit2Idx(LeastBit(leftbits));
    }

    lemma NoSmall(idx: nat)
      requires small.Valid() && idx < 32 && Shr(small.smallmap, idx) == 0
      ensures NoneFits(small.content, 8 * idx)
    {
      assert small.smallmap < WORD;
      ShiftedZero(small.smallmap, idx);
      small.NoneAbove(idx);
    }

    /** The front chunk of the near bin is the remainderless choice. */
    lemma NearChosen(nb: nat, i: nat)
      requires Valid() && Padded(nb) && nb < MIN_LARGE_SIZE && nb / 8 <= i < NSMALLBINS && i <= nb / 8 + 1
      requires Bit(small.smallmap, i) && (i > nb / 8 ==> !Bit(small.smallmap, nb / 8))
      ensures |small.bins| == NSMALLBINS && |small.bins[i]| > 0 && 8 * i < nb + 16
      ensures Remainderless(InStock(), nb) && ChosenSmall(InStock(), nb, small.bins[i][0])
    {
      small.LeastFront(nb / 8, i);
      NearestChosen(InStock(), nb, small.bins[i][0]);
    }

    lemma NotNear(nb: nat)
      requires Valid() && Padded(nb) && nb < MIN_LARGE_SIZE && And(Shr(small.smallmap, nb / 8), 3) == 0
      ensures !Remainderless(InStock(), nb)
    {
      ShiftedTests(small.smallmap, nb / 8);
      forall a | a in small.content ensures !(nb <= small.content[a] <= nb + 8) {
        small.MarkOf(a);
      }
    }

    lemma FarChosen(nb: nat, i: nat)
      requires Valid() && Padded(nb) && dvsize < nb < MIN_LARGE_SIZE && nb / 8 + 2 <= i < NSMALLBINS
      requires !Remainderless(InStock(), nb)
      requires Bit(small.smallmap, i) && forall j :: nb / 8 <= j < i ==> !Bit(small.smallmap, j)
      ensures |small.bins| == NSMALLBINS && |small.bins[i]| > 0 && 8 * i >= nb + 16
      ensures ChosenSmall(InStock(), nb, small.bins[i][0])
    {
      small.LeastFront(nb / 8, i);
    }

    /** Every tree chunk holds a small request. */
    lemma LargeNotNone(nb: nat)
      requires Valid() && nb < MIN_LARGE_SIZE && trees.treemap != 0
      ensures !NoneFits(trees.content, nb)
    {
      var a := trees.SomeChunk();
      assert Place(blocks, dv, 0, small.content, trees.content, a);
    }

    // ----- Memory from the system -----

    /** `init_top` */
    method InitTop(p: nat, psize: nat)
      requires AlignAsChunk(p) - p <= psize
      modifies `head, `top, `topsize
      ensures top == AlignAsChunk(p) && topsize == psize - (AlignAsChunk(p) - p)
      ensures head == TopHeads(old(head), top, topsize)
    {
      var offset := AlignAsChunk(p) - p;
      top := p + offset;
      topsize := psize - offset;
      head := head[top := Head(topsize, false, true)];
      head := head[top + topsize := TOP_FOOT_HEAD];
    }

    /** The first region: the bins were made with the heap. */
    method FirstSegment(r: Segment)
      requires Valid() && top == 0 && RegionOk(segs, r)
      modifies `head, `top, `topsize, `segs, `blocks
      ensures Valid() && segs == [r] && topsize == TopSizeIn(r) && top == AlignAsChunk(r.base)
      ensures UsedChunks(blocks) == map[]
      ensures blocks == map[AlignAsChunk(r.base) := NewTop([], r)]
    {
      FirstMem(head, foot, r);
      ghost var b: Blocks := map[AlignAsChunk(r.base) := NewTop([], r)];
      SameFreeBinned(blocks, dv, dvsize, small.content, trees.content, b);
      segs := [r];
      InitTop(r.base, r.size - TOP_FOOT_SIZE);
      blocks := b;
    }

    lemma Appended(r: Segment) returns (b: Blocks)
      requires Valid() && top != 0 && RegionOk(segs, r) && |segs| > 0 && r.base == End(segs[|segs| - 1])
      ensures top in blocks && b == Longer(blocks, top, r.size) && AlignAsChunk(top) == top
      ensures MemOk(b, Extended(segs, |segs| - 1, r), TopHeads(head, top, topsize + r.size), foot, 0, top,
                    topsize + r.size)
      ensures Binned(b, dv, dvsize, 0, 0, small.content, trees.content)
    {
      LongerMem(blocks, segs, head, foot, top, topsize, r);
      TagFacts(blocks, segs, head, foot, 0, top, topsize, top);
      b := Longer(blocks, top, r.size);
      SameFreeBinned(blocks, dv, dvsize, small.content, trees.content, b);
    }

    /** The region lies right behind the top's segment. */
    method Append(r: Segment, i: nat)
      requires Valid() && top != 0 && RegionOk(segs, r) && i == |segs| - 1 && r.base == End(segs[i])
      modifies `head, `top, `topsize, `segs, `blocks
      ensures Valid() && segs == Extended(old(segs), |old(segs)| - 1, r) && top == old(top)
      ensures topsize == old(topsize) + r.size
      ensures top in old(blocks) && blocks == Longer(old(blocks), top, r.size)
    {
      ghost var b := Appended(r);
      segs := segs[i := segs[i].(size := segs[i].size + r.size)];
      InitTop(top, topsize + r.size);
      blocks := b;
    }

    /** The segment that ends at `base`, newest first; |segs| when there is none. */
    method SegmentEndingAt(base: nat) returns (i: nat)
      ensures i <= |segs| && (i < |segs| ==> End(segs[i]) == base)
      ensures forall j :: i < j < |segs| ==> End(segs[j]) != base
      ensures i == |segs| ==> forall j :: 0 <= j < |segs| ==> End(segs[j]) != base
    {
      i := |segs|;
      while i > 0
        invariant i <= |segs| && forall j :: i <= j < |segs| ==> End(segs[j]) != base
      {
        i := i - 1;
        if End(segs[i]) == base {
          return;
        }
      }
      i := |segs|;
    }

    /** The segment that starts at `base`. */
    method SegmentStartingAt(base: nat) returns (i: nat)
      ensures i <= |segs| && (i < |segs| ==> segs[i].base == base)
      ensures i == |segs| ==> forall j :: 0 <= j < |segs| ==> segs[j].base != base
    {
      i := |segs|;
      while i > 0
        invariant i <= |segs| && forall j :: i <= j < |segs| ==> segs[j].base != base
      {
        i := i - 1;
        if segs[i].base == base {
          return;
        }
      }
      i := |segs|;
    }

    /** `segment_holding` */
    method SegmentHolding(a: nat) returns (i: nat)
      requires exists j :: 0 <= j < |segs| && segs[j].base <= a < End(segs[j])
      ensures i < |segs| && segs[i].base <= a < End(segs[i])
    {
      i := |segs| - 1;
      while !(segs[i].base <= a < End(segs[i]))
        invariant i < |segs| && forall j :: i < j < |segs| ==> !(segs[j].base <= a < End(segs[j]))
        decreases i
      {
        i := i - 1;
      }
    }

    lemma TopSegment()
      requires Valid() && top != 0
      ensures |segs| > 0 && segs[|segs| - 1].base <= top < End(segs[|segs| - 1]) == top + topsize + TOP_FOOT_SIZE
      ensures forall j :: 0 <= j < |segs| && segs[j].base <= top < End(segs[j]) ==> j == |segs| - 1
      ensures topsize > 0 && top % 8 == 0 && top > 0 && End(segs[|segs| - 1]) % 4 == 0 && top in blocks
      ensures Next(blocks, top) == End(segs[|segs| - 1]) < WORD
    {
      TagFacts(blocks, segs, head, foot, 0, top, topsize, top);
      assert BlockOk(blocks, segs, top) && SegmentOk(blocks, segs, |segs| - 1);
    }

    /** The closing run of fenceposts from p to the end of a segment. */
    method WriteFences(p0: nat, end: nat) returns (nfences: nat)
      requires p0 + 16 <= end
      modifies `head
      ensures nfences >= 2 && HeadAt(head, p0) == FENCEPOST_HEAD
      ensures forall k :: 0 <= k < nfences ==> HeadAt(head, p0 + 4 * k) == FENCEPOST_HEAD
      ensures p0 + 4 * nfences < end <= p0 + 4 * nfences + 4
      ensures forall a: nat :: a < p0 || a >= end ==> HeadAt(head, a) == HeadAt(old(head), a)
    {
      var p := p0;
      nfences := 0;
      while true
        invariant p == p0 + 4 * nfences && p + 4 < end
        invariant forall k :: 0 <= k < nfences ==> HeadAt(head, p0 + 4 * k) == FENCEPOST_HEAD
        invariant forall a: nat :: a < p0 || a >= end ==> HeadAt(head, a) == HeadAt(old(head), a)
        decreases end - p
      {
        var nextp := p + 4;
        head := head[p := FENCEPOST_HEAD];
        nfences := nfences + 1;
        if nextp + 4 < end {
          p := nextp;
        } else {
          break;
        }
      }
    }

    /** The words that `add_segment` writes, before the rest of the old top is binned. */
    method RetireTop(r: Segment, csp: nat, oldend: nat)
      requires MemOk(blocks, segs, head, foot, 0, top, topsize) && RegionOk(segs, r) && top != 0
      requires oldend == Next(blocks, top) && RecordRoom(top, csp, oldend)
      modifies `head, `foot, `top, `topsize
      ensures top == AlignAsChunk(r.base) && topsize == TopSizeIn(r)
      ensures RetiredHeads(blocks, old(head), old(top), csp, head)
      ensures HeadAt(head, top) == Head(topsize, false, true) && HeadAt(head, top + topsize) == TOP_FOOT_HEAD
      ensures foot == if csp == old(top) then old(foot) else old(foot)[csp := csp - old(top)]
    {
      ghost var head0, foot0, topsize0 := head, foot, topsize;
      var oldtop := top;
      InitTop(r.base, r.size - TOP_FOOT_SIZE);
      SetInuseChunk(csp, RECORD_SIZE);
      ghost var h2 := head;
      var nfences := WriteFences(csp + RECORD_SIZE, oldend);
      ghost var h3 := head;
      if csp != oldtop {
        SetFreeWithPinuse(oldtop, csp - oldtop, csp);
      }
      RetiringHeads(blocks, segs, head0, foot0, oldtop, topsize0, r, csp, oldend, h2, h3, head);
    }

    /** `add_segment`: the old top gives way to a free chunk (if there is room for one), the
        record and the fenceposts; the region becomes the newest segment. */
    method AddSegment(r: Segment)
      requires Valid() && top != 0 && RegionOk(segs, r)
      modifies this, small, trees
      ensures Valid() && segs == old(segs) + [r] && topsize == TopSizeIn(r)
      ensures AddedTo(old(blocks), blocks, old(segs), old(top), r) && dv == old(dv)
    {
      TopSegment();
      var oldtop := top;
      var oldsp := SegmentHolding(oldtop);
      var oldend := End(segs[oldsp]);
      RecordFits(oldtop, oldend, topsize);
      var csp := RecordAt(oldtop, oldend);
      SplitOffTop(r, csp, oldend);
      if csp != oldtop {
        InsertChunk(oldtop, csp - oldtop);
      }
    }

    method SplitOffTop(r: Segment, csp: nat, oldend: nat)
      requires Valid() && top != 0 && RegionOk(segs, r) && top in blocks && oldend == Next(blocks, top)
      requires RecordRoom(top, csp, oldend)
      requires oldend >= 47 && csp == RecordAt(top, oldend)
      modifies `head, `foot, `top, `topsize, `segs, `blocks
      ensures Inv(0, if csp == old(top) then 0 else old(top)) && segs == old(segs) + [r] && topsize == TopSizeIn(r)
      ensures AddedTo(old(blocks), blocks, old(segs), old(top), r)
      ensures csp != old(top) ==> old(top) in blocks && blocks[old(top)].size == csp - old(top)
    {
      ghost var b0, segs0, head0, foot0, top0, topsize0 := blocks, segs, head, foot, top, topsize;
      RetireTop(r, csp, oldend);
      segs := segs + [r];
      blocks := SegmentAdded(b0, segs0, head0, foot0, top0, topsize0, r, csp, head);
      SegmentAddedBinned(b0, segs0, head0, foot0, top0, topsize0, dv, dvsize, small.content, trees.content, r, csp);
    }

    /** The region r goes before segment i, with room for n bytes and a further chunk. */
    ghost predicate Prepends(r: Segment, i: nat, n: nat)
      reads this
    {
      && RegionOk(segs, r) && i < |segs| && segs[i].base == End(r)
      && n % 8 == 0 && n >= 16 && AlignAsChunk(r.base) + n + 16 <= AlignAsChunk(segs[i].base)
    }

    /** What is known once the rest q of the region is in hand. */
    lemma PrependedInHand(r: Segment, i: nat, n: nat) returns (b0: Blocks, b1: Blocks)
      requires Valid() && Prepends(r, i, n)
      ensures b1 == Prepended(blocks, segs, i, r, n)
      ensures var p, q := AlignAsChunk(r.base), AlignAsChunk(r.base) + n;
              && q in b1 && b0 == Retag(b1, q, Used) && q > 0 && dv != q && p != q
              && RegionRest(b0, b1, Joined(segs, i, r), head[p := Head(n, true, true)], foot, q, top, topsize,
                            Head(0, false, true))
              && Binned(b1, dv, dvsize, q, 0, small.content, trees.content)
              && Next(b1, q) == AlignAsChunk(segs[i].base) && Next(b1, q) in blocks
              && b1[Next(b1, q)] == blocks[Next(b1, q)]
    {
      var q, h := AlignAsChunk(r.base) + n, Head(0, false, true);
      PrependMem(blocks, segs, head, foot, top, topsize, i, r, n, h);
      PrependHeld(blocks, segs, i, r, n);
      b1 := Prepended(blocks, segs, i, r, n);
      b0 := Retag(b1, q, Used);
      PrependedBinned(blocks, segs, dv, dvsize, small.content, trees.content, r, i, n);
    }

    /** The rest of a prepended region is in hand: chunk q, whose head is not yet written. */
    ghost predicate RestInHand(b0: Blocks, q: nat)
      reads this, small, trees
    {
      && small.Valid() && trees.Valid()
      && RegionRest(b0, blocks, segs, head, foot, q, top, topsize, Head(0, false, true))
      && Binned(blocks, dv, dvsize, q, 0, small.content, trees.content)
      && q > 0 && dv != q && Next(blocks, q) > q
    }

    lemma RestTopJoined(q: nat, b0: Blocks, s: nat) returns (b: Blocks)
      requires RestInHand(b0, q) && Next(blocks, q) == top && s == topsize + blocks[q].size
      ensures MemOk(b, segs, head[q := Head(s, false, true)], foot, 0, q, s)
      ensures Binned(b, dv, dvsize, 0, 0, small.content, trees.content) && FreedAs(b0, b, q, q)
    {
      RestToTop(b0, blocks, segs, head, foot, q, top, topsize, Head(0, false, true));
      TagFacts(blocks, segs, head[q := Head(0, false, true)], foot, q, top, topsize, top);
      JoinTopBinned(blocks, dv, dvsize, q, small.content, trees.content);
      b := Fuse(blocks, q, Top);
    }

    method RestJoinsTop(q: nat, qsize: nat, ghost b0: Blocks)
      requires RestInHand(b0, q) && qsize == blocks[q].size && Next(blocks, q) == top
      modifies `head, `blocks, `top, `topsize
      ensures Valid() && FreedAs(b0, blocks, q, q)
    {
      var tsize := topsize + qsize;
      ghost var b := RestTopJoined(q, b0, tsize);
      BecomeTop(q, tsize, b);
    }

    lemma RestDvJoined(q: nat, b0: Blocks, s: nat) returns (b: Blocks)
      requires RestInHand(b0, q) && Next(blocks, q) == dv && s == dvsize + blocks[q].size
      ensures MemOk(b, segs, head[q := Head(s, false, true)], foot[q + s := s], 0, top, topsize)
      ensures Binned(b, q, s, 0, 0, small.content, trees.content) && FreedAs(b0, b, q, q)
    {
      b := RestToNext(b0, blocks, segs, head, foot, q, top, topsize, Head(0, false, true), s);
      AbsorbDvBinned(blocks, dv, dvsize, q, small.content, trees.content, s);
    }

    method RestJoinsDv(q: nat, qsize: nat, ghost b0: Blocks)
      requires RestInHand(b0, q) && qsize == blocks[q].size && Next(blocks, q) == dv
      modifies `head, `foot, `blocks, `dv, `dvsize
      ensures Valid() && FreedAs(b0, blocks, q, q) && dv == q
    {
      var dsize := dvsize + qsize;
      ghost var b := RestDvJoined(q, b0, dsize);
      dvsize := dsize;
      dv := q;
      BecomeFreeHere(q, dsize, b, 0);
    }

    lemma RestNextJoined(q: nat, b0: Blocks, s: nat) returns (b: Blocks)
      requires RestInHand(b0, q) && Next(blocks, q) in blocks && blocks[Next(blocks, q)].kind == Free
      requires s == blocks[q].size + blocks[Next(blocks, q)].size
      ensures b == Retag(Fuse(blocks, q, Loose), q, Free) && q in b && b[q].size == s && FreedAs(b0, b, q, q)
      ensures MemOk(b, segs, SetPinuse(head, q + s, false)[q := Head(s, false, true)], foot[q + s := s], 0, top,
                    topsize)
    {
      b := RestToNext(b0, blocks, segs, head, foot, q, top, topsize, Head(0, false, true), s);
    }

    method RestJoinsFree(q: nat, qsize: nat, first: nat, nsize: nat, ghost b0: Blocks)
      requires RestInHand(b0, q) && qsize == blocks[q].size && Next(blocks, q) == first && first != dv
      requires blocks[first].kind == Free && nsize == blocks[first].size && nsize > 0
      modifies `head, `foot, `blocks, small, trees
      ensures Inv(0, q) && FreedAs(b0, blocks, q, q) && q in blocks && blocks[q].size == qsize + nsize
    {
      var s := qsize + nsize;
      ghost var b := RestNextJoined(q, b0, s);
      UnlinkNext(q, first, nsize, s, b);
      BecomeFree(q, s, q + s, b, q);
    }

    method RestSettles(q: nat, qsize: nat, first: nat, ghost b0: Blocks)
      requires RestInHand(b0, q) && qsize == blocks[q].size && Next(blocks, q) == first && InUse(blocks[first].kind)
      modifies `head, `foot, `blocks
      ensures Inv(0, q) && FreedAs(b0, blocks, q, q) && q in blocks && blocks[q].size == qsize
    {
      ghost var b := RestAlone(b0, blocks, segs, head, foot, q, top, topsize, Head(0, false, true), qsize);
      SettleBinned(blocks, dv, dvsize, q, small.content, trees.content);
      BecomeFree(q, qsize, first, b, q);
    }

    /** The branches of `prepend_alloc`. */
    method SettleRest(q: nat, qsize: nat, first: nat, ghost b0: Blocks)
      requires RestInHand(b0, q) && qsize == blocks[q].size && Next(blocks, q) == first && blocks[first].kind != Fence
      requires HeadAt(head, first).pinuse
      modifies this, small, trees
      ensures Valid() && segs == old(segs) && FreedAs(b0, blocks, q, q) && dv == if first == old(dv) then q else old(dv)
    {
      TagFacts(blocks, segs, head[q := Head(0, false, true)], foot, q, top, topsize, first);
      if first == top {
        RestJoinsTop(q, qsize, b0);
      } else if first == dv {
        RestJoinsDv(q, qsize, b0);
      } else {
        var s := qsize;
        if !HeadAt(head, first).cinuse {
          var nsize := ChunkSize(head, first);
          RestJoinsFree(q, qsize, first, nsize, b0);
          s := qsize + nsize;
        } else {
          RestSettles(q, qsize, first, b0);
        }
        InsertChunk(q, s);
      }
    }

    /** `prepend_alloc`, together with the change of the segment's base and size. */
    method PrependAlloc(r: Segment, i: nat, nb: nat) returns (mem: nat)
      requires Valid() && Prepends(r, i, nb)
      modifies this, small, trees
      ensures Valid() && segs == Joined(old(segs), i, r) && mem == AlignAsChunk(r.base) + 8
      ensures PrependedTo(old(blocks), blocks, old(segs), i, r, nb)
      ensures dv == PrependedDv(old(blocks), old(segs), i, r, nb, old(dv))
    {
      var p := AlignAsChunk(r.base);
      var oldfirst := AlignAsChunk(segs[i].base);
      var psize := oldfirst - p;
      var q := p + nb;
      var qsize := psize - nb;
      ghost var b0 := TakeRegion(r, i, nb);
      mem := p + 8;
      SettleRest(q, qsize, oldfirst, b0);
    }

    /** The region becomes part of segment i: the chunk at its start is in use, and the rest of
        it is in hand. */
    method TakeRegion(r: Segment, i: nat, nb: nat) returns (ghost b0: Blocks)
      requires Valid() && Prepends(r, i, nb)
      modifies `segs, `head, `blocks
      ensures var p, first := AlignAsChunk(r.base), AlignAsChunk(old(segs)[i].base); var q := p + nb;
              && RestInHand(b0, q) && q in blocks && blocks[q].size == first - p - nb && first in blocks
              && Next(blocks, q) == first && blocks[first].kind != Fence
              && HeadAt(head, first).pinuse
              && b0 == Retag(Prepended(old(blocks), old(segs), i, r, nb), q, Used)
      ensures segs == Joined(old(segs), i, r)
    {
      var p := AlignAsChunk(r.base);
      FirstPinuse(blocks, segs, head, foot, i);
      ghost var b1;
      b0, b1 := PrependedInHand(r, i, nb);
      assert HeadAt(head[p := Head(nb, true, true)], AlignAsChunk(segs[i].base)) ==
          HeadAt(head, AlignAsChunk(segs[i].base));
      segs := segs[i := Segment(r.base, segs[i].size + r.size)];
      HoldRest(p, nb, p + nb, b0, b1);
    }

    /** The chunk at the start of the region gets its head. */
    method HoldRest(p: nat, nb: nat, ghost q: nat, ghost b0: Blocks, ghost b1: Blocks)
      requires small.Valid() && trees.Valid() && q in b1 && q > 0 && dv != q && Next(b1, q) > q
      requires RegionRest(b0, b1, segs, head[p := Head(nb, true, true)], foot, q, top, topsize, Head(0, false, true))
      requires Binned(b1, dv, dvsize, q, 0, small.content, trees.content)
      modifies `head, `blocks
      ensures RestInHand(b0, q) && blocks == b1 && head == old(head)[p := Head(nb, true, true)]
    {
      SetInuseChunk(p, nb);
      blocks := b1;
    }

    /** Chunk p of n bytes is in use now, and all else that was. */
    static predicate OneMore(u: Content, u': Content, p: nat, n: nat) {
      p !in u && u' == u[p := n]
    }

    /** The end of `sys_alloc`: the top serves the request if it can. */
    method ServeFromTop(nb: nat) returns (mem: nat)
      requires Valid() && (Padded(nb) || nb == MAX_SIZE_T)
      modifies `head, `blocks, `top, `topsize
      ensures Valid() && (mem == 0 <==> old(topsize) <= nb)
      ensures mem == 0 ==> blocks == old(blocks)
      ensures mem != 0 ==> mem > 8 && OneMore(UsedChunks(old(blocks)), UsedChunks(blocks), mem - 8, nb)
      ensures mem != 0 ==>
                && mem == old(top) + 8 && old(top) in old(blocks) && old(blocks)[old(top)].kind == Top
                && Handed(old(blocks), blocks, mem - 8, nb)
    {
      mem := 0;
      if nb < topsize {
        ghost var b0 := blocks;
        TopSegment();
        mem := UseTop(nb);
        HandedUsed(b0, segs, blocks, mem - 8, nb);
      }
    }

    ghost predicate IsPrepended(segs: seq<Segment>, top: nat, r: Segment) {
      top != 0 && !ContinuesTop(segs, r) && PrecedesSome(segs, r)
    }

    /** A region that does not lie before a segment goes to the top, or becomes a new one. */
    method ExtendTop(r: Segment)
      requires Valid() && RegionOk(segs, r) && !IsPrepended(segs, top, r)
      modifies this, small, trees
      ensures Valid() && Grown(old(segs), segs, old(top), r)
      ensures topsize == GrownTop(old(segs), old(top), old(topsize), r) && UsedChunks(blocks) == UsedChunks(old(blocks))
      ensures GrownBlocks(old(blocks), blocks, old(segs), old(top), r) && dv == old(dv)
    {
      if top == 0 {
        NoneUsed();
        FirstSegment(r);
      } else {
        GrowFurther(r);
      }
    }

    lemma NoneUsed()
      requires Valid() && top == 0
      ensures segs == [] && UsedChunks(blocks) == map[]
    {
    }

    method GrowFurther(r: Segment)
      requires Valid() && top != 0 && RegionOk(segs, r) && !IsPrepended(segs, top, r)
      modifies this, small, trees
      ensures Valid() && Grown(old(segs), segs, old(top), r)
      ensures topsize == GrownTop(old(segs), old(top), old(topsize), r) && UsedChunks(blocks) == UsedChunks(old(blocks))
      ensures GrownBlocks(old(blocks), blocks, old(segs), old(top), r) && dv == old(dv)
    {
      ghost var b0, segs0, top0 := blocks, segs, top;
      TopSegment();
      if r.base == End(segs[|segs| - 1]) {
        Append(r, |segs| - 1);
      } else {
        AddSegment(r);
        AddedUsed(b0, segs0, blocks, top0, r);
      }
    }

    /** The search of `sys_alloc` for the segment that a region can be merged with: the one
        it continues, if that holds the top, or else one that it precedes. */
    method MergeTarget(r: Segment) returns (prepends: bool, i: nat)
      requires Valid() && RegionOk(segs, r)
      ensures prepends <==> IsPrepended(segs, top, r)
      ensures prepends ==> i < |segs| && segs[i].base == End(r)
    {
      prepends, i := false, 0;
      if top != 0 {
        TopSegment();
        var sp := SegmentEndingAt(r.base);
        if !(sp < |segs| && segs[sp].base <= top < End(segs[sp])) {
          i := SegmentStartingAt(End(r));
          prepends := i < |segs|;
        }
      }
    }

    method ServeFromRegion(r: Segment, i: nat, nb: nat) returns (mem: nat)
      requires Valid() && Prepends(r, i, nb) && IsPrepended(segs, top, r)
      modifies this, small, trees
      ensures Valid() && Grown(old(segs), segs, old(top), r)
      ensures mem > 8 && OneMore(UsedChunks(old(blocks)), UsedChunks(blocks), mem - 8, nb)
      ensures RegionServed(old(blocks), blocks, old(segs), r, nb, mem, old(dv), dv)
    {
      ghost var b0, segs0 := blocks, segs;
      mem := PrependAlloc(r, i, nb);
      PrependedUsed(b0, segs0, blocks, i, r, nb);
    }

    /** `sys_alloc` once the system has given region r: the request is served from the region
        itself when that lies before a segment, and otherwise from the top if it is large
        enough now. */
    method UseRegion(r: Segment, nb: nat) returns (mem: nat)
      requires Valid() && (Padded(nb) || nb == MAX_SIZE_T) && RegionFor(segs, top, r, nb)
      modifies this, small, trees
      ensures Valid() && Grown(old(segs), segs, old(top), r)
      ensures mem == 0 ==> UsedChunks(blocks) == UsedChunks(old(blocks))
      ensures mem != 0 ==> nb < MAX_SIZE_T
      ensures mem == 0 || Allocated(nb, mem)
      ensures mem == 0 <==> !IsPrepended(old(segs), old(top), r) && GrownTop(old(segs), old(top), old(topsize), r) <= nb
      ensures if IsPrepended(old(segs), old(top), r) then
                RegionServed(old(blocks), blocks, old(segs), r, nb, mem, old(dv), dv)
              else GrownServed(old(blocks), blocks, old(segs), old(top), r, nb, mem) && dv == old(dv)
    {
      var prepends, i := MergeTarget(r);
      if prepends {
        mem := ServeFromRegion(r, i, nb);
      } else {
        mem := ServeFromGrown(r, nb);
      }
      UsedBound();
    }

    /** The region goes to the top, and the request is served from there. */
    method ServeFromGrown(r: Segment, nb: nat) returns (mem: nat)
      requires Valid() && (Padded(nb) || nb == MAX_SIZE_T) && RegionOk(segs, r) && !IsPrepended(segs, top, r)
      modifies this, small, trees
      ensures Valid() && Grown(old(segs), segs, old(top), r)
      ensures mem == 0 ==> UsedChunks(blocks) == UsedChunks(old(blocks))
      ensures mem != 0 ==> mem > 8 && OneMore(UsedChunks(old(blocks)), UsedChunks(blocks), mem - 8, nb)
      ensures mem == 0 <==> GrownTop(old(segs), old(top), old(topsize), r) <= nb
      ensures GrownServed(old(blocks), blocks, old(segs), old(top), r, nb, mem) && dv == old(dv)
    {
      ExtendTop(r);
      ghost var b1 := blocks;
      mem := ServeFromTop(nb);
      assert GrownBlocks(old(blocks), b1, old(segs), old(top), r);
    }

    // ----- The public allocation calls -----

    /** The chunk size for a request, and the size that no memory can serve for one that is
        too big. */
    function PaddedSize(bytes: nat): nat {
      if bytes >= MAX_REQUEST then MAX_SIZE_T else Request2Size(bytes)
    }

    /** The large-request path up to the designated victim. */
    method LargeRequest(nb: nat) returns (mem: nat)
      requires Valid() && Padded(nb) && nb >= MIN_LARGE_SIZE
      modifies this, small, trees
      ensures Valid() && segs == old(segs)
      ensures mem == 0 ==> unchanged(this) && unchanged(small) && unchanged(trees)
      ensures mem == 0 ==> forall v :: !BetterThanDv(InStock(), nb, v)
      ensures mem != 0 ==> mem > 8 && old(Foremost(mem - 8))
      ensures mem == 0 || (mem > 8 && Served(old(blocks), old(InStock()), blocks, dv, mem - 8, nb))
    {
      mem := 0;
      if trees.treemap != 0 {
        mem := TmallocLarge(nb);
        if mem != 0 { LargeServed(old(blocks), old(InStock()), blocks, mem - 8, nb); }
      } else {
        trees.Unmarked();
      }
    }

    /** The first half of `dlmalloc`: the request is padded, and served from the bins if
        they have the chosen chunk. */
    method FromBins(bytes: nat) returns (nb: nat, mem: nat)
      requires Valid() && bytes < WORD
      modifies this, small, trees
      ensures Valid() && segs == old(segs) && nb == PaddedSize(bytes) && (Padded(nb) || nb == MAX_SIZE_T)
      ensures mem == 0 ==> unchanged(this) && unchanged(small) && unchanged(trees)
      ensures mem == 0 && nb <= dvsize ==> Chosen(InStock(), nb, dv)
      ensures mem == 0 && dvsize < nb ==> NoneFits(small.content, nb) && NoneFits(trees.content, nb)
      ensures mem != 0 ==> mem > 8 && old(Foremost(mem - 8))
      ensures mem == 0 || (mem > 8 && Served(old(blocks), old(InStock()), blocks, dv, mem - 8, nb))
    {
      mem := 0;
      if bytes < MAX_REQUEST { IsPadded(bytes); }
      if bytes <= MAX_SMALL_REQUEST {
        nb := if bytes < MIN_REQUEST then MIN_CHUNK_SIZE else PadRequest(bytes);
        mem := SmallRequest(nb);
      } else if bytes >= MAX_REQUEST {
        nb := MAX_SIZE_T;
        NoneAsLarge();
      } else {
        nb := PadRequest(bytes);
        mem := LargeRequest(nb);
        if mem == 0 {
          NoneBetter(nb);
        }
      }
    }

    /** No chunk is as large as the size that stands for a request that is too big. */
    lemma NoneAsLarge()
      requires Valid()
      ensures NoneFits(small.content, MAX_SIZE_T) && NoneFits(trees.content, MAX_SIZE_T) && dvsize < MAX_SIZE_T
      ensures topsize < MAX_SIZE_T
    {
      DvBound();
      if top != 0 { TopSegment(); }
      forall a | a in small.content || a in trees.content ensures a in blocks && blocks[a].size < MAX_SIZE_T
        && (a in small.content ==> small.content[a] == blocks[a].size)
        && (a in trees.content ==> trees.content[a] == blocks[a].size) {
        assert Place(blocks, dv, 0, small.content, trees.content, a);
        TagFacts(blocks, segs, head, foot, 0, top, topsize, a);
      }
    }

    lemma NoneBetter(nb: nat)
      requires Valid() && nb >= MIN_LARGE_SIZE && forall v :: !BetterThanDv(InStock(), nb, v)
      ensures nb <= dvsize ==> Chosen(InStock(), nb, dv)
      ensures dvsize < nb ==> NoneFits(small.content, nb) && NoneFits(trees.content, nb)
    {
      forall a | a in small.content ensures small.content[a] < nb {
        assert Place(blocks, dv, 0, small.content, trees.content, a);
      }
      if dvsize < nb {
        forall a | a in trees.content ensures trees.content[a] < nb {
          if trees.content[a] >= nb {
            var v := LeastExists(trees.content, nb, a);
            assert BetterThanDv(InStock(), nb, v);
          }
        }
      }
    }

    /** What a call of `dlmalloc` promises about the memory it returns. */
    twostate predicate Allocated(nb: nat, mem: nat)
      reads this
    {
      && mem > 8 && mem - 8 !in UsedChunks(old(blocks)) && mem - 8 in UsedChunks(blocks)
      && nb <= UsedChunks(blocks)[mem - 8] < nb + MIN_CHUNK_SIZE
      && UsedChunks(blocks) == UsedChunks(old(blocks))[mem - 8 := UsedChunks(blocks)[mem - 8]]
    }

    /** A stock in which some chunk is chosen is not exhausted. */
    lemma ChosenNotExhausted(nb: nat)
      requires Valid()
      ensures forall v :: Chosen(InStock(), nb, v) ==> !Exhausted(InStock(), nb)
    {
      forall a | a in small.content ensures small.content[a] < MIN_LARGE_SIZE {
        assert Place(blocks, dv, 0, small.content, trees.content, a);
      }
      var _ := ChoiceExists(InStock(), nb);
    }

    /** When the bins and the designated victim do not serve, the top is chosen if it can. */
    lemma TopChosen(nb: nat)
      requires Valid() && dvsize < nb && NoneFits(small.content, nb) && NoneFits(trees.content, nb)
      ensures nb < topsize ==> Chosen(InStock(), nb, top)
      ensures topsize <= nb ==> Exhausted(InStock(), nb)
    {
    }

    /** `dlmalloc` up to `sys_alloc`: the request is served exactly when something in stock
        fits, and then from the chunk that the policy chooses. */
    method FromStock(bytes: nat) returns (nb: nat, mem: nat)
      requires Valid() && bytes < WORD
      modifies this, small, trees
      ensures Valid() && segs == old(segs) && nb == PaddedSize(bytes) && (Padded(nb) || nb == MAX_SIZE_T)
      ensures mem == 0 <==> Exhausted(old(InStock()), nb)
      ensures mem == 0 ==> unchanged(this) && unchanged(small) && unchanged(trees)
      ensures mem != 0 ==>
                mem > 8 && Served(old(blocks), old(InStock()), blocks, dv, mem - 8, nb) && old(Foremost(mem - 8))
      ensures mem != 0 ==> bytes < MAX_REQUEST && Allocated(nb, mem)
    {
      ghost var b0 := blocks;
      nb, mem := ServeFromStock(bytes);
      if mem != 0 {
        HandedUsed(b0, segs, blocks, mem - 8, nb);
        UsedBound();
      }
    }

    method ServeFromStock(bytes: nat) returns (nb: nat, mem: nat)
      requires Valid() && bytes < WORD
      modifies this, small, trees
      ensures Valid() && segs == old(segs) && nb == PaddedSize(bytes) && (Padded(nb) || nb == MAX_SIZE_T)
      ensures mem == 0 <==> Exhausted(old(InStock()), nb)
      ensures mem == 0 ==> unchanged(this) && unchanged(small) && unchanged(trees)
      ensures mem != 0 ==> mem > 8 && old(Foremost(mem - 8))
      ensures mem == 0 || (mem > 8 && Served(old(blocks), old(InStock()), blocks, dv, mem - 8, nb))
    {
      ChosenNotExhausted(PaddedSize(bytes));
      nb, mem := FromBins(bytes);
      if mem == 0 {
        mem := FromDvOrTop(nb);
      }
    }

    method FromDvOrTop(nb: nat) returns (mem: nat)
      requires Valid() && (Padded(nb) || nb == MAX_SIZE_T)
      requires nb <= dvsize ==> Chosen(InStock(), nb, dv)
      requires dvsize < nb ==> NoneFits(small.content, nb) && NoneFits(trees.content, nb)
      modifies this
      ensures Valid() && segs == old(segs)
      ensures mem == 0 <==> Exhausted(old(InStock()), nb)
      ensures mem == 0 ==> unchanged(this)
      ensures mem != 0 ==> mem > 8 && old(Foremost(mem - 8))
      ensures mem == 0 || (mem > 8 && Served(old(blocks), old(InStock()), blocks, dv, mem - 8, nb))
    {
      assert dvsize < MAX_SIZE_T && topsize < MAX_SIZE_T by { NoneAsLarge(); }
      UnbinnedForemost();
      mem := 0;
      if nb <= dvsize {
        ChosenNotExhausted(nb);
        mem := UseDv(nb);
      } else {
        TopChosen(nb);
        if nb < topsize {
          mem := UseTop(nb);
        }
      }
    }

    /** Nothing in stock serves the request, and the system gives nothing, or too little. */
    ghost predicate Refused(nb: nat, region: Option<Segment>)
      requires region.Some? ==> RegionOk(segs, region.value)
      reads this, small, trees
    {
      && Exhausted(InStock(), nb)
      && (region.Some? ==>
            && !IsPrepended(segs, top, region.value)
            && GrownTop(segs, top, topsize, region.value) <= nb)
    }

    /** `dlmalloc`. The region, if any, is what the system gives should it be asked. */
    method DlMalloc(bytes: nat, region: Option<Segment>) returns (mem: nat)
      requires Valid() && bytes < WORD
      requires region.Some? ==> RegionFor(segs, top, region.value, PaddedSize(bytes))
      modifies this, small, trees
      ensures Valid()
      ensures mem != 0 ==> bytes < MAX_REQUEST && Allocated(PaddedSize(bytes), mem)
      ensures mem == 0 ==> UsedChunks(blocks) == UsedChunks(old(blocks))
      ensures !Exhausted(old(InStock()), PaddedSize(bytes)) ==>
                && mem > 8 && segs == old(segs) && old(Foremost(mem - 8))
                && Served(old(blocks), old(InStock()), blocks, dv, mem - 8, PaddedSize(bytes))
      ensures Exhausted(old(InStock()), PaddedSize(bytes)) && region.None? ==>
                mem == 0 && unchanged(this) && unchanged(small) && unchanged(trees)
      ensures Exhausted(old(InStock()), PaddedSize(bytes)) && region.Some? ==>
                && Grown(old(segs), segs, old(top), region.value)
                && if IsPrepended(old(segs), old(top), region.value) then
                     RegionServed(old(blocks), blocks, old(segs), region.value, PaddedSize(bytes), mem, old(dv), dv)
                   else
                     && GrownServed(old(blocks), blocks, old(segs), old(top), region.value, PaddedSize(bytes), mem)
                     && dv == old(dv)
      ensures mem == 0 <==> old(Refused(PaddedSize(bytes), region))
    {
      var nb;
      nb, mem := FromStock(bytes);
      if mem == 0 && region.Some? {
        mem := UseRegion(region.value, nb);
      }
    }

    /** A chunk in use is smaller than the size that cannot be served. */
    lemma UsedBound()
      requires Valid()
      ensures forall a :: a in UsedChunks(blocks) ==> UsedChunks(blocks)[a] < MAX_SIZE_T
    {
      forall a | a in UsedChunks(blocks) ensures UsedChunks(blocks)[a] < MAX_SIZE_T {
        TagFacts(blocks, segs, head, foot, 0, top, topsize, a);
      }
    }

    // ----- Calloc -----

    /** `dlcalloc`: the product is exact or the request is made to fail. */
    method DlCalloc(count: nat, size: nat, region: Option<Segment>) returns (mem: nat)
      requires Valid() && count < WORD && size < WORD
      requires region.Some? ==> RegionFor(segs, top, region.value, PaddedSize(CallocSize(count, size)))
      modifies this, small, trees, memory
      ensures Valid()
      ensures mem != 0 ==> count * size < MAX_REQUEST && Allocated(PaddedSize(count * size), mem)
      ensures mem == 0 ==> UsedChunks(blocks) == UsedChunks(old(blocks))
      ensures mem == 0 <==> old(Refused(PaddedSize(CallocSize(count, size)), region))
      ensures forall a: nat ::
                memory.At(a) == if mem != 0 && mem <= a < mem + count * size then 0 else old(memory.At(a))
    {
      var req := CallocRequest(count, size);
      CallocSizeFacts(count, size);
      mem := DlMalloc(req, region);
      if mem != 0 {
        memory.Clear(mem, req);
      }
    }

    // ----- Realloc -----

    /** A used chunk can be cut after n bytes. */
    ghost predicate Cuttable(p: nat, n: nat)
      reads this
    {
      p in blocks && blocks[p].kind == Used && n % 8 == 0 && n >= 16 && n + 16 <= blocks[p].size
    }

    lemma UsedCut(p: nat, n: nat) returns (b: Blocks)
      requires Valid() && Cuttable(p, n)
      ensures HeadAt(head, p + blocks[p].size).pinuse && p > 0
      ensures b == Split(blocks, p, n, Used, Used) && p + n !in blocks
      ensures MemOk(b, segs, CutHeads(head, p, n, blocks[p].size), foot, 0, top, topsize)
      ensures Binned(b, dv, dvsize, 0, 0, small.content, trees.content)
      ensures UsedChunks(b) == UsedChunks(blocks)[p := n][p + n := blocks[p].size - n]
    {
      b := Split(blocks, p, n, Used, Used);
      TagFacts(blocks, segs, head, foot, 0, top, topsize, p);
      NextFacts(blocks, segs, head, foot, 0, top, topsize, p);
      NoneInside(blocks, segs, p, p + n);
      CutUsedMem(blocks, segs, head, foot, top, topsize, p, n, CutHeads(head, p, n, blocks[p].size));
      SameFreeBinned(blocks, dv, dvsize, small.content, trees.content, b);
    }

    /** The heads of the two parts as `internal_realloc` writes them, the lower one first. */
    method CutLow(p: nat, nb: nat, rsize: nat)
      requires Valid() && Cuttable(p, nb) && rsize == blocks[p].size - nb
      modifies `head, `blocks
      ensures Valid() && UsedChunks(blocks) == UsedChunks(old(blocks))[p := nb][p + nb := rsize]
      ensures blocks == Split(old(blocks), p, nb, Used, Used)
    {
      ghost var b := UsedCut(p, nb);
      WriteLow(p, nb, rsize);
      blocks := b;
    }

    method WriteLow(p: nat, nb: nat, rsize: nat)
      requires 0 < nb < nb + rsize && HeadAt(head, p + (nb + rsize)).pinuse
      modifies `head
      ensures head == CutHeads(old(head), p, nb, nb + rsize) && unchanged(small) && unchanged(trees)
    {
      ghost var h0 := head;
      SetInuse(p, nb);
      SetInuseAndPinuse(p + nb, rsize);
      CutLowFirst(h0, p, nb, nb + rsize);
    }

    /** A chunk in use gives back what is above its first nb bytes. */
    method Shrink(p: nat, nb: nat, rsize: nat)
      requires Valid() && Cuttable(p, nb) && rsize == blocks[p].size - nb
      modifies this, small, trees
      ensures Valid() && segs == old(segs) && UsedChunks(blocks) == UsedChunks(old(blocks))[p := nb]
      ensures FreedWith(Split(old(blocks), p, nb, Used, Used), blocks, p + nb, old(dv), dv, dvsize)
    {
      CutUnused(p, nb);
      CutLow(p, nb, rsize);
      assert p + nb in UsedChunks(blocks);
      ghost var u := UsedChunks(blocks);
      DlFree(p + nb + 8);
      TailGone(UsedChunks(old(blocks)), u, p, nb, p + nb);
    }

    lemma TailGone(u: Content, u1: Content, p: nat, nb: nat, q: nat)
      requires q !in u && q != p && q in u1 && u1 == u[p := nb][q := u1[q]]
      ensures Without(u1, q) == u[p := nb]
    {
    }

    lemma CutUnused(p: nat, nb: nat)
      requires Valid() && Cuttable(p, nb)
      ensures p + nb !in UsedChunks(blocks)
    {
      NoneInside(blocks, segs, p, p + nb);
    }

    lemma UsedGrown(p: nat, nb: nat, newtop: nat, newtopsize: nat) returns (b: Blocks)
      requires Valid() && p in blocks && blocks[p].kind == Used && Next(blocks, p) == top
      requires Padded(nb) && blocks[p].size < nb < blocks[p].size + topsize && newtop == p + nb
      requires newtopsize == blocks[p].size + topsize - nb
      ensures MemOk(b, segs, SetPinuse(head[p := Head(nb, true, HeadAt(head, p).pinuse)], newtop,
                                       true)[newtop := Head(newtopsize, false, true)],
                    foot, 0, newtop, newtopsize)
      ensures Binned(b, dv, dvsize, 0, 0, small.content, trees.content)
      ensures UsedChunks(b) == UsedChunks(blocks)[p := nb]
      ensures b == Split(Fuse(blocks, p, Top), p, nb, Used, Top)
    {
      GrowMem(blocks, segs, head, foot, top, topsize, p, nb);
      TagFacts(blocks, segs, head, foot, 0, top, topsize, p);
      NoneInside(blocks, segs, top, p + nb);
      b := Split(Fuse(blocks, p, Top), p, nb, Used, Top);
      SameFreeBinned(blocks, dv, dvsize, small.content, trees.content, b);
    }

    /** A chunk in use grows into the top after it. */
    method GrowIntoTop(oldp: nat, nb: nat)
      requires Valid() && oldp in blocks && blocks[oldp].kind == Used && Next(blocks, oldp) == top
      requires Padded(nb) && blocks[oldp].size < nb < blocks[oldp].size + topsize
      modifies `head, `blocks, `top, `topsize
      ensures Valid() && UsedChunks(blocks) == UsedChunks(old(blocks))[oldp := nb]
      ensures blocks == Split(Fuse(old(blocks), oldp, Top), oldp, nb, Used, Top)
    {
      TagFacts(blocks, segs, head, foot, 0, top, topsize, oldp);
      var newsize := ChunkSize(head, oldp) + topsize;
      var newtopsize := newsize - nb;
      var newtop := oldp + nb;
      ghost var b := UsedGrown(oldp, nb, newtop, newtopsize);
      SetInuse(oldp, nb);
      BecomeTop(newtop, newtopsize, b);
    }

    /** Whether `internal_realloc` resizes the chunk where it is. */
    ghost predicate FitsInPlace(p: nat, nb: nat)
      requires p in blocks
      reads this
    {
      blocks[p].size >= nb || (Next(blocks, p) == top && blocks[p].size + topsize > nb)
    }

    /** The tests of `internal_realloc`. */
    method FitsHere(oldp: nat, nb: nat) returns (fits: bool)
      requires Valid() && oldp in blocks && blocks[oldp].kind == Used
      ensures fits <==> FitsInPlace(oldp, nb)
    {
      SizeTag(oldp);
      var oldsize := ChunkSize(head, oldp);
      var next := oldp + oldsize;
      fits := oldsize >= nb || (next == top && oldsize + topsize > nb);
    }

    /** The first two branches of `internal_realloc`: the chunk shrinks, if that leaves a chunk, or grows
        into the top. */
    method ResizeInPlace(oldp: nat, nb: nat)
      requires Valid() && Padded(nb) && oldp in blocks && blocks[oldp].kind == Used && FitsInPlace(oldp, nb)
      modifies this, small, trees
      ensures Valid() && segs == old(segs)
      ensures Resized(UsedChunks(old(blocks)), UsedChunks(blocks), oldp, oldp, nb)
      ensures Reshaped(old(blocks), blocks, oldp, nb, old(dv), dv, dvsize)
    {
      SizeTag(oldp);
      var oldsize := ChunkSize(head, oldp);
      if oldsize >= nb {
        var rsize := oldsize - nb;
        if rsize >= MIN_CHUNK_SIZE {
          Shrink(oldp, nb, rsize);
        }
        SizeResized(UsedChunks(old(blocks)), oldp, UsedChunks(blocks)[oldp], nb);
      } else {
        GrowIntoTop(oldp, nb);
        SizeResized(UsedChunks(old(blocks)), oldp, nb, nb);
      }
    }

    lemma SizeResized(u: Content, p: nat, n: nat, nb: nat)
      requires p in u && nb <= n < nb + MIN_CHUNK_SIZE
      ensures Resized(u, u[p := n], p, p, nb)
      ensures n == u[p] ==> u[p := n] == u
    {
      assert Without(u, p)[p := n] == u[p := n];
    }

    /** Two chunks that clients hold have disjoint payloads. */
    lemma PayloadsApart(p: nat, q: nat)
      requires Valid() && p in UsedChunks(blocks) && q in UsedChunks(blocks) && p != q
      ensures p + UsedChunks(blocks)[p] + 4 <= q + 8 || q + UsedChunks(blocks)[q] + 4 <= p + 8
    {
      Ordered(blocks, segs, p, q);
      Ordered(blocks, segs, q, p);
    }

    /** `internal_malloc` */
    method InternalMalloc(bytes: nat, region: Option<Segment>) returns (mem: nat)
      requires Valid() && bytes < WORD
      requires region.Some? ==> RegionFor(segs, top, region.value, PaddedSize(bytes))
      modifies this, small, trees
      ensures Valid() && unchanged(memory)
      ensures mem != 0 ==> bytes < MAX_REQUEST && Allocated(PaddedSize(bytes), mem)
      ensures mem == 0 ==> UsedChunks(blocks) == UsedChunks(old(blocks))
      ensures mem == 0 <==> old(Refused(PaddedSize(bytes), region))
      ensures !Exhausted(old(InStock()), PaddedSize(bytes)) ==>
                && mem > 8 && segs == old(segs) && old(Foremost(mem - 8))
                && Served(old(blocks), old(InStock()), blocks, dv, mem - 8, PaddedSize(bytes))
      ensures Exhausted(old(InStock()), PaddedSize(bytes)) && region.None? ==>
                unchanged(this) && unchanged(small) && unchanged(trees)
      ensures Exhausted(old(InStock()), PaddedSize(bytes)) && region.Some? ==>
                && Grown(old(segs), segs, old(top), region.value)
                && if IsPrepended(old(segs), old(top), region.value) then
                     RegionServed(old(blocks), blocks, old(segs), region.value, PaddedSize(bytes), mem, old(dv), dv)
                   else
                     && GrownServed(old(blocks), blocks, old(segs), old(top), region.value, PaddedSize(bytes), mem)
                     && dv == old(dv)
    {
      mem := DlMalloc(bytes, region);
    }

    /** `internal_free` */
    method InternalFree(mem: nat)
      requires Valid() && Live(mem)
      modifies this, small, trees
      ensures Valid() && segs == old(segs) && UsedChunks(blocks) == Without(UsedChunks(old(blocks)), mem - 8)
      ensures FreedWith(old(blocks), blocks, mem - 8, old(dv), dv, dvsize) && unchanged(memory)
    {
      DlFree(mem);
    }

    /** How many bytes of a chunk of `size` bytes `realloc` keeps. */
    function Kept(size: nat, bytes: nat): nat {
      if size < 4 then 0 else if size - 4 < bytes then size - 4 else bytes
    }

    /** The block that `realloc` makes, if it makes one. */
    method NewBlock(bytes: nat, region: Option<Segment>) returns (mem: nat)
      requires Valid() && bytes < WORD
      requires region.Some? ==> RegionFor(segs, top, region.value, PaddedSize(bytes))
      modifies this, small, trees
      ensures Valid() && unchanged(memory)
      ensures mem == 0 ==> UsedChunks(blocks) == UsedChunks(old(blocks))
      ensures mem != 0 ==> bytes < MAX_REQUEST && Allocated(PaddedSize(bytes), mem)
      ensures mem == 0 <==> old(Refused(PaddedSize(bytes), region))
      ensures mem == 0 || Exhausted(old(InStock()), PaddedSize(bytes)) || old(Foremost(mem - 8))
      ensures mem == 0 || Exhausted(old(InStock()), PaddedSize(bytes))
              || Served(old(blocks), old(InStock()), blocks, dv, mem - 8, PaddedSize(bytes))
    {
      mem := InternalMalloc(bytes, region);
    }

    lemma SizeTag(p: nat)
      requires Valid() && p in UsedChunks(blocks)
      ensures ChunkSize(head, p) == UsedChunks(blocks)[p] >= 16
    {
      UsedSize(p);
    }

    /** Malloc, copy, free. */
    method MoveBlock(oldmem: nat, bytes: nat, region: Option<Segment>) returns (mem: nat)
      requires Valid() && bytes < MAX_REQUEST && Live(oldmem)
      requires region.Some? ==> RegionFor(segs, top, region.value, PaddedSize(bytes))
      modifies this, small, trees, memory
      ensures Valid()
      ensures mem == 0 ==> UsedChunks(blocks) == UsedChunks(old(blocks)) && unchanged(memory)
      ensures mem != 0 ==> mem > 8 && mem != oldmem
      ensures mem == 0 || Resized(UsedChunks(old(blocks)), UsedChunks(blocks), oldmem - 8, mem - 8, PaddedSize(bytes))
      ensures mem != 0 ==> memory.Kept(mem, oldmem, Kept(old(blocks[oldmem - 8].size), bytes))
      ensures memory.SameOutside(mem, bytes)
      ensures mem == 0 <==> old(Refused(PaddedSize(bytes), region))
      ensures mem == 0 || Exhausted(old(InStock()), PaddedSize(bytes)) || old(Foremost(mem - 8))
      ensures mem == 0 || Exhausted(old(InStock()), PaddedSize(bytes))
              || Replaced(old(blocks), old(InStock()), blocks, mem - 8, PaddedSize(bytes), oldmem - 8, dv, dvsize)
    {
      SizeTag(oldmem - 8);
      var oldsize := ChunkSize(head, oldmem - 8);
      mem := NewBlock(bytes, region);
      if mem != 0 {
        ghost var u := UsedChunks(blocks);
        assert oldmem - 8 in u;
        MovedUsed(UsedChunks(old(blocks)), u, oldmem - 8, mem - 8, PaddedSize(bytes));
        MoveInto(mem, oldmem, oldsize, bytes);
      }
    }

    method MoveInto(mem: nat, oldmem: nat, oldsize: nat, bytes: nat)
      requires Valid() && Live(oldmem) && mem >= 8 && oldmem != mem && bytes < MAX_REQUEST
      requires oldmem - 8 in UsedChunks(blocks)
      requires mem - 8 in UsedChunks(blocks) && PaddedSize(bytes) <= UsedChunks(blocks)[mem - 8]
      requires oldsize == UsedChunks(blocks)[oldmem - 8] >= 16
      modifies this, small, trees, memory
      ensures Valid() && memory.Kept(mem, oldmem, Kept(oldsize, bytes)) && memory.SameOutside(mem, bytes)
      ensures UsedChunks(blocks) == Without(UsedChunks(old(blocks)), oldmem - 8)
      ensures FreedWith(old(blocks), blocks, oldmem - 8, old(dv), dv, dvsize)
    {
      var oc := oldsize - CHUNK_OVERHEAD;
      CopyRoom(oldmem - 8, mem - 8, bytes);
      memory.Copy(mem, oldmem, if oc < bytes then oc else bytes);
      InternalFree(oldmem);
    }

    /** Allocating chunk q and freeing chunk p afterwards. */
    lemma MovedUsed(u: Content, u1: Content, p: nat, q: nat, nb: nat)
      requires p in u && q !in u && q in u1 && nb <= u1[q] < nb + MIN_CHUNK_SIZE && u1 == u[q := u1[q]]
      ensures Resized(u, Without(u1, p), p, q, nb)
    {
    }

    /** The copied bytes fit in both payloads, which do not overlap. */
    lemma CopyRoom(p: nat, q: nat, bytes: nat)
      requires Valid() && p in UsedChunks(blocks) && q in UsedChunks(blocks) && p != q
      requires bytes < MAX_REQUEST && PaddedSize(bytes) <= UsedChunks(blocks)[q]
      ensures var n := Kept(UsedChunks(blocks)[p], bytes); p + n <= q || q + n <= p
    {
      Request2SizeIsLeast(bytes);
      PayloadsApart(p, q);
      TagFacts(blocks, segs, head, foot, 0, top, topsize, p);
    }

    /** The request is too big, or the chunk cannot be resized where it is and another is
        refused. */
    ghost predicate ReallocRefused(oldmem: nat, bytes: nat, region: Option<Segment>)
      requires Live(oldmem) && (region.Some? ==> RegionOk(segs, region.value))
      reads this, small, trees
    {
      bytes >= MAX_REQUEST || (!FitsInPlace(oldmem - 8, PaddedSize(bytes)) && Refused(PaddedSize(bytes), region))
    }

    lemma AfterStart(p: nat)
      requires Valid() && p in UsedChunks(blocks)
      ensures p > 0
    {
      UsedSize(p);
    }

    lemma IsPadded(bytes: nat)
      requires bytes < MAX_REQUEST
      ensures Padded(PaddedSize(bytes))
    {
      Request2SizeIsLeast(bytes);
    }

    /** `internal_realloc` */
    method InternalRealloc(oldmem: nat, bytes: nat, region: Option<Segment>) returns (mem: nat)
      requires Valid() && bytes < WORD && Live(oldmem)
      requires region.Some? ==> RegionFor(segs, top, region.value, PaddedSize(bytes))
      modifies this, small, trees, memory
      ensures Valid()
      ensures mem == 0 ==> UsedChunks(blocks) == UsedChunks(old(blocks)) && unchanged(memory)
      ensures mem != 0 ==> mem > 8 && bytes < MAX_REQUEST
      ensures mem == 0 || Resized(UsedChunks(old(blocks)), UsedChunks(blocks), oldmem - 8, mem - 8, PaddedSize(bytes))
      ensures mem != 0 ==> memory.Kept(mem, oldmem, Kept(old(blocks[oldmem - 8].size), bytes))
      ensures memory.SameOutside(mem, bytes)
      ensures bytes < MAX_REQUEST ==> (mem == oldmem <==> old(FitsInPlace(oldmem - 8, PaddedSize(bytes))))
      ensures mem == 0 <==> old(ReallocRefused(oldmem, bytes, region))
      ensures mem != oldmem || Reshaped(old(blocks), blocks, oldmem - 8, PaddedSize(bytes), old(dv), dv, dvsize)
      ensures mem == 0 || mem == oldmem || Exhausted(old(InStock()), PaddedSize(bytes)) || old(Foremost(mem - 8))
      ensures mem == 0 || mem == oldmem || Exhausted(old(InStock()), PaddedSize(bytes))
              || Replaced(old(blocks), old(InStock()), blocks, mem - 8, PaddedSize(bytes), oldmem - 8, dv, dvsize)
    {
      if bytes >= MAX_REQUEST {
        return 0;
      }
      IsPadded(bytes);
      AfterStart(oldmem - 8);
      var fits := FitsHere(oldmem - 8, Request2Size(bytes));
      if fits {
        ResizeInPlace(oldmem - 8, Request2Size(bytes));
        mem := oldmem;
      } else {
        mem := MoveBlock(oldmem, bytes, region);
      }
    }

    /** `dlrealloc`: the first bytes of the block are kept, wherever it ends up; no byte
        outside the block returned changes. */
    method DlRealloc(oldmem: nat, bytes: nat, region: Option<Segment>) returns (mem: nat)
      requires Valid() && bytes < WORD && (oldmem != 0 ==> Live(oldmem))
      requires region.Some? ==> RegionFor(segs, top, region.value, PaddedSize(bytes))
      modifies this, small, trees, memory
      ensures Valid()
      ensures mem == 0 ==> UsedChunks(blocks) == UsedChunks(old(blocks)) && unchanged(memory)
      ensures mem != 0 && oldmem == 0 ==> bytes < MAX_REQUEST && Allocated(PaddedSize(bytes), mem) && unchanged(memory)
      ensures mem != 0 && oldmem != 0 ==> mem > 8 && bytes < MAX_REQUEST
      ensures mem == 0 || oldmem == 0
              || Resized(UsedChunks(old(blocks)), UsedChunks(blocks), oldmem - 8, mem - 8, PaddedSize(bytes))
      ensures mem != 0 && oldmem != 0 ==> memory.Kept(mem, oldmem, Kept(old(blocks[oldmem - 8].size), bytes))
      ensures memory.SameOutside(mem, bytes)
      ensures oldmem != 0 && bytes < MAX_REQUEST ==>
                (mem == oldmem <==> old(FitsInPlace(oldmem - 8, PaddedSize(bytes))))
      ensures oldmem == 0 ==> (mem == 0 <==> old(Refused(PaddedSize(bytes), region)))
      ensures oldmem != 0 ==> (mem == 0 <==> old(ReallocRefused(oldmem, bytes, region)))
      ensures mem == 0 || oldmem != 0 || Exhausted(old(InStock()), PaddedSize(bytes))
              || Served(old(blocks), old(InStock()), blocks, dv, mem - 8, PaddedSize(bytes))
      ensures mem == 0 || mem != oldmem
              || Reshaped(old(blocks), blocks, oldmem - 8, PaddedSize(bytes), old(dv), dv, dvsize)
      ensures mem == 0 || oldmem != 0 || Exhausted(old(InStock()), PaddedSize(bytes)) || old(Foremost(mem - 8))
      ensures mem == 0 || oldmem == 0 || mem == oldmem || Exhausted(old(InStock()), PaddedSize(bytes))
              || old(Foremost(mem - 8))
      ensures mem == 0 || oldmem == 0 || mem == oldmem || Exhausted(old(InStock()), PaddedSize(bytes))
              || Replaced(old(blocks), old(InStock()), blocks, mem - 8, PaddedSize(bytes), oldmem - 8, dv, dvsize)
    {
      if oldmem == 0 {
        mem := NewBlock(bytes, region);
      } else {
        mem := InternalRealloc(oldmem, bytes, region);
      }
    }

    // ----- Memalign -----

    /** `set_inuse` on the upper part of a chunk in use and then on the lower part. */
    method CutHigh(p: nat, n: nat, rest: nat)
      requires Valid() && Cuttable(p, n) && rest == blocks[p].size - n
      modifies `head, `blocks
      ensures Valid() && UsedChunks(blocks) == UsedChunks(old(blocks))[p := n][p + n := rest]
      ensures p + n !in UsedChunks(old(blocks)) && blocks == Split(old(blocks), p, n, Used, Used)
    {
      ghost var h0 := head;
      ghost var b := UsedCut(p, n);
      SetInuse(p + n, rest);
      SetInuse(p, n);
      assert head == CutHeads(h0, p, n, n + rest) by { CutHighFirst(h0, p, n, n + rest); }
      blocks := b;
    }

    /** `set_inuse` on the lower part of a chunk in use and then on the upper part. */
    method CutTail(p: nat, n: nat, rest: nat)
      requires Valid() && Cuttable(p, n) && rest == blocks[p].size - n
      modifies `head, `blocks
      ensures Valid() && UsedChunks(blocks) == UsedChunks(old(blocks))[p := n][p + n := rest]
      ensures p + n !in UsedChunks(old(blocks)) && blocks == Split(old(blocks), p, n, Used, Used)
    {
      ghost var h0 := head;
      ghost var b := UsedCut(p, n);
      SetInuse(p, n);
      SetInuse(p + n, rest);
      assert head == CutHeads(h0, p, n, n + rest) by { CutLowFirst(h0, p, n, n + rest); }
      blocks := b;
    }

    lemma UsedSize(p: nat)
      requires Valid() && p in UsedChunks(blocks)
      ensures p in blocks && ChunkSize(head, p) == blocks[p].size == UsedChunks(blocks)[p]
      ensures p > 0 && p % 8 == 0 && blocks[p].size % 8 == 0 && blocks[p].size >= 16 && p + blocks[p].size < WORD
    {
      TagFacts(blocks, segs, head, foot, 0, top, topsize, p);
    }

    /** The first cut of `internal_memalign`: chunk q starts at an aligned spot inside p, and
        what is before it is a chunk of its own. */
    method CutLeader(p: nat, q: nat, size: nat)
      requires Valid() && p in UsedChunks(blocks) && size == UsedChunks(blocks)[p]
      requires q == p || (q % 8 == 0 && p % 8 == 0 && q >= p + 16 && q + 16 <= p + size)
      modifies this
      ensures Valid() && dv == old(dv)
      ensures q == p ==> unchanged(this)
      ensures q != p ==>
                && blocks == Split(old(blocks), p, q - p, Used, Used)
                && q !in UsedChunks(old(blocks))
                && UsedChunks(blocks) == UsedChunks(old(blocks))[p := q - p][q := size - (q - p)]
    {
      if q != p {
        var leadsize := q - p;
        CutHigh(p, leadsize, size - leadsize);
      }
    }

    /** The second cut: spare room at the end of chunk q, if it is more than a chunk. */
    method CutTrailer(q: nat, nb: nat) returns (trailer: nat)
      requires Valid() && q in UsedChunks(blocks) && Padded(nb) && nb <= UsedChunks(blocks)[q]
      modifies this
      ensures Valid() && q in UsedChunks(blocks) && UsedChunks(blocks)[q] == Trimmed(UsedChunks(old(blocks))[q], nb)
      ensures dv == old(dv) && (trailer != 0 <==> UsedChunks(old(blocks))[q] > nb + MIN_CHUNK_SIZE)
      ensures trailer == 0 ==> unchanged(this)
      ensures trailer != 0 ==> blocks == Split(old(blocks), q, nb, Used, Used)
      ensures trailer != 0 ==>
                trailer == q + nb && trailer !in UsedChunks(old(blocks)) && UsedChunks(old(blocks))[q] > nb + 16
      ensures trailer != 0 ==>
                UsedChunks(blocks) == UsedChunks(old(blocks))[q := nb][trailer := UsedChunks(old(blocks))[q] - nb]
    {
      UsedSize(q);
      trailer := 0;
      var size := ChunkSize(head, q);
      if size > nb + MIN_CHUNK_SIZE {
        trailer := q + nb;
        CutTail(q, nb, size - nb);
      }
    }

    /** The aligned chunk is cut out of chunk p; the pieces before and behind it are given
        back. */
    method AlignWithin(p: nat, a: nat, nb: nat) returns (q: nat)
      requires Valid() && p in UsedChunks(blocks) && IsPow2(a) && 16 <= a <= MAX_ALIGNMENT && Padded(nb)
      requires UsedChunks(blocks)[p] >= nb + a + 16
      modifies this, small, trees
      ensures Valid() && q == AlignedChunk(p, a) && q in UsedChunks(blocks)
      ensures UsedChunks(blocks)[q] == AlignedSize(p, a, nb, UsedChunks(old(blocks))[p])
      ensures q != p ==> q !in UsedChunks(old(blocks))
      ensures UsedChunks(blocks) == Without(UsedChunks(old(blocks)), p)[q := UsedChunks(blocks)[q]]
      ensures Carved(old(blocks), blocks, p, q, nb, old(dv), dv, dvsize)
    {
      UsedSize(p);
      var size := ChunkSize(head, p);
      q := AlignedSpot(p, a, nb, size);
      CarveAt(p, q, nb, size);
    }

    /** The pieces before and behind chunk q are cut off and freed. */
    method CarveAt(p: nat, q: nat, nb: nat, size: nat)
      requires Valid() && p in UsedChunks(blocks) && size == UsedChunks(blocks)[p] && Padded(nb)
      requires q == p || (q % 8 == 0 && p % 8 == 0 && q >= p + 16 && q + 16 <= p + size)
      requires p > 0 && q + nb <= p + size
      modifies this, small, trees
      ensures Valid() && q in UsedChunks(blocks) && UsedChunks(blocks)[q] == Trimmed(size - (q - p), nb)
      ensures q != p ==> q !in UsedChunks(old(blocks))
      ensures UsedChunks(blocks) == Without(UsedChunks(old(blocks)), p)[q := UsedChunks(blocks)[q]]
      ensures Carved(old(blocks), blocks, p, q, nb, old(dv), dv, dvsize)
    {
      ghost var b0, dv0 := blocks, dv;
      CutLeader(p, q, size);
      ghost var b1 := blocks;
      var trailer := CutTrailer(q, nb);
      ghost var b2 := blocks;
      var lead := if q == p then 0 else p;
      FreePieces(lead, trailer, q);
      PiecesBack(UsedChunks(b0), UsedChunks(b1), UsedChunks(b2), UsedChunks(blocks), p, q, trailer);
      CarvedIs(b0, b1, b2, blocks, p, q, nb, lead, trailer, dv0, dv, dvsize);
    }

    method FreePieces(leader: nat, trailer: nat, ghost q: nat)
      requires Valid() && (leader != 0 ==> leader in UsedChunks(blocks))
      requires trailer != 0 ==> trailer in UsedChunks(blocks)
      requires leader != 0 ==> leader != trailer
      modifies this, small, trees
      ensures Valid()
      ensures UsedChunks(blocks) ==
                (var w := if leader != 0 then Without(UsedChunks(old(blocks)), leader) else UsedChunks(old(blocks));
                 if trailer != 0 then Without(w, trailer) else w)
      ensures BothFreed(old(blocks), blocks, leader, trailer, old(dv), dv, dvsize)
    {
      FreePiece(leader);
      FreePiece(trailer);
    }

    method FreePiece(p: nat)
      requires Valid() && (p != 0 ==> p in UsedChunks(blocks))
      modifies this, small, trees
      ensures Valid() && MaybeFreed(old(blocks), blocks, p, old(dv), dv, dvsize)
      ensures UsedChunks(blocks) == if p != 0 then Without(UsedChunks(old(blocks)), p) else UsedChunks(old(blocks))
    {
      if p != 0 {
        UsedSize(p);
        InternalFree(p + 8);
      }
    }

    /** What is left of the pieces of p is q. */
    lemma PiecesBack(u: Content, u1: Content, u2: Content, u3: Content, p: nat, q: nat, t: nat)
      requires p in u && q in u1 && q in u2 && (t != 0 ==> t in u2)
      requires if q == p then u1 == u else q !in u && p in u1 && u1 == u[p := u1[p]][q := u1[q]]
      requires if t == 0 then u2 == u1 else t !in u1 && t != q && t in u2 && u2 == u1[q := u2[q]][t := u2[t]]
      requires var w := if q != p then Without(u2, p) else u2; u3 == if t != 0 then Without(w, t) else w
      ensures q in u3 && u3[q] == u2[q] && u3 == Without(u, p)[q := u2[q]]
    {
    }

    /** The request that `internal_memalign` makes for alignment a. */
    function AlignRequest(a: nat, bytes: nat): nat {
      if a <= 8 then bytes else Request2Size(bytes) + a + MIN_CHUNK_SIZE - CHUNK_OVERHEAD
    }

    lemma AlignRequestRoom(a: nat, bytes: nat)
      requires 16 <= a <= MAX_ALIGNMENT && bytes < MAX_REQUEST - a
      ensures Padded(Request2Size(bytes)) && PaddedSize(bytes) == Request2Size(bytes) && AlignRequest(a, bytes) < WORD
      ensures AlignRequest(a, bytes) < MAX_REQUEST && a % 8 == 0 ==>
                PaddedSize(AlignRequest(a, bytes)) == Request2Size(bytes) + a + 16
    {
      Request2SizeIsLeast(bytes);
      if AlignRequest(a, bytes) < MAX_REQUEST {
        Request2SizeIsLeast(AlignRequest(a, bytes));
      }
    }

    /** `internal_memalign` for an alignment beyond that of every chunk. The block is cut out of
        a chunk p that malloc hands out, and its size is exact, unless the spot 16 bytes into p
        is aligned. */
    method MemalignTo(a: nat, bytes: nat, region: Option<Segment>) returns (mem: nat, ghost p: nat)
      requires Valid() && bytes < WORD && IsPow2(a) && 16 <= a <= MAX_ALIGNMENT
      requires region.Some? && bytes < MAX_REQUEST - a ==>
                 RegionFor(segs, top, region.value, PaddedSize(AlignRequest(a, bytes)))
      modifies this, small, trees
      ensures Valid()
      ensures mem == 0 ==> UsedChunks(blocks) == UsedChunks(old(blocks))
      ensures mem != 0 ==> mem > 8 && Aligned(mem, a) && bytes < MAX_REQUEST
      ensures mem != 0 ==> mem - 8 !in UsedChunks(old(blocks)) && mem - 8 in UsedChunks(blocks)
      ensures mem != 0 ==> UsedChunks(blocks) == UsedChunks(old(blocks))[mem - 8 := UsedChunks(blocks)[mem - 8]]
      ensures mem != 0 ==> CutFrom(p, mem, a, PaddedSize(bytes))
      ensures bytes < MAX_REQUEST - a && !Exhausted(old(InStock()), PaddedSize(AlignRequest(a, bytes))) ==>
                && mem != 0
                && HandedFrom(old(blocks), old(InStock()), p, mem, a, PaddedSize(bytes),
                              PaddedSize(AlignRequest(a, bytes)))
      ensures bytes >= MAX_REQUEST - a || Exhausted(old(InStock()), PaddedSize(AlignRequest(a, bytes)))
              || (mem > 8 && CarvedOut(old(blocks), old(InStock()), blocks, p, PaddedSize(AlignRequest(a, bytes)),
                                       mem - 8, PaddedSize(bytes), dv, dvsize))
      ensures mem == 0 <==> bytes >= MAX_REQUEST - a || old(Refused(PaddedSize(AlignRequest(a, bytes)), region))
    {
      mem, p := 0, 0;
      if bytes >= MAX_REQUEST - a {
        return;
      }
      AlignRequestRoom(a, bytes);
      Pow2Multiple(a);
      var nb := Request2Size(bytes);
      mem, p := AlignedFrom(a, nb, nb + a + MIN_CHUNK_SIZE - CHUNK_OVERHEAD, nb + a + 16, region);
    }

    /** The same for a padded request, with the request that is made for it. */
    method AlignedFrom(a: nat, nb: nat, req: nat, ghost n: nat, region: Option<Segment>)
      returns (mem: nat, ghost p: nat)
      requires Valid() && Padded(nb) && IsPow2(a) && 16 <= a <= MAX_ALIGNMENT && n == nb + a + 16
      requires req < WORD && (req < MAX_REQUEST ==> PaddedSize(req) == n)
      requires region.Some? ==> RegionFor(segs, top, region.value, PaddedSize(req))
      modifies this, small, trees
      ensures Valid()
      ensures mem == 0 ==> UsedChunks(blocks) == UsedChunks(old(blocks))
      ensures mem != 0 ==> req < MAX_REQUEST && Aligned(mem, a) && CutFrom(p, mem, a, nb)
      ensures mem != 0 ==> mem - 8 !in UsedChunks(old(blocks))
      ensures mem != 0 ==> UsedChunks(blocks) == UsedChunks(old(blocks))[mem - 8 := UsedChunks(blocks)[mem - 8]]
      ensures !Exhausted(old(InStock()), PaddedSize(req)) ==>
                mem != 0 && HandedFrom(old(blocks), old(InStock()), p, mem, a, nb, n)
      ensures Exhausted(old(InStock()), PaddedSize(req))
              || (mem > 8 && CarvedOut(old(blocks), old(InStock()), blocks, p, n, mem - 8, nb, dv, dvsize))
      ensures mem == 0 <==> old(Refused(PaddedSize(req), region))
    {
      mem, p := 0, 0;
      var mem0, size := AlignSource(req, n, region);
      if mem0 != 0 {
        var p0 := mem0 - 8;
        p := p0;
        ghost var sure := !Exhausted(old(InStock()), PaddedSize(req));
        var q := AlignHanded(p0, a, nb, UsedChunks(old(blocks)), size, n, old(blocks), old(InStock()), sure);
        mem := q + 8;
      }
    }

    /** The aligned chunk is carved out of the one handed out. */
    method AlignHanded(p: nat, a: nat, nb: nat, ghost u: Content, ghost size: nat, ghost n: nat, ghost b0: Blocks,
                       ghost st: Stock, ghost sure: bool)
      returns (q: nat)
      requires Valid() && p > 0 && IsPow2(a) && 16 <= a <= MAX_ALIGNMENT && Padded(nb)
      requires p in UsedChunks(blocks) && n == nb + a + 16 && n <= size < n + 16
      requires p !in u && UsedChunks(blocks) == u[p := size]
      requires sure ==> HandsOut(b0, st, p, n, size == n + 8) && Served(b0, st, blocks, dv, p, n)
      modifies this, small, trees
      ensures Valid() && Aligned(q + 8, a) && CutFrom(p, q + 8, a, nb) && q !in u
      ensures UsedChunks(blocks) == u[q := UsedChunks(blocks)[q]]
      ensures sure ==> HandedFrom(b0, st, p, q + 8, a, nb, n) && CarvedOut(b0, st, blocks, p, n, q, nb, dv, dvsize)
    {
      ghost var b1, dv1 := blocks, dv;
      q := AlignBlock(p, a, nb, u, size, n);
      if sure { HandedIs(b0, st, p, q + 8, a, nb, n, size == n + 8); }
    }

    lemma HandedIs(b: Blocks, st: Stock, p: nat, mem: nat, a: nat, nb: nat, n: nat, spare: bool)
      requires a >= 16 && CutFrom(p, mem, a, nb) && HandsOut(b, st, p, n, spare)
      requires UsedChunks(blocks)[mem - 8] == nb + 16 <==> spare && Aligned(p + 16, a)
      ensures HandedFrom(b, st, p, mem, a, nb, n)
    {
    }

    /** The chunk that the block is cut out of. */
    method AlignSource(req: nat, ghost n: nat, region: Option<Segment>) returns (mem: nat, ghost size: nat)
      requires Valid() && req < WORD && (req < MAX_REQUEST ==> PaddedSize(req) == n)
      requires region.Some? ==> RegionFor(segs, top, region.value, PaddedSize(req))
      modifies this, small, trees
      ensures Valid()
      ensures mem == 0 ==> UsedChunks(blocks) == UsedChunks(old(blocks))
      ensures mem != 0 ==>
                req < MAX_REQUEST && mem > 8 && mem - 8 !in UsedChunks(old(blocks)) && n <= size < n + MIN_CHUNK_SIZE
      ensures mem != 0 ==> UsedChunks(blocks) == UsedChunks(old(blocks))[mem - 8 := size]
      ensures !Exhausted(old(InStock()), PaddedSize(req)) ==>
                mem != 0 && HandsOut(old(blocks), old(InStock()), mem - 8, n, size == n + 8)
      ensures !Exhausted(old(InStock()), PaddedSize(req)) ==>
                mem > 8 && Served(old(blocks), old(InStock()), blocks, dv, mem - 8, n)
      ensures mem == 0 <==> old(Refused(PaddedSize(req), region))
    {
      size := 0;
      mem := InternalMalloc(req, region);
      if mem != 0 {
        if !Exhausted(old(InStock()), PaddedSize(req)) {
          HandedUsed(old(blocks), old(segs), blocks, mem - 8, n);
        }
        size := UsedChunks(blocks)[mem - 8];
      }
    }

    /** The block is cut out of chunk p. It is larger than needed by 8 or 16 bytes if the spot 16
        bytes into p is aligned, and otherwise not at all. */
    ghost predicate CutFrom(p: nat, mem: nat, a: nat, nb: nat)
      requires a >= 16
      reads this
    {
      && mem > 8 && mem - 8 == AlignedChunk(p, a) && mem - 8 in UsedChunks(blocks)
      && SlackIs(UsedChunks(blocks)[mem - 8], nb, Aligned(p + 16, a))
    }

    /** Chunk p is the one that malloc chooses for n bytes. The block is 16 bytes larger than needed exactly
        if p is handed out with 8 bytes to spare, and the spot 16 bytes into it is aligned. */
    ghost predicate HandedFrom(b: Blocks, st: Stock, p: nat, mem: nat, a: nat, nb: nat, n: nat)
      requires a >= 16
      reads this
    {
      && Chosen(st, n, p) && p in b && CutFrom(p, mem, a, nb)
      && (UsedChunks(blocks)[mem - 8] == nb + 16 <==> Aligned(p + 16, a) && b[p].kind == Free && b[p].size == n + 8)
    }

    /** The block just allocated gives way to the aligned one. */
    method AlignBlock(p: nat, a: nat, nb: nat, ghost u: Content, ghost size: nat, ghost n: nat) returns (q: nat)
      requires Valid() && p > 0 && IsPow2(a) && 16 <= a <= MAX_ALIGNMENT && Padded(nb)
      requires p in UsedChunks(blocks) && n == nb + a + 16 && n <= size < n + 16
      requires p !in u && UsedChunks(blocks) == u[p := size]
      modifies this, small, trees
      ensures Valid() && Aligned(q + 8, a) && CutFrom(p, q + 8, a, nb) && q !in u
      ensures UsedChunks(blocks) == u[q := UsedChunks(blocks)[q]]
      ensures UsedChunks(blocks)[q] == nb + 16 <==> size == n + 8 && Aligned(p + 16, a)
      ensures Carved(old(blocks), blocks, p, q, nb, old(dv), dv, dvsize)
    {
      AlignedFacts(p, a, nb, size, n);
      GivenBack(u, p, size);
      q := AlignWithin(p, a, nb);
    }

    lemma GivenBack(u: Content, p: nat, size: nat)
      requires p !in u
      ensures Without(u[p := size], p) == u
    {
    }

    lemma AlignedFacts(p: nat, a: nat, nb: nat, size: nat, n: nat)
      requires Valid() && p > 0 && IsPow2(a) && 16 <= a <= MAX_ALIGNMENT && Padded(nb)
      requires p in UsedChunks(blocks) && UsedChunks(blocks)[p] == size && n == nb + a + 16 && n <= size < n + 16
      ensures Aligned(AlignedChunk(p, a) + 8, a) && AlignedChunk(p, a) > 0
      ensures SlackIs(AlignedSize(p, a, nb, size), nb, Aligned(p + 16, a))
      ensures AlignedSize(p, a, nb, size) == nb + 16 <==> size == n + 8 && Aligned(p + 16, a)
    {
      UsedSize(p);
      AlignedResult(p, a, nb);
      AlignedSizeIs(p, a, nb, size);
    }

    lemma AlignedResult(p: nat, a: nat, nb: nat)
      requires IsPow2(a) && a >= 16
      ensures p % 8 == 0 && p > 0 ==> Aligned(AlignedChunk(p, a) + 8, a) && AlignedChunk(p, a) > 0
    {
      if p % 8 == 0 && p > 0 {
        AlignedRoom(p, a, 16, 16 + a + 16);
      }
    }

    lemma UsedAligned(mem: nat)
      requires Valid() && mem >= 8 && mem - 8 in UsedChunks(blocks)
      ensures mem % 8 == 0
    {
      UsedSize(mem - 8);
    }

    /** Every block is aligned to 8 bytes. */
    method AnyBlock(bytes: nat, region: Option<Segment>) returns (mem: nat)
      requires Valid() && bytes < WORD
      requires region.Some? ==> RegionFor(segs, top, region.value, PaddedSize(bytes))
      modifies this, small, trees
      ensures Valid()
      ensures mem == 0 ==> UsedChunks(blocks) == UsedChunks(old(blocks))
      ensures mem != 0 ==> bytes < MAX_REQUEST && mem % 8 == 0
      ensures mem == 0 || Allocated(PaddedSize(bytes), mem)
      ensures mem == 0 <==> old(Refused(PaddedSize(bytes), region))
      ensures !Exhausted(old(InStock()), PaddedSize(bytes)) ==>
                && mem > 8 && old(Foremost(mem - 8))
                && Served(old(blocks), old(InStock()), blocks, dv, mem - 8, PaddedSize(bytes))
    {
      mem := InternalMalloc(bytes, region);
      if mem != 0 { UsedAligned(mem); }
    }

    /** `dlmemalign`: the block is aligned to the alignment rounded up to a power of two. */
    method DlMemalign(alignment: nat, bytes: nat, region: Option<Segment>) returns (mem: nat, ghost p: nat)
      requires Valid() && bytes < WORD && alignment <= MAX_ALIGNMENT
      requires region.Some? ==>
                 RegionFor(segs, top, region.value, PaddedSize(AlignRequest(RoundedAlignment(alignment), bytes)))
      modifies this, small, trees
      ensures Valid()
      ensures mem == 0 ==> UsedChunks(blocks) == UsedChunks(old(blocks))
      ensures mem != 0 ==> mem > 8 && Aligned(mem, RoundedAlignment(alignment)) && bytes < MAX_REQUEST
      ensures mem != 0 ==> mem - 8 !in UsedChunks(old(blocks)) && mem - 8 in UsedChunks(blocks)
      ensures mem != 0 ==> PaddedSize(bytes) <= UsedChunks(blocks)[mem - 8] <= PaddedSize(bytes) + 16
      ensures mem != 0 ==> UsedChunks(blocks) == UsedChunks(old(blocks))[mem - 8 := UsedChunks(blocks)[mem - 8]]
      ensures alignment > 8 ==>
                var a, nb := RoundedAlignment(alignment), PaddedSize(bytes);
                && a >= 16 && (mem != 0 ==> CutFrom(p, mem, a, nb))
                && (bytes < MAX_REQUEST - a && !Exhausted(old(InStock()), PaddedSize(AlignRequest(a, bytes))) ==>
                      && mem != 0
                      && HandedFrom(old(blocks), old(InStock()), p, mem, a, nb, PaddedSize(AlignRequest(a, bytes))))
      ensures alignment > 8 ==>
                var a := RoundedAlignment(alignment);
                || bytes >= MAX_REQUEST - a || Exhausted(old(InStock()), PaddedSize(AlignRequest(a, bytes)))
                || (mem > 8 && CarvedOut(old(blocks), old(InStock()), blocks, p, PaddedSize(AlignRequest(a, bytes)),
                                         mem - 8, PaddedSize(bytes), dv, dvsize))
      ensures alignment <= 8 ==> (mem == 0 <==> old(Refused(PaddedSize(bytes), region)))
      ensures alignment <= 8 && !Exhausted(old(InStock()), PaddedSize(bytes)) ==>
                && mem > 8 && old(Foremost(mem - 8))
                && Served(old(blocks), old(InStock()), blocks, dv, mem - 8, PaddedSize(bytes))
      ensures alignment > 8 ==>
                var a := RoundedAlignment(alignment);
                mem == 0 <==> bytes >= MAX_REQUEST - a || old(Refused(PaddedSize(AlignRequest(a, bytes)), region))
    {
      if alignment <= 8 {
        mem := AnyBlock(bytes, region);
        p := mem;
      } else {
        var a := RoundAlignment(alignment);
        mem, p := MemalignTo(a, bytes, region);
        if mem != 0 { CutSize(p, mem, a, PaddedSize(bytes)); }
      }
    }

    lemma CutSize(p: nat, mem: nat, a: nat, nb: nat)
      requires a >= 16 && CutFrom(p, mem, a, nb)
      ensures nb <= UsedChunks(blocks)[mem - 8] <= nb + 16
    {
    }
  }
}
