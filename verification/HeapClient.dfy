/** A client of the heap: every call it makes is a step of the run model. */
module HeapClient {
  import opened BinIndex
  import opened Chunks
  import opened Blocks
  import opened Policy
  import opened Growth
  import opened Alignment
  import opened HeapRuns
  import H = Heap

  class Client {
    const heap: H.Heap

    /** The blocks held, with the sizes asked for. */
    ghost var live: map<nat, nat>

    ghost function Now(): State
      reads this, heap, heap.memory
    {
      State(heap.blocks, heap.segs, live, heap.memory.bytes)
    }

    ghost predicate Valid()
      reads this, heap, heap.small, heap.trees, heap.memory
    {
      heap.Valid() && Safe(Now())
    }

    constructor ()
      ensures Valid() && Now() == State(map[], [], map[], map[])
      ensures fresh(heap) && fresh(heap.small) && fresh(heap.trees) && fresh(heap.memory)
    {
      heap := new H.Heap();
      live := map[];
    }

    lemma HeldIsLive(mem: nat)
      requires Valid() && mem in live
      ensures heap.Live(mem) && mem > 8 && live[mem] < MAX_REQUEST && live[mem] + 4 <= heap.blocks[mem - 8].size
    {
      assert BlockOwned(live, UsedChunks(heap.blocks), mem);
      Request2SizeRoom(live[mem]);
    }

    lemma HeapTiled()
      requires heap.Valid()
      ensures Tiled(heap.blocks, heap.segs)
    {
    }

    method Malloc(size: nat, region: H.Option<Segment>) returns (mem: nat)
      requires Valid() && size <= MAX_SIZE_T
      requires region.Some? ==> RegionFor(heap.segs, heap.top, region.value, heap.PaddedSize(size))
      modifies this, heap, heap.small, heap.trees
      ensures Valid() && Step(old(Now()), Call.Malloc(size), mem, Now())
      ensures mem == 0 <==> old(heap.Refused(heap.PaddedSize(size), region))
    {
      ghost var s := Now();
      mem := heap.InternalMalloc(size, region);
      if mem != 0 {
        live := live[mem := size];
      }
      HeapTiled();
      StepSafe(s, Call.Malloc(size), mem, Now());
    }

    method Calloc(count: nat, elem: nat, region: H.Option<Segment>) returns (mem: nat)
      requires Valid() && count <= MAX_SIZE_T && elem <= MAX_SIZE_T
      requires region.Some? ==> RegionFor(heap.segs, heap.top, region.value, heap.PaddedSize(CallocSize(count, elem)))
      modifies this, heap, heap.small, heap.trees, heap.memory
      ensures Valid() && Step(old(Now()), Call.Calloc(count, elem), mem, Now())
      ensures mem == 0 <==> old(heap.Refused(heap.PaddedSize(CallocSize(count, elem)), region))
    {
      ghost var s := Now();
      mem := heap.DlCalloc(count, elem, region);
      if mem != 0 {
        live := live[mem := count * elem];
      }
      HeapTiled();
      forall a: nat
        ensures ByteAt(heap.memory.bytes, a) ==
                if mem != 0 && mem <= a < mem + count * elem then 0 else ByteAt(s.bytes, a)
      {
        assert heap.memory.At(a) == ByteAt(heap.memory.bytes, a);
      }
      StepSafe(s, Call.Calloc(count, elem), mem, Now());
    }

    method Memalign(alignment: nat, size: nat, region: H.Option<Segment>) returns (mem: nat)
      requires Valid() && size <= MAX_SIZE_T && alignment <= MAX_ALIGNMENT
      requires region.Some? ==>
                 RegionFor(heap.segs, heap.top, region.value,
                           heap.PaddedSize(heap.AlignRequest(RoundedAlignment(alignment), size)))
      modifies this, heap, heap.small, heap.trees
      ensures Valid() && Step(old(Now()), Call.Memalign(alignment, size), mem, Now())
    {
      ghost var s := Now();
      ghost var p;
      mem, p := heap.DlMemalign(alignment, size, region);
      if mem != 0 {
        live := live[mem := size];
      }
      HeapTiled();
      StepSafe(s, Call.Memalign(alignment, size), mem, Now());
    }

    method Free(mem: nat)
      requires Valid() && mem in live
      modifies this, heap, heap.small, heap.trees
      ensures Valid() && Step(old(Now()), Call.Free(mem), 0, Now())
    {
      ghost var s := Now();
      HeldIsLive(mem);
      heap.InternalFree(mem);
      live := Without(live, mem);
      HeapTiled();
      StepSafe(s, Call.Free(mem), 0, Now());
    }

    /** The call on the heap, with what a client sees of it. */
    method Resize(mem: nat, size: nat, region: H.Option<Segment>) returns (r: nat)
      requires heap.Valid() && mem > 8 && heap.Live(mem) && size <= MAX_SIZE_T
      requires region.Some? ==> RegionFor(heap.segs, heap.top, region.value, heap.PaddedSize(size))
      modifies heap, heap.small, heap.trees, heap.memory
      ensures heap.Valid()
      ensures r == 0 ==> UsedChunks(heap.blocks) == UsedChunks(old(heap.blocks)) && unchanged(heap.memory)
      ensures r != 0 ==> r > 8 && size < MAX_REQUEST
      ensures r == 0
              || Resized(UsedChunks(old(heap.blocks)), UsedChunks(heap.blocks), mem - 8, r - 8, Request2Size(size))
      ensures r != 0 ==> heap.memory.Kept(r, mem, heap.Kept(old(heap.blocks[mem - 8].size), size))
      ensures heap.memory.SameOutside(r, size)
      ensures r == 0 <==> old(heap.ReallocRefused(mem, size, region))
    {
      r := heap.DlRealloc(mem, size, region);
    }

    /** The call as a step, but for the blocks held. */
    method MoveTo(mem: nat, size: nat, region: H.Option<Segment>) returns (r: nat)
      requires Valid() && mem in live && size <= MAX_SIZE_T
      requires region.Some? ==> RegionFor(heap.segs, heap.top, region.value, heap.PaddedSize(size))
      modifies heap, heap.small, heap.trees, heap.memory
      ensures heap.Valid()
      ensures r == 0 ==> UsedChunks(heap.blocks) == UsedChunks(old(heap.blocks)) && unchanged(heap.memory)
      ensures r == 0 || Moves(old(Now()), Now().(live := Without(live, mem)[r := size]), mem, r, size)
      ensures r == 0 <==> old(heap.Live(mem) && heap.ReallocRefused(mem, size, region))
    {
      HeldIsLive(mem);
      ghost var bytes := heap.memory.bytes;
      r := Resize(mem, size, region);
      if r != 0 {
        forall a: nat | r <= a < r + (if live[mem] < size then live[mem] else size)
          ensures ByteAt(heap.memory.bytes, a) == ByteAt(bytes, mem + (a - r))
        {
          assert heap.memory.At(a) == ByteAt(heap.memory.bytes, a);
        }
        forall a: nat | !(r <= a < r + size) ensures ByteAt(heap.memory.bytes, a) == ByteAt(bytes, a) {
          assert heap.memory.At(a) == ByteAt(heap.memory.bytes, a);
        }
      }
    }

    method Realloc(mem: nat, size: nat, region: H.Option<Segment>) returns (r: nat)
      requires Valid() && mem in live && size <= MAX_SIZE_T
      requires region.Some? ==> RegionFor(heap.segs, heap.top, region.value, heap.PaddedSize(size))
      modifies this, heap, heap.small, heap.trees, heap.memory
      ensures Valid() && Step(old(Now()), Call.Realloc(mem, size), r, Now())
      ensures r == 0 <==> old(heap.Live(mem) && heap.ReallocRefused(mem, size, region))
    {
      ghost var s := Now();
      r := MoveTo(mem, size, region);
      if r != 0 {
        live := Without(live, mem)[r := size];
      }
      HeapTiled();
      StepSafe(s, Call.Realloc(mem, size), r, Now());
    }

    /** The client stores a byte in a block it holds. */
    method Write(mem: nat, index: nat, value: nat)
      requires Valid() && mem in live && index < live[mem]
      modifies heap.memory
      ensures Valid() && Step(old(Now()), Call.Write(mem, index, value), 0, Now())
    {
      heap.memory.bytes := heap.memory.bytes[mem + index := value];
    }
  }
}
