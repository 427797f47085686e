/**
 The heap as it lies in memory: the chunks tile the segments, the boundary tags agree with
 the chunks, and the top is where `top` and `topsize` say. Each lemma follows one way in
 which the allocator rewrites tags.
 */
module Layout {
  import opened Words
  import opened Rings
  import opened Chunks
  import opened Blocks
  import opened BoundaryTags

  /** The fake head behind the top: its pinuse bit is clear. */
  const TOP_FOOT_HEAD := Head(TOP_FOOT_SIZE, false, false)

  ghost predicate OnlyTop(b: Blocks, top: nat) {
    forall a :: a in b && b[a].kind == Top ==> a == top
  }

  /** Before the first memory arrives there is nothing; afterwards the newest segment ends
      with the one top chunk and its reserve of TOP_FOOT_SIZE bytes. */
  ghost predicate TopOk(b: Blocks, segs: seq<Segment>, head: Heads, top: nat, topsize: nat) {
    && OnlyTop(b, top)
    && if top == 0 then b == map[] && segs == [] && topsize == 0
       else
         && top in b && b[top].kind == Top && b[top].size == topsize + TOP_FOOT_SIZE
         && |segs| > 0 && b[top].seg == |segs| - 1
         && HeadAt(head, top + topsize) == TOP_FOOT_HEAD
  }

  ghost predicate MemOk(b: Blocks, segs: seq<Segment>, head: Heads, foot: Links, hot: nat, top: nat, topsize: nat) {
    && Tiled(b, segs)
    && Tagged(b, head, foot, hot)
    && TopOk(b, segs, head, top, topsize)
    && (hot != 0 ==> hot in b)
  }

  function SetPinuse(head: Heads, a: nat, bit: bool): Heads {
    head[a := HeadAt(head, a).(pinuse := bit)]
  }

  /** The words of no chunk lie at the foot of the top. */
  lemma TopFootApart(b: Blocks, segs: seq<Segment>, head: Heads, top: nat, topsize: nat)
    requires Tiled(b, segs) && TopOk(b, segs, head, top, topsize)
    ensures top != 0 ==> top + topsize !in b || topsize == 0
  {
    if top != 0 && topsize > 0 { NoneInside(b, segs, top, top + topsize); }
  }

  /** What the tags of one chunk say. */
  lemma TagFacts(b: Blocks, segs: seq<Segment>, head: Heads, foot: Links, hot: nat, top: nat, topsize: nat, a: nat)
    requires MemOk(b, segs, head, foot, hot, top, topsize) && a in b
    ensures a % 8 == 0 && a > 0 && b[a].size > 0 && Next(b, a) < WORD
    ensures Regular(b[a].kind) ==> b[a].size % 8 == 0 && b[a].size >= 16 && Next(b, a) in b
    ensures b[a].kind == Used || b[a].kind == Free || b[a].kind == Record ==> ChunkSize(head, a) == b[a].size
    ensures b[a].kind == Top <==> a == top
    ensures a == top ==> topsize > 0 && b[a].size == topsize + TOP_FOOT_SIZE
    ensures HeadAt(head, a).cinuse <==> if a == hot then HeadAt(head, a).cinuse else InUse(b[a].kind)
    ensures b[a].kind == Loose <==> a == hot
  {
    assert BlockOk(b, segs, a) && TagOk(b, head, foot, hot, a);
    assert SegmentOk(b, segs, b[a].seg);
  }

  /** A clear pinuse bit finds the free chunk before. */
  lemma PrevFacts(b: Blocks, segs: seq<Segment>, head: Heads, foot: Links, hot: nat, top: nat, topsize: nat, p: nat)
    requires MemOk(b, segs, head, foot, hot, top, topsize) && p in b && p == hot && !HeadAt(head, p).pinuse
    ensures var f := Get(foot, p); f <= p && p - f in b && b[p - f].kind == Free && b[p - f].size == f
    ensures HeadAt(head, p - Get(foot, p)).pinuse
  {
    assert BlockOk(b, segs, p) && TagOk(b, head, foot, hot, p);
    assert TagOk(b, head, foot, hot, p - Get(foot, p));
  }

  /** The chunk after a regular one mirrors its use, and a chunk after a used one is never
      a fence. */
  lemma NextFacts(b: Blocks, segs: seq<Segment>, head: Heads, foot: Links, hot: nat, top: nat, topsize: nat, p: nat)
    requires MemOk(b, segs, head, foot, hot, top, topsize) && p in b && Regular(b[p].kind)
    ensures Next(b, p) in b
    ensures b[p].kind != Record ==> b[Next(b, p)].kind != Fence
    ensures b[p].kind != Loose ==> HeadAt(head, Next(b, p)).pinuse == InUse(b[p].kind)
    ensures b[p].kind == Free ==> HeadAt(head, p).pinuse && (Next(b, p) == hot || InUse(b[Next(b, p)].kind))
  {
    assert BlockOk(b, segs, p) && TagOk(b, head, foot, hot, p);
    assert TagOk(b, head, foot, hot, Next(b, p));
  }

  lemma HeatMem(b: Blocks, segs: seq<Segment>, head: Heads, foot: Links, top: nat, topsize: nat, p: nat)
    requires MemOk(b, segs, head, foot, 0, top, topsize) && p in b && (b[p].kind == Used || b[p].kind == Free)
    ensures MemOk(Retag(b, p, Loose), segs, head, foot, p, top, topsize)
  {
    RetagTiled(b, segs, p, Loose);
    HeatTagged(b, segs, head, foot, p);
  }

  lemma AbsorbPrevMem(b: Blocks, segs: seq<Segment>, head: Heads, foot: Links, hot: nat, top: nat, topsize: nat, q: nat)
    requires MemOk(b, segs, head, foot, hot, top, topsize) && hot in b && q in b && b[q].kind == Free
    requires Next(b, q) == hot
    ensures Next(b, hot) in b && q != 0
    ensures MemOk(Fuse(b, q, Loose), segs, head, foot, q, top, topsize)
  {
    assert BlockOk(b, segs, q) && TagOk(b, head, foot, hot, hot);
    FuseTiled(b, segs, q, Loose);
    AbsorbPrevTagged(b, segs, head, foot, hot, q);
  }

  /** Once a free chunk has been swallowed, the next one is in use and knows that a free
      chunk is before it. */
  lemma AbsorbNextMem(b: Blocks, segs: seq<Segment>, head: Heads, foot: Links, hot: nat, top: nat, topsize: nat)
    requires MemOk(b, segs, head, foot, hot, top, topsize) && hot in b && Next(b, hot) in b
    requires b[Next(b, hot)].kind == Free
    ensures MemOk(Fuse(b, hot, Loose), segs, head, foot, hot, top, topsize)
    ensures var b' := Fuse(b, hot, Loose);
            Next(b', hot) in b' && InUse(b'[Next(b', hot)].kind) && !HeadAt(head, Next(b', hot)).pinuse
  {
    var n := Next(b, hot);
    assert TagOk(b, head, foot, hot, hot) && BlockOk(b, segs, hot) && BlockOk(b, segs, n);
    assert TagOk(b, head, foot, hot, n);
    FuseTiled(b, segs, hot, Loose);
    AbsorbNextTagged(b, segs, head, foot, hot);
    assert TagOk(b, head, foot, hot, Next(b, n));
  }

  /** `set_free_with_pinuse` on the chunk in hand. */
  lemma SettleMem(b: Blocks, segs: seq<Segment>, head: Heads, foot: Links, hot: nat, top: nat, topsize: nat,
                  head': Heads)
    requires MemOk(b, segs, head, foot, hot, top, topsize) && hot in b && HeadAt(head, hot).pinuse
    requires Next(b, hot) in b && InUse(b[Next(b, hot)].kind)
    requires head' == SetPinuse(head, Next(b, hot), false)[hot := Head(b[hot].size, false, true)]
          || (!HeadAt(head, Next(b, hot)).pinuse && head' == head[hot := Head(b[hot].size, false, true)])
    ensures MemOk(Retag(b, hot, Free), segs, head', foot[Next(b, hot) := b[hot].size], 0, top, topsize)
  {
    assert TagOk(b, head, foot, hot, hot) && BlockOk(b, segs, hot);
    RetagTiled(b, segs, hot, Free);
    TopFootApart(b, segs, head, top, topsize);
    assert top != 0 ==> TagOk(b, head, foot, hot, top);
    SettleTagged(b, segs, head, foot, hot, head');
  }

  /** The chunk in hand swallows the free chunk after it and becomes free. */
  lemma JoinNextMem(b: Blocks, segs: seq<Segment>, head: Heads, foot: Links, hot: nat, top: nat, topsize: nat, s: nat)
    requires MemOk(b, segs, head, foot, hot, top, topsize) && hot in b && HeadAt(head, hot).pinuse
    requires Next(b, hot) in b && b[Next(b, hot)].kind == Free && s == b[hot].size + b[Next(b, hot)].size
    ensures MemOk(Retag(Fuse(b, hot, Loose), hot, Free), segs, head[hot := Head(s, false, true)], foot[hot + s := s],
                  0, top, topsize)
    ensures MemOk(Retag(Fuse(b, hot, Loose), hot, Free), segs,
                  SetPinuse(head, hot + s, false)[hot := Head(s, false, true)], foot[hot + s := s], 0, top, topsize)
  {
    AbsorbNextMem(b, segs, head, foot, hot, top, topsize);
    SettleMem(Fuse(b, hot, Loose), segs, head, foot, hot, top, topsize, head[hot := Head(s, false, true)]);
    SettleMem(Fuse(b, hot, Loose), segs, head, foot, hot, top, topsize,
              SetPinuse(head, hot + s, false)[hot := Head(s, false, true)]);
  }

  lemma JoinTopMem(b: Blocks, segs: seq<Segment>, head: Heads, foot: Links, hot: nat, top: nat, topsize: nat)
    requires MemOk(b, segs, head, foot, hot, top, topsize) && hot in b && HeadAt(head, hot).pinuse
    requires Next(b, hot) == top
    ensures top in b
    ensures MemOk(Fuse(b, hot, Top), segs, head[hot := Head(b[hot].size + topsize, false, true)], foot, 0, hot,
                  b[hot].size + topsize)
  {
    assert TagOk(b, head, foot, hot, hot) && BlockOk(b, segs, hot) && TagOk(b, head, foot, hot, top);
    assert BlockOk(b, segs, top);
    FuseTiled(b, segs, hot, Top);
    TopFootApart(b, segs, head, top, topsize);
    JoinTopTagged(b, segs, head, foot, hot, head[hot := Head(b[hot].size + topsize, false, true)]);
  }

  /** `set_inuse_and_pinuse` on a whole free chunk. */
  lemma UseWholeMem(b: Blocks, segs: seq<Segment>, head: Heads, foot: Links, top: nat, topsize: nat, p: nat)
    requires MemOk(b, segs, head, foot, 0, top, topsize) && p in b && b[p].kind == Free
    ensures Next(b, p) in b
    ensures MemOk(Retag(b, p, Used), segs, SetPinuse(head[p := Head(b[p].size, true, true)], Next(b, p), true), foot,
                  0, top, topsize)
  {
    assert TagOk(b, head, foot, 0, p) && BlockOk(b, segs, p);
    RetagTiled(b, segs, p, Used);
    TopFootApart(b, segs, head, top, topsize);
    assert top != 0 ==> TagOk(b, head, foot, 0, top);
    UseWholeTagged(b, segs, head, foot, p, SetPinuse(head[p := Head(b[p].size, true, true)], Next(b, p), true));
  }

  /** `set_size_and_pinuse_of_inuse_chunk` and `set_size_and_pinuse_of_free_chunk` on the two
      parts of a free chunk, in either order. */
  lemma UseSplitMem(b: Blocks, segs: seq<Segment>, head: Heads, foot: Links, top: nat, topsize: nat, p: nat, n: nat)
    requires MemOk(b, segs, head, foot, 0, top, topsize)
    requires Splits(b, p, n, Used, Free) && b[p].kind == Free
    ensures MemOk(Split(b, p, n, Used, Free), segs,
                  head[p := Head(n, true, true)][p + n := Head(b[p].size - n, false, true)],
                  foot[Next(b, p) := b[p].size - n], 0, top, topsize)
  {
    assert TagOk(b, head, foot, 0, p) && BlockOk(b, segs, p);
    SplitTiled(b, segs, p, n, Used, Free);
    TopFootApart(b, segs, head, top, topsize);
    assert top != 0 ==> TagOk(b, head, foot, 0, top);
    if top != 0 { Ordered(b, segs, p, top); Ordered(b, segs, top, p); }
    UseSplitTagged(b, segs, head, foot, p, n,
                   head[p := Head(n, true, true)][p + n := Head(b[p].size - n, false, true)]);
  }

  lemma UseTopMem(b: Blocks, segs: seq<Segment>, head: Heads, foot: Links, top: nat, topsize: nat, n: nat)
    requires MemOk(b, segs, head, foot, 0, top, topsize) && n % 8 == 0 && 16 <= n < topsize
    ensures top in b && b[top].size == topsize + TOP_FOOT_SIZE
    ensures MemOk(Split(b, top, n, Used, Top), segs,
                  head[top + n := Head(topsize - n, false, true)][top := Head(n, true, true)],
                  foot, 0, top + n, topsize - n)
  {
    assert TagOk(b, head, foot, 0, top) && BlockOk(b, segs, top);
    SplitTiled(b, segs, top, n, Used, Top);
    UseTopTagged(b, segs, head, foot, top, n,
                 head[top + n := Head(topsize - n, false, true)][top := Head(n, true, true)]);
  }

  /** `set_inuse` on both parts of a used chunk. */
  lemma CutUsedMem(b: Blocks, segs: seq<Segment>, head: Heads, foot: Links, top: nat, topsize: nat, p: nat, n: nat,
                   head': Heads)
    requires MemOk(b, segs, head, foot, 0, top, topsize)
    requires Splits(b, p, n, Used, Used) && b[p].kind == Used
    requires head' == CutHeads(head, p, n, b[p].size)
    ensures MemOk(Split(b, p, n, Used, Used), segs, head', foot, 0, top, topsize)
  {
    assert TagOk(b, head, foot, 0, p) && BlockOk(b, segs, p);
    SplitTiled(b, segs, p, n, Used, Used);
    TopFootApart(b, segs, head, top, topsize);
    assert top != 0 ==> TagOk(b, head, foot, 0, top);
    if top != 0 { Ordered(b, segs, p, top); Ordered(b, segs, top, p); }
    CutUsedTagged(b, segs, head, foot, p, n, head');
  }

  /** `set_inuse` on a used chunk grown into the top, and the head of what is left of it. */
  lemma GrowMem(b: Blocks, segs: seq<Segment>, head: Heads, foot: Links, top: nat, topsize: nat, p: nat, n: nat)
    requires MemOk(b, segs, head, foot, 0, top, topsize) && p in b && b[p].kind == Used && Next(b, p) == top
    requires n % 8 == 0 && b[p].size < n < b[p].size + topsize
    ensures top in b && b[top].size == topsize + TOP_FOOT_SIZE && b[top].kind == Top
    ensures MemOk(Split(Fuse(b, p, Top), p, n, Used, Top), segs,
                  SetPinuse(head[p := Head(n, true, HeadAt(head, p).pinuse)], p + n,
                            true)[p + n := Head(b[p].size + topsize - n, false, true)],
                  foot, 0, p + n, b[p].size + topsize - n)
  {
    assert TagOk(b, head, foot, 0, p) && BlockOk(b, segs, p) && TagOk(b, head, foot, 0, top) && BlockOk(b, segs, top);
    var head' := SetPinuse(head[p := Head(n, true, HeadAt(head, p).pinuse)], p + n,
                           true)[p + n := Head(b[p].size + topsize - n, false, true)];
    FuseTiled(b, segs, p, Top);
    SplitTiled(Fuse(b, p, Top), segs, p, n, Used, Top);
    NoneInside(b, segs, top, p + n);
    GrowTagged(b, segs, head, foot, p, n, head');
  }

  /** The heads of the two parts of a used chunk of s bytes, cut after n. */
  function CutHeads(head: Heads, p: nat, n: nat, s: nat): Heads
    requires n <= s
  {
    head[p := Head(n, true, HeadAt(head, p).pinuse)][p + n := Head(s - n, true, true)]
  }

  /** Writing the lower part first, then the upper one, comes to that: the chunk after them
      already knows that its predecessor is in use. The upper head may be written with its
      own old bit or with the bit set. */
  lemma CutLowFirst(head: Heads, p: nat, n: nat, s: nat)
    requires 0 < n < s && HeadAt(head, p + s).pinuse
    ensures var low := SetPinuse(head[p := Head(n, true, HeadAt(head, p).pinuse)], p + n, true);
            && HeadAt(low, p + n).pinuse
            && CutHeads(head, p, n, s) == SetPinuse(low[p + n := Head(s - n, true, true)], p + s, true)
  {
    assert CutHeads(head, p, n, s)[p + s := HeadAt(head, p + s)] == CutHeads(head, p, n, s);
  }

  lemma CutHighFirst(head: Heads, p: nat, n: nat, s: nat)
    requires 0 < n < s && HeadAt(head, p + s).pinuse
    ensures var high := SetPinuse(head[p + n := Head(s - n, true, HeadAt(head, p + n).pinuse)], p + s, true);
            CutHeads(head, p, n, s) == SetPinuse(high[p := Head(n, true, HeadAt(high, p).pinuse)], p + n, true)
  {
    assert CutHeads(head, p, n, s)[p + s := HeadAt(head, p + s)] == CutHeads(head, p, n, s);
  }
}
