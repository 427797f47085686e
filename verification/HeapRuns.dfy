/**
 Runs of allocation calls, as a client sees them: the blocks it holds behave like arrays
 that have nothing to do with each other, whatever is done to the others.
 */
module HeapRuns {
  import opened Words
  import opened BinIndex
  import opened Chunks
  import opened Blocks
  import opened BoundaryTags
  import opened Policy
  import opened Growth
  import opened Alignment
  import H = Heap

  /** A state as the client sees it: the chunks in memory, the blocks that calls have
      returned with the sizes asked for, and the bytes of memory. */
  datatype State = State(blocks: Blocks, segs: seq<Segment>, live: map<nat, nat>, bytes: map<nat, nat>)

  datatype Call =
    | Malloc(size: nat)
    | Calloc(count: nat, elem: nat)
    | Memalign(alignment: nat, size: nat)
    | Realloc(mem: nat, size: nat)
    | Free(mem: nat)
    | Write(mem: nat, index: nat, value: nat)

  function ByteAt(bytes: map<nat, nat>, a: nat): nat {
    if a in bytes then bytes[a] else 0
  }

  /** What the client stored in block m. */
  function Contents(s: State, m: nat): seq<int>
    requires m in s.live
  {
    seq(s.live[m], i requires 0 <= i < s.live[m] => ByteAt(s.bytes, m + i))
  }

  ghost predicate BlockOwned(live: map<nat, nat>, used: map<nat, nat>, m: nat)
    requires m in live
  {
    && m > 8 && live[m] < MAX_REQUEST && m - 8 in used
    && Request2Size(live[m]) <= used[m - 8] <= Request2Size(live[m]) + MIN_CHUNK_SIZE
  }

  /** The chunks in use are exactly those of the blocks returned and not yet freed, and each
      is large enough but not much larger than needed. */
  ghost predicate Owned(live: map<nat, nat>, used: map<nat, nat>) {
    && (forall m {:trigger BlockOwned(live, used, m)} :: m in live ==> BlockOwned(live, used, m))
    && (forall p :: p in used ==> p + 8 in live)
  }

  ghost predicate Safe(s: State) {
    Tiled(s.blocks, s.segs) && Owned(s.live, UsedChunks(s.blocks))
  }

  // ----- What safety means for the client -----

  /** A block that the client holds is aligned and lies inside a segment. */
  lemma SafeBlock(s: State, m: nat)
    requires Safe(s) && m in s.live
    ensures m % 8 == 0
    ensures exists g :: 0 <= g < |s.segs| && s.segs[g].base < m && m + s.live[m] <= End(s.segs[g])
  {
    assert BlockOwned(s.live, UsedChunks(s.blocks), m);
    Request2SizeRoom(s.live[m]);
    ChunkInside(s.blocks, s.segs, m - 8, s.live[m]);
  }

  lemma ChunkInside(b: Blocks, segs: seq<Segment>, p: nat, n: nat)
    requires Tiled(b, segs) && p in b && b[p].kind == Used && n + 4 <= b[p].size
    ensures (p + 8) % 8 == 0
    ensures exists g :: 0 <= g < |segs| && segs[g].base < p + 8 && p + 8 + n <= End(segs[g])
  {
    assert BlockOk(b, segs, p);
    var g := b[p].seg;
    assert SegmentOk(b, segs, g);
    WordAfter(p, b[p].size, End(segs[g]));
    assert segs[g].base < p + 8 && p + 8 + n <= End(segs[g]);
  }

  lemma WordAfter(p: nat, size: nat, end: nat)
    requires p % 8 == 0 && size % 8 == 0 && end % 4 == 0 && p + size < end
    ensures p + size + 4 <= end && (p + 8) % 8 == 0
  {
  }

  /** Any two blocks that the client holds are disjoint. */
  lemma SafeBlocks(s: State, m: nat, m': nat)
    requires Safe(s) && m in s.live && m' in s.live && m != m'
    ensures m + s.live[m] <= m' || m' + s.live[m'] <= m
  {
    var u := UsedChunks(s.blocks);
    assert BlockOwned(s.live, u, m) && BlockOwned(s.live, u, m');
    Request2SizeRoom(s.live[m]);
    Request2SizeRoom(s.live[m']);
    assert Apart(s.blocks, m - 8, m' - 8) && Apart(s.blocks, m' - 8, m - 8);
  }

  /** The words that the allocator keeps in memory: the head of any chunk, the links of a
      free chunk, and its foot at the start of the next chunk. None of them lies in the
      payload of a chunk in use. */
  lemma WordsApart(b: Blocks, segs: seq<Segment>, p: nat, c: nat, w: nat)
    requires Tiled(b, segs) && p in b && b[p].kind == Used && c in b
    requires (w == c + 4) || (b[c].kind.Free? && c + 8 <= w && w + 4 <= Next(b, c))
             || (b[c].kind.Free? && w == Next(b, c))
    ensures w + 4 <= p + 8 || Next(b, p) + 4 <= w
  {
    assert BlockOk(b, segs, p) && BlockOk(b, segs, c);
    Ordered(b, segs, p, c);
    Ordered(b, segs, c, p);
    if b[c].kind.Free? {
      Ordered(b, segs, p, Next(b, c));
      Ordered(b, segs, Next(b, c), p);
    }
  }

  // ----- Steps -----

  ghost predicate SameBytes(s: State, s': State) {
    forall a: nat :: ByteAt(s'.bytes, a) == ByteAt(s.bytes, a)
  }

  /** Block m is new; its chunk is less than `slack` bytes larger than needed. */
  ghost predicate Gains(s: State, s': State, m: nat, size: nat, slack: nat) {
    && m > 8 && size < MAX_REQUEST && m - 8 !in UsedChunks(s.blocks) && m - 8 in UsedChunks(s'.blocks)
    && Request2Size(size) <= UsedChunks(s'.blocks)[m - 8] < Request2Size(size) + slack
    && UsedChunks(s'.blocks) == UsedChunks(s.blocks)[m - 8 := UsedChunks(s'.blocks)[m - 8]]
    && s'.live == s.live[m := size]
  }

  ghost predicate Fails(s: State, s': State) {
    UsedChunks(s'.blocks) == UsedChunks(s.blocks) && s'.live == s.live && SameBytes(s, s')
  }

  /** Block m gives way to block r of the new size; the bytes that both have room for are
      kept. */
  ghost predicate Moves(s: State, s': State, m: nat, r: nat, size: nat) {
    && m in s.live && m > 8 && r > 8 && size < MAX_REQUEST
    && Resized(UsedChunks(s.blocks), UsedChunks(s'.blocks), m - 8, r - 8, Request2Size(size))
    && s'.live == Without(s.live, m)[r := size]
    && (forall a: nat ::
          r <= a < r + (if s.live[m] < size then s.live[m] else size) ==>
            ByteAt(s'.bytes, a) == ByteAt(s.bytes, m + (a - r)))
    && (forall a: nat :: !(r <= a < r + size) ==> ByteAt(s'.bytes, a) == ByteAt(s.bytes, a))
  }

  /** A call with result r (0 for calls that return nothing) takes s to s'. */
  ghost predicate Step(s: State, c: Call, r: nat, s': State) {
    && Tiled(s'.blocks, s'.segs)
    && match c
       case Malloc(size) =>
         if r == 0 then Fails(s, s') else Gains(s, s', r, size, MIN_CHUNK_SIZE) && SameBytes(s, s')
       case Calloc(count, elem) =>
         if r == 0 then Fails(s, s')
         else
           && Gains(s, s', r, count * elem, MIN_CHUNK_SIZE)
           && forall a: nat :: ByteAt(s'.bytes, a) == if r <= a < r + count * elem then 0 else ByteAt(s.bytes, a)
       case Memalign(alignment, size) =>
         if r == 0 then Fails(s, s')
         else Gains(s, s', r, size, MIN_CHUNK_SIZE + 1) && Aligned(r, RoundedAlignment(alignment)) && SameBytes(s, s')
       case Realloc(m, size) =>
         if r == 0 then Fails(s, s') else Moves(s, s', m, r, size)
       case Free(m) =>
         && m in s.live && m > 8 && UsedChunks(s'.blocks) == Without(UsedChunks(s.blocks), m - 8)
         && s'.live == Without(s.live, m) && SameBytes(s, s')
       case Write(m, i, v) =>
         m in s.live && i < s.live[m] && s' == s.(bytes := s.bytes[m + i := v])
  }

  /** What a call does to the arrays that the client holds. */
  ghost predicate ArrayStep(s: State, c: Call, r: nat, s': State) {
    match c
    case Malloc(size) => r != 0 ==> r in s'.live && |Contents(s', r)| == size
    case Calloc(count, elem) => r != 0 ==> r in s'.live && Contents(s', r) == seq(count * elem, _ => 0)
    case Memalign(alignment, size) => r != 0 ==> r in s'.live && |Contents(s', r)| == size
    case Realloc(m, size) =>
      r != 0 ==> m in s.live && r in s'.live && |Contents(s', r)| == size
                 && var n := if s.live[m] < size then s.live[m] else size; Contents(s', r)[..n] == Contents(s, m)[..n]
    case Free(m) => m !in s'.live
    case Write(m, i, v) => m in s.live && i < s.live[m] && m in s'.live && Contents(s', m) == Contents(s, m)[i := v]
  }

  /** The block that a call works on. */
  function Touched(c: Call, r: nat): nat {
    match c
    case Realloc(m, _) => if r == 0 then 0 else m
    case Free(m) => m
    case Write(m, _, _) => m
    case _ => 0
  }

  lemma GainsOwned(s: State, s': State, m: nat, size: nat, slack: nat)
    requires Safe(s) && Gains(s, s', m, size, slack) && slack <= MIN_CHUNK_SIZE + 1
    ensures Owned(s'.live, UsedChunks(s'.blocks)) && m !in s.live
  {
    var u, u' := UsedChunks(s.blocks), UsedChunks(s'.blocks);
    assert m in s.live ==> BlockOwned(s.live, u, m);
    forall x | x in s'.live ensures BlockOwned(s'.live, u', x) {
      assert x in s.live ==> BlockOwned(s.live, u, x);
    }
  }

  lemma MovesOwned(s: State, s': State, m: nat, r: nat, size: nat)
    requires Safe(s) && Moves(s, s', m, r, size)
    ensures Owned(s'.live, UsedChunks(s'.blocks)) && (r != m ==> r !in s.live)
  {
    var u, u' := UsedChunks(s.blocks), UsedChunks(s'.blocks);
    assert BlockOwned(s.live, u, m);
    assert r in s.live ==> BlockOwned(s.live, u, r);
    forall x | x in s'.live ensures BlockOwned(s'.live, u', x) {
      assert x in s.live ==> BlockOwned(s.live, u, x);
    }
  }

  lemma LosesOwned(s: State, s': State, m: nat)
    requires Safe(s) && m in s.live && m > 8
    requires UsedChunks(s'.blocks) == Without(UsedChunks(s.blocks), m - 8) && s'.live == Without(s.live, m)
    ensures Owned(s'.live, UsedChunks(s'.blocks))
  {
    var u, u' := UsedChunks(s.blocks), UsedChunks(s'.blocks);
    forall x | x in s'.live ensures BlockOwned(s'.live, u', x) {
      assert BlockOwned(s.live, u, x);
    }
  }

  /** Every call keeps the state safe. */
  lemma StepSafe(s: State, c: Call, r: nat, s': State)
    requires Safe(s) && Step(s, c, r, s')
    ensures Safe(s')
  {
    match c
    case Malloc(size) => if r != 0 { GainsOwned(s, s', r, size, MIN_CHUNK_SIZE); }
    case Calloc(count, elem) => if r != 0 { GainsOwned(s, s', r, count * elem, MIN_CHUNK_SIZE); }
    case Memalign(_, size) => if r != 0 { GainsOwned(s, s', r, size, MIN_CHUNK_SIZE + 1); }
    case Realloc(m, size) => if r != 0 { MovesOwned(s, s', m, r, size); }
    case Free(m) => LosesOwned(s, s', m);
    case Write(_, _, _) =>
  }

  lemma SameContents(s: State, s': State, m: nat)
    requires m in s.live && m in s'.live && s'.live[m] == s.live[m]
    requires forall a: nat :: m <= a < m + s.live[m] ==> ByteAt(s'.bytes, a) == ByteAt(s.bytes, a)
    ensures Contents(s', m) == Contents(s, m)
  {
  }

  /** A call leaves alone every block but the one it works on. */
  lemma StepOthers(s: State, c: Call, r: nat, s': State, m: nat)
    requires Safe(s) && Step(s, c, r, s') && m in s.live && m != Touched(c, r)
    ensures m in s'.live && Contents(s', m) == Contents(s, m)
  {
    StepSafe(s, c, r, s');
    match c
    case Malloc(size) =>
      if r != 0 { GainsOwned(s, s', r, size, MIN_CHUNK_SIZE); }
      SameContents(s, s', m);
    case Calloc(count, elem) =>
      if r != 0 {
        GainsOwned(s, s', r, count * elem, MIN_CHUNK_SIZE);
        SafeBlocks(s', m, r);
      }
      SameContents(s, s', m);
    case Memalign(_, size) =>
      if r != 0 { GainsOwned(s, s', r, size, MIN_CHUNK_SIZE + 1); }
      SameContents(s, s', m);
    case Realloc(from, size) =>
      if r != 0 {
        MovesOwned(s, s', from, r, size);
        SafeBlocks(s', m, r);
      }
      SameContents(s, s', m);
    case Free(_) =>
      SameContents(s, s', m);
    case Write(x, i, _) =>
      SafeBlocks(s, m, x);
      SameContents(s, s', m);
  }

  /** And it does to that block, and to the one returned, what the call is for. */
  lemma StepArrays(s: State, c: Call, r: nat, s': State)
    requires Safe(s) && Step(s, c, r, s')
    ensures ArrayStep(s, c, r, s')
  {
    if c.Write? {
      var m, i := c.mem, c.index;
      forall k | 0 <= k < s.live[m] ensures Contents(s', m)[k] == Contents(s, m)[i := c.value][k] {
        assert Contents(s', m)[k] == ByteAt(s'.bytes, m + k);
        assert Contents(s, m)[k] == ByteAt(s.bytes, m + k);
      }
    }
  }

  // ----- Runs -----

  /** The states of a run, the calls between them and their results. */
  ghost predicate Run(states: seq<State>, calls: seq<Call>, results: seq<nat>) {
    && |states| == |calls| + 1 && |results| == |calls|
    && states[0] == State(map[], [], map[], map[])
    && forall k {:trigger calls[k]} :: 0 <= k < |calls| ==> Step(states[k], calls[k], results[k], states[k + 1])
  }

  lemma {:induction false} RunSafe(states: seq<State>, calls: seq<Call>, results: seq<nat>, k: nat)
    requires Run(states, calls, results) && k < |states|
    ensures Safe(states[k])
  {
    if k > 0 {
      RunSafe(states, calls, results, k - 1);
      assert Step(states[k - 1], calls[k - 1], results[k - 1], states[k]);
      StepSafe(states[k - 1], calls[k - 1], results[k - 1], states[k]);
    }
  }

  /** Over a whole run: from state i to state j a block that no call between them works on
      stays live, stays where it is, and keeps its contents. */
  lemma {:induction false} RunKeeps(states: seq<State>, calls: seq<Call>, results: seq<nat>, i: nat, j: nat, m: nat)
    requires Run(states, calls, results) && i <= j < |states| && m in states[i].live
    requires forall k {:trigger calls[k]} :: i <= k < j ==> Touched(calls[k], results[k]) != m
    ensures m in states[j].live && Contents(states[j], m) == Contents(states[i], m)
  {
    if i < j {
      RunKeeps(states, calls, results, i, j - 1, m);
      RunSafe(states, calls, results, j - 1);
      assert Step(states[j - 1], calls[j - 1], results[j - 1], states[j]);
      StepOthers(states[j - 1], calls[j - 1], results[j - 1], states[j], m);
    }
  }
}
