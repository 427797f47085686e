/** Which chunk a request takes, and what is left of it. */
module Policy {
  import opened BinIndex
  import opened Chunks
  import opened Blocks

  /** The free space a request can be served from. */
  datatype Stock = Stock(small: Content, large: Content, dv: nat, dvsize: nat, top: nat, topsize: nat)

  /** A binned chunk of the exact size, or of one unit more, leaves no remainder. */
  ghost predicate Remainderless(st: Stock, nb: nat) {
    exists a :: a in st.small && nb <= st.small[a] <= nb + 8
  }

  /** The order of preference for a small request. */
  ghost predicate ChosenSmall(st: Stock, nb: nat, v: nat) {
    if Remainderless(st, nb) then Least(st.small, nb, v)
    else if nb <= st.dvsize then v == st.dv
    else if !NoneFits(st.small, nb) then Least(st.small, nb, v)
    else if !NoneFits(st.large, nb) then Least(st.large, nb, v)
    else nb < st.topsize && v == st.top
  }

  lemma NearestChosen(st: Stock, nb: nat, v: nat)
    requires Least(st.small, nb, v) && st.small[v] <= nb + 8
    ensures Remainderless(st, nb) && ChosenSmall(st, nb, v)
  {
  }

  /** Some binned large chunk fits better than the designated victim. */
  ghost predicate BetterThanDv(st: Stock, nb: nat, v: nat) {
    Least(st.large, nb, v) && (nb <= st.dvsize ==> st.large[v] < st.dvsize)
  }

  ghost predicate ChosenLarge(st: Stock, nb: nat, v: nat) {
    if exists a :: BetterThanDv(st, nb, a) then BetterThanDv(st, nb, v)
    else if nb <= st.dvsize then v == st.dv
    else nb < st.topsize && v == st.top
  }

  ghost predicate Chosen(st: Stock, nb: nat, v: nat) {
    if nb < MIN_LARGE_SIZE then ChosenSmall(st, nb, v) else ChosenLarge(st, nb, v)
  }

  /** Nothing in stock serves the request. */
  ghost predicate Exhausted(st: Stock, nb: nat) {
    NoneFits(st.small, nb) && NoneFits(st.large, nb) && st.dvsize < nb && st.topsize <= nb
  }

  /** Chunk v is handed out for a request of nb bytes: whole if less than a chunk would be
      left over, and otherwise cut to exactly nb bytes. The top is always cut. */
  ghost predicate Handed(b: Blocks, b': Blocks, v: nat, nb: nat) {
    && v in b && v > 0
    && (|| (b[v].kind == Free && nb <= b[v].size < nb + MIN_CHUNK_SIZE && b' == Retag(b, v, Used))
        || (b[v].kind == Free && nb + MIN_CHUNK_SIZE <= b[v].size && b' == Split(b, v, nb, Used, Free))
        || (b[v].kind == Top && nb + TOP_FOOT_SIZE < b[v].size && b' == Split(b, v, nb, Used, Top)))
  }

  /** The size that chunk v has when it is handed out. */
  function HandedSize(b: Blocks, v: nat, nb: nat): nat
    requires v in b
  {
    if b[v].kind == Free && b[v].size < nb + MIN_CHUNK_SIZE then b[v].size else nb
  }

  /** The designated victim after chunk v has been handed out: what is left of itself, or of a
      binned chunk that served a small request; otherwise it stays. */
  function DvServed(b: Blocks, dv: nat, v: nat, nb: nat): nat
    requires v in b
  {
    if v == dv then
      if b[v].size < nb + MIN_CHUNK_SIZE then 0 else v + nb
    else if nb < MIN_LARGE_SIZE && b[v].kind == Free && b[v].size >= nb + MIN_CHUNK_SIZE then v + nb
    else dv
  }

  /** The chosen chunk is handed out, and this becomes the designated victim. */
  ghost predicate Served(b: Blocks, st: Stock, b': Blocks, dv': nat, v: nat, nb: nat) {
    v in b && Handed(b, b', v, nb) && Chosen(st, nb, v) && dv' == DvServed(b, st.dv, v, nb)
  }

  lemma LargeServed(b: Blocks, st: Stock, b': Blocks, v: nat, nb: nat)
    requires nb >= MIN_LARGE_SIZE && v in b && v != st.dv && BetterThanDv(st, nb, v) && Handed(b, b', v, nb)
    ensures Served(b, st, b', st.dv, v, nb)
  {
  }

  /** Chunk v is chosen for nb bytes, and handed out with 8 bytes to spare or none. */
  ghost predicate HandsOut(b: Blocks, st: Stock, v: nat, nb: nat, spare: bool) {
    v in b && Chosen(st, nb, v) && (spare <==> b[v].kind == Free && b[v].size == nb + 8)
  }

  /** The chunks that clients hold, with their sizes. */
  function UsedChunks(b: Blocks): map<nat, nat> {
    map a | a in b && b[a].kind == Used :: b[a].size
  }

  /** The client's chunk `from` has given way to chunk p, of nb bytes or less than
      MIN_CHUNK_SIZE more. */
  ghost predicate Resized(used: map<nat, nat>, used': map<nat, nat>, from: nat, p: nat, nb: nat) {
    && p in used' && nb <= used'[p] < nb + MIN_CHUNK_SIZE
    && (p != from ==> p !in used)
    && used' == Without(used, from)[p := used'[p]]
  }

  /** Handing out v adds one chunk to those that clients hold, less than MIN_CHUNK_SIZE
      larger than asked for. */
  lemma HandedUsed(b: Blocks, segs: seq<Segment>, b': Blocks, v: nat, nb: nat)
    requires Tiled(b, segs) && Handed(b, b', v, nb) && nb >= 16
    ensures v !in UsedChunks(b) && v in b' && nb <= b'[v].size < nb + MIN_CHUNK_SIZE
    ensures UsedChunks(b') == UsedChunks(b)[v := b'[v].size]
    ensures b[v].kind == Top ==> b'[v].size == nb
    ensures b'[v].size == HandedSize(b, v, nb)
  {
    if b' != Retag(b, v, Used) { NoneInside(b, segs, v, v + nb); }
  }

  /** The smallest of a non-empty set of fitting chunks. */
  lemma {:induction false} LeastExists(c: Content, nb: nat, a0: nat) returns (v: nat)
    requires a0 in c && nb <= c[a0]
    ensures Least(c, nb, v)
    decreases c[a0]
  {
    if a :| a in c && nb <= c[a] < c[a0] {
      v := LeastExists(c, nb, a);
    } else {
      v := a0;
    }
  }

  /** A choice exists exactly when the stock is not exhausted, and it always fits. */
  lemma ChoiceExists(st: Stock, nb: nat) returns (v: nat)
    requires forall a :: a in st.small ==> st.small[a] < MIN_LARGE_SIZE
    ensures Chosen(st, nb, v) <==> !Exhausted(st, nb)
    ensures forall u :: Chosen(st, nb, u) ==> !Exhausted(st, nb)
  {
    v := st.top;
    var inLarge := if a :| a in st.large && nb <= st.large[a] then a else 0;
    if nb < MIN_LARGE_SIZE {
      if a :| a in st.small && nb <= st.small[a] <= nb + 8 {
        v := LeastExists(st.small, nb, a);
      } else if nb <= st.dvsize {
        v := st.dv;
      } else if a :| a in st.small && nb <= st.small[a] {
        v := LeastExists(st.small, nb, a);
      } else if !NoneFits(st.large, nb) {
        v := LeastExists(st.large, nb, inLarge);
      }
    } else if a :| BetterThanDv(st, nb, a) {
      v := a;
    } else if nb <= st.dvsize {
      v := st.dv;
    } else if !NoneFits(st.large, nb) {
      v := LeastExists(st.large, nb, inLarge);
      assert BetterThanDv(st, nb, v);
    }
  }
}
