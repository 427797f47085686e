/**
 Where the free chunks are: each one is the designated victim, or in exactly one bin, or is
 the one chunk that an operation has taken out of its bin or not yet put into one.
 */
module Placement {
  import opened Words
  import opened BinIndex
  import opened Chunks
  import opened Blocks

  ghost predicate FreeOf(b: Blocks, a: nat, s: nat) {
    a in b && b[a].kind == Free && b[a].size == s
  }

  ghost predicate Place(b: Blocks, dv: nat, spare: nat, small: Content, large: Content, a: nat) {
    && (a in small ==> FreeOf(b, a, small[a]) && small[a] < MIN_LARGE_SIZE && a !in large && a != dv && a != spare)
    && (a in large ==> FreeOf(b, a, large[a]) && large[a] >= MIN_LARGE_SIZE && a != dv && a != spare)
    && (a in b && b[a].kind == Free ==> a == dv || a == spare || a in small || a in large)
  }

  /** `dvsize` is the size of the designated victim, unless an operation has it in hand. */
  ghost predicate DvOk(b: Blocks, dv: nat, dvsize: nat, hot: nat) {
    && (dv == 0 <==> dvsize == 0)
    && (dv != 0 && dv != hot ==> FreeOf(b, dv, dvsize))
  }

  ghost predicate Binned(b: Blocks, dv: nat, dvsize: nat, hot: nat, spare: nat, small: Content, large: Content) {
    && (forall a: nat {:trigger Place(b, dv, spare, small, large, a)} :: Place(b, dv, spare, small, large, a))
    && DvOk(b, dv, dvsize, hot)
    && (spare != 0 ==> spare in b && b[spare].kind == Free && spare != dv)
    && (hot != 0 ==> hot in b && b[hot].kind == Loose)
    && 0 !in b
  }

  /** A chunk leaves its bin. */
  lemma TakeBinned(b: Blocks, dv: nat, dvsize: nat, hot: nat, small: Content, large: Content, v: nat)
    requires Binned(b, dv, dvsize, hot, 0, small, large) && (v in small || v in large)
    ensures Binned(b, dv, dvsize, hot, v, Without(small, v), Without(large, v))
    ensures v in small ==> Without(large, v) == large
    ensures v in large ==> Without(small, v) == small
    ensures v in b && b[v].kind == Free && v != dv
  {
    assert Place(b, dv, 0, small, large, v);
    forall a: nat ensures Place(b, dv, v, Without(small, v), Without(large, v), a) {
      assert Place(b, dv, 0, small, large, a);
    }
  }

  lemma PutBinned(b: Blocks, dv: nat, dvsize: nat, hot: nat, small: Content, large: Content, v: nat)
    requires Binned(b, dv, dvsize, hot, v, small, large) && v != 0
    ensures v !in small && v !in large
    ensures b[v].size < MIN_LARGE_SIZE ==> Binned(b, dv, dvsize, hot, 0, small[v := b[v].size], large)
    ensures b[v].size >= MIN_LARGE_SIZE ==> Binned(b, dv, dvsize, hot, 0, small, large[v := b[v].size])
  {
    assert Place(b, dv, v, small, large, v);
    var small' := if b[v].size < MIN_LARGE_SIZE then small[v := b[v].size] else small;
    var large' := if b[v].size >= MIN_LARGE_SIZE then large[v := b[v].size] else large;
    forall a: nat ensures Place(b, dv, 0, small', large', a) {
      assert Place(b, dv, v, small, large, a);
    }
  }

  /** Free chunks may be freely retagged or regrouped as long as the bins keep theirs. */
  lemma Rebinned(b: Blocks, dv: nat, dvsize: nat, hot: nat, spare: nat, small: Content, large: Content,
                 b': Blocks, dv': nat, dvsize': nat, hot': nat, spare': nat)
    requires Binned(b, dv, dvsize, hot, spare, small, large)
    requires forall a ::
               a in b && b[a].kind == Free && a != dv && a != spare ==>
                 a in b' && b'[a] == b[a] && a != dv' && a != spare'
    requires forall a ::
               a in b' && b'[a].kind == Free ==>
                 a == dv' || a == spare' || (a in b && b[a].kind == Free && a != dv && a != spare)
    requires DvOk(b', dv', dvsize', hot')
    requires spare' != 0 ==> spare' in b' && b'[spare'].kind == Free && spare' != dv'
    requires hot' != 0 ==> hot' in b' && b'[hot'].kind == Loose
    requires 0 !in b'
    ensures Binned(b', dv', dvsize', hot', spare', small, large)
  {
    forall a: nat ensures Place(b', dv', spare', small, large, a) {
      assert Place(b, dv, spare, small, large, a);
    }
  }

  /** A chunk that is in no bin is handed out whole. */
  lemma UseWholeBinned(b: Blocks, dv: nat, dvsize: nat, spare: nat, small: Content, large: Content, p: nat)
    requires Binned(b, dv, dvsize, 0, spare, small, large) && p in b && (p == dv || p == spare)
    ensures p == dv ==> Binned(Retag(b, p, Used), 0, 0, 0, spare, small, large)
    ensures p == spare ==> Binned(Retag(b, p, Used), dv, dvsize, 0, 0, small, large)
  {
    if p == dv {
      Rebinned(b, dv, dvsize, 0, spare, small, large, Retag(b, p, Used), 0, 0, 0, spare);
    } else {
      Rebinned(b, dv, dvsize, 0, spare, small, large, Retag(b, p, Used), dv, dvsize, 0, 0);
    }
  }

  /** The low part of a chunk that is in no bin is handed out. */
  lemma UseSplitBinned(b: Blocks, dv: nat, dvsize: nat, spare: nat, small: Content, large: Content, p: nat, n: nat)
    requires Binned(b, dv, dvsize, 0, spare, small, large) && p in b && (p == dv || p == spare)
    requires 0 < n < b[p].size && p + n !in b
    ensures p == dv ==> Binned(Split(b, p, n, Used, Free), p + n, b[p].size - n, 0, spare, small, large)
    ensures p == spare ==> Binned(Split(b, p, n, Used, Free), dv, dvsize, 0, p + n, small, large)
  {
    if p == dv {
      Rebinned(b, dv, dvsize, 0, spare, small, large, Split(b, p, n, Used, Free), p + n, b[p].size - n, 0, spare);
    } else {
      Rebinned(b, dv, dvsize, 0, spare, small, large, Split(b, p, n, Used, Free), dv, dvsize, 0, p + n);
    }
  }

  /** A change among chunks that are not free leaves the free ones where they are. */
  lemma SameFreeBinned(b: Blocks, dv: nat, dvsize: nat, small: Content, large: Content, b': Blocks)
    requires Binned(b, dv, dvsize, 0, 0, small, large) && 0 !in b'
    requires forall a :: a in b && b[a].kind == Free ==> a in b' && b'[a] == b[a]
    requires forall a :: a in b' && b'[a].kind == Free ==> a in b && b[a].kind == Free
    ensures Binned(b', dv, dvsize, 0, 0, small, large)
  {
    Rebinned(b, dv, dvsize, 0, 0, small, large, b', dv, dvsize, 0, 0);
  }

  lemma HeatBinned(b: Blocks, dv: nat, dvsize: nat, small: Content, large: Content, p: nat)
    requires Binned(b, dv, dvsize, 0, 0, small, large) && p in b && b[p].kind == Used
    ensures Binned(Retag(b, p, Loose), dv, dvsize, p, 0, small, large) && p != dv
  {
    Rebinned(b, dv, dvsize, 0, 0, small, large, Retag(b, p, Loose), dv, dvsize, p, 0);
  }

  /** The chunk in hand swallows the one before it, which is in no bin. */
  lemma AbsorbPrevBinned(b: Blocks, dv: nat, dvsize: nat, hot: nat, spare: nat, small: Content, large: Content, q: nat)
    requires Binned(b, dv, dvsize, hot, spare, small, large) && hot in b && q in b && Next(b, q) == hot && q != hot
    requires dv != hot
    requires Next(b, q) in b && b[q].kind == Free && (q == spare || (q == dv && spare == 0))
    ensures Binned(Fuse(b, q, Loose), dv, dvsize, q, 0, small, large)
  {
    Rebinned(b, dv, dvsize, hot, spare, small, large, Fuse(b, q, Loose), dv, dvsize, q, 0);
  }

  /** The chunk in hand swallows the one after it, which is in no bin. */
  lemma AbsorbNextBinned(b: Blocks, dv: nat, dvsize: nat, hot: nat, small: Content, large: Content, n: nat)
    requires Binned(b, dv, dvsize, hot, n, small, large) && hot in b && Next(b, hot) == n && n in b && n != hot
    requires n != 0
    ensures Binned(Fuse(b, hot, Loose), dv, dvsize, hot, 0, small, large)
  {
    Rebinned(b, dv, dvsize, hot, n, small, large, Fuse(b, hot, Loose), dv, dvsize, hot, 0);
  }

  /** The chunk in hand swallows the designated victim after it and takes its place. */
  lemma AbsorbDvBinned(b: Blocks, dv: nat, dvsize: nat, hot: nat, small: Content, large: Content, s: nat)
    requires Binned(b, dv, dvsize, hot, 0, small, large) && hot in b && Next(b, hot) == dv && dv in b && dv != hot
    requires dv != 0
    requires s == b[hot].size + dvsize
    ensures Binned(Retag(Fuse(b, hot, Loose), hot, Free), hot, s, 0, 0, small, large)
  {
    Rebinned(b, dv, dvsize, hot, 0, small, large, Retag(Fuse(b, hot, Loose), hot, Free), hot, s, 0, 0);
  }

  /** The chunk in hand becomes free: as the designated victim if it swallowed that, and
      otherwise to be put into a bin. */
  lemma SettleBinned(b: Blocks, dv: nat, dvsize: nat, hot: nat, small: Content, large: Content)
    requires Binned(b, dv, dvsize, hot, 0, small, large) && hot in b && hot != 0 && b[hot].size > 0
    ensures hot == dv ==> Binned(Retag(b, hot, Free), dv, b[hot].size, 0, 0, small, large)
    ensures hot != dv ==> Binned(Retag(b, hot, Free), dv, dvsize, 0, hot, small, large)
  {
    if hot == dv {
      Rebinned(b, dv, dvsize, hot, 0, small, large, Retag(b, hot, Free), dv, b[hot].size, 0, 0);
    } else {
      Rebinned(b, dv, dvsize, hot, 0, small, large, Retag(b, hot, Free), dv, dvsize, 0, hot);
    }
  }

  lemma JoinTopBinned(b: Blocks, dv: nat, dvsize: nat, hot: nat, small: Content, large: Content)
    requires Binned(b, dv, dvsize, hot, 0, small, large) && hot in b && hot != 0
    requires Next(b, hot) in b && b[Next(b, hot)].kind == Top && Next(b, hot) != hot
    ensures hot == dv ==> Binned(Fuse(b, hot, Top), 0, 0, 0, 0, small, large)
    ensures hot != dv ==> Binned(Fuse(b, hot, Top), dv, dvsize, 0, 0, small, large)
  {
    if hot == dv {
      Rebinned(b, dv, dvsize, hot, 0, small, large, Fuse(b, hot, Top), 0, 0, 0, 0);
    } else {
      Rebinned(b, dv, dvsize, hot, 0, small, large, Fuse(b, hot, Top), dv, dvsize, 0, 0);
    }
  }

  /** The old designated victim is in no bin once another chunk takes its name. */
  lemma ReplaceBinned(b: Blocks, dv: nat, dvsize: nat, small: Content, large: Content, r: nat)
    requires Binned(b, dv, dvsize, 0, r, small, large) && r != 0
    ensures b[r].size > 0 ==> Binned(b, r, b[r].size, 0, dv, small, large)
  {
    if b[r].size > 0 {
      forall a: nat ensures Place(b, r, dv, small, large, a) {
        assert Place(b, dv, r, small, large, a);
      }
    }
  }
}
