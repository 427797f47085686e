/**
 Boundary tags: the head word of every chunk and the foot word behind every free chunk must
 agree with the tiling. One chunk may be loose, held by an operation in progress; its own
 tags are not maintained until it is settled again.
 */
module BoundaryTags {
  import opened Words
  import opened Rings
  import opened Chunks
  import opened Blocks

  /** The head value of a fencepost: size 4 with both in-use bits. */
  const FENCEPOST_HEAD := Head(4, true, true)

  /** When a chunk's pinuse bit is clear, its foot word leads back to a free chunk, unless
      the chunk before it is the loose one. */
  ghost predicate PrevFree(b: Blocks, foot: Links, hot: nat, a: nat) {
    var f := Get(foot, a);
    || (hot in b && Next(b, hot) == a)
    || (f <= a && a - f in b && b[a - f].kind == Free && b[a - f].size == f)
  }

  ghost predicate TagOk(b: Blocks, head: Heads, foot: Links, hot: nat, a: nat)
    requires a in b
  {
    var h, n, k := HeadAt(head, a), Next(b, a), b[a].kind;
    && (k == Used || k == Record ==> h.cinuse && h.size == b[a].size)
    && (k == Free ==> h == Head(b[a].size, false, true) && Get(foot, n) == b[a].size)
    && (k == Top ==> b[a].size > TOP_FOOT_SIZE && h == Head(b[a].size - TOP_FOOT_SIZE, false, true))
    && (k == Fence ==> b[a].size >= 8 && h == FENCEPOST_HEAD)
    && (k == Loose <==> a == hot)
    && (Regular(k) && k != Loose ==> HeadAt(head, n).pinuse == InUse(k))
    && (Regular(k) && k != Record && n in b ==> b[n].kind != Fence)
    && (!h.pinuse ==> PrevFree(b, foot, hot, a))
  }

  ghost predicate Tagged(b: Blocks, head: Heads, foot: Links, hot: nat) {
    forall a {:trigger TagOk(b, head, foot, hot, a)} :: a in b ==> TagOk(b, head, foot, hot, a)
  }

  /** All head words of chunks are as before except those of p and q. */
  ghost predicate HeadsBut(b: Blocks, head: Heads, head': Heads, p: nat, q: nat) {
    forall a :: a in b && a != p && a != q ==> HeadAt(head', a) == HeadAt(head, a)
  }

  /** Two chunks are in order: the next one does not start before the end of the first. */
  lemma Ordered(b: Blocks, segs: seq<Segment>, a: nat, c: nat)
    requires Tiled(b, segs) && a in b && c in b
    ensures a < c ==> Next(b, a) <= c
    ensures a != c ==> Next(b, a) != Next(b, c)
    ensures Regular(b[a].kind) ==> Next(b, a) in b && Next(b, a) > a
    ensures b[a].size > 0
  {
    assert Apart(b, a, c) && Apart(b, c, a) && BlockOk(b, segs, a) && BlockOk(b, segs, c);
  }

  // ----- Taking a chunk in hand -----

  /** A used or free chunk becomes the loose one; no word changes. */
  lemma HeatTagged(b: Blocks, segs: seq<Segment>, head: Heads, foot: Links, p: nat)
    requires Tiled(b, segs) && Tagged(b, head, foot, 0) && p in b && (b[p].kind == Used || b[p].kind == Free)
    ensures Tagged(Retag(b, p, Loose), head, foot, p)
  {
    var b' := Retag(b, p, Loose);
    assert BlockOk(b, segs, p);
    assert 0 in b ==> BlockOk(b, segs, 0);
    forall a | a in b' ensures TagOk(b', head, foot, p, a) {
      assert TagOk(b, head, foot, 0, a) && BlockOk(b, segs, a);
    }
  }

  /** The loose chunk swallows the free chunk before it. */
  lemma AbsorbPrevTagged(b: Blocks, segs: seq<Segment>, head: Heads, foot: Links, hot: nat, q: nat)
    requires Tiled(b, segs) && Tagged(b, head, foot, hot) && hot in b && q in b && b[q].kind == Free
    requires Next(b, q) == hot
    ensures Next(b, hot) in b
    ensures Tagged(Fuse(b, q, Loose), head, foot, q)
  {
    var b' := Fuse(b, q, Loose);
    assert TagOk(b, head, foot, hot, hot) && TagOk(b, head, foot, hot, q) && BlockOk(b, segs, hot);
    assert BlockOk(b, segs, q);
    forall a | a in b' ensures TagOk(b', head, foot, q, a) {
      assert TagOk(b, head, foot, hot, a) && BlockOk(b, segs, a);
      Ordered(b, segs, a, q);
      Ordered(b, segs, a, hot);
    }
  }

  /** The loose chunk swallows the free chunk after it. */
  lemma AbsorbNextTagged(b: Blocks, segs: seq<Segment>, head: Heads, foot: Links, hot: nat)
    requires Tiled(b, segs) && Tagged(b, head, foot, hot) && hot in b && Next(b, hot) in b
    requires b[Next(b, hot)].kind == Free
    ensures Tagged(Fuse(b, hot, Loose), head, foot, hot)
  {
    var n, b' := Next(b, hot), Fuse(b, hot, Loose);
    assert TagOk(b, head, foot, hot, hot) && TagOk(b, head, foot, hot, n) && BlockOk(b, segs, hot);
    assert BlockOk(b, segs, n);
    forall a | a in b' ensures TagOk(b', head, foot, hot, a) {
      assert TagOk(b, head, foot, hot, a) && BlockOk(b, segs, a);
      Ordered(b, segs, a, hot);
      Ordered(b, segs, a, n);
    }
  }

  /** The loose chunk becomes a free chunk between chunks in use. */
  lemma SettleTagged(b: Blocks, segs: seq<Segment>, head: Heads, foot: Links, hot: nat, head': Heads)
    requires Tiled(b, segs) && Tagged(b, head, foot, hot) && hot in b && HeadAt(head, hot).pinuse
    requires Next(b, hot) in b && InUse(b[Next(b, hot)].kind)
    requires HeadsBut(b, head, head', hot, Next(b, hot))
    requires HeadAt(head', hot) == Head(b[hot].size, false, true)
    requires HeadAt(head', Next(b, hot)) == HeadAt(head, Next(b, hot)).(pinuse := false)
    ensures Tagged(Retag(b, hot, Free), head', foot[Next(b, hot) := b[hot].size], 0)
  {
    var n := Next(b, hot);
    var b', foot' := Retag(b, hot, Free), foot[n := b[hot].size];
    assert TagOk(b, head, foot, hot, hot) && BlockOk(b, segs, hot) && TagOk(b, head, foot, hot, n);
    forall a | a in b' ensures TagOk(b', head', foot', 0, a) {
      assert TagOk(b, head, foot, hot, a) && BlockOk(b, segs, a);
      Ordered(b, segs, a, hot);
    }
  }

  /** The loose chunk joins the top. */
  lemma JoinTopTagged(b: Blocks, segs: seq<Segment>, head: Heads, foot: Links, hot: nat, head': Heads)
    requires Tiled(b, segs) && Tagged(b, head, foot, hot) && hot in b && HeadAt(head, hot).pinuse
    requires Next(b, hot) in b && b[Next(b, hot)].kind == Top
    requires HeadsBut(b, head, head', hot, hot)
    requires b[Next(b, hot)].size > TOP_FOOT_SIZE
    requires HeadAt(head', hot) == Head(b[hot].size + b[Next(b, hot)].size - TOP_FOOT_SIZE, false, true)
    ensures Tagged(Fuse(b, hot, Top), head', foot, 0)
  {
    var n, b' := Next(b, hot), Fuse(b, hot, Top);
    assert TagOk(b, head, foot, hot, hot) && TagOk(b, head, foot, hot, n) && BlockOk(b, segs, hot);
    assert BlockOk(b, segs, n);
    forall a | a in b' ensures TagOk(b', head', foot, 0, a) {
      assert TagOk(b, head, foot, hot, a) && BlockOk(b, segs, a);
      Ordered(b, segs, a, hot);
      Ordered(b, segs, a, n);
    }
  }

  // ----- Handing a chunk out -----

  /** A whole free chunk is taken into use. */
  lemma UseWholeTagged(b: Blocks, segs: seq<Segment>, head: Heads, foot: Links, p: nat, head': Heads)
    requires Tiled(b, segs) && Tagged(b, head, foot, 0) && p in b && b[p].kind == Free
    requires HeadsBut(b, head, head', p, Next(b, p))
    requires HeadAt(head', p) == Head(b[p].size, true, true)
    requires HeadAt(head', Next(b, p)) == HeadAt(head, Next(b, p)).(pinuse := true)
    ensures Tagged(Retag(b, p, Used), head', foot, 0)
  {
    var n, b' := Next(b, p), Retag(b, p, Used);
    assert TagOk(b, head, foot, 0, p) && BlockOk(b, segs, p) && TagOk(b, head, foot, 0, n);
    forall a | a in b' ensures TagOk(b', head', foot, 0, a) {
      assert TagOk(b, head, foot, 0, a) && BlockOk(b, segs, a);
      Ordered(b, segs, a, p);
    }
  }

  /** The lower part of a free chunk is taken into use, the rest stays free. */
  lemma UseSplitTagged(b: Blocks, segs: seq<Segment>, head: Heads, foot: Links, p: nat, n: nat, head': Heads)
    requires Tiled(b, segs) && Tagged(b, head, foot, 0)
    requires Splits(b, p, n, Used, Free) && b[p].kind == Free
    requires HeadsBut(b, head, head', p, p + n)
    requires HeadAt(head', p) == Head(n, true, true) && HeadAt(head', p + n) == Head(b[p].size - n, false, true)
    ensures Tagged(Split(b, p, n, Used, Free), head', foot[Next(b, p) := b[p].size - n], 0)
  {
    var b', foot' := Split(b, p, n, Used, Free), foot[Next(b, p) := b[p].size - n];
    assert TagOk(b, head, foot, 0, p) && BlockOk(b, segs, p) && TagOk(b, head, foot, 0, Next(b, p));
    NoneInside(b, segs, p, p + n);
    forall a | a in b' ensures TagOk(b', head', foot', 0, a) {
      if a != p + n {
        assert TagOk(b, head, foot, 0, a) && BlockOk(b, segs, a);
        Ordered(b, segs, a, p);
      }
    }
  }

  /** The lower part of the top is taken into use. */
  lemma UseTopTagged(b: Blocks, segs: seq<Segment>, head: Heads, foot: Links, p: nat, n: nat, head': Heads)
    requires Tiled(b, segs) && Tagged(b, head, foot, 0)
    requires Splits(b, p, n, Used, Top) && b[p].kind == Top && n + TOP_FOOT_SIZE < b[p].size
    requires HeadsBut(b, head, head', p, p + n)
    requires HeadAt(head', p) == Head(n, true, true)
    requires HeadAt(head', p + n) == Head(b[p].size - n - TOP_FOOT_SIZE, false, true)
    ensures Tagged(Split(b, p, n, Used, Top), head', foot, 0)
  {
    var b' := Split(b, p, n, Used, Top);
    assert TagOk(b, head, foot, 0, p) && BlockOk(b, segs, p);
    NoneInside(b, segs, p, p + n);
    forall a | a in b' ensures TagOk(b', head', foot, 0, a) {
      if a != p + n {
        assert TagOk(b, head, foot, 0, a) && BlockOk(b, segs, a);
        Ordered(b, segs, a, p);
      }
    }
  }

  /** A used chunk is cut in two used chunks. */
  lemma CutUsedTagged(b: Blocks, segs: seq<Segment>, head: Heads, foot: Links, p: nat, n: nat, head': Heads)
    requires Tiled(b, segs) && Tagged(b, head, foot, 0)
    requires Splits(b, p, n, Used, Used) && b[p].kind == Used
    requires HeadsBut(b, head, head', p, p + n)
    requires HeadAt(head', p) == Head(n, true, HeadAt(head, p).pinuse)
    requires HeadAt(head', p + n) == Head(b[p].size - n, true, true)
    ensures Tagged(Split(b, p, n, Used, Used), head', foot, 0)
  {
    var b' := Split(b, p, n, Used, Used);
    assert TagOk(b, head, foot, 0, p) && BlockOk(b, segs, p);
    NoneInside(b, segs, p, p + n);
    forall a | a in b' ensures TagOk(b', head', foot, 0, a) {
      if a != p + n {
        assert TagOk(b, head, foot, 0, a) && BlockOk(b, segs, a);
        Ordered(b, segs, a, p);
      }
    }
  }

  /** A used chunk takes the low part of the top after it. */
  lemma GrowTagged(b: Blocks, segs: seq<Segment>, head: Heads, foot: Links, p: nat, n: nat, head': Heads)
    requires Tiled(b, segs) && Tagged(b, head, foot, 0) && p in b && b[p].kind == Used
    requires Next(b, p) in b && b[Next(b, p)].kind == Top && b[p].size < n
    requires n + TOP_FOOT_SIZE < b[p].size + b[Next(b, p)].size
    requires HeadsBut(b, head, head', p, Next(b, p))
    requires HeadAt(head', p) == Head(n, true, HeadAt(head, p).pinuse)
    requires HeadAt(head', p + n) == Head(b[p].size + b[Next(b, p)].size - n - TOP_FOOT_SIZE, false, true)
    ensures Tagged(Split(Fuse(b, p, Top), p, n, Used, Top), head', foot, 0)
  {
    var t, b' := Next(b, p), Split(Fuse(b, p, Top), p, n, Used, Top);
    assert TagOk(b, head, foot, 0, p) && BlockOk(b, segs, p) && TagOk(b, head, foot, 0, t);
    NoneInside(b, segs, t, p + n);
    forall a | a in b' ensures TagOk(b', head', foot, 0, a) {
      if a != p + n {
        assert TagOk(b, head, foot, 0, a) && BlockOk(b, segs, a);
        Ordered(b, segs, a, p);
        Ordered(b, segs, a, t);
      }
    }
  }
}
