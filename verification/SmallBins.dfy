/**
 The small bins: one circular list of free chunks for each multiple of 8 below 256, with
 the bin header as a node of its list. A header's links mean nothing while its map bit is
 clear: unlinking the last chunk only clears the bit.
 */
module SmallBins {
  import opened Words
  import opened BinIndex
  import opened Rings
  import opened Chunks

  /** The address of header i; chunk addresses are multiples of 8. */
  function Header(i: nat): nat {
    8 * i + 4
  }

  ghost predicate BinOk(content: Content, bins: seq<seq<nat>>, smallmap: nat, fd: Links, bk: Links, i: nat)
    requires i < |bins|
  {
    && (Bit(smallmap, i) <==> bins[i] != [])
    && (bins[i] != [] ==> Ring(fd, bk, [Header(i)] + bins[i]))
    && forall a :: a in bins[i] ==> a != 0 && a % 8 == 0 && a in content && content[a] == 8 * i
  }

  ghost predicate BinsOk(content: Content, bins: seq<seq<nat>>, smallmap: nat, fd: Links, bk: Links) {
    && |bins| == NSMALLBINS && smallmap < WORD
    && (forall i {:trigger BinOk(content, bins, smallmap, fd, bk, i)} ::
          0 <= i < NSMALLBINS ==> BinOk(content, bins, smallmap, fd, bk, i))
    && (forall a :: a in content ==> content[a] % 8 == 0 && content[a] / 8 < NSMALLBINS && a in bins[content[a] / 8])
  }

  /** A bin whose nodes are not written stays right. */
  lemma BinFrame(content: Content, bins: seq<seq<nat>>, smallmap: nat, fd: Links, bk: Links,
                 content': Content, bins': seq<seq<nat>>, smallmap': nat, fd': Links, bk': Links, i: nat)
    requires i < |bins| && |bins'| == |bins| && BinOk(content, bins, smallmap, fd, bk, i) && bins'[i] == bins[i]
    requires Bit(smallmap', i) <==> Bit(smallmap, i)
    requires forall a :: a in bins[i] || a == Header(i) ==> Get(fd', a) == Get(fd, a) && Get(bk', a) == Get(bk, a)
    requires forall a :: a in bins[i] && a in content ==> a in content' && content'[a] == content[a]
    ensures BinOk(content', bins', smallmap', fd', bk', i)
  {
    if bins[i] != [] {
      RingFrame(fd, bk, fd', bk', [Header(i)] + bins[i]);
    }
  }

  lemma SingleRing(fd: Links, bk: Links, h: nat, p: nat)
    requires h != p
    ensures Ring(fd[h := p][p := h], bk[h := p][p := h], [h, p])
  {
    var r, fd', bk' := [h, p], fd[h := p][p := h], bk[h := p][p := h];
    forall k | 0 <= k < |r| ensures Linked(fd', bk', r, k) {
    }
  }

  /** The lists after `p` has been linked in at the front of bin i. */
  lemma FrontLinked(content: Content, bins: seq<seq<nat>>, smallmap: nat, fd: Links, bk: Links, p: nat, i: nat, f: nat,
                    smallmap': nat)
    requires BinsOk(content, bins, smallmap, fd, bk) && i < NSMALLBINS && p != 0 && p % 8 == 0 && p !in content
    requires f == if bins[i] == [] then Header(i) else Get(fd, Header(i))
    requires smallmap' < WORD && forall j :: 0 <= j < NSMALLBINS ==> (Bit(smallmap', j) <==> Bit(smallmap, j) || j == i)
    ensures BinsOk(content[p := 8 * i], bins[i := [p] + bins[i]], smallmap', fd[Header(i) := p][p := f],
                   bk[f := p][p := Header(i)])
  {
    var h, content', bins' := Header(i), content[p := 8 * i], bins[i := [p] + bins[i]];
    var fd', bk' := fd[h := p][p := f], bk[f := p][p := h];
    assert BinOk(content, bins, smallmap, fd, bk, i);
    assert f == h || (bins[i] != [] && f == bins[i][0]) by {
      if bins[i] != [] { assert Linked(fd, bk, [h] + bins[i], 0); }
    }
    forall j | 0 <= j < NSMALLBINS ensures BinOk(content', bins', smallmap', fd', bk', j) {
      assert BinOk(content, bins, smallmap, fd, bk, j);
      if j != i {
        FrontOther(content, bins, smallmap, fd, bk, p, i, f, smallmap', j);
      } else {
        FrontRing(fd, bk, h, bins[i], p, f);
      }
    }
    FrontHeld(content, bins, p, i);
  }

  lemma FrontOther(content: Content, bins: seq<seq<nat>>, smallmap: nat, fd: Links, bk: Links, p: nat, i: nat, f: nat,
                   smallmap': nat, j: nat)
    requires BinsOk(content, bins, smallmap, fd, bk) && i < NSMALLBINS && p % 8 == 0 && p !in content
    requires j < NSMALLBINS && j != i && (Bit(smallmap', j) <==> Bit(smallmap, j))
    requires BinOk(content, bins, smallmap, fd, bk, i) && BinOk(content, bins, smallmap, fd, bk, j)
    requires f == Header(i) || (bins[i] != [] && f == bins[i][0])
    ensures BinOk(content[p := 8 * i], bins[i := [p] + bins[i]], smallmap', fd[Header(i) := p][p := f],
                  bk[f := p][p := Header(i)], j)
  {
    BinFrame(content, bins, smallmap, fd, bk, content[p := 8 * i], bins[i := [p] + bins[i]], smallmap',
             fd[Header(i) := p][p := f], bk[f := p][p := Header(i)], j);
  }

  /** Every chunk is still in the bin of its size when p has joined bin i. */
  lemma FrontHeld(content: Content, bins: seq<seq<nat>>, p: nat, i: nat)
    requires |bins| == NSMALLBINS && i < NSMALLBINS
    requires forall a ::
               a in content ==> content[a] % 8 == 0 && content[a] / 8 < NSMALLBINS && a in bins[content[a] / 8]
    ensures var content', bins' := content[p := 8 * i], bins[i := [p] + bins[i]];
            forall a ::
              a in content' ==> content'[a] % 8 == 0 && content'[a] / 8 < NSMALLBINS && a in bins'[content'[a] / 8]
  {
    var content', bins' := content[p := 8 * i], bins[i := [p] + bins[i]];
    forall a | a in content'
      ensures content'[a] % 8 == 0 && content'[a] / 8 < NSMALLBINS && a in bins'[content'[a] / 8]
    {
      if a != p { assert a in bins[content[a] / 8]; }
    }
  }

  lemma FrontRing(fd: Links, bk: Links, h: nat, q: seq<nat>, p: nat, f: nat)
    requires q != [] ==> Ring(fd, bk, [h] + q)
    requires p != h && p !in q && f == if q == [] then h else Get(fd, h)
    ensures Ring(fd[h := p][p := f], bk[f := p][p := h], [h] + ([p] + q))
  {
    if q == [] {
      SingleRing(fd, bk, h, p);
      assert [h] + ([p] + q) == [h, p];
    } else {
      var r := [h] + q;
      assert Linked(fd, bk, r, 0);
      RingInsert(fd, bk, r, 1, p);
      assert Insert(r, 1, p) == [h] + ([p] + q);
    }
  }

  /** The lists after the only chunk of bin i has left: its links go stale. */
  lemma LastTaken(content: Content, bins: seq<seq<nat>>, smallmap: nat, fd: Links, bk: Links, i: nat, smallmap': nat)
    requires BinsOk(content, bins, smallmap, fd, bk) && i < NSMALLBINS && |bins[i]| == 1
    requires smallmap' < WORD && forall j :: 0 <= j < NSMALLBINS ==> (Bit(smallmap', j) <==> Bit(smallmap, j) && j != i)
    ensures BinsOk(Without(content, bins[i][0]), bins[i := Remove(bins[i], 0)], smallmap', fd, bk)
  {
    var p := bins[i][0];
    var content', bins' := Without(content, p), bins[i := Remove(bins[i], 0)];
    assert BinOk(content, bins, smallmap, fd, bk, i);
    forall j | 0 <= j < NSMALLBINS ensures BinOk(content', bins', smallmap', fd, bk, j) {
      assert BinOk(content, bins, smallmap, fd, bk, j);
      if j != i {
        BinFrame(content, bins, smallmap, fd, bk, content', bins', smallmap', fd, bk, j);
      }
    }
    forall a | a in content'
      ensures content'[a] % 8 == 0 && content'[a] / 8 < NSMALLBINS && a in bins'[content'[a] / 8]
    {
      assert a in bins[content[a] / 8];
    }
  }

  /** The lists after one of several chunks of bin i has been bypassed. */
  lemma OneTaken(content: Content, bins: seq<seq<nat>>, smallmap: nat, fd: Links, bk: Links, i: nat, k: nat)
    requires BinsOk(content, bins, smallmap, fd, bk) && i < NSMALLBINS && k < |bins[i]| && |bins[i]| > 1
    ensures var p := bins[i][k]; var f, b := Get(fd, p), Get(bk, p);
            BinsOk(Without(content, p), bins[i := Remove(bins[i], k)], smallmap, fd[b := f], bk[f := b])
  {
    var p := bins[i][k];
    var f, b := Get(fd, p), Get(bk, p);
    var content', bins', fd', bk' := Without(content, p), bins[i := Remove(bins[i], k)], fd[b := f], bk[f := b];
    assert BinOk(content, bins, smallmap, fd, bk, i);
    BypassedRing(fd, bk, Header(i), bins[i], k);
    forall j | 0 <= j < NSMALLBINS ensures BinOk(content', bins', smallmap, fd', bk', j) {
      assert BinOk(content, bins, smallmap, fd, bk, j);
      if j != i {
        BinFrame(content, bins, smallmap, fd, bk, content', bins', smallmap, fd', bk', j);
      }
    }
    forall a | a in content'
      ensures content'[a] % 8 == 0 && content'[a] / 8 < NSMALLBINS && a in bins'[content'[a] / 8]
    {
      assert a in bins[content[a] / 8];
    }
  }

  lemma BypassedRing(fd: Links, bk: Links, h: nat, q: seq<nat>, k: nat)
    requires Ring(fd, bk, [h] + q) && k < |q| && |q| > 1
    ensures var f, b := Get(fd, q[k]), Get(bk, q[k]);
            && (f == h || f in q) && (b == h || b in q)
            && Ring(fd[b := f], bk[f := b], [h] + Remove(q, k))
    ensures forall a :: a in Remove(q, k) <==> a in q && a != q[k]
  {
    var r := [h] + q;
    assert r[k + 1] == q[k];
    assert Linked(fd, bk, r, k + 1);
    RingRemove(fd, bk, r, k + 1);
    assert Remove(r, k + 1) == [h] + Remove(q, k);
    forall x, y | 0 <= x < y < |q| ensures q[x] != q[y] { assert r[x + 1] != r[y + 1]; }
    InRemove(q, k);
  }

  class SmallBins {
    var smallmap: nat
    var fd: Links
    var bk: Links

    ghost var content: Content
    ghost var bins: seq<seq<nat>>

    ghost predicate Valid()
      reads this
    {
      BinsOk(content, bins, smallmap, fd, bk)
    }

    /** `init_bins`: each header is linked to itself and no bin is marked. */
    constructor ()
      ensures Valid() && content == map[] && bins == seq(NSMALLBINS, _ => [])
    {
      smallmap, fd, bk := 0, map[], map[];
      content, bins := map[], seq(NSMALLBINS, _ => []);
      new;
      for i := 0 to NSMALLBINS
        invariant smallmap == 0 && content == map[] && bins == seq(NSMALLBINS, _ => [])
      {
        fd := fd[Header(i) := Header(i)];
        bk := bk[Header(i) := Header(i)];
      }
      forall i | 0 <= i < NSMALLBINS ensures BinOk(content, bins, smallmap, fd, bk, i) {
        BitZero(i);
      }
    }

    /** A bin is empty exactly when its map bit is clear. */
    lemma Marked(i: nat)
      requires Valid() && i < NSMALLBINS
      ensures |bins| == NSMALLBINS && (Bit(smallmap, i) <==> bins[i] != [])
    {
      assert BinOk(content, bins, smallmap, fd, bk, i);
    }

    lemma Member(i: nat, k: nat)
      requires Valid() && i < NSMALLBINS && k < |bins[i]|
      ensures var a := bins[i][k]; a != 0 && a % 8 == 0 && a in content && content[a] == 8 * i
    {
      assert BinOk(content, bins, smallmap, fd, bk, i);
      assert bins[i][k] in bins[i];
    }

    lemma MarkOf(a: nat)
      requires Valid() && a in content
      ensures content[a] / 8 < NSMALLBINS && content[a] % 8 == 0 && Bit(smallmap, content[a] / 8)
    {
      Marked(content[a] / 8);
    }

    /** The front chunk of the first marked bin from k on is a least one of size 8k or more. */
    lemma LeastFront(k: nat, i: nat)
      requires Valid() && k <= i < NSMALLBINS && Bit(smallmap, i)
      requires forall j :: k <= j < i ==> !Bit(smallmap, j)
      ensures |bins| == NSMALLBINS && |bins[i]| > 0 && Least(content, 8 * k, bins[i][0])
      ensures content[bins[i][0]] == 8 * i
    {
      Marked(i);
      Member(i, 0);
      forall a | a in content && 8 * k <= content[a] ensures 8 * i <= content[a] {
        MarkOf(a);
      }
    }

    lemma NoneAbove(k: nat)
      requires Valid()
      requires forall j :: k <= j < 32 ==> !Bit(smallmap, j)
      ensures NoneFits(content, 8 * k)
    {
      forall a | a in content ensures content[a] < 8 * k {
        MarkOf(a);
      }
    }

    /** `insert_small_chunk`: the chunk goes to the front of its list. */
    method Insert(p: nat, s: nat)
      requires Valid() && p != 0 && p % 8 == 0 && p !in content && IsSmall(s) && s % 8 == 0
      modifies this
      ensures Valid() && content == old(content)[p := s]
      ensures |bins| == |old(bins)| == NSMALLBINS && bins == old(bins)[s / 8 := [p] + old(bins)[s / 8]]
    {
      var i := SmallIndex(s);
      var b := Header(i);
      var f := b;
      Marked(i);
      IsMarkedBit(smallmap, i);
      if !IsMarked(smallmap, i) {
        MarkBits(smallmap, i);
        smallmap := Mark(smallmap, i);
      } else {
        f := Get(fd, b);
      }
      FrontLinked(content, bins, old(smallmap), fd, bk, p, i, f, smallmap);
      fd := fd[b := p];
      bk := bk[f := p];
      fd := fd[p := f];
      bk := bk[p := b];
      content, bins := content[p := s], bins[i := [p] + bins[i]];
    }

    /** The chunk at the front of a marked bin. */
    method Front(i: nat) returns (p: nat)
      requires Valid() && i < NSMALLBINS && Bit(smallmap, i)
      ensures |bins| == NSMALLBINS && bins[i] != [] && p == bins[i][0]
      ensures p != 0 && p % 8 == 0 && p in content && content[p] == 8 * i
    {
      assert BinOk(content, bins, smallmap, fd, bk, i);
      assert Linked(fd, bk, [Header(i)] + bins[i], 0);
      p := Get(fd, Header(i));
      Member(i, 0);
    }

    /** `unlink_small_chunk`: the last chunk of a bin only clears the map bit. */
    method Unlink(p: nat, s: nat)
      requires Valid() && p in content && content[p] == s
      modifies this
      ensures Valid() && content == Without(old(content), p)
      ensures |bins| == |old(bins)| == NSMALLBINS && s / 8 < NSMALLBINS
      ensures exists k ::
                && 0 <= k < |old(bins)[s / 8]| && old(bins)[s / 8][k] == p
                && bins == old(bins)[s / 8 := Remove(old(bins)[s / 8], k)]
    {
      var i := SmallIndex(s);
      ghost var k :| 0 <= k < |bins[i]| && bins[i][k] == p;
      var f := Get(fd, p);
      var b := Get(bk, p);
      Neighbours(i, k);
      if f == b {
        ClearBits(smallmap, i);
        smallmap := Clear(smallmap, i);
        LastTaken(content, bins, old(smallmap), fd, bk, i, smallmap);
      } else {
        OneTaken(content, bins, smallmap, fd, bk, i, k);
        bk := bk[f := b];
        fd := fd[b := f];
      }
      content, bins := Without(content, p), bins[i := Remove(bins[i], k)];
    }

    /** The two neighbours of a chunk coincide exactly when it is alone in its bin. */
    lemma Neighbours(i: nat, k: nat)
      requires Valid() && i < NSMALLBINS && k < |bins[i]|
      ensures Get(fd, bins[i][k]) == Get(bk, bins[i][k]) <==> |bins[i]| == 1
      ensures k == 0 ==> (Get(fd, bins[i][k]) == Header(i) <==> |bins[i]| == 1) && Get(bk, bins[i][k]) == Header(i)
    {
      assert BinOk(content, bins, smallmap, fd, bk, i);
      var r := [Header(i)] + bins[i];
      assert r[k + 1] == bins[i][k];
      RingNeighbours(fd, bk, r, k + 1);
      assert Linked(fd, bk, r, k + 1);
    }

    /** `unlink_first_small_chunk`, for the front chunk of bin i. */
    method UnlinkFirst(p: nat, i: nat)
      requires Valid() && i < NSMALLBINS && bins[i] != [] && p == bins[i][0]
      modifies this
      ensures Valid() && content == Without(old(content), p)
      ensures |bins| == |old(bins)| == NSMALLBINS && bins == old(bins)[i := old(bins)[i][1..]]
    {
      var b := Header(i);
      var f := Get(fd, p);
      Neighbours(i, 0);
      if b == f {
        ClearBits(smallmap, i);
        smallmap := Clear(smallmap, i);
        LastTaken(content, bins, old(smallmap), fd, bk, i, smallmap);
      } else {
        OneTaken(content, bins, smallmap, fd, bk, i, 0);
        fd := fd[b := f];
        bk := bk[f := b];
      }
      assert Remove(bins[i], 0) == bins[i][1..];
      content, bins := Without(content, p), bins[i := Remove(bins[i], 0)];
    }
  }
}
