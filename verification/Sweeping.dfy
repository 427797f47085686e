/** What a whole collection has made of the sectors. */
module Sweeping {
  import opened Words
  import opened CoffeeConfig
  import opened FlashBytes
  import opened Extents
  import opened Sectors
  import opened Collector

  /** Reluctant collection goes no further than a sector that is erased and out of which a removed
      extent ends inside the next one. */
  ghost predicate StopsAt(t: Extents, mode: Mode, s: nat) {
    mode == Reluctant && Erasable(t, s, mode) && !NoneEndsInside(t, SectorStart(s + 1))
  }

  /** Collection goes through the first `end` sectors: all of them, or up to one where it stops. */
  ghost predicate GoesThrough(t: Extents, mode: Mode, end: nat) {
    && end <= SECTOR_COUNT && (forall s: nat {:trigger StopsAt(t, mode, s)} :: s + 1 < end ==> !StopsAt(t, mode, s))
    && (end == SECTOR_COUNT || (end > 0 && StopsAt(t, mode, end - 1)))
  }

  ghost predicate SameWithin(b: Bytes, b': Bytes, lo: nat, hi: nat) {
    forall x: int :: Offset(lo) <= x < Offset(hi) ==> At(b', x) == At(b, x)
  }

  /** So many pages at p are the end of an extent that is not in use and started before. */
  ghost predicate CutOff(t: Extents, p: nat, n: nat) {
    if n == 0 then NoneEndsInside(t, p) else EndsInside(t, p, n)
  }

  /** The first pages of a sector, those of an extent that was cut off, have been set aside. */
  ghost predicate SetAside(t: Extents, b: Bytes, b': Bytes, p: nat, hi: nat) {
    exists n: nat :: CutOff(t, p, n) && IsolatedPages(b', p, p + n) && SameWithin(b, b', p + n, hi)
  }

  /** Sector s when collection has gone through the first `end` sectors: a sector to be erased is
      blank; in the one behind it pages have been set aside; any other is as before. */
  ghost predicate SectorAfter(t: Extents, b: Bytes, b': Bytes, mode: Mode, s: nat, end: nat) {
    if s < end && Erasable(t, s, mode) then
      Zeros(b', Offset(SectorStart(s)), Offset(SectorStart(s + 1)))
    else if 0 < s <= end && Erasable(t, s - 1, mode) then
      SetAside(t, b, b', SectorStart(s), SectorStart(s + 1))
    else
      SameWithin(b, b', SectorStart(s), SectorStart(s + 1))
  }

  ghost predicate CollectedUpTo(t: Extents, b: Bytes, b': Bytes, mode: Mode, end: nat) {
    forall s: nat {:trigger SectorAfter(t, b, b', mode, s, end)} ::
      s < SECTOR_COUNT ==> SectorAfter(t, b, b', mode, s, end)
  }

  /** All the sectors that collection comes to and that can be erased have been, and nothing else
      has changed but pages set aside. */
  ghost predicate Collected(t: Extents, b: Bytes, b': Bytes, mode: Mode) {
    exists end: nat :: GoesThrough(t, mode, end) && CollectedUpTo(t, b, b', mode, end)
  }

  /** Collection has gone through the sectors before this one, and goes on. */
  ghost predicate Underway(t0: Extents, b0: Bytes, t: Extents, b: Bytes, mode: Mode, sector: nat) {
    && SameAhead(t0, t, sector) && CollectedUpTo(t0, b0, b, mode, sector)
    && forall s: nat {:trigger StopsAt(t0, mode, s)} :: s + 1 < sector ==> !StopsAt(t0, mode, s)
  }

  lemma StartCollection(t: Extents, b: Bytes, mode: Mode)
    ensures Underway(t, b, t, b, mode, 0)
  {
    forall s: nat ensures SectorAfter(t, b, b, mode, s, 0) { }
    forall q: nat ensures SamePage(t, t, q) { }
    forall k: nat ensures SameEnds(t, t, k) { }
  }

  /** A sector that is not to be erased. */
  lemma SectorKept(t0: Extents, b0: Bytes, t: Extents, b: Bytes, mode: Mode, sector: nat)
    requires Underway(t0, b0, t, b, mode, sector) && !Erasable(t, sector, mode)
    requires sector > 0 ==> !StopsAt(t0, mode, sector - 1)
    ensures Underway(t0, b0, t, b, mode, sector + 1) && !StopsAt(t0, mode, sector)
  {
    var end := sector + 1;
    ErasableSame(t0, t, sector, mode);
    forall s: nat | s < SECTOR_COUNT ensures SectorAfter(t0, b0, b, mode, s, end) {
      assert SectorAfter(t0, b0, b, mode, s, sector);
    }
    AheadLater(t0, t, sector);
  }

  lemma AheadLater(t: Extents, t': Extents, sector: nat)
    requires SameAhead(t, t', sector)
    ensures SameAhead(t, t', sector + 1)
  {
    SectorStep(sector);
  }

  /** A sector that has been erased; n pages behind it have been set aside. */
  lemma SectorErased(t0: Extents, b0: Bytes, t: Extents, b: Bytes, t': Extents, b': Bytes, mode: Mode, sector: nat,
                     n: nat)
    requires Underway(t0, b0, t, b, mode, sector) && Erasable(t, sector, mode)
    requires sector > 0 ==> !StopsAt(t0, mode, sector - 1)
    requires CutOff(t, SectorStart(sector + 1), n) && SameAhead(t, t', sector + 1)
    requires Swept(b, b', SectorStart(sector), SectorStart(sector + 1), SectorStart(sector + 1) + n)
    ensures Underway(t0, b0, t', b', mode, sector + 1)
    ensures StopsAt(t0, mode, sector) <==> mode == Reluctant && n > 0
  {
    var end := sector + 1;
    ErasableSame(t0, t, sector, mode);
    AheadTransitive(t0, t, t', sector);
    CutOffSame(t0, t, sector, n);
    forall s: nat | s < SECTOR_COUNT ensures SectorAfter(t0, b0, b', mode, s, end) {
      assert SectorAfter(t0, b0, b, mode, s, sector);
      if s < sector {
        EarlierSector(t0, b0, b, b', mode, s, sector, SectorStart(sector + 1), SectorStart(sector + 1) + n);
      } else if s > sector {
        LaterSector(t0, b0, b, b', mode, s, sector, n);
      }
    }
  }

  lemma CutOffSame(t0: Extents, t: Extents, sector: nat, n: nat)
    requires SameAhead(t0, t, sector) && CutOff(t, SectorStart(sector + 1), n)
    ensures CutOff(t0, SectorStart(sector + 1), n) && (n > 0 <==> !NoneEndsInside(t0, SectorStart(sector + 1)))
  {
    assert SameEnds(t0, t, sector + 1);
  }

  lemma EarlierSector(t: Extents, b0: Bytes, b: Bytes, b': Bytes, mode: Mode, s: nat, sector: nat, p: nat, h: nat)
    requires SectorAfter(t, b0, b, mode, s, sector) && s < sector && Swept(b, b', SectorStart(sector), p, h)
    ensures SectorAfter(t, b0, b', mode, s, sector + 1)
  {
    var lo, hi, p0 := SectorStart(s), SectorStart(s + 1), SectorStart(sector);
    SectorStep(s);
    SectorMono(s, sector);
    OffsetMono(hi, p0);
    if !Erasable(t, s, mode) && s > 0 && Erasable(t, s - 1, mode) { AsideStill(t, b0, b, b', lo, hi, p0, h); }
  }

  lemma AsideStill(t: Extents, b0: Bytes, b: Bytes, b': Bytes, lo: nat, hi: nat, p0: nat, h: nat)
    requires SetAside(t, b0, b, lo, hi) && SameOutside(b, b', p0, h) && lo + PAGES_PER_SECTOR == hi <= p0
    ensures SetAside(t, b0, b', lo, hi)
  {
    OffsetMono(hi, p0);
    var n: nat :| CutOff(t, lo, n) && IsolatedPages(b, lo, lo + n) && SameWithin(b0, b, lo + n, hi);
    StillAside(b, b', lo, lo + n, p0, h);
    assert SameWithin(b0, b', lo + n, hi);
  }

  /** Pages set aside before the sector stay so. */
  lemma StillAside(b: Bytes, b': Bytes, lo: nat, hi: nat, p0: nat, h: nat)
    requires IsolatedPages(b, lo, hi) && SameOutside(b, b', p0, h) && hi <= p0
    ensures IsolatedPages(b', lo, hi)
  {
    forall q: nat | lo <= q < hi ensures IsolatedPage(b', q) {
      assert IsolatedPage(b, q);
      HeaderSame(b, b', p0, h, q);
    }
  }

  lemma LaterSector(t: Extents, b0: Bytes, b: Bytes, b': Bytes, mode: Mode, s: nat, sector: nat, n: nat)
    requires SectorAfter(t, b0, b, mode, s, sector) && s > sector && Erasable(t, sector, mode)
    requires CutOff(t, SectorStart(sector + 1), n)
    requires Swept(b, b', SectorStart(sector), SectorStart(sector + 1), SectorStart(sector + 1) + n)
    ensures SectorAfter(t, b0, b', mode, s, sector + 1)
  {
    var h := SectorStart(sector + 1) + n;
    assert SameWithin(b0, b, SectorStart(s), SectorStart(s + 1));
    if s == sector + 1 {
      OffsetMono(SectorStart(s), h);
      assert SameWithin(b0, b', h, SectorStart(s + 1));
    } else {
      SectorMono(sector + 1, s);
      OffsetMono(h, SectorStart(s));
      assert SameWithin(b0, b', SectorStart(s), SectorStart(s + 1));
    }
  }

  /** The sector that allocation has gone back to is blank. */
  lemma BlankAfter(t: Extents, b: Bytes, t': Extents, b': Bytes, n0: nat, n: nat, mode: Mode)
    requires Collected(t, b, b', mode) && Lowered(t, t', n0, n, mode)
    ensures BlankThere(b', n0, n)
  {
    if n != n0 {
      var s: nat :| FirstErasable(t, s, mode) && n == SectorStart(s);
      var end: nat :| GoesThrough(t, mode, end) && CollectedUpTo(t, b, b', mode, end);
      assert SectorAfter(t, b, b', mode, s, end);
      SectorStep(s);
    }
  }

  // ----- The outcome is determined -----

  /** A page has the same header in both, or has been set aside in both. */
  ghost predicate HeadersAgree(b1: Bytes, b2: Bytes, q: nat) {
    HeaderAt(b1, q) == HeaderAt(b2, q) || (IsolatedPage(b1, q) && IsolatedPage(b2, q))
  }

  lemma SameHeader(b1: Bytes, b2: Bytes, q: nat)
    requires forall x: int :: Offset(q) <= x < Offset(q + 1) ==> At(b1, x) == At(b2, x)
    ensures HeaderAt(b1, q) == HeaderAt(b2, q)
  {
    OffsetStep(q);
    DecodeSame(b2, b1, Offset(q));
  }

  lemma OneCutOff(t: Extents, b: Bytes, p: nat, n1: nat, n2: nat)
    requires Tiled(t, b) && CutOff(t, p, n1) && CutOff(t, p, n2)
    ensures n1 == n2
  {
    if n1 > 0 && n2 > 0 {
      var a1 :| a1 in t && a1 < p && End(t, a1) == p + n1 && t[a1].kind != Active;
      var a2 :| a2 in t && a2 < p && End(t, a2) == p + n2 && t[a2].kind != Active;
      OneExtent(t, b, p, a1, a2);
    }
  }

  /** Greedy collection leaves no choice of headers. */
  lemma CollectedAgree(t: Extents, b: Bytes, b1: Bytes, b2: Bytes, q: nat)
    requires Tiled(t, b) && Collected(t, b, b1, Greedy) && Collected(t, b, b2, Greedy) && q < PAGE_COUNT
    ensures HeadersAgree(b1, b2, q)
  {
    var s, end := SectorOf(q), SECTOR_COUNT;
    SectorOfPage(q);
    assert CollectedUpTo(t, b, b1, Greedy, end) && CollectedUpTo(t, b, b2, Greedy, end);
    assert SectorAfter(t, b, b1, Greedy, s, end) && SectorAfter(t, b, b2, Greedy, s, end);
    OffsetMono(SectorStart(s), q);
    OffsetMono(q + 1, SectorStart(s + 1));
    if !Erasable(t, s, Greedy) && s > 0 && Erasable(t, s - 1, Greedy) {
      AsideAgree(t, b, b1, b2, SectorStart(s), SectorStart(s + 1), q);
    } else {
      SameHeader(b1, b2, q);
    }
  }

  lemma AsideAgree(t: Extents, b: Bytes, b1: Bytes, b2: Bytes, p: nat, hi: nat, q: nat)
    requires Tiled(t, b) && SetAside(t, b, b1, p, hi) && SetAside(t, b, b2, p, hi) && p <= q < hi
    ensures HeadersAgree(b1, b2, q)
  {
    var n1: nat :| CutOff(t, p, n1) && IsolatedPages(b1, p, p + n1) && SameWithin(b, b1, p + n1, hi);
    var n2: nat :| CutOff(t, p, n2) && IsolatedPages(b2, p, p + n2) && SameWithin(b, b2, p + n2, hi);
    OneCutOff(t, b, p, n1, n2);
    PagesAgree(b, b1, b2, p, p + n1, hi, q);
  }

  lemma PagesAgree(b: Bytes, b1: Bytes, b2: Bytes, p: nat, m: nat, hi: nat, q: nat)
    requires IsolatedPages(b1, p, m) && IsolatedPages(b2, p, m) && p <= q < hi
    requires SameWithin(b, b1, m, hi) && SameWithin(b, b2, m, hi)
    ensures HeadersAgree(b1, b2, q)
  {
    if q < m {
      assert IsolatedPage(b1, q) && IsolatedPage(b2, q);
    } else {
      OffsetMono(m, q);
      OffsetMono(q + 1, hi);
      SameHeader(b1, b2, q);
    }
  }

  lemma SameExtent(t1: Extents, b1: Bytes, t2: Extents, b2: Bytes, a: nat)
    requires Tiled(t1, b1) && NoHeadless(t1) && Tiled(t2, b2) && NoHeadless(t2)
    requires a in t1 && a in t2 && HeadersAgree(b1, b2, a)
    ensures t1[a] == t2[a]
  {
    assert ExtentOk(t1, b1, a) && ExtentOk(t2, b2, a);
    NextFileIs(t1, b1, a);
    NextFileIs(t2, b2, a);
  }

  /** Headers that agree tell of the same extents. */
  lemma {:induction false} SameFrom(t1: Extents, b1: Bytes, t2: Extents, b2: Bytes, p: nat, a: nat)
    requires Tiled(t1, b1) && NoHeadless(t1) && Tiled(t2, b2) && NoHeadless(t2)
    requires forall q: nat {:trigger HeadersAgree(b1, b2, q)} :: q < PAGE_COUNT ==> HeadersAgree(b1, b2, q)
    requires Boundary(t1, p) && Boundary(t2, p) && p <= a
    ensures (a in t1 <==> a in t2) && (a in t1 ==> t1[a] == t2[a])
    decreases PAGE_COUNT - p
  {
    assert a in t1 ==> ExtentOk(t1, b1, a);
    assert a in t2 ==> ExtentOk(t2, b2, a);
    if p < PAGE_COUNT {
      assert HeadersAgree(b1, b2, p) && ExtentOk(t1, b1, p) && ExtentOk(t2, b2, p);
      SameExtent(t1, b1, t2, b2, p);
      if p < a {
        assert a in t1 ==> Apart(t1, p, a);
        assert a in t2 ==> Apart(t2, p, a);
        if End(t1, p) <= a { SameFrom(t1, b1, t2, b2, End(t1, p), a); }
      }
    }
  }

  /** So the extents after a greedy collection are determined. */
  lemma OneCollection(t: Extents, b: Bytes, t1: Extents, b1: Bytes, t2: Extents, b2: Bytes)
    requires Tiled(t, b) && Collected(t, b, b1, Greedy) && Collected(t, b, b2, Greedy)
    requires Tiled(t1, b1) && NoHeadless(t1) && Tiled(t2, b2) && NoHeadless(t2)
    ensures t1 == t2
  {
    forall q: nat | q < PAGE_COUNT ensures HeadersAgree(b1, b2, q) { CollectedAgree(t, b, b1, b2, q); }
    forall a: nat ensures (a in t1 <==> a in t2) && (a in t1 ==> t1[a] == t2[a]) { SameFrom(t1, b1, t2, b2, 0, a); }
  }
}
