/** What erasing a sector does to the extents. */
module Collector {
  import opened Words
  import opened CoffeeConfig
  import opened FlashBytes
  import opened FlashDevice
  import opened Extents
  import opened Sectors

  datatype Mode = Greedy | Reluctant

  function Range(p: nat, e: nat): (r: set<nat>)
    ensures forall q :: q in r <==> p <= q < e
    decreases e - p
  {
    if p >= e then {} else {p} + Range(p + 1, e)
  }

  /** What is left behind the sector of an extent that started in it: isolated pages, if
      they all lie in the next sector, and otherwise, until that is erased too, nothing that
      the headers tell of. */
  function Tail(p: nat, e: nat): Extents
    requires p <= e
  {
    if e - p >= PAGES_PER_SECTOR then map[p := Extent(e - p, Headless)]
    else map q | q in Range(p, e) :: Extent(1, Isolated)
  }

  /** The extents from `lo` to the sector's end p have become one free one. */
  function Reclaimed(t: Extents, lo: nat, p: nat, e: nat): Extents
    requires lo <= p <= e
  {
    (map a | a in t && !(lo <= a < p) :: t[a]) + map[lo := Extent(p - lo, Free)] + Tail(p, e)
  }

  /** Only the extent that the collector has just cut off has no header. */
  ghost predicate OnlyHeadless(t: Extents, p: nat) {
    forall a :: a in t && t[a].kind == Headless ==> a == p && t[a].len >= PAGES_PER_SECTOR
  }

  /** The bytes of the pages outside [lo, hi) are as before. */
  ghost predicate SameOutside(b: Bytes, b': Bytes, lo: nat, hi: nat) {
    |b'| == |b| && forall x: int :: !(Offset(lo) <= x < Offset(hi)) ==> At(b', x) == At(b, x)
  }

  ghost predicate IsolatedPage(b: Bytes, q: nat) {
    HeaderAt(b, q).inUse && HeaderAt(b, q).isolated
  }

  ghost predicate IsolatedPages(b: Bytes, lo: nat, hi: nat) {
    forall q: nat {:trigger IsolatedPage(b, q)} :: lo <= q < hi ==> IsolatedPage(b, q)
  }

  /** The bytes after a sector from p0 to p has been erased and the pages from p to h
      isolated. */
  ghost predicate Swept(b: Bytes, b': Bytes, p0: nat, p: nat, h: nat) {
    p0 <= p <= h && SameOutside(b, b', p0, h) && Zeros(b', Offset(p0), Offset(p)) && IsolatedPages(b', p, h)
  }

  /** How far the writes for a sector reach. */
  function SweepEnd(p: nat, e: nat): nat
    requires p <= e
  {
    if e - p >= PAGES_PER_SECTOR then p else e
  }

  lemma HeaderSame(b: Bytes, b': Bytes, lo: nat, hi: nat, a: nat)
    requires SameOutside(b, b', lo, hi) && (a < lo || hi <= a)
    ensures HeaderAt(b', a) == HeaderAt(b, a)
  {
    if a < lo { OffsetMono(a, lo); } else { OffsetMono(hi, a); }
    DecodeSame(b, b', Offset(a));
  }

  /** An extent away from the writes keeps its header. */
  lemma ExtentSame(t: Extents, b: Bytes, t': Extents, b': Bytes, lo: nat, hi: nat, a: nat)
    requires a in t && a in t' && t[a] == t'[a] && ExtentOk(t, b, a) && Boundary(t', End(t, a))
    requires SameOutside(b, b', lo, hi) && (a < lo || hi <= a) && (t[a].kind == Free ==> End(t, a) <= lo || hi <= a)
    ensures ExtentOk(t', b', a)
  {
    HeaderSame(b, b', lo, hi, a);
    if t[a].kind == Free {
      if End(t, a) <= lo { OffsetMono(End(t, a), lo); } else { OffsetMono(hi, a); }
    }
  }

  /** The conditions on a sector to be reclaimed from `lo` on: an extent starts at lo, and
      the last one that starts in the sector ends at e. */
  ghost predicate Reclaims(t: Extents, sector: nat, lo: nat, e: nat) {
    var p0, p := SectorStart(sector), SectorStart(sector + 1);
    && sector < SECTOR_COUNT && p0 <= lo < p <= e <= PAGE_COUNT && lo in t && Boundary(t, e)
    && (forall a :: a in t && a < lo ==> a < p0 && End(t, a) <= lo && (t[a].kind == Free ==> End(t, a) <= p0))
    && (forall a :: a in t && p <= a ==> e <= a)
    && (forall a :: a in t && a < p ==> End(t, a) <= e)
  }

  lemma ReclaimedApart(t: Extents, sector: nat, lo: nat, e: nat)
    requires Reclaims(t, sector, lo, e) && NoOverlap(t)
    ensures NoOverlap(Reclaimed(t, lo, SectorStart(sector + 1), e))
  {
    var p := SectorStart(sector + 1);
    var t' := Reclaimed(t, lo, p, e);
    forall a, c | a in t' && c in t' ensures Apart(t', a, c) {
      if a in t && c in t { assert Apart(t, a, c); }
    }
  }

  lemma ReclaimedExtent(t: Extents, b: Bytes, b': Bytes, sector: nat, lo: nat, e: nat, a: nat)
    requires Tiled(t, b) && Reclaims(t, sector, lo, e)
    requires Swept(b, b', SectorStart(sector), SectorStart(sector + 1), SweepEnd(SectorStart(sector + 1), e))
    requires a in Reclaimed(t, lo, SectorStart(sector + 1), e)
    ensures ExtentOk(Reclaimed(t, lo, SectorStart(sector + 1), e), b', a)
  {
    var p0, p := SectorStart(sector), SectorStart(sector + 1);
    var t' := Reclaimed(t, lo, p, e);
    assert Boundary(t', p) && Boundary(t', e);
    if a == lo {
      SectorStep(sector);
      SectorUnique(lo, sector);
      OffsetMono(p0, lo);
      OffsetMono(lo, p);
    } else if p <= a < e {
      assert e - p < PAGES_PER_SECTOR ==> IsolatedPage(b', a);
    } else {
      ReclaimedOutside(t, b, b', sector, lo, e, a);
    }
  }

  /** An extent that was there before. */
  lemma ReclaimedOutside(t: Extents, b: Bytes, b': Bytes, sector: nat, lo: nat, e: nat, a: nat)
    requires Tiled(t, b) && Reclaims(t, sector, lo, e)
    requires Swept(b, b', SectorStart(sector), SectorStart(sector + 1), SweepEnd(SectorStart(sector + 1), e))
    requires a in Reclaimed(t, lo, SectorStart(sector + 1), e) && a != lo && !(SectorStart(sector + 1) <= a < e)
    ensures ExtentOk(Reclaimed(t, lo, SectorStart(sector + 1), e), b', a)
  {
    var p0, p := SectorStart(sector), SectorStart(sector + 1);
    var t' := Reclaimed(t, lo, p, e);
    assert ExtentOk(t, b, a);
    var n := End(t, a);
    assert Boundary(t', n) by {
      if n in t && lo <= n < p { assert Apart(t, a, lo); }
    }
    ExtentSame(t, b, t', b', p0, SweepEnd(p, e), a);
  }

  lemma ReclaimedStart(t: Extents, lo: nat, p: nat, e: nat)
    requires Boundary(t, 0) && lo < p <= e && lo in t
    ensures Boundary(Reclaimed(t, lo, p, e), 0)
    ensures lo == 0 || 0 < lo
  {
  }

  lemma ReclaimedTiled(t: Extents, b: Bytes, b': Bytes, sector: nat, lo: nat, e: nat)
    requires Tiled(t, b) && Reclaims(t, sector, lo, e)
    requires Swept(b, b', SectorStart(sector), SectorStart(sector + 1), SweepEnd(SectorStart(sector + 1), e))
    ensures Tiled(Reclaimed(t, lo, SectorStart(sector + 1), e), b')
  {
    var p := SectorStart(sector + 1);
    var t' := Reclaimed(t, lo, p, e);
    forall a | a in t' ensures ExtentOk(t', b', a) {
      ReclaimedExtent(t, b, b', sector, lo, e, a);
    }
    ReclaimedApart(t, sector, lo, e);
    ReclaimedStart(t, lo, p, e);
  }

  /** When an extent that started earlier covers the sector, its header still tells of it. */
  lemma StandingTiled(t: Extents, b: Bytes, b': Bytes, x: nat, p0: nat, p: nat, h: nat)
    requires Tiled(t, b) && Swept(b, b', p0, p, h) && x in t && x < p0 && h <= End(t, x) && t[x].kind != Free
    ensures Tiled(t, b')
  {
    forall a | a in t ensures ExtentOk(t, b', a) {
      assert ExtentOk(t, b, a) && Apart(t, a, x) && Apart(t, x, a);
      ExtentSame(t, b, t, b', p0, h, a);
    }
  }

  /** One more page has been isolated. */
  lemma IsolateOne(b: Bytes, b1: Bytes, b2: Bytes, lo: nat, p: nat, h: Header)
    requires lo <= p && SameOutside(b, b1, lo, p) && IsolatedPages(b1, lo, p)
    requires HeaderWritten(b1, b2, p, h) && h.inUse && h.isolated
    ensures SameOutside(b, b2, lo, p + 1) && IsolatedPages(b2, lo, p + 1)
  {
    HeaderOnly(b1, b2, p, h);
    SameOutsideMore(b, b1, b2, lo, p);
    forall q: nat | lo <= q < p + 1 ensures IsolatedPage(b2, q) {
      if q < p {
        assert IsolatedPage(b1, q);
        HeaderSame(b1, b2, p, p + 1, q);
      }
    }
  }

  /** Writing a header changes one page. */
  lemma HeaderOnly(b: Bytes, b': Bytes, p: nat, h: Header)
    requires HeaderWritten(b, b', p, h)
    ensures SameOutside(b, b', p, p + 1)
  {
    OffsetStep(p);
  }

  lemma SameOutsideMore(b: Bytes, b1: Bytes, b2: Bytes, lo: nat, p: nat)
    requires SameOutside(b, b1, lo, p) && SameOutside(b1, b2, p, p + 1) && lo <= p
    ensures SameOutside(b, b2, lo, p + 1)
  {
    OffsetMono(lo, p);
    OffsetMono(p, p + 1);
  }

  /** Isolating pages behind a sector and then erasing it. */
  lemma SweptIs(b: Bytes, b1: Bytes, sector: nat, h: nat)
    requires |b| == FLASH_SIZE && SectorStart(sector + 1) <= h
    requires SameOutside(b, b1, SectorStart(sector + 1), h) && IsolatedPages(b1, SectorStart(sector + 1), h)
    ensures Swept(b, Erased(b1, sector), SectorStart(sector), SectorStart(sector + 1), h)
  {
    var p0, p := SectorStart(sector), SectorStart(sector + 1);
    var b2 := Erased(b1, sector);
    SectorStep(sector);
    OffsetMono(p0, p);
    OffsetMono(p, h);
    forall x: int ensures At(b2, x) == if Offset(p0) <= x < Offset(p) then 0 else At(b1, x) { ErasedAt(b1, sector, x); }
    assert SameOutside(b1, b2, p0, p);
    forall q: nat | p <= q < h ensures IsolatedPage(b2, q) {
      assert IsolatedPage(b1, q);
      HeaderSame(b1, b2, p0, p, q);
    }
  }

  // ----- One step of the collector -----

  ghost predicate IsActive(t: Extents, a: nat) {
    a in t && t[a].kind == Active
  }

  /** Extent a is in use after as before, with the same pages and the same bytes. */
  ghost predicate Kept(t: Extents, b: Bytes, t': Extents, b': Bytes, a: nat) {
    && (IsActive(t, a) <==> IsActive(t', a))
    && (IsActive(t, a) ==>
          t'[a] == t[a] && forall x: int :: Offset(a) <= x < Offset(End(t, a)) ==> At(b', x) == At(b, x))
  }

  ghost predicate ActiveKept(t: Extents, b: Bytes, t': Extents, b': Bytes) {
    forall a: nat {:trigger Kept(t, b, t', b', a)} :: Kept(t, b, t', b', a)
  }

  lemma KeptTransitive(t: Extents, b: Bytes, t1: Extents, b1: Bytes, t2: Extents, b2: Bytes)
    requires ActiveKept(t, b, t1, b1) && ActiveKept(t1, b1, t2, b2)
    ensures ActiveKept(t, b, t2, b2)
  {
    forall a: nat ensures Kept(t, b, t2, b2, a) {
      assert Kept(t, b, t1, b1, a) && Kept(t1, b1, t2, b2, a);
    }
  }

  /** In a sector without active pages there is no page of an extent in use. */
  lemma ActiveOutside(t: Extents, b: Bytes, sector: nat, a: nat)
    requires Tiled(t, b) && Count(t, SectorStart(sector), SectorStart(sector) + PAGES_PER_SECTOR, InUse) == 0
    requires IsActive(t, a)
    ensures End(t, a) <= SectorStart(sector) || SectorStart(sector + 1) <= a
  {
    SectorStep(sector);
    assert ExtentOk(t, b, a);
    var p0 := SectorStart(sector);
    var q := if a < p0 then p0 else a;
    if a < p0 + PAGES_PER_SECTOR && p0 < End(t, a) {
      assert Page(t, q, InUse);
      CountZero(t, p0, p0 + PAGES_PER_SECTOR, InUse, q);
    }
  }

  lemma BytesKept(t: Extents, b: Bytes, b': Bytes, a: nat, lo: nat, hi: nat)
    requires a in t && SameOutside(b, b', lo, hi) && (End(t, a) <= lo || hi <= a)
    ensures forall x: int :: Offset(a) <= x < Offset(End(t, a)) ==> At(b', x) == At(b, x)
  {
    if End(t, a) <= lo { OffsetMono(End(t, a), lo); } else { OffsetMono(hi, a); }
  }

  /** Where the reclaimed part of a sector starts, unless an earlier extent covers it. */
  lemma ReclaimStart(t: Extents, b: Bytes, sector: nat) returns (standing: bool, x: nat, lo: nat)
    requires Tiled(t, b) && sector < SECTOR_COUNT && OnlyHeadless(t, SectorStart(sector))
    requires Count(t, SectorStart(sector), SectorStart(sector) + PAGES_PER_SECTOR, InUse) == 0
    ensures standing ==>
              && x in t && x < SectorStart(sector) && SectorStart(sector + 1) <= End(t, x) && t[x].kind != Free
              && t[x].kind != Active
    ensures standing ==> NoHeadless(t) && SectorStart(sector) !in t
    ensures !standing ==> lo in t && SectorStart(sector) <= lo < SectorStart(sector + 1)
    ensures !standing ==>
              forall a ::
                a in t && a < lo ==>
                  a < SectorStart(sector) && End(t, a) <= lo && (t[a].kind == Free ==> End(t, a) <= SectorStart(sector))
    ensures !standing ==> (lo == SectorStart(sector) <==> SectorStart(sector) in t)
  {
    var p0, p := SectorStart(sector), SectorStart(sector + 1);
    SectorsInside(sector);
    SectorStep(sector);
    PagesBound();
    standing, x, lo := false, 0, p0;
    if p0 !in t {
      x := SomeExtent(t, b, p0, 0);
      assert ExtentOk(t, b, x);
      if t[x].kind == Free { FreeNotCrossing(t, b, sector, x); }
      if t[x].kind == Active { ActiveOutside(t, b, sector, x); }
      lo := End(t, x);
      standing := p <= lo;
    }
    if !standing {
      forall a | a in t && a < lo ensures a < p0 && End(t, a) <= lo && (t[a].kind == Free ==> End(t, a) <= p0) {
        assert Apart(t, a, lo);
        assert x in t ==> Apart(t, a, x) && Apart(t, x, a);
        if t[a].kind == Free && a < p0 { FreeNotCrossing(t, b, sector, a); }
      }
    }
  }

  /** What crosses out of the sector is the last extent to start before its end. */
  lemma ReclaimEnd(t: Extents, b: Bytes, p: nat, skip: nat, active: bool)
    requires Tiled(t, b) && Crossing(t, p, skip, active)
    ensures forall a :: a in t && p <= a ==> p + skip <= a
    ensures forall a :: a in t && a < p ==> End(t, a) <= p + skip
  {
    forall a | a in t && p <= a ensures p + skip <= a {
      if skip > 0 {
        var c :| c in t && c < p && End(t, c) == p + skip && (active <==> t[c].kind == Active);
        assert Apart(t, c, a);
      }
    }
    forall a | a in t && a < p ensures End(t, a) <= p + skip {
      assert ExtentOk(t, b, a);
      if p < End(t, a) { CrosserIs(t, b, p, skip, active, a); }
    }
  }

  /** The state between two sectors: headers tell of everything except an extent that has
      just been cut off, and of that the carried count knows. */
  ghost predicate Between(t: Extents, b: Bytes, sector: nat, skip: nat, active: bool) {
    && Tiled(t, b) && OnlyHeadless(t, SectorStart(sector))
    && (if sector == 0 then NoHeadless(t) else Carried(t, sector, skip, active))
  }

  /** The writes for a sector stay away from the extents in use. */
  lemma UntouchedKept(t: Extents, b: Bytes, b': Bytes, sector: nat, h: nat, a: nat)
    requires Tiled(t, b) && SameOutside(b, b', SectorStart(sector), h)
    requires Count(t, SectorStart(sector), SectorStart(sector) + PAGES_PER_SECTOR, InUse) == 0
    requires IsActive(t, a) && (SectorStart(sector + 1) <= a ==> h <= a)
    ensures Kept(t, b, t, b', a)
  {
    ActiveOutside(t, b, sector, a);
    BytesKept(t, b, b', a, SectorStart(sector), h);
  }

  /** An extent that covers the sector from before reaches as far as the writes. */
  lemma StandingReach(t: Extents, b: Bytes, p: nat, skip: nat, active: bool, x: nat)
    requires Tiled(t, b) && Crossing(t, p, skip, active) && x in t && x < p <= End(t, x)
    ensures p + skip <= End(t, x)
  {
    if p < End(t, x) {
      CrosserIs(t, b, p, skip, active, x);
    } else if skip > 0 {
      var c :| c in t && c < p && End(t, c) == p + skip && (active <==> t[c].kind == Active);
      InOrder(t, b, x, c);
    }
  }

  lemma InOrder(t: Extents, b: Bytes, x: nat, c: nat)
    requires Tiled(t, b) && x in t && c in t
    ensures c < End(t, x) ==> End(t, c) <= End(t, x)
  {
    assert ExtentOk(t, b, x);
    assert Apart(t, c, x) && Apart(t, x, c);
  }

  lemma StepStanding(t: Extents, b: Bytes, b': Bytes, sector: nat, skip: nat, active: bool, x: nat)
    requires Tiled(t, b) && NoHeadless(t) && sector < SECTOR_COUNT
    requires Count(t, SectorStart(sector), SectorStart(sector) + PAGES_PER_SECTOR, InUse) == 0
    requires Crossing(t, SectorStart(sector + 1), skip, active)
    requires Swept(b, b', SectorStart(sector), SectorStart(sector + 1),
                   SweepEnd(SectorStart(sector + 1), SectorStart(sector + 1) + skip))
    requires x in t && x < SectorStart(sector) && SectorStart(sector + 1) <= End(t, x) && t[x].kind != Free
    requires t[x].kind != Active
    ensures Between(t, b', sector + 1, skip, active) && ActiveKept(t, b, t, b')
  {
    var p0, p := SectorStart(sector), SectorStart(sector + 1);
    var h := SweepEnd(p, p + skip);
    StandingReach(t, b, p, skip, active, x);
    StandingTiled(t, b, b', x, p0, p, h);
    StandingCarried(t, b, sector, skip, active);
    ReclaimEnd(t, b, p, skip, active);
    forall a: nat ensures Kept(t, b, t, b', a) {
      if IsActive(t, a) { UntouchedKept(t, b, b', sector, h, a); }
    }
  }

  lemma StandingCarried(t: Extents, b: Bytes, sector: nat, skip: nat, active: bool)
    requires Tiled(t, b) && NoHeadless(t) && Crossing(t, SectorStart(sector + 1), skip, active)
    ensures Carried(t, sector + 1, skip, active)
  {
    var p := SectorStart(sector + 1);
    forall a | a in t && a < p && t[a].kind == Free ensures End(t, a) <= p { FreeNotCrossing(t, b, sector + 1, a); }
    CrossingCarried(t, sector + 1, skip, active);
  }

  lemma StepReclaimed(t: Extents, b: Bytes, b': Bytes, sector: nat, skip: nat, active: bool, lo: nat)
    returns (t': Extents)
    requires Tiled(t, b) && sector < SECTOR_COUNT && OnlyHeadless(t, SectorStart(sector))
    requires Count(t, SectorStart(sector), SectorStart(sector) + PAGES_PER_SECTOR, InUse) == 0
    requires Crossing(t, SectorStart(sector + 1), skip, active) && (skip > 0 ==> !active)
    requires Swept(b, b', SectorStart(sector), SectorStart(sector + 1),
                   SweepEnd(SectorStart(sector + 1), SectorStart(sector + 1) + skip))
    requires Reclaims(t, sector, lo, SectorStart(sector + 1) + skip)
    requires lo == SectorStart(sector) <==> SectorStart(sector) in t
    ensures Between(t', b', sector + 1, skip, active) && ActiveKept(t, b, t', b')
    ensures SameBelow(t, t', SectorStart(sector)) && SameAhead(t, t', sector + 1)
  {
    var p0, p := SectorStart(sector), SectorStart(sector + 1);
    var e, h := p + skip, SweepEnd(p, p + skip);
    t' := Reclaimed(t, lo, p, e);
    ReclaimedBelow(t, lo, p, e, p0);
    SectorStep(sector);
    ReclaimedTiled(t, b, b', sector, lo, e);
    TailCarried(t, sector, lo, skip, active);
    AllReclaimedKept(t, b, b', sector, lo, e, h);
    ReclaimedAhead(t, b, t', b', sector + 1, lo, p, e, skip, active);
  }

  lemma AllReclaimedKept(t: Extents, b: Bytes, b': Bytes, sector: nat, lo: nat, e: nat, h: nat)
    requires Tiled(t, b) && Reclaims(t, sector, lo, e)
    requires Count(t, SectorStart(sector), SectorStart(sector) + PAGES_PER_SECTOR, InUse) == 0
    requires SameOutside(b, b', SectorStart(sector), h) && SectorStart(sector + 1) <= h <= e
    ensures ActiveKept(t, b, Reclaimed(t, lo, SectorStart(sector + 1), e), b')
  {
    var p0, p := SectorStart(sector), SectorStart(sector + 1);
    forall a: nat ensures Kept(t, b, Reclaimed(t, lo, p, e), b', a) {
      if IsActive(t, a) { ActiveOutside(t, b, sector, a); }
      assert a in t ==> ExtentOk(t, b, a);
      ReclaimedKept(t, b, b', p0, lo, p, e, h, a);
    }
  }

  lemma ReclaimedKept(t: Extents, b: Bytes, b': Bytes, p0: nat, lo: nat, p: nat, e: nat, h: nat, a: nat)
    requires p0 <= lo < p <= h <= e && SameOutside(b, b', p0, h)
    requires forall c :: c in t && p <= c ==> e <= c
    requires IsActive(t, a) ==> End(t, a) <= p0 || e <= a
    requires a in t ==> t[a].len > 0
    ensures Kept(t, b, Reclaimed(t, lo, p, e), b', a)
  {
    ReclaimedActive(t, lo, p, e, a);
    if IsActive(t, a) {
      BytesKept(t, b, b', a, p0, h);
    }
    KeptAs(t, b, Reclaimed(t, lo, p, e), b', a);
  }

  lemma KeptAs(t: Extents, b: Bytes, t': Extents, b': Bytes, a: nat)
    requires IsActive(t, a) ==> Kept(t, b, t, b', a) && IsActive(t', a) && t'[a] == t[a]
    requires IsActive(t', a) ==> IsActive(t, a)
    ensures Kept(t, b, t', b', a)
  {
  }

  lemma ReclaimedActive(t: Extents, lo: nat, p: nat, e: nat, a: nat)
    requires lo < p <= e && (forall c :: c in t && p <= c ==> e <= c)
    ensures var t' := Reclaimed(t, lo, p, e);
            && (IsActive(t', a) ==> IsActive(t, a))
            && (IsActive(t, a) && !(lo <= a < p) ==> IsActive(t', a) && t'[a] == t[a])
  {
  }

  lemma TailPage(t: Extents, lo: nat, p: nat, e: nat, q: nat)
    requires lo <= p <= q < e
    ensures Page(Reclaimed(t, lo, p, e), q, Garbage)
  {
    var t' := Reclaimed(t, lo, p, e);
    var a := if e - p >= PAGES_PER_SECTOR then p else q;
    assert a in t' && a <= q < End(t', a) && UseOf(t'[a].kind) == Garbage;
  }

  lemma TailHeadless(t: Extents, sector: nat, lo: nat, e: nat)
    requires Reclaims(t, sector, lo, e) && OnlyHeadless(t, SectorStart(sector))
    ensures OnlyHeadless(Reclaimed(t, lo, SectorStart(sector + 1), e), SectorStart(sector + 1))
  {
    var p := SectorStart(sector + 1);
    var t' := Reclaimed(t, lo, p, e);
    forall a | a in t' && t'[a].kind == Headless ensures a == p && t'[a].len >= PAGES_PER_SECTOR {
      ReclaimedHeadless(t, lo, p, e, a);
    }
  }

  lemma ReclaimedHeadless(t: Extents, lo: nat, p: nat, e: nat, a: nat)
    requires lo < p <= e && a in Reclaimed(t, lo, p, e) && Reclaimed(t, lo, p, e)[a].kind == Headless
    ensures (a == p && Reclaimed(t, lo, p, e)[a].len >= PAGES_PER_SECTOR)
            || (a in t && t[a].kind == Headless && !(lo <= a < p))
  {
  }

  lemma NoTail(t: Extents, lo: nat, p: nat)
    requires lo < p
    ensures forall a ::
              a in Reclaimed(t, lo, p, p) && Reclaimed(t, lo, p, p)[a].kind == Headless ==>
                a in t && t[a].kind == Headless
  {
    PagesBound();
  }

  lemma TailCarried(t: Extents, sector: nat, lo: nat, skip: nat, active: bool)
    requires Reclaims(t, sector, lo, SectorStart(sector + 1) + skip) && OnlyHeadless(t, SectorStart(sector))
    requires skip > 0 ==> !active
    ensures var t' := Reclaimed(t, lo, SectorStart(sector + 1), SectorStart(sector + 1) + skip);
            OnlyHeadless(t', SectorStart(sector + 1)) && Carried(t', sector + 1, skip, active)
  {
    var p := SectorStart(sector + 1);
    var e := p + skip;
    var t' := Reclaimed(t, lo, p, e);
    TailHeadless(t, sector, lo, e);
    forall q: nat | p <= q < e ensures Page(t', q, UseFlag(active)) {
      TailPage(t, lo, p, e, q);
    }
    assert Boundary(t', e);
    if skip >= PAGES_PER_SECTOR { assert p in t' && End(t', p) == e; }
    if skip == 0 { NoTail(t, lo, p); }
  }

  ghost predicate SameBelow(t: Extents, t': Extents, p: nat) {
    forall a :: a <= p ==> (a in t <==> a in t')
  }

  /** A sector without active pages has been erased. */
  lemma SweepStep(t: Extents, b: Bytes, b': Bytes, sector: nat, skip: nat, active: bool, st: Status)
    returns (t': Extents)
    requires Tiled(t, b) && sector < SECTOR_COUNT && OnlyHeadless(t, SectorStart(sector))
    requires Counts(t, sector, st) && st.active == 0 && Crossing(t, SectorStart(sector + 1), skip, active)
    requires Swept(b, b', SectorStart(sector), SectorStart(sector + 1),
                   SweepEnd(SectorStart(sector + 1), SectorStart(sector + 1) + skip))
    ensures Between(t', b', sector + 1, skip, active) && ActiveKept(t, b, t', b')
    ensures SameBelow(t, t', SectorStart(sector)) && SameAhead(t, t', sector + 1)
  {
    var p := SectorStart(sector + 1);
    if skip > 0 && active { CrossedIsActive(t, b, sector, skip, st); }
    var standing, x, lo := ReclaimStart(t, b, sector);
    if standing {
      StepStanding(t, b, b', sector, skip, active, x);
      t' := t;
    } else {
      t' := StepFrom(t, b, b', sector, skip, active, lo);
    }
  }

  lemma StepFrom(t: Extents, b: Bytes, b': Bytes, sector: nat, skip: nat, active: bool, lo: nat) returns (t': Extents)
    requires Tiled(t, b) && sector < SECTOR_COUNT && OnlyHeadless(t, SectorStart(sector))
    requires Count(t, SectorStart(sector), SectorStart(sector) + PAGES_PER_SECTOR, InUse) == 0
    requires Crossing(t, SectorStart(sector + 1), skip, active) && (skip > 0 ==> !active)
    requires Swept(b, b', SectorStart(sector), SectorStart(sector + 1),
                   SweepEnd(SectorStart(sector + 1), SectorStart(sector + 1) + skip))
    requires lo in t && SectorStart(sector) <= lo < SectorStart(sector + 1)
    requires forall a ::
               a in t && a < lo ==>
                 a < SectorStart(sector) && End(t, a) <= lo && (t[a].kind == Free ==> End(t, a) <= SectorStart(sector))
    requires lo == SectorStart(sector) <==> SectorStart(sector) in t
    ensures Between(t', b', sector + 1, skip, active) && ActiveKept(t, b, t', b')
    ensures SameBelow(t, t', SectorStart(sector)) && SameAhead(t, t', sector + 1)
  {
    ReclaimFrom(t, b, sector, skip, active, lo);
    t' := StepReclaimed(t, b, b', sector, skip, active, lo);
  }

  lemma ReclaimFrom(t: Extents, b: Bytes, sector: nat, skip: nat, active: bool, lo: nat)
    requires Tiled(t, b) && sector < SECTOR_COUNT && Crossing(t, SectorStart(sector + 1), skip, active)
    requires lo in t && SectorStart(sector) <= lo < SectorStart(sector + 1)
    requires forall a ::
               a in t && a < lo ==>
                 a < SectorStart(sector) && End(t, a) <= lo && (t[a].kind == Free ==> End(t, a) <= SectorStart(sector))
    ensures Reclaims(t, sector, lo, SectorStart(sector + 1) + skip)
  {
    ReclaimEnd(t, b, SectorStart(sector + 1), skip, active);
  }

  lemma ReclaimedBelow(t: Extents, lo: nat, p: nat, e: nat, p0: nat)
    requires p0 <= lo < p <= e && lo in t && (lo == p0 <==> p0 in t)
    ensures SameBelow(t, Reclaimed(t, lo, p, e), p0)
  {
  }

  /** A sector covered by an extent that has been cut off is all garbage. */
  lemma KeepStep(t: Extents, b: Bytes, sector: nat, skip0: nat, active0: bool, skip: nat, active: bool, st: Status)
    requires Between(t, b, sector, skip0, active0) && sector < SECTOR_COUNT && Counts(t, sector, st)
    requires Crossing(t, SectorStart(sector + 1), skip, active)
    requires st.active > 0 || st.free > 0 || st.obsolete == 0
    ensures Between(t, b, sector + 1, skip, active)
  {
    var p0 := SectorStart(sector);
    if p0 in t && t[p0].kind == Headless {
      HeadlessSector(t, b, sector, st);
      assert false;
    }
    forall a | a in t ensures t[a].kind != Headless { }
    StandingCarried(t, b, sector, skip, active);
  }

  lemma HeadlessSector(t: Extents, b: Bytes, sector: nat, st: Status)
    requires Tiled(t, b) && SectorStart(sector) in t && t[SectorStart(sector)].kind == Headless
    requires t[SectorStart(sector)].len >= PAGES_PER_SECTOR && Counts(t, sector, st)
    ensures st == Status(0, PAGES_PER_SECTOR, 0)
  {
    var p0 := SectorStart(sector);
    ExtentPages(t, p0);
    CountRun(t, b, p0, p0 + PAGES_PER_SECTOR, Garbage, InUse);
    CountRun(t, b, p0, p0 + PAGES_PER_SECTOR, Garbage, Garbage);
    CountRun(t, b, p0, p0 + PAGES_PER_SECTOR, Garbage, Spare);
  }

  // ----- What a sweep leaves ahead of it -----

  ghost predicate SamePage(t: Extents, t': Extents, q: nat) {
    forall u :: Page(t, q, u) <==> Page(t', q, u)
  }

  ghost predicate SameEnds(t: Extents, t': Extents, k: nat) {
    forall n: nat :: EndsInside(t, SectorStart(k), n) <==> EndsInside(t', SectorStart(k), n)
  }

  /** From a sector on pages have the same uses, and the same extents that are not in use end
      inside the sectors behind it. */
  ghost predicate SameAhead(t: Extents, t': Extents, sector: nat) {
    && (forall q: nat {:trigger SamePage(t, t', q)} :: SectorStart(sector) <= q ==> SamePage(t, t', q))
    && (forall k: nat {:trigger SameEnds(t, t', k)} :: sector < k ==> SameEnds(t, t', k))
  }

  lemma AheadTransitive(t: Extents, t1: Extents, t2: Extents, sector: nat)
    requires SameAhead(t, t1, sector) && SameAhead(t1, t2, sector + 1)
    ensures SameAhead(t, t2, sector + 1)
  {
    SectorStep(sector);
    forall q: nat | SectorStart(sector + 1) <= q ensures SamePage(t, t2, q) {
      assert SamePage(t, t1, q) && SamePage(t1, t2, q);
    }
    forall k: nat | sector + 1 < k ensures SameEnds(t, t2, k) {
      assert SameEnds(t, t1, k) && SameEnds(t1, t2, k);
    }
  }

  /** The pages behind the sector. Those of an extent that crosses out of it are garbage, as they
      were. */
  lemma ReclaimedPages(t: Extents, b: Bytes, t': Extents, b': Bytes, sector: nat, lo: nat, p: nat, e: nat, q: nat)
    requires Tiled(t, b) && lo < p <= e && t' == Reclaimed(t, lo, p, e) && Tiled(t', b') && p <= q
    requires p == SectorStart(sector) && CutAt(t, p, e)
    ensures SamePage(t, t', q)
  {
    if q < e {
      TailPage(t, lo, p, e, q);
      var c :| c in t && c < p && End(t, c) == e && t[c].kind != Active;
      if t[c].kind == Free { FreeNotCrossing(t, b, sector, c); }
      assert Page(t, q, UseOf(t[c].kind));
      forall u ensures Page(t, q, u) <==> Page(t', q, u) {
        OneUse(t, b, q, Garbage, u);
        OneUse(t', b', q, Garbage, u);
      }
    } else {
      forall u ensures Page(t, q, u) <==> Page(t', q, u) { BehindPage(t, lo, p, e, q, u); }
    }
  }

  lemma BehindPage(t: Extents, lo: nat, p: nat, e: nat, q: nat, u: Use)
    requires lo < p <= e <= q && CutAt(t, p, e)
    ensures Page(t, q, u) <==> Page(Reclaimed(t, lo, p, e), q, u)
  {
    var t' := Reclaimed(t, lo, p, e);
    if Page(t, q, u) {
      var a :| a in t && a <= q < End(t, a) && UseOf(t[a].kind) == u;
      assert a in t' && t'[a] == t[a];
    }
    if Page(t', q, u) {
      var a :| a in t' && a <= q < End(t', a) && UseOf(t'[a].kind) == u;
      assert a in t && t[a] == t'[a];
    }
  }

  /** The sectors behind the next one: what ended inside them still does. Extents from p on start
      behind e, and those from before end there, or before p. */
  ghost predicate CutAt(t: Extents, p: nat, e: nat) {
    && (forall a :: a in t && p <= a ==> e <= a)
    && (forall a :: a in t && a < p ==> End(t, a) <= p || End(t, a) == e)
    && (p < e ==> exists c :: c in t && c < p && End(t, c) == e && t[c].kind != Active)
  }

  lemma ReclaimedEnds(t: Extents, lo: nat, p: nat, e: nat, k: nat)
    requires lo < p <= e && p + PAGES_PER_SECTOR <= SectorStart(k) && CutAt(t, p, e)
    ensures SameEnds(t, Reclaimed(t, lo, p, e), k)
  {
    var t' := Reclaimed(t, lo, p, e);
    forall n: nat ensures EndsInside(t, SectorStart(k), n) <==> EndsInside(t', SectorStart(k), n) {
      if EndsInside(t, SectorStart(k), n) { EndsStill(t, lo, p, e, SectorStart(k), n); }
      if EndsInside(t', SectorStart(k), n) { EndedBefore(t, lo, p, e, SectorStart(k), n); }
    }
  }

  lemma EndsStill(t: Extents, lo: nat, p: nat, e: nat, p1: nat, n: nat)
    requires lo < p <= e && p + PAGES_PER_SECTOR <= p1 && CutAt(t, p, e) && EndsInside(t, p1, n)
    ensures EndsInside(Reclaimed(t, lo, p, e), p1, n)
  {
    var t' := Reclaimed(t, lo, p, e);
    var a :| a in t && a < p1 && End(t, a) == p1 + n && t[a].kind != Active;
    var a' := if a < p then p else a;
    assert a' in t' && End(t', a') == p1 + n && t'[a'].kind != Active;
  }

  lemma EndedBefore(t: Extents, lo: nat, p: nat, e: nat, p1: nat, n: nat)
    requires lo < p <= e && p + PAGES_PER_SECTOR <= p1 && CutAt(t, p, e) && EndsInside(Reclaimed(t, lo, p, e), p1, n)
    ensures EndsInside(t, p1, n)
  {
    var t' := Reclaimed(t, lo, p, e);
    var a :| a in t' && a < p1 && End(t', a) == p1 + n && t'[a].kind != Active;
    if p <= a < e {
      var c :| c in t && c < p && End(t, c) == e && t[c].kind != Active;
      assert End(t', a) == e;
    } else {
      assert a in t && t[a] == t'[a];
    }
  }

  lemma ReclaimedAhead(t: Extents, b: Bytes, t': Extents, b': Bytes, sector: nat, lo: nat, p: nat, e: nat, skip: nat,
                       active: bool)
    requires Tiled(t, b) && lo < p <= e && t' == Reclaimed(t, lo, p, e) && Tiled(t', b') && e == p + skip
    requires p == SectorStart(sector) && Crossing(t, p, skip, active) && (skip > 0 ==> !active)
    ensures SameAhead(t, t', sector)
  {
    CrossingCuts(t, b, p, e, skip, active);
    forall q: nat | p <= q ensures SamePage(t, t', q) { ReclaimedPages(t, b, t', b', sector, lo, p, e, q); }
    forall k: nat | sector < k ensures SameEnds(t, t', k) {
      SectorMono(sector, k);
      ReclaimedEnds(t, lo, p, e, k);
    }
  }

  lemma CrossingCuts(t: Extents, b: Bytes, p: nat, e: nat, skip: nat, active: bool)
    requires Tiled(t, b) && e == p + skip && Crossing(t, p, skip, active) && (skip > 0 ==> !active)
    ensures CutAt(t, p, e)
  {
    ReclaimEnd(t, b, p, skip, active);
    forall a | a in t && a < p ensures End(t, a) <= p || End(t, a) == e {
      if p < End(t, a) { CrosserIs(t, b, p, skip, active, a); }
    }
  }

  lemma {:induction false} CountSame(t: Extents, t': Extents, lo: nat, hi: nat, u: Use)
    requires forall q: nat {:trigger SamePage(t, t', q)} :: lo <= q ==> SamePage(t, t', q)
    ensures Count(t, lo, hi, u) == Count(t', lo, hi, u)
    decreases hi - lo
  {
    if lo < hi {
      assert SamePage(t, t', lo);
      CountSame(t, t', lo + 1, hi, u);
    }
  }

  /** So the sectors ahead are erasable as before. */
  lemma ErasableSame(t: Extents, t': Extents, sector: nat, mode: Mode)
    requires SameAhead(t, t', sector)
    ensures Erasable(t, sector, mode) <==> Erasable(t', sector, mode)
  {
    var lo, hi := SectorStart(sector), SectorStart(sector) + PAGES_PER_SECTOR;
    CountSame(t, t', lo, hi, InUse);
    CountSame(t, t', lo, hi, Garbage);
    CountSame(t, t', lo, hi, Spare);
  }

  // ----- Where allocation goes on -----

  /** A sector that the collector erases when it comes to it. */
  ghost predicate Erasable(t: Extents, sector: nat, mode: Mode) {
    var lo, hi := SectorStart(sector), SectorStart(sector) + PAGES_PER_SECTOR;
    && Count(t, lo, hi, InUse) == 0
    && (mode == Reluctant ==> Count(t, lo, hi, Spare) == 0)
    && (mode == Greedy ==> Count(t, lo, hi, Garbage) > 0)
  }

  ghost predicate FirstErasable(t: Extents, sector: nat, mode: Mode) {
    sector < SECTOR_COUNT && Erasable(t, sector, mode) && forall s: nat :: s < sector ==> !Erasable(t, s, mode)
  }

  /** The first sector to be erased starts no earlier than allocation goes on, or it starts
      with an extent of its own. */
  ghost predicate KeepsWalk(t: Extents, nextFree: nat, mode: Mode) {
    forall s: nat {:trigger FirstErasable(t, s, mode)} ::
      FirstErasable(t, s, mode) ==> nextFree <= SectorStart(s) || SectorStart(s) in t
  }

  /** Where allocation goes on after collection: where it was, or at the first sector erased
      if that is earlier. */
  ghost predicate Lowered(t: Extents, t': Extents, nextFree: nat, nextFree': nat, mode: Mode) {
    if exists s: nat :: FirstErasable(t, s, mode) then
      exists s: nat :: FirstErasable(t, s, mode)
        && nextFree' == (if SectorStart(s) < nextFree then SectorStart(s) else nextFree)
        && SameBelow(t, t', SectorStart(s))
    else nextFree' == nextFree && t' == t
  }

  lemma OneFirst(t: Extents, s: nat, s': nat, mode: Mode)
    requires FirstErasable(t, s, mode) && FirstErasable(t, s', mode)
    ensures s == s'
  {
  }

  /** Collection leaves the place where allocation goes on at an extent exactly when the
      first sector erased is not covered from before, or lies behind that place. */
  lemma LoweredOnWalk(t: Extents, t': Extents, nextFree: nat, nextFree': nat, mode: Mode)
    requires Lowered(t, t', nextFree, nextFree', mode) && Boundary(t, nextFree)
    ensures Boundary(t', nextFree') <==> KeepsWalk(t, nextFree, mode)
  {
    if s: nat :| FirstErasable(t, s, mode) {
      var s1: nat :| FirstErasable(t, s1, mode)
        && nextFree' == (if SectorStart(s1) < nextFree then SectorStart(s1) else nextFree)
        && SameBelow(t, t', SectorStart(s1));
      SectorsInside(s1);
      forall s2: nat | FirstErasable(t, s2, mode) ensures s2 == s1 { OneFirst(t, s1, s2, mode); }
    }
  }

  /** Nothing is left without a header when the carried pages end in the next sector, or
      behind the last one. */
  lemma NoneLeft(t: Extents, b: Bytes, sector: nat, skip: nat, active: bool)
    requires Between(t, b, sector, skip, active) && sector > 0
    requires 0 < skip < PAGES_PER_SECTOR || sector == SECTOR_COUNT
    ensures NoHeadless(t)
  {
    var p := SectorStart(sector);
    SectorStep(0);
    assert p in t ==> ExtentOk(t, b, p);
    if p in t && t[p].kind == Headless && 0 < skip < PAGES_PER_SECTOR {
      NoneInside(t, b, p, p + skip);
    }
  }

  /** What the sectors before `sector` have done to the place where allocation goes on. */
  ghost predicate Progress(t0: Extents, t: Extents, nextFree0: nat, nextFree: nat, mode: Mode, sector: nat, first: int)
    {
    if first < 0 then
      && t == t0 && nextFree == nextFree0
      && forall s: nat {:trigger Erasable(t0, s, mode)} :: s < sector ==> !Erasable(t0, s, mode)
    else
      && first < sector && FirstErasable(t0, first, mode) && SameBelow(t0, t, SectorStart(first))
      && nextFree == if SectorStart(first) < nextFree0 then SectorStart(first) else nextFree0
  }

  /** When the collector erases a sector. */
  predicate Sweeps(mode: Mode, st: Status) {
    st.active == 0 && ((mode == Reluctant && st.free == 0) || (mode == Greedy && st.obsolete > 0))
  }

  lemma KeepProgress(t0: Extents, t: Extents, nextFree0: nat, nextFree: nat, mode: Mode, sector: nat, first: int,
                     st: Status)
    requires Progress(t0, t, nextFree0, nextFree, mode, sector, first) && Counts(t, sector, st)
    ensures Sweeps(mode, st) ==> Erasable(t, sector, mode)
    ensures !Sweeps(mode, st) ==> Progress(t0, t, nextFree0, nextFree, mode, sector + 1, first)
  {
  }

  /** A later erasure leaves that place alone. */
  lemma LaterProgress(t0: Extents, t: Extents, t': Extents, nextFree0: nat, nextFree: nat, mode: Mode, sector: nat,
                      first: int)
    requires Progress(t0, t, nextFree0, nextFree, mode, sector, first) && first >= 0
    requires SameBelow(t, t', SectorStart(sector))
    ensures SectorStart(sector) >= nextFree && Progress(t0, t', nextFree0, nextFree, mode, sector + 1, first)
  {
    SectorMono(first, sector);
  }

  lemma ProgressDone(t0: Extents, t: Extents, nextFree0: nat, nextFree: nat, mode: Mode, sector: nat, first: int)
    requires Progress(t0, t, nextFree0, nextFree, mode, sector, first) && (first < 0 ==> sector == SECTOR_COUNT)
    ensures Lowered(t0, t, nextFree0, nextFree, mode)
  {
    if first >= 0 {
      var f: nat := first;
      assert FirstErasable(t0, f, mode);
    } else {
      forall s: nat ensures !FirstErasable(t0, s, mode) {
        assert s < sector ==> !Erasable(t0, s, mode);
      }
    }
  }

  /** The bookkeeping after a sector has been erased. */
  lemma EraseProgress(t0: Extents, b0: Bytes, t: Extents, b: Bytes, t': Extents, b': Bytes, n0: nat, n: nat, mode: Mode,
                      sector: nat, first0: int) returns (first: int)
    requires ActiveKept(t0, b0, t, b) && ActiveKept(t, b, t', b') && SameBelow(t, t', SectorStart(sector))
    requires sector < SECTOR_COUNT && Progress(t0, t, n0, n, mode, sector, first0) && Erasable(t, sector, mode)
    ensures ActiveKept(t0, b0, t', b') && first >= 0
    ensures Progress(t0, t', n0, if SectorStart(sector) < n then SectorStart(sector) else n, mode, sector + 1, first)
  {
    KeptTransitive(t0, b0, t, b, t', b');
    first := first0;
    if first0 < 0 {
      first := sector;
    } else {
      LaterProgress(t0, t, t', n0, n, mode, sector, first0);
    }
  }

  /** The sector where allocation is to go on, if that is not where it was, is blank. */
  ghost predicate BlankThere(b: Bytes, nextFree0: nat, nextFree: nat) {
    nextFree != nextFree0 ==> Zeros(b, Offset(nextFree), Offset(nextFree + PAGES_PER_SECTOR))
  }

  /** A store on which collection strands allocation: an extent that was removed starts
      behind a file in the first sector and covers the others up to the last page. Sector 1
      is the first to be erased, and its start is inside that extent. */
  lemma Stranding() returns (t: Extents, b: Bytes)
    requires SECTOR_COUNT >= 2
    ensures Tiled(t, b) && NoHeadless(t) && Boundary(t, PAGE_COUNT - 1) && !KeepsWalk(t, PAGE_COUNT - 1, Greedy)
  {
    ManyPages();
    var n := PAGE_COUNT;
    var h0 := ZeroHeader().(inUse := true, maxPages := 1);
    var h1 := ZeroHeader().(inUse := true, obsolete := true, maxPages := n - 2);
    var z := seq<byte>(FLASH_SIZE, _ => 0);
    var b1 := Put(z, Offset(0), Encode(h0));
    PutHeader(z, 0, h0);
    b := Put(b1, Offset(1), Encode(h1));
    PutHeader(b1, 1, h1);
    t := map[0 := Extent(1, Active), 1 := Extent(n - 2, Obsolete), n - 1 := Extent(1, Free)];
    StrandingHeaders(z, b1, b, h0, h1, n - 1);
    StrandingTiled(t, b, n);
    StrandingCounts(t, b);
  }

  lemma ManyPages()
    requires SECTOR_COUNT >= 2
    ensures 4 <= PAGE_COUNT < 0x4000
  {
    PagesBound();
    SectorStep(0);
    SectorStep(1);
    SectorsInside(1);
  }

  lemma StrandingTiled(t: Extents, b: Bytes, n: nat)
    requires n == PAGE_COUNT && 4 <= n && |b| == FLASH_SIZE
    requires t == map[0 := Extent(1, Active), 1 := Extent(n - 2, Obsolete), n - 1 := Extent(1, Free)]
    requires HeaderAt(b, 0).Active() && HeaderAt(b, 0).maxPages == 1
    requires var h := HeaderAt(b, 1); h.inUse && h.obsolete && !h.isolated && h.maxPages == n - 2
    requires Zeros(b, Offset(n - 1), Offset(n))
    ensures Tiled(t, b) && NoHeadless(t)
  {
    LastPage(n - 1);
    assert HeaderOk(t, b, 0) && HeaderOk(t, b, 1) && HeaderOk(t, b, n - 1);
    assert ExtentOk(t, b, 0) && ExtentOk(t, b, 1) && ExtentOk(t, b, n - 1);
    forall a, c | a in t && c in t ensures Apart(t, a, c) { }
  }

  lemma LastPage(p: nat)
    requires p + 1 == PAGE_COUNT
    ensures SectorStart(SectorOf(p) + 1) == PAGE_COUNT
  {
    SectorOfPage(p);
    SectorStep(SectorOf(p));
    if SectorOf(p) + 1 < SECTOR_COUNT { SectorMono(SectorOf(p) + 1, SECTOR_COUNT); }
  }

  lemma StrandingHeaders(z: Bytes, b1: Bytes, b: Bytes, h0: Header, h1: Header, p: nat)
    requires Zeros(z, 0, Offset(PAGE_COUNT)) && HeaderWritten(z, b1, 0, h0) && HeaderWritten(b1, b, 1, h1)
    requires 1 < p < PAGE_COUNT
    ensures HeaderAt(b, 0) == h0 && HeaderAt(b, 1) == h1 && Zeros(b, Offset(p), Offset(p + 1))
  {
    OffsetStep(0);
    OffsetStep(1);
    OffsetMono(2, p);
    OffsetMono(p + 1, PAGE_COUNT);
    HeaderOnly(b1, b, 1, h1);
    HeaderSame(b1, b, 1, 2, 0);
  }

  lemma StrandingCounts(t: Extents, b: Bytes)
    requires SECTOR_COUNT >= 2 && Tiled(t, b)
    requires t == map[0 := Extent(1, Active), 1 := Extent(PAGE_COUNT - 2, Obsolete), PAGE_COUNT - 1 := Extent(1, Free)]
    ensures !KeepsWalk(t, PAGE_COUNT - 1, Greedy)
  {
    PagesBound();
    SectorStep(0);
    SectorStep(1);
    SectorsInside(1);
    var p, q := PAGES_PER_SECTOR, SectorStart(1) + PAGES_PER_SECTOR;
    assert Page(t, 0, InUse);
    CountSome(t, 0, p, InUse, 0);
    forall x: nat | p <= x < q ensures !Page(t, x, InUse) { }
    CountNone(t, p, q, InUse);
    assert p in t ==> p == PAGE_COUNT - 1;
    assert 1 in t && 1 <= p < End(t, 1);
    assert Page(t, p, Garbage);
    CountSome(t, p, q, Garbage, p);
    assert Erasable(t, 1, Greedy) && !Erasable(t, 0, Greedy);
    assert FirstErasable(t, 1, Greedy);
  }
}
