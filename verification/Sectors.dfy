/** Counting the pages of a sector by use, one sector after the other. */
module Sectors {
  import opened Words
  import opened CoffeeConfig
  import opened FlashBytes
  import opened Extents

  /** `struct sector_status` */
  datatype Status = Status(active: nat, obsolete: nat, free: nat)

  /** The count of every page of a sector by the extent it belongs to. */
  ghost predicate Counts(t: Extents, sector: nat, st: Status) {
    var lo, hi := SectorStart(sector), SectorStart(sector) + PAGES_PER_SECTOR;
    && st.active == Count(t, lo, hi, InUse) && st.obsolete == Count(t, lo, hi, Garbage)
    && st.free == Count(t, lo, hi, Spare)
  }

  function UseFlag(active: bool): Use {
    if active then InUse else Garbage
  }

  /** What is carried into a sector: its first `skip` pages are known to be in use or to be
      garbage, and then an extent starts. */
  ghost predicate Carried(t: Extents, sector: nat, skip: nat, active: bool) {
    var p := SectorStart(sector);
    && p + skip <= PAGE_COUNT && Boundary(t, p + skip)
    && (forall q: nat :: p <= q < p + skip ==> Page(t, q, UseFlag(active)))
    && (skip >= PAGES_PER_SECTOR ==> exists a :: a in t && a <= p && End(t, a) == p + skip)
    && (forall a :: a in t && t[a].kind == Headless ==> a < p + skip)
  }

  /** An extent that started earlier reaches `skip` pages into a sector, or none does. */
  ghost predicate Crossing(t: Extents, p: nat, skip: nat, active: bool) {
    && p + skip <= PAGE_COUNT && Boundary(t, p + skip)
    && (skip > 0 ==> exists a :: a in t && a < p && End(t, a) == p + skip && (active <==> t[a].kind == Active))
  }

  /** An extent that is not in use ends inside the sector that starts at p, `n` pages in. */
  ghost predicate EndsInside(t: Extents, p: nat, n: nat) {
    0 < n < PAGES_PER_SECTOR && exists a :: a in t && a < p && End(t, a) == p + n && t[a].kind != Active
  }

  lemma CrossingCarried(t: Extents, sector: nat, skip: nat, active: bool)
    requires Crossing(t, SectorStart(sector), skip, active)
    requires forall a :: a in t && a < SectorStart(sector) && t[a].kind == Free ==> End(t, a) <= SectorStart(sector)
    requires forall a :: a in t && t[a].kind == Headless ==> a < SectorStart(sector)
    ensures Carried(t, sector, skip, active)
  {
  }

  lemma FreeNotCrossing(t: Extents, b: Bytes, sector: nat, a: nat)
    requires Tiled(t, b) && a in t && a < SectorStart(sector) && t[a].kind == Free
    ensures End(t, a) <= SectorStart(sector)
  {
    FreeInSector(t, b, a);
    if SectorOf(a) + 1 < sector {
      SectorMono(SectorOf(a) + 1, sector);
    } else if sector <= SectorOf(a) && sector < SectorOf(a) {
      SectorMono(sector, SectorOf(a));
    }
  }

  // ----- The loop of get_sector_status -----

  /** The extents from the sector start up to `page` have been counted. */
  ghost predicate Counted(t: Extents, lo: nat, page: nat, active: nat, obsolete: nat) {
    && lo <= page <= PAGE_COUNT && Boundary(t, page)
    && active == Count(t, lo, page, InUse) && obsolete == Count(t, lo, page, Garbage)
    && Count(t, lo, page, Spare) == 0 && active + obsolete == page - lo
  }

  lemma CountedCarried(t: Extents, b: Bytes, sector: nat, skip: nat, active: bool)
    requires Tiled(t, b) && Carried(t, sector, skip, active)
    ensures Counted(t, SectorStart(sector), SectorStart(sector) + skip, if active then skip else 0,
                    if active then 0 else skip)
  {
    var p := SectorStart(sector);
    CountRun(t, b, p, p + skip, UseFlag(active), InUse);
    CountRun(t, b, p, p + skip, UseFlag(active), Garbage);
    CountRun(t, b, p, p + skip, UseFlag(active), Spare);
  }

  /** One more extent is counted, with all of its pages. */
  lemma CountedStep(t: Extents, b: Bytes, lo: nat, page: nat, active: nat, obsolete: nat)
    requires Tiled(t, b) && Counted(t, lo, page, active, obsolete) && page in t && t[page].kind != Free
    ensures var n, used := t[page].len, t[page].kind == Active;
            Counted(t, lo, page + n, if used then active + n else active, if used then obsolete else obsolete + n)
  {
    var e := End(t, page);
    assert ExtentOk(t, b, page);
    ExtentPages(t, page);
    var u := UseOf(t[page].kind);
    CountRun(t, b, page, e, u, InUse);
    CountRun(t, b, page, e, u, Garbage);
    CountRun(t, b, page, e, u, Spare);
    CountSplit(t, lo, page, e, InUse);
    CountSplit(t, lo, page, e, Garbage);
    CountSplit(t, lo, page, e, Spare);
  }

  /** A free extent takes up the rest of the sector. */
  lemma FinishFree(t: Extents, b: Bytes, sector: nat, page: nat, active: nat, obsolete: nat)
    requires Tiled(t, b) && sector < SECTOR_COUNT && Counted(t, SectorStart(sector), page, active, obsolete)
    requires page < SectorStart(sector) + PAGES_PER_SECTOR && page in t && t[page].kind == Free
    ensures Counts(t, sector, Status(active, obsolete, SectorStart(sector) + PAGES_PER_SECTOR - page))
    ensures End(t, page) == SectorStart(sector) + PAGES_PER_SECTOR
  {
    var lo, hi := SectorStart(sector), SectorStart(sector) + PAGES_PER_SECTOR;
    FreeInSector(t, b, page);
    SectorUnique(page, sector);
    SectorStep(sector);
    assert ExtentOk(t, b, page);
    ExtentPages(t, page);
    CountRun(t, b, page, hi, Spare, InUse);
    CountRun(t, b, page, hi, Spare, Garbage);
    CountRun(t, b, page, hi, Spare, Spare);
    CountSplit(t, lo, page, hi, InUse);
    CountSplit(t, lo, page, hi, Garbage);
    CountSplit(t, lo, page, hi, Spare);
  }

  /** What the header of the next extent adds to the counts. */
  lemma HeaderPages(t: Extents, b: Bytes, sector: nat, page: nat, active: nat, obsolete: nat, h: Header)
    requires Tiled(t, b) && sector < SECTOR_COUNT && Counted(t, SectorStart(sector), page, active, obsolete)
    requires page < SectorStart(sector) + PAGES_PER_SECTOR && page in t && t[page].kind != Headless
    requires h == HeaderAt(b, page)
    ensures h.Free() ==> Counts(t, sector, Status(active, obsolete, SectorStart(sector) + PAGES_PER_SECTOR - page))
                         && Boundary(t, SectorStart(sector) + PAGES_PER_SECTOR)
    ensures !h.Free() ==> t[page].kind != Free && (h.Active() <==> t[page].kind == Active)
    ensures h.Active() || (!h.Free() && !h.isolated) ==> h.maxPages > 0 && End(t, page) == page + h.maxPages
    ensures h.Active() ==> Counted(t, SectorStart(sector), page + h.maxPages, active + h.maxPages, obsolete)
    ensures !h.Free() && !h.Active() && h.isolated ==>
              End(t, page) == page + 1 && Counted(t, SectorStart(sector), page + 1, active, obsolete + 1)
    ensures !h.Free() && !h.Active() && !h.isolated ==>
              h.obsolete && Counted(t, SectorStart(sector), page + h.maxPages, active, obsolete + h.maxPages)
  {
    NextFileIs(t, b, page);
    assert ExtentOk(t, b, page);
    if t[page].kind == Free {
      FinishFree(t, b, sector, page, active, obsolete);
    } else {
      CountedStep(t, b, SectorStart(sector), page, active, obsolete);
    }
  }

  /** Where the count goes on behind a header, and the counts. */
  function Tally(h: Header, page: nat, active: nat, obsolete: nat): (int, int, int) {
    if h.Active() then (page + h.maxPages, active + h.maxPages, obsolete)
    else if h.isolated then (page + 1, active, obsolete + 1)
    else if h.obsolete then (page + h.maxPages, active, obsolete + h.maxPages)
    else (page, active, obsolete)
  }

  /** The state of the count at a page: the last extent that was counted ends there. */
  ghost predicate Counting(t: Extents, sector: nat, skip: nat, page: nat, active: nat, obsolete: nat, last: nat,
                           used: bool) {
    && Counted(t, SectorStart(sector), page, active, obsolete) && SectorStart(sector) + skip <= page
    && (page > SectorStart(sector) + skip ==>
          && last in t && last < SectorStart(sector) + PAGES_PER_SECTOR && End(t, last) == page
          && t[last].kind != Free && (used <==> t[last].kind == Active))
  }

  /** The counts of a sector, if pages of the next one are taken off. */
  ghost predicate Sized(t: Extents, sector: nat, active: nat, obsolete: nat, free: nat, used: bool) {
    && active + obsolete + free >= PAGES_PER_SECTOR
    && var n := active + obsolete + free - PAGES_PER_SECTOR;
       && Crossing(t, SectorStart(sector + 1), n, used)
       && (n > 0 && used ==> obsolete <= PAGES_PER_SECTOR)
       && (n > 0 && !used ==> active <= PAGES_PER_SECTOR)
       && Counts(t, sector, if n == 0 then Status(active, obsolete, free)
                            else if used then Status(PAGES_PER_SECTOR - obsolete, obsolete, free)
                            else Status(active, PAGES_PER_SECTOR - active, free))
  }

  /** The cases of a header. */
  lemma TallyHeader(t: Extents, b: Bytes, sector: nat, skip: nat, page: nat, active: nat, obsolete: nat, last: nat,
                    used: bool, h: Header)
    requires Tiled(t, b) && sector < SECTOR_COUNT && Counting(t, sector, skip, page, active, obsolete, last, used)
    requires page < SectorStart(sector) + PAGES_PER_SECTOR && page in t && t[page].kind != Headless
    requires h == HeaderAt(b, page)
    ensures h.Free() ==> Sized(t, sector, active, obsolete, SectorStart(sector) + PAGES_PER_SECTOR - page, false)
    ensures !h.Free() ==>
              var n := Tally(h, page, active, obsolete);
              page < n.0 && n.1 >= 0 && n.2 >= 0 && Counting(t, sector, skip, n.0, n.1, n.2, page, h.Active())
  {
    HeaderPages(t, b, sector, page, active, obsolete, h);
    SectorStep(sector);
    SectorsInside(sector);
  }

  lemma TallyOver(t: Extents, b: Bytes, sector: nat, skip: nat, page: nat, active: nat, obsolete: nat, last: nat,
                  used: bool)
    requires Tiled(t, b) && sector < SECTOR_COUNT && Counting(t, sector, skip, page, active, obsolete, last, used)
    requires skip < PAGES_PER_SECTOR && page >= SectorStart(sector) + PAGES_PER_SECTOR
    ensures Sized(t, sector, active, obsolete, 0, used)
  {
    FinishLast(t, b, sector, last, page, active, obsolete);
    SectorStep(sector);
  }

  ghost predicate NoneEndsInside(t: Extents, p: nat) {
    forall n: nat :: !EndsInside(t, p, n)
  }

  /** Only one extent crosses into a sector. */
  lemma CrosserIs(t: Extents, b: Bytes, p: nat, skip: nat, active: bool, a: nat)
    requires Tiled(t, b) && Crossing(t, p, skip, active) && a in t && a < p < End(t, a)
    ensures skip > 0 && End(t, a) == p + skip && (active <==> t[a].kind == Active)
  {
    assert ExtentOk(t, b, a);
    assert p in t ==> Apart(t, a, p);
    if skip > 0 {
      var c :| c in t && c < p && End(t, c) == p + skip && (active <==> t[c].kind == Active);
      OneExtent(t, b, p, a, c);
    }
  }

  lemma OneCrossing(t: Extents, b: Bytes, p: nat, skip: nat, active: bool)
    requires Tiled(t, b) && Crossing(t, p, skip, active)
    ensures if active || skip >= PAGES_PER_SECTOR || skip == 0 then NoneEndsInside(t, p) else EndsInside(t, p, skip)
  {
    forall n: nat ensures EndsInside(t, p, n) ==> n == skip && !active && 0 < skip < PAGES_PER_SECTOR {
      if EndsInside(t, p, n) {
        var a :| a in t && a < p && End(t, a) == p + n && t[a].kind != Active;
        CrosserIs(t, b, p, skip, active, a);
      }
    }
  }

  /** The last extent counted, from a on, may reach beyond the sector: that part belongs to
      the next one. */
  lemma FinishLast(t: Extents, b: Bytes, sector: nat, a: nat, page: nat, active: nat, obsolete: nat)
    requires Tiled(t, b) && Counted(t, SectorStart(sector), page, active, obsolete)
    requires page >= SectorStart(sector) + PAGES_PER_SECTOR
    requires a in t && a < SectorStart(sector) + PAGES_PER_SECTOR && End(t, a) == page && t[a].kind != Free
    ensures var used := t[a].kind == Active;
            && (used ==> obsolete <= PAGES_PER_SECTOR) && (!used ==> active <= PAGES_PER_SECTOR)
            && Counts(t, sector, if used then Status(PAGES_PER_SECTOR - obsolete, obsolete, 0) else Status(active,
                   PAGES_PER_SECTOR - active, 0))
  {
    var lo, hi := SectorStart(sector), SectorStart(sector) + PAGES_PER_SECTOR;
    ExtentPages(t, a);
    var u := UseOf(t[a].kind);
    CountRun(t, b, hi, page, u, InUse);
    CountRun(t, b, hi, page, u, Garbage);
    CountRun(t, b, hi, page, u, Spare);
    CountSplit(t, lo, hi, page, InUse);
    CountSplit(t, lo, hi, page, Garbage);
    CountSplit(t, lo, hi, page, Spare);
  }

  /** A sector that is covered by what was carried into it. */
  lemma CoveredCounts(t: Extents, b: Bytes, sector: nat, skip: nat, active: bool)
    requires Tiled(t, b) && Carried(t, sector, skip, active) && skip >= PAGES_PER_SECTOR
    ensures Counts(t, sector, if active then Status(PAGES_PER_SECTOR, 0, 0) else Status(0, PAGES_PER_SECTOR, 0))
    ensures Crossing(t, SectorStart(sector + 1), skip - PAGES_PER_SECTOR, active)
  {
    var lo, hi := SectorStart(sector), SectorStart(sector) + PAGES_PER_SECTOR;
    SectorStep(sector);
    PagesBound();
    CountRun(t, b, lo, hi, UseFlag(active), InUse);
    CountRun(t, b, lo, hi, UseFlag(active), Garbage);
    CountRun(t, b, lo, hi, UseFlag(active), Spare);
    var a :| a in t && a <= lo && End(t, a) == lo + skip;
    assert Page(t, lo, UseFlag(active));
    assert Page(t, lo, UseOf(t[a].kind));
    OneUse(t, b, lo, UseFlag(active), UseOf(t[a].kind));
  }

  /** Pages of an extent in use count as such: a sector crossed by one has active pages. */
  lemma CrossedIsActive(t: Extents, b: Bytes, sector: nat, skip: nat, st: Status)
    requires Tiled(t, b) && sector < SECTOR_COUNT && Counts(t, sector, st) && skip > 0
    requires Crossing(t, SectorStart(sector + 1), skip, true)
    ensures st.active > 0
  {
    SectorStep(sector);
    PagesBound();
    var p: nat := SectorStart(sector + 1) - 1;
    var a :| a in t && a < SectorStart(sector + 1) && End(t, a) == SectorStart(sector + 1) + skip
             && t[a].kind == Active;
    assert Page(t, p, InUse);
    if st.active == 0 {
      CountZero(t, SectorStart(sector), SectorStart(sector) + PAGES_PER_SECTOR, InUse, p);
    }
  }
}
