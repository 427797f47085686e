/** The pages of the device: counting them, collecting garbage, and allocating extents. */
module CoffeeStore {
  import opened Words
  import opened CoffeeConfig
  import opened FlashBytes
  import opened FlashDevice
  import opened Extents
  import opened Sectors
  import opened Collector
  import opened Sweeping
  import opened Allocation
  import opened Reserving
  import opened MicroLog
  import opened FileContent
  import opened FileSystem

  class Store {
    const flash: Flash
    var nextFree: nat
    var gcWait: bool

    /** Set when collection has left `nextFree` at a page that the header walk does not come
        to. The model then allocates nothing more. */
    var lost: bool

    var skipPages: nat
    var lastPagesAreActive: bool

    ghost var extents: Extents

    /** A formatted device. */
    constructor ()
      ensures StoreOk() && !lost && fresh(flash) && (SECTOR_COUNT == 1 ==> Filling()) && nextFree == 0
      ensures forall a :: a in extents ==> extents[a].kind == Free
    {
      flash := new Flash();
      nextFree, gcWait, lost, skipPages, lastPagesAreActive := 0, false, false, 0, false;
      extents := FreeSectors(SECTOR_COUNT);
      FormattedTiled();
      FormattedFills();
    }

    // ----- Counting pages -----

    /** The cases of a header that is not free. */
    method CountHeader(h: Header, page0: nat, active0: nat, obsolete0: nat)
      returns (page: int, active: int, obsolete: int)
      ensures (page, active, obsolete) == Tally(h, page0, active0, obsolete0)
    {
      page, active, obsolete := page0, active0, obsolete0;
      if h.Active() {
        page := page + h.maxPages;
        active := active + h.maxPages;
      } else if h.isolated {
        page := page + 1;
        obsolete := obsolete + 1;
      } else if h.obsolete {
        page := page + h.maxPages;
        obsolete := obsolete + h.maxPages;
      }
    }

    /** The loop of `get_sector_status`: extents are counted from the first page not carried
        over. The free rest of the sector, if any, ends it. */
    method CountExtents(sector: nat, active0: nat, obsolete0: nat) returns (active: nat, obsolete: nat, free: nat)
      requires Tiled(extents, flash.bytes) && sector < SECTOR_COUNT
      requires Carried(extents, sector, skipPages, lastPagesAreActive) && skipPages < PAGES_PER_SECTOR
      requires Counted(extents, SectorStart(sector), SectorStart(sector) + skipPages, active0, obsolete0)
      modifies `lastPagesAreActive
      ensures Sized(extents, sector, active, obsolete, free, lastPagesAreActive)
    {
      ghost var t, b := extents, flash.bytes;
      active, obsolete, free := active0, obsolete0, 0;
      var start := SectorStart(sector);
      var end := start + PAGES_PER_SECTOR;
      var page: nat := start + skipPages;
      ghost var last: nat := page;
      SectorsInside(sector);
      while page < end
        invariant Counting(t, sector, skipPages, page, active, obsolete, last, lastPagesAreActive) && free == 0
        decreases PAGE_COUNT - page
      {
        var h := flash.ReadHeader(page);
        TallyHeader(t, b, sector, skipPages, page, active, obsolete, last, lastPagesAreActive, h);
        last := page;
        lastPagesAreActive := false;
        if h.Free() {
          free := end - page;
          break;
        }
        lastPagesAreActive := h.Active();
        page, active, obsolete := CountHeader(h, page, active, obsolete);
      }
      if free == 0 {
        TallyOver(t, b, sector, skipPages, page, active, obsolete, last, lastPagesAreActive);
      }
    }

    /** The counts of a sector that is not covered by what was carried into it; pages of the
        next one are not counted, but remembered. */
    method CountSector(sector: nat) returns (stats: Status)
      requires Tiled(extents, flash.bytes) && sector < SECTOR_COUNT
      requires Carried(extents, sector, skipPages, lastPagesAreActive) && skipPages < PAGES_PER_SECTOR
      modifies `skipPages, `lastPagesAreActive
      ensures Counts(extents, sector, stats)
      ensures Crossing(extents, SectorStart(sector + 1), skipPages, lastPagesAreActive)
    {
      CountedCarried(extents, flash.bytes, sector, skipPages, lastPagesAreActive);
      var active := if lastPagesAreActive then skipPages else 0;
      var obsolete := if lastPagesAreActive then 0 else skipPages;
      var free;
      active, obsolete, free := CountExtents(sector, active, obsolete);
      skipPages := active + obsolete + free - PAGES_PER_SECTOR;
      if skipPages > 0 {
        if lastPagesAreActive {
          active := PAGES_PER_SECTOR - obsolete;
        } else {
          obsolete := PAGES_PER_SECTOR - active;
        }
      }
      stats := Status(active, obsolete, free);
    }

    /** `get_sector_status`: the counts of a sector, from what was carried over from the ones
        before it; and how many pages of the next sector must be set aside if this one is
        erased. */
    method GetSectorStatus(sector: nat) returns (isolate: nat, stats: Status)
      requires Tiled(extents, flash.bytes) && sector < SECTOR_COUNT
      requires if sector == 0 then NoHeadless(extents) else Carried(extents, sector, skipPages, lastPagesAreActive)
      modifies `skipPages, `lastPagesAreActive
      ensures Counts(extents, sector, stats)
      ensures Crossing(extents, SectorStart(sector + 1), skipPages, lastPagesAreActive)
      ensures isolate == if lastPagesAreActive || skipPages >= PAGES_PER_SECTOR then 0 else skipPages
      ensures isolate > 0 ==> EndsInside(extents, SectorStart(sector + 1), isolate)
      ensures isolate == 0 ==> NoneEndsInside(extents, SectorStart(sector + 1))
    {
      if sector == 0 {
        skipPages := 0;
        lastPagesAreActive := false;
        SectorStep(0);
      }
      if skipPages >= PAGES_PER_SECTOR {
        CoveredCounts(extents, flash.bytes, sector, skipPages, lastPagesAreActive);
        stats := if lastPagesAreActive then Status(PAGES_PER_SECTOR, 0, 0) else Status(0, PAGES_PER_SECTOR, 0);
        skipPages := skipPages - PAGES_PER_SECTOR;
        isolate := if lastPagesAreActive || skipPages >= PAGES_PER_SECTOR then 0 else skipPages;
      } else {
        stats := CountSector(sector);
        isolate := if lastPagesAreActive || skipPages >= PAGES_PER_SECTOR then 0 else skipPages;
      }
      OneCrossing(extents, flash.bytes, SectorStart(sector + 1), skipPages, lastPagesAreActive);
    }

    // ----- Garbage collection -----

    /** `isolate_pages` */
    method IsolatePages(start: nat, count: nat)
      requires |flash.bytes| == FLASH_SIZE && start + count <= PAGE_COUNT
      modifies flash
      ensures SameOutside(old(flash.bytes), flash.bytes, start, start + count)
      ensures IsolatedPages(flash.bytes, start, start + count)
    {
      var h := ZeroHeader().(inUse := true, isolated := true);
      for page := 0 to count
        invariant SameOutside(old(flash.bytes), flash.bytes, start, start + page)
        invariant IsolatedPages(flash.bytes, start, start + page)
      {
        ghost var b1 := flash.bytes;
        flash.WriteHeader(h, start + page);
        IsolateOne(old(flash.bytes), b1, flash.bytes, start, start + page, h.(valid := true));
      }
    }

    /** A sector without active pages is erased; what reaches into the next one is set aside
        if it ends there. */
    method EraseSector(sector: nat, isolate: nat, ghost st: Status)
      requires Tiled(extents, flash.bytes) && sector < SECTOR_COUNT && OnlyHeadless(extents, SectorStart(sector))
      requires Counts(extents, sector, st) && st.active == 0
      requires Crossing(extents, SectorStart(sector + 1), skipPages, lastPagesAreActive)
      requires isolate == if lastPagesAreActive || skipPages >= PAGES_PER_SECTOR then 0 else skipPages
      modifies `extents, flash
      ensures Between(extents, flash.bytes, sector + 1, skipPages, lastPagesAreActive)
      ensures ActiveKept(old(extents), old(flash.bytes), extents, flash.bytes)
      ensures SameBelow(old(extents), extents, SectorStart(sector))
      ensures SameAhead(old(extents), extents, sector + 1)
      ensures Swept(old(flash.bytes), flash.bytes, SectorStart(sector), SectorStart(sector + 1),
                    SectorStart(sector + 1) + isolate)
    {
      ghost var b := flash.bytes;
      SectorStep(sector);
      if skipPages > 0 && lastPagesAreActive { CrossedIsActive(extents, b, sector, skipPages, st); }
      var first := SectorStart(sector);
      if isolate > 0 {
        IsolatePages(first + PAGES_PER_SECTOR, isolate);
      }
      SweptIs(b, flash.bytes, sector, SectorStart(sector + 1) + isolate);
      flash.Erase(sector);
      extents := SweepStep(extents, b, flash.bytes, sector, skipPages, lastPagesAreActive, st);
    }

    /** `collect_garbage`: every sector that can be erased is, up to one where a reluctant collection
        stops; nothing else changes but pages set aside. Extents in use stay as they are, with
        all their bytes, and headers tell of all extents again. Allocation can go on from an
        extent exactly when the first sector erased is not covered from before, or lies behind
        the place. */
    method CollectGarbage(mode: Mode)
      requires Tiled(extents, flash.bytes) && NoHeadless(extents) && Boundary(extents, nextFree)
      modifies `skipPages, `lastPagesAreActive, `nextFree, `extents, flash
      ensures Tiled(extents, flash.bytes) && NoHeadless(extents)
      ensures Collected(old(extents), old(flash.bytes), flash.bytes, mode)
      ensures ActiveKept(old(extents), old(flash.bytes), extents, flash.bytes)
      ensures Lowered(old(extents), extents, old(nextFree), nextFree, mode)
      ensures BlankThere(flash.bytes, old(nextFree), nextFree)
      ensures Boundary(extents, nextFree) <==> KeepsWalk(old(extents), old(nextFree), mode)
    {
      ghost var t0, b0, n0, first := extents, flash.bytes, nextFree, -1;
      var sector := 0;
      PagesBound();
      StartCollection(t0, b0, mode);
      while sector < SECTOR_COUNT
        invariant sector <= SECTOR_COUNT && Between(extents, flash.bytes, sector, skipPages, lastPagesAreActive)
        invariant Underway(t0, b0, extents, flash.bytes, mode, sector)
        invariant sector > 0 ==> !StopsAt(t0, mode, sector - 1)
        invariant ActiveKept(t0, b0, extents, flash.bytes)
        invariant Progress(t0, extents, n0, nextFree, mode, sector, first)
      {
        var done;
        done, first := CollectSector(mode, sector, t0, b0, n0, first);
        sector := sector + 1;
        if done {
          break;
        }
      }
      if sector > 0 && (0 < skipPages < PAGES_PER_SECTOR || sector == SECTOR_COUNT) {
        NoneLeft(extents, flash.bytes, sector, skipPages, lastPagesAreActive);
      }
      assert GoesThrough(t0, mode, sector);
      ProgressDone(t0, extents, n0, nextFree, mode, sector, first);
      LoweredOnWalk(t0, extents, n0, nextFree, mode);
      BlankAfter(t0, b0, extents, flash.bytes, n0, nextFree, mode);
    }

    /** One round of the loop of `collect_garbage`. */
    method CollectSector(mode: Mode, sector: nat, ghost t0: Extents, ghost b0: Bytes, ghost n0: nat, ghost first0: int)
      returns (done: bool, ghost first: int)
      requires sector < SECTOR_COUNT && Between(extents, flash.bytes, sector, skipPages, lastPagesAreActive)
      requires ActiveKept(t0, b0, extents, flash.bytes) && Progress(t0, extents, n0, nextFree, mode, sector, first0)
      requires Underway(t0, b0, extents, flash.bytes, mode, sector) && (sector > 0 ==> !StopsAt(t0, mode, sector - 1))
      modifies `skipPages, `lastPagesAreActive, `nextFree, `extents, flash
      ensures Between(extents, flash.bytes, sector + 1, skipPages, lastPagesAreActive)
      ensures ActiveKept(t0, b0, extents, flash.bytes) && Progress(t0, extents, n0, nextFree, mode, sector + 1, first)
      ensures Underway(t0, b0, extents, flash.bytes, mode, sector + 1) && (done <==> StopsAt(t0, mode, sector))
      ensures done ==> 0 < skipPages < PAGES_PER_SECTOR && first >= 0
    {
      done, first := false, first0;
      ghost var skip0, active0 := skipPages, lastPagesAreActive;
      var isolate, stats := GetSectorStatus(sector);
      KeepProgress(t0, extents, n0, nextFree, mode, sector, first0, stats);
      if stats.active == 0 && ((mode == Reluctant && stats.free == 0) || (mode == Greedy && stats.obsolete > 0)) {
        first := SweepSector(mode, sector, isolate, stats, t0, b0, n0, first0);
        done := mode == Reluctant && isolate > 0;
      } else {
        KeepStep(extents, flash.bytes, sector, skip0, active0, skipPages, lastPagesAreActive, stats);
        SectorKept(t0, b0, extents, flash.bytes, mode, sector);
      }
    }

    /** Allocation goes on no later than at the sector, which is then erased. */
    method SweepSector(mode: Mode, sector: nat, isolate: nat, stats: Status, ghost t0: Extents, ghost b0: Bytes,
                       ghost n0: nat, ghost first0: int)
      returns (ghost first: int)
      requires Tiled(extents, flash.bytes) && sector < SECTOR_COUNT && OnlyHeadless(extents, SectorStart(sector))
      requires Counts(extents, sector, stats) && Erasable(extents, sector, mode)
      requires Crossing(extents, SectorStart(sector + 1), skipPages, lastPagesAreActive)
      requires isolate == if lastPagesAreActive || skipPages >= PAGES_PER_SECTOR then 0 else skipPages
      requires ActiveKept(t0, b0, extents, flash.bytes) && Progress(t0, extents, n0, nextFree, mode, sector, first0)
      requires CutOff(extents, SectorStart(sector + 1), isolate)
      requires Underway(t0, b0, extents, flash.bytes, mode, sector) && (sector > 0 ==> !StopsAt(t0, mode, sector - 1))
      modifies `nextFree, `extents, flash
      ensures Between(extents, flash.bytes, sector + 1, skipPages, lastPagesAreActive)
      ensures ActiveKept(t0, b0, extents, flash.bytes) && Progress(t0, extents, n0, nextFree, mode, sector + 1, first)
      ensures first >= 0
      ensures Underway(t0, b0, extents, flash.bytes, mode, sector + 1)
      ensures StopsAt(t0, mode, sector) <==> mode == Reluctant && isolate > 0
    {
      ghost var t, b := extents, flash.bytes;
      var firstPage := SectorStart(sector);
      if firstPage < nextFree {
        nextFree := firstPage;
      }
      EraseSector(sector, isolate, stats);
      SectorErased(t0, b0, t, b, extents, flash.bytes, mode, sector, isolate);
      first := EraseProgress(t0, b0, t, b, extents, flash.bytes, n0, old(nextFree), mode, sector, first0);
    }

    // ----- Allocation -----

    ghost function Snap(): Space
      reads this, flash
    {
      Space(extents, flash.bytes, nextFree, gcWait, lost)
    }

    ghost predicate StoreOk()
      reads this, flash
    {
      Tiled(extents, flash.bytes) && NoHeadless(extents) && (!lost ==> Boundary(extents, nextFree))
    }

    /** On a device of one sector all pages from the place on where allocation goes on are free,
        and nothing can be collected. */
    ghost predicate Filling()
      reads this
    {
      SECTOR_COUNT == 1 && !lost && FreeBehind() && Standing(extents)
    }

    ghost predicate FreeBehind()
      reads this
    {
      FreeFrom(extents, nextFree)
    }

    /** `find_contiguous_pages`: the first place from `nextFree` on that has enough free
        pages, found by skipping over whole extents and free rests of sectors. */
    method FindContiguousPages(amount: nat) returns (start: int)
      requires StoreOk() && !lost && amount > 0
      modifies `nextFree
      ensures start < 0 ==> NoneFits(extents, old(nextFree), amount) && nextFree == old(nextFree)
      ensures start >= 0 ==> FirstFit(extents, old(nextFree), start, amount)
      ensures start == SearchFrom(flash.bytes, old(nextFree), -1, amount)
      ensures start >= 0 ==> nextFree == if start == old(nextFree) then start + amount else old(nextFree)
    {
      start := -1;
      var page := nextFree;
      assert page in extents ==> ExtentOk(extents, flash.bytes, page);
      while page < PAGE_COUNT
        invariant nextFree == old(nextFree) && Searched(extents, nextFree, page, start, amount)
        invariant start >= -1
        invariant SearchFrom(flash.bytes, nextFree, -1, amount) == SearchFrom(flash.bytes, page, start, amount)
        decreases PAGE_COUNT - page
      {
        ghost var start0 := start;
        var h := flash.ReadHeader(page);
        NextFileIs(extents, flash.bytes, page);
        if h.Free() {
          if start < 0 {
            start := page;
            if start + amount >= PAGE_COUNT {
              SearchEnds(extents, nextFree, page, -1, amount);
              return -1;
            }
          }
          SearchFree(extents, flash.bytes, nextFree, page, start0, start, amount);
          page := NextFile(page, h);
          if start + amount <= page {
            if start == nextFree {
              nextFree := start + amount;
            }
            return;
          }
        } else {
          SearchTaken(extents, flash.bytes, nextFree, page, start, amount);
          start := -1;
          page := NextFile(page, h);
        }
      }
      SearchEnds(extents, nextFree, page, start, amount);
      start := -1;
    }

    /** Whether the header walk comes to a page, or the page is the end of the device. */
    method OnWalk(p: nat) returns (found: bool)
      requires Tiled(extents, flash.bytes) && NoHeadless(extents)
      ensures found <==> Boundary(extents, p)
    {
      var page := 0;
      while page < PAGE_COUNT && page != p
        invariant Boundary(extents, page) && page <= PAGE_COUNT
        invariant forall a :: a in extents && a < page ==> a != p
        decreases PAGE_COUNT - page
      {
        NextFileIs(extents, flash.bytes, page);
        assert ExtentOk(extents, flash.bytes, page);
        ghost var last := page;
        page := NextFile(page, HeaderAt(flash.bytes, page));
        forall a | a in extents && a < page ensures a != p {
          if a > last { NoneInside(extents, flash.bytes, last, a); }
        }
      }
      assert p in extents ==> ExtentOk(extents, flash.bytes, p);
      found := page == p;
    }

    /** Garbage is collected, after which allocation may be lost. */
    method CollectOnce()
      requires StoreOk() && !lost
      modifies this, flash
      ensures StoreOk() && gcWait == old(gcWait) && Recollected(old(Snap()), Snap())
      ensures ActiveKept(old(extents), old(flash.bytes), extents, flash.bytes)
      ensures old(Standing(extents)) ==> extents == old(extents) && !lost && nextFree == old(nextFree)
    {
      CollectGarbage(Greedy);
      var found := OnWalk(nextFree);
      lost := !found;
    }

    /** The search of `reserve`: if nothing fits, garbage is collected, unless that was of no
        use the last time. */
    method FindPages(amount: nat) returns (page: int, ghost c: Space)
      requires StoreOk() && !lost && amount > 0
      modifies this, flash
      ensures Tiled(extents, flash.bytes) && NoHeadless(extents) && (page < 0 ==> StoreOk())
      ensures ActiveKept(old(extents), old(flash.bytes), extents, flash.bytes)
      ensures page < 0 ==> Refused(old(Snap()), Snap(), amount)
      ensures page >= 0 ==>
                && WithRoom(old(Snap()), c, amount) && FirstFit(extents, c.next, page, amount)
                && Boundary(extents, c.next)
                && c == Snap().(next := c.next) && nextFree == if page == c.next then page + amount else c.next
      ensures old(Filling()) ==>
                && extents == old(extents) && !lost && FillStep(old(nextFree), nextFree, amount, page >= 0)
                && (page >= 0 ==> page == old(nextFree))
    {
      AllKept(extents, flash.bytes);
      if Filling() { FreeFits(extents, nextFree, amount); }
      c := Snap();
      page := FindContiguousPages(amount);
      if page < 0 && !gcWait {
        CollectOnce();
        if lost {
          return;
        }
        c := Snap();
        page := FindContiguousPages(amount);
        if page < 0 {
          gcWait := true;
        }
      }
    }

    /** The rest of `reserve`, up to the cache: the header is written at the place found. */
    method Allocate(h: Header, amount: nat) returns (page: int)
      requires StoreOk() && !lost && amount > 0 && h.Fits() && h.valid && h.Active() && h.maxPages == amount
      modifies this, flash
      ensures StoreOk() && (page >= 0 ==> !lost)
      ensures page < 0 ==>
                ActiveKept(old(extents), old(flash.bytes), extents, flash.bytes) && Refused(old(Snap()), Snap(), amount)
      ensures page >= 0 ==> NewExtent(old(extents), old(flash.bytes), extents, flash.bytes, page, amount, h)
      ensures page >= 0 ==> Granted(old(Snap()), Snap(), page, amount, h)
      ensures !NoneFits(old(extents), old(nextFree), amount) ==> page >= 0
      ensures old(Filling()) ==> Filling() && FillStep(old(nextFree), nextFree, amount, page >= 0)
    {
      ghost var c;
      page, c := FindPages(amount);
      if page >= 0 {
        ghost var t, b := extents, flash.bytes;
        TakenBoundaries(t, b, page, amount);
        flash.WriteHeader(h, page);
        TakenTiled(t, b, flash.bytes, page, amount, h);
        TakenKept(t, b, flash.bytes, page, amount, h);
        if old(Filling()) {
          FreeTaken(t, b, page, amount);
          OneStanding(Taken(t, page, amount), flash.bytes, page);
        }
        extents := Taken(t, page, amount);
        NewAfterKept(old(extents), old(flash.bytes), t, b, extents, flash.bytes, page, amount, h);
        assert GivenOut(c, Snap(), page, amount, h);
      }
    }

    /** The flash part of `remove_by_page`. */
    method MarkPage(page: nat, h: Header)
      requires StoreOk() && IsActive(extents, page) && h == HeaderAt(flash.bytes, page)
      modifies `gcWait, `extents, flash
      ensures old(FreeBehind()) ==> FreeBehind()
      ensures StoreOk() && MarkedObsolete(old(extents), old(flash.bytes), flash.bytes, page)
      ensures extents == Obsoleted(old(extents), page) && Tiled(old(extents), old(flash.bytes))
      ensures Snap() == old(Snap()).(extents := extents, bytes := flash.bytes, waiting := false)
    {
      DecodeFits(flash.bytes, Offset(page));
      ExtentHeader(extents, flash.bytes, page);
      ghost var b := flash.bytes;
      flash.WriteHeader(h.(obsolete := true), page);
      RemovedExtent(extents, b, flash.bytes, page);
      if FreeBehind() { ObsoletedFills(extents, page, nextFree); }
      extents := Obsoleted(extents, page);
      gcWait := false;
    }
  }
}
