/** Calls that go wrong: a store and a call for each, from a formatted device on. */
module FileFailures {
  import opened Words
  import opened CoffeeConfig
  import opened FlashBytes
  import opened Extents
  import opened Collector
  import opened Allocation
  import opened MicroLog
  import opened FileContent
  import opened FileSystem
  import opened FileCache
  import opened FileWrites
  import C = Coffee

  /** There is room where allocation goes on. */
  lemma HasRoom(c: C.Coffee, pages: nat)
    requires c.store.Filling() && c.store.nextFree + pages < PAGE_COUNT && pages > 0
    ensures c.RoomFor(pages)
  {
    FreeFits(c.T(), c.store.nextFree, pages);
  }

  /** A slot that no descriptor refers to. */
  lemma SlotFree(c: C.Coffee, s: int)
    requires c.Core() && 0 <= s < |c.files| && forall k :: 0 <= k < |c.fds| ==> !c.fds[k].On(s)
    ensures SlotAvailable(c.files)
  {
    RefNone(c.fds, s);
  }

  // ----- A cache that is full -----

  /** A file is made and closed. */
  method MakeFile(c: C.Coffee, name: Bytes) returns (ghost page: nat)
    requires c.Valid() && c.store.Filling() && c.store.nextFree == 0 && PageCount(DYN_SIZE) < PAGE_COUNT
    requires |name| == NAME_LENGTH && SlotAvailable(c.files) && forall k :: 0 <= k < |c.fds| ==> !c.fds[k].Open()
    requires Unnamed(c.T(), c.B(), name)
    modifies c, c.store, c.store.flash
    ensures c.Valid() && c.store.Filling() && c.store.nextFree == PageCount(DYN_SIZE)
    ensures SlotAvailable(c.files) && (forall k :: 0 <= k < |c.fds| ==> !c.fds[k].Open())
    ensures HasName(c.T(), c.B(), page, name)
  {
    PageCountIs(DYN_SIZE);
    HasRoom(c, PageCount(DYN_SIZE));
    assert !c.fds[0].Open();
    var fd;
    ghost var leak;
    fd, leak := c.CfsOpen(name, true, true, false);
    page := c.files[c.fds[fd].file].page;
    c.CfsClose(fd);
    SlotFree(c, 0);
  }

  /** Another file is opened, and stays open, on the only slot. */
  method OccupySlot(c: C.Coffee, name: Bytes, ghost other: Bytes, ghost page: nat) returns (fd: int)
    requires c.Valid() && c.store.Filling() && c.store.nextFree == PageCount(DYN_SIZE)
    requires 2 * PageCount(DYN_SIZE) < PAGE_COUNT
    requires |name| == NAME_LENGTH && SlotAvailable(c.files) && forall k :: 0 <= k < |c.fds| ==> !c.fds[k].Open()
    requires MAX_OPEN_FILES == 1 && FD_SET_SIZE >= 2 && other != name && HasName(c.T(), c.B(), page, other)
    modifies c, c.store, c.store.flash
    ensures c.Valid() && c.store.Filling() && c.store.nextFree <= 2 * PageCount(DYN_SIZE)
    ensures !SlotAvailable(c.files) && !c.AllOpen() && !c.InCache(other) && HasName(c.T(), c.B(), page, other)
  {
    PageCountIs(DYN_SIZE);
    HasRoom(c, PageCount(DYN_SIZE));
    assert !c.fds[0].Open() && !c.fds[1].Open();
    ghost var t, b := c.T(), c.B();
    ghost var leak;
    fd, leak := c.CfsOpen(name, true, true, false);
    assert c.fds[fd].On(0);
    RefNone(c.fds, 0);
    assert !c.fds[if fd == 0 then 1 else 0].Open();
    assert Unnamed(t, b, name) ==> Other(t, b, c.T(), c.B(), page);
    forall i: int ensures !c.SlotNamed(i, other) { }
  }

  /** With one slot and two descriptors: while another file is open, a file that is there is
      not found, and opening it for writing makes a second one of the same name. */
  method FullCache(name: Bytes, other: Bytes) returns (c: C.Coffee, fd: int, ghost page: nat, ghost twin: nat)
    requires MAX_OPEN_FILES == 1 && FD_SET_SIZE >= 2 && SECTOR_COUNT == 1 && 3 * PageCount(DYN_SIZE) < PAGE_COUNT
    requires |name| == |other| == NAME_LENGTH && name != other
    ensures fd == -1 && c.Core() && !c.Valid() && page != twin
    ensures HasName(c.T(), c.B(), page, name) && HasName(c.T(), c.B(), twin, name)
  {
    c := new C.Coffee();
    page := MakeFile(c, name);
    var fd0 := OccupySlot(c, other, name, page);
    ghost var t, b := c.T(), c.B();
    PageCountIs(DYN_SIZE);
    HasRoom(c, PageCount(DYN_SIZE));
    ghost var leak;
    fd, leak := c.CfsOpen(name, true, true, false);
    twin := leak;
    assert Other(t, b, c.T(), c.B(), page);
  }

  /** Sixteen pages of 256 bytes, files of three pages, two descriptors and one slot. */
  lemma OneSlotExample()
    requires G == Geometry(256, 4, 1, 16, 2, 1, 512)
    ensures MAX_OPEN_FILES == 1 && FD_SET_SIZE == 2 && SECTOR_COUNT == 1 && 3 * PageCount(DYN_SIZE) < PAGE_COUNT
  {
    SixteenPages();
    QuotientUnique(793, 256, 3, 25);
    TimesIs(3, 256);
  }

  lemma SixteenPages()
    requires G.sectorBits == 4 && G.sectors == 1
    ensures PAGE_COUNT == 16
  {
    assert Pow2(4) == 16;
    TimesIs(1, 16);
  }

  // ----- A write that loses a byte -----

  /** The records of a log that a new file is given. */
  const LOG_RECORDS: nat := Quotient(LOG_SIZE, PAGE_BYTES)

  /** The pages of such a log. */
  const LOG_PAGES: nat := PageCount(2 * LOG_RECORDS + Times(LOG_RECORDS, PAGE_SIZE))

  /** The numbers of a new file of which a byte has been written. */
  function NewLedger(): Ledger {
    Ledger(PAGE_BYTES, LOG_RECORDS, LOG_PAGES, PageCount(DYN_SIZE), false, 0, PageCount(DYN_SIZE))
  }

  lemma {:induction false} LogUsedUp(m: nat, l: Ledger)
    requires l.logged && 0 <= l.unused <= m
    ensures Foretell(m, l) == Foretell(m - l.unused, l.(unused := 0))
    decreases m
  {
    if l.unused > 0 { LogUsedUp(m - 1, l.(unused := l.unused - 1)); }
  }

  /** A log is made and filled, the file is merged with it, and then there is no room for
      another. */
  lemma OneMissing()
    requires LOG_RECORDS > 0 && 2 * PageCount(DYN_SIZE) + LOG_PAGES + 1 == PAGE_COUNT
    ensures var r := Foretell(LOG_RECORDS + 1, NewLedger()); r.0 == 1 && !r.1.logged && r.1.size == PAGE_BYTES
  {
    PageCountIs(2 * LOG_RECORDS + Times(LOG_RECORDS, PAGE_SIZE));
    PageCountIs(DYN_SIZE);
    var l := Round(NewLedger()).1;
    LogUsedUp(LOG_RECORDS, l);
    var l1 := l.(unused := 0);
    assert Round(l1).0 == Merges;
    assert Round(Round(l1).1).0 == Fails;
  }

  /** Dimensions for which a new file, a log and a merged file leave one page. */
  ghost predicate Tight() {
    && SECTOR_COUNT == 1 && MAX_OPEN_FILES >= 2 && FD_SET_SIZE >= 2
    && 2 * PageCount(DYN_SIZE) + LOG_PAGES + 1 == PAGE_COUNT && LOG_RECORDS > 0
    && Times(LOG_RECORDS, PAGE_SIZE) + 1 <= Capacity(PageCount(DYN_SIZE))
    && Times(LOG_RECORDS, PAGE_SIZE) + 1 < 0x1_0000
  }

  /** Sixteen pages of 256 bytes, files of six pages, and logs of two records in three. */
  lemma TightExample()
    requires G == Geometry(256, 4, 1, 16, 8, 6, 1280) && LOGS == LogDims(512, 256)
    ensures Tight()
  {
    SixteenPages();
    TimesIs(6, 256);
    TimesIs(2, 256);
    TimesIs(3, 256);
    QuotientUnique(512, 256, 2, 0);
    QuotientUnique(1561, 256, 6, 25);
    QuotientUnique(797, 256, 3, 29);
    CapacityIs(6);
  }

  /** One descriptor is open. */
  ghost predicate OnlyOpen(c: C.Coffee, fd: int)
    reads c
  {
    0 <= fd < |c.fds| && forall k :: 0 <= k < |c.fds| ==> (c.fds[k].Open() <==> k == fd)
  }

  lemma OneOpen(c: C.Coffee, fd: int)
    requires c.Core() && OnlyOpen(c, fd) && Tight()
    ensures SlotAvailable(c.files) && !c.AllOpen()
  {
    var s := if c.fds[fd].file == 0 then 1 else 0;
    SlotFree(c, s);
    assert !c.fds[if fd == 0 then 1 else 0].Open();
  }

  method EmptyFile(c: C.Coffee, name: Bytes) returns (fd: int)
    requires c.Valid() && c.store.Filling() && c.store.nextFree == 0 && Tight()
    requires |name| == NAME_LENGTH && SlotAvailable(c.files) && forall k :: 0 <= k < |c.fds| ==> !c.fds[k].Open()
    requires Unnamed(c.T(), c.B(), name)
    modifies c, c.store, c.store.flash
    ensures c.Valid() && c.store.Filling() && OnlyOpen(c, fd) && c.FdValid(fd) && c.fds[fd].write
    ensures c.fds[fd].offset == 0
    ensures 0 <= c.fds[fd].file < |c.files| && c.files[c.fds[fd].file].end == 0 && !c.files[c.fds[fd].file].modified
    ensures c.LedgerOf(c.fds[fd].file) == NewLedger() && c.Contained(fd, 1)
  {
    PageCountIs(DYN_SIZE);
    HasRoom(c, PageCount(DYN_SIZE));
    assert !c.fds[0].Open();
    ghost var leak;
    fd, leak := c.CfsOpen(name, true, true, false);
    NewNumbers(c, fd, name);
    CapacityIs(PageCount(DYN_SIZE));
  }

  /** A new file with one byte, and the descriptor back at its start. */
  method ShortFile(c: C.Coffee, name: Bytes) returns (fd: int)
    requires c.Valid() && c.store.Filling() && c.store.nextFree == 0 && Tight()
    requires |name| == NAME_LENGTH && SlotAvailable(c.files) && forall k :: 0 <= k < |c.fds| ==> !c.fds[k].Open()
    requires Unnamed(c.T(), c.B(), name)
    modifies c, c.store, c.store.flash
    ensures c.Valid() && c.store.Filling() && OnlyOpen(c, fd) && c.FdValid(fd) && c.fds[fd].write
    ensures c.fds[fd].offset == 0
    ensures 0 <= c.fds[fd].file < |c.files| && c.files[c.fds[fd].file].end == 1
    ensures c.LedgerOf(c.fds[fd].file) == NewLedger()
  {
    fd := EmptyFile(c, name);
    ghost var leak, d;
    var r, done;
    r, done, d, leak := c.CfsWrite(fd, [1], 0);
    r := c.CfsSeek(fd, 0, C.FromStart);
  }

  lemma NewNumbers(c: C.Coffee, fd: int, name: Bytes)
    requires Tight() && 0 <= fd < |c.fds| && 0 <= c.fds[fd].file < |c.files| && c.store.nextFree == PageCount(DYN_SIZE)
    requires var s := c.fds[fd].file;
             && HeaderAt(c.B(), PageOf(c.files, s)) == c.NewHeader(name, LenOf(c.files, s), false)
             && LenOf(c.files, s) == PageCount(DYN_SIZE)
    ensures c.LedgerOf(c.fds[fd].file) == NewLedger()
  {
  }

  /** A write whose last byte is lost, although all of the size is returned: all but one byte
      has gone to the log, the file is merged with it, there is no room for another log, and
      the dummy byte goes to the extent. */
  method PartialWrite(name: Bytes, buf: Bytes) returns (c: C.Coffee, fd: int, r: int, ghost d: Bytes)
    requires Tight() && |name| == NAME_LENGTH && |buf| == Times(LOG_RECORDS, PAGE_SIZE) + 1 && buf[|buf| - 2] != DUMMY
    ensures c.Valid() && r == |buf| && d == buf[..|buf| - 2] + [DUMMY] && d != buf[..|buf| - 1]
    ensures c.FdValid(fd) && 0 <= c.fds[fd].file < |c.files| && DataOf(c.Now(), c.fds[fd].file) == d
  {
    c := new C.Coffee();
    fd := ShortFile(c, name);
    OneOpen(c, fd);
    r, d := LoseByte(c, fd, buf);
  }

  method LoseByte(c: C.Coffee, fd: int, buf: Bytes) returns (r: int, ghost d: Bytes)
    requires c.Valid() && c.Predictable() && c.FdValid(fd) && c.fds[fd].write && c.fds[fd].offset == 0
    requires 0 <= c.fds[fd].file < |c.files| && c.files[c.fds[fd].file].end == 1
    requires c.LedgerOf(c.fds[fd].file) == NewLedger()
    requires Tight() && |buf| == Times(LOG_RECORDS, PAGE_SIZE) + 1 && buf[|buf| - 2] != DUMMY
    modifies c, c.store, c.store.flash
    ensures c.Valid() && r == |buf| && d == buf[..|buf| - 2] + [DUMMY] && d != buf[..|buf| - 1]
    ensures c.FdValid(fd) && 0 <= c.fds[fd].file < |c.files| && DataOf(c.Now(), c.fds[fd].file) == d
  {
    ghost var w := DataOf(c.Now(), c.fds[fd].file);
    ghost var leak;
    var done;
    ghost var f := TightFate(c, fd, |buf|);
    r, done, d, leak := c.CfsWrite(fd, buf, 0);
    TightDone(c, fd, buf, f, d);
    ByteLost(buf, d);
    SpliceWhole(w, d);
  }

  lemma SpliceWhole(w: Bytes, d: Bytes)
    requires |w| <= |d|
    ensures Splice(w, 0, d) == d
  {
  }

  lemma ByteLost(buf: Bytes, d: Bytes)
    requires |buf| > 1 && |d| == |buf| - 1 && d == buf[..|d| - 1] + [DUMMY] && buf[|buf| - 2] != DUMMY
    ensures d == buf[..|buf| - 2] + [DUMMY] && d != buf[..|buf| - 1]
  {
    assert d[|buf| - 2] != buf[..|buf| - 1][|buf| - 2];
  }

  lemma TightFate(c: C.Coffee, fd: int, n: nat) returns (f: Forecast)
    requires Tight() && n == Times(LOG_RECORDS, PAGE_SIZE) + 1 && 0 <= fd < |c.fds| && c.fds[fd].offset == 0
    requires c.LedgerOf(c.fds[fd].file) == NewLedger()
    ensures f == c.Fate(fd, n) && f.Known? && f.missing == 1 && !f.ledger.logged && f.ledger.size == PAGE_BYTES
  {
    OneMissing();
    TightRounds();
    f := c.Fate(fd, n);
  }

  lemma TightDone(c: C.Coffee, fd: int, buf: Bytes, f: Forecast, d: Bytes)
    requires Tight() && |buf| == Times(LOG_RECORDS, PAGE_SIZE) + 1 && f.Known? && f.missing == 1
    requires f.ledger.size == PAGE_BYTES
    requires c.Foretold(f, fd, buf, |d|) && c.fds[fd].offset == |d|
    ensures |d| == |buf| - 1 >= PAGE_SIZE
  {
    TightEnd(f, |d|, |buf|, |buf| - |d|);
  }

  lemma TightRounds()
    requires Tight()
    ensures Pieces(PAGE_BYTES, 0, Times(LOG_RECORDS, PAGE_SIZE) + 1) == LOG_RECORDS + 1
  {
    QuotientUnique(Times(LOG_RECORDS, PAGE_SIZE), PAGE_SIZE, LOG_RECORDS, 0);
    QuotientUnique(0, PAGE_SIZE, 0, 0);
  }

  /** One round is missing exactly if one byte is. */
  lemma TightEnd(f: Forecast, k: nat, n: nat, left: nat)
    requires Tight() && n == Times(LOG_RECORDS, PAGE_SIZE) + 1 && k <= n && left == n - k
    requires f.Known? && f.missing == 1 && f.ledger.size == PAGE_BYTES && f.missing == Pieces(f.ledger.size, k, left)
    ensures k == n - 1 >= PAGE_SIZE
  {
    QuotientUnique(Times(LOG_RECORDS, PAGE_SIZE), PAGE_SIZE, LOG_RECORDS, 0);
    QuotientParts(k, PAGE_SIZE);
    TimesMono(1, LOG_RECORDS, PAGE_SIZE);
  }
}
