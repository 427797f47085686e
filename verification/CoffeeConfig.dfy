/**
 The dimensions of a Coffee file system. They are left open, within the bounds that the code
 relies on: pages per sector are a power of two, page numbers and their doubles fit in 15
 bits, and a header fits in a page. Only what is said of logs relies on the dimensions of
 logs: a default log has at least one record, and its index table fits one batch.
 */
module CoffeeConfig {
  import opened Words

  datatype Geometry = Geometry(
    pageSize: nat, sectorBits: nat, sectors: nat, nameLength: nat,
    fdSetSize: nat, maxOpenFiles: nat, dynSize: nat)
  {
    predicate Ok() {
      && 1 <= nameLength <= 1000 && 10 + nameLength <= pageSize <= 0x8000
      && 1 <= sectorBits <= 10 && 1 <= sectors && Times(sectors, Pow2(sectorBits)) < 0x4000
      && dynSize + 10 + nameLength + pageSize <= 0x4000 * pageSize
      && 1 <= fdSetSize < 0x80 && 1 <= maxOpenFiles < 0x8000
    }
  }

  type Config = g: Geometry | g.Ok() witness WITNESS

  type Positive = x: nat | x > 0 witness 1

  const WITNESS: Geometry := Geometry(256, 1, 1, 16, 8, 6, 1024)

  /** The dimensions of the port: sectors of four pages of 256 bytes, names of 20 bytes, 8
      descriptors and 4 slots. */
  lemma PortOk(sectors: nat)
    requires 1 <= sectors <= 253
    ensures Geometry(256, 2, sectors, 20, 8, 4, 256).Ok()
  {
    assert Pow2(2) == 4;
    TimesIs(sectors, 4);
  }

  const G: Config

  datatype LogDims = LogDims(size: nat, tableLimit: nat)

  predicate LogsOk(l: LogDims) {
    && PAGE_SIZE <= l.size && l.size / PAGE_BYTES <= l.tableLimit < 0x8000
    && 2 * (l.size / PAGE_BYTES) + l.size + HEADER_SIZE + PAGE_SIZE <= 0x4000 * PAGE_SIZE
  }

  lemma OneRecord()
    ensures LogsOk(LogDims(PAGE_SIZE, 1))
  {
    QuotientUnique(PAGE_SIZE, PAGE_SIZE, 1, 0);
    QuotientIs(PAGE_SIZE, PAGE_SIZE);
  }

  type LogConfig = l: LogDims | LogsOk(l) witness (OneRecord(); LogDims(PAGE_SIZE, 1))

  const LOGS: LogConfig

  const PAGE_SIZE: nat := G.pageSize
  const PAGES_PER_SECTOR: Positive := Pow2(G.sectorBits)
  const SECTOR_COUNT: nat := G.sectors
  const PAGE_COUNT: nat := Times(SECTOR_COUNT, PAGES_PER_SECTOR)
  const NAME_LENGTH: nat := G.nameLength
  const LOG_SIZE: nat := LOGS.size
  const LOG_TABLE_LIMIT: nat := LOGS.tableLimit
  const FD_SET_SIZE: nat := G.fdSetSize
  const MAX_OPEN_FILES: nat := G.maxOpenFiles
  const DYN_SIZE: nat := G.dynSize

  /** The size of a file header: two pages, two 16-bit counts, the hint, the flags and the
      name, without padding. */
  const HEADER_SIZE: nat := 10 + NAME_LENGTH

  // ----- Page and sector arithmetic -----

  /** The byte where a page starts. */
  function Offset(page: nat): nat {
    Times(page, PAGE_SIZE)
  }

  const FLASH_SIZE: nat := Offset(PAGE_COUNT)

  lemma OffsetStep(page: nat)
    ensures Offset(page + 1) == Offset(page) + PAGE_SIZE
  {
  }

  lemma OffsetAdd(p: nat, n: nat)
    ensures Offset(p + n) == Offset(p) + Offset(n)
  {
    TimesAdd(p, n, PAGE_SIZE);
  }

  lemma OffsetMono(p: nat, q: nat)
    requires p <= q
    ensures Offset(p) <= Offset(q)
    ensures p < q ==> Offset(p) + PAGE_SIZE <= Offset(q)
  {
    TimesMono(p, q, PAGE_SIZE);
  }

  /** `absolute_offset` */
  function Absolute(page: nat, offset: nat): nat {
    Offset(page) + HEADER_SIZE + offset
  }

  /** The first page of a sector. */
  function SectorStart(sector: nat): nat {
    Times(sector, PAGES_PER_SECTOR)
  }

  /** `(page + COFFEE_PAGES_PER_SECTOR) & ~(COFFEE_PAGES_PER_SECTOR - 1)`, in 32 bits. */
  function NextSector(page: nat): nat
    requires page < PAGE_COUNT
  {
    PagesBound();
    And(page + PAGES_PER_SECTOR, Not(PAGES_PER_SECTOR - 1))
  }

  lemma PagesBound()
    ensures 2 <= PAGES_PER_SECTOR <= 1024 && PAGE_COUNT < 0x4000
    ensures PAGES_PER_SECTOR <= PAGE_COUNT
  {
    Pow2Mono(1, G.sectorBits);
    Pow2Mono(G.sectorBits, 10);
    assert Pow2(10) == 1024;
    TimesMono(1, SECTOR_COUNT, PAGES_PER_SECTOR);
  }

  lemma SectorStep(sector: nat)
    ensures SectorStart(sector + 1) == SectorStart(sector) + PAGES_PER_SECTOR
    ensures SectorStart(0) == 0
    ensures SectorStart(SECTOR_COUNT) == PAGE_COUNT
  {
  }

  lemma SectorMono(s: nat, t: nat)
    requires s < t
    ensures SectorStart(s) + PAGES_PER_SECTOR <= SectorStart(t)
  {
    TimesMono(s, t, PAGES_PER_SECTOR);
  }

  /** The sector of a page. */
  function SectorOf(page: nat): nat {
    Quotient(page, PAGES_PER_SECTOR)
  }

  lemma SectorOfPage(page: nat)
    ensures SectorStart(SectorOf(page)) <= page < SectorStart(SectorOf(page) + 1)
    ensures page < PAGE_COUNT ==> SectorOf(page) < SECTOR_COUNT
  {
    PagesBound();
    QuotientParts(page, PAGES_PER_SECTOR);
    SectorStep(SectorOf(page));
    if page < PAGE_COUNT && SectorOf(page) >= SECTOR_COUNT {
      if SectorOf(page) > SECTOR_COUNT { SectorMono(SECTOR_COUNT, SectorOf(page)); }
    }
  }

  lemma SectorUnique(page: nat, s: nat)
    requires SectorStart(s) <= page < SectorStart(s) + PAGES_PER_SECTOR
    ensures SectorOf(page) == s
  {
    SectorOfPage(page);
    SectorStep(SectorOf(page));
    if s < SectorOf(page) { SectorMono(s, SectorOf(page)); }
    if s > SectorOf(page) { SectorMono(SectorOf(page), s); }
  }

  /** The mask leads to the start of the next sector. */
  lemma NextSectorIs(page: nat)
    requires page < PAGE_COUNT
    ensures NextSector(page) == SectorStart(SectorOf(page) + 1)
    ensures page < NextSector(page) <= PAGE_COUNT
  {
    PagesBound();
    Pow2Values();
    var x := page + PAGES_PER_SECTOR;
    Pow2Mono(G.sectorBits, 32);
    AndHigh(x, G.sectorBits, 32);
    assert Not(PAGES_PER_SECTOR - 1) == WORD - PAGES_PER_SECTOR;
    assert NextSector(page) == SectorStart(SectorOf(x)) by {
      QuotientIs(x, PAGES_PER_SECTOR);
      TimesIs(SectorOf(x), PAGES_PER_SECTOR);
    }
    SectorOfPage(page);
    SectorStep(SectorOf(page));
    SectorStep(SectorOf(page) + 1);
    SectorUnique(x, SectorOf(page) + 1);
    SectorsInside(SectorOf(page));
  }

  lemma SectorsInside(s: nat)
    requires s < SECTOR_COUNT
    ensures SectorStart(s + 1) <= PAGE_COUNT && SectorStart(s) < PAGE_COUNT
  {
    PagesBound();
    SectorStep(s);
    if s + 1 < SECTOR_COUNT { SectorMono(s + 1, SECTOR_COUNT); }
  }

  // ----- Pages for a number of bytes -----

  const PAGE_BYTES: Positive := G.pageSize

  /** `page_count` */
  function PageCount(size: nat): nat {
    Quotient(size + HEADER_SIZE + PAGE_SIZE - 1, PAGE_BYTES)
  }

  /** The least number of pages that holds a header and the bytes. */
  lemma PageCountIs(size: nat)
    ensures PageCount(size) > 0 && size + HEADER_SIZE <= Offset(PageCount(size))
    ensures forall n: nat :: size + HEADER_SIZE <= Offset(n) ==> PageCount(size) <= n
  {
    var x, n := size + HEADER_SIZE + PAGE_SIZE - 1, PageCount(size);
    QuotientParts(x, PAGE_SIZE);
    forall m: nat | size + HEADER_SIZE <= Offset(m) ensures n <= m {
      if m < n { TimesMono(m, n, PAGE_SIZE); }
    }
  }

  /** A number of bytes for which the page count fits in 15 bits. */
  lemma PageCountFits(size: nat)
    requires size + HEADER_SIZE <= 0x4000 * PAGE_SIZE
    ensures PageCount(size) <= 0x4000
  {
    PageCountIs(size);
    var n: nat := 0x4000;
    TimesIs(n, PAGE_SIZE);
    assert size + HEADER_SIZE <= Offset(n);
  }
}
