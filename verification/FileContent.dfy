/** What a file holds: the bytes of its extent, except where its log has a record. */
module FileContent {
  import opened Words
  import opened CoffeeConfig
  import opened FlashBytes
  import opened FlashDevice
  import opened Extents
  import opened Collector
  import opened Allocation
  import opened MicroLog

  /** The data bytes that an extent has room for. */
  function Capacity(len: int): nat {
    if len > 0 && Offset(len) >= HEADER_SIZE then Offset(len) - HEADER_SIZE else 0
  }

  lemma CapacityIs(len: nat)
    requires len > 0
    ensures Capacity(len) == Offset(len) - HEADER_SIZE
  {
    OffsetMono(1, len);
    OffsetStep(0);
  }

  /** The byte of the file at page a at offset o. */
  function Byte(b: Bytes, a: nat, o: nat): byte {
    var h := HeaderAt(b, a);
    var i := if h.modified && h.logPage >= 0 then LastIndex(b, h.logPage, Records(h), Region(h, o)) else -1;
    LastIndexBound(b, h, o);
    if i >= 0 then At(b, RecordAt(h, h.logPage, i) + RegionOffset(h, o)) else At(b, Absolute(a, o))
  }

  lemma LastIndexBound(b: Bytes, h: Header, o: nat)
    ensures h.logPage >= 0 ==> LastIndex(b, h.logPage, Records(h), Region(h, o)) >= -1
  {
    if h.logPage >= 0 { LastIndexIs(b, h.logPage, Records(h), Region(h, o)); }
  }

  /** The byte of a file with a log. */
  lemma LoggedByteIs(b: Bytes, a: nat, h: Header, o: nat, i: int)
    requires h == HeaderAt(b, a) && h.modified && h.logPage >= 0
    requires i == LastIndex(b, h.logPage, Records(h), Region(h, o))
    ensures i >= -1
    ensures Byte(b, a, o) ==
              if i >= 0 then At(b, RecordAt(h, h.logPage, i) + RegionOffset(h, o)) else At(b, Absolute(a, o))
  {
    LastIndexBound(b, h, o);
  }

  lemma CapacityMono(m: nat, n: nat)
    requires 0 < m <= n
    ensures Capacity(m) <= Capacity(n)
  {
    CapacityIs(m);
    CapacityIs(n);
    OffsetMono(m, n);
  }

  // ----- Well-formed files and logs -----

  /** The configuration of a log: not empty, its table fits a batch, and the regions of the
      largest file have 16-bit numbers. */
  ghost predicate ConfigOk(h: Header) {
    && 0 < RecordSize(h) < 0x1_0000 && 0 < Records(h) <= LOG_TABLE_LIMIT
    && FLASH_SIZE <= 0xFFFE * RecordSize(h)
    && LogBytes(h) + HEADER_SIZE <= 0x4000 * PAGE_SIZE
  }

  /** The bytes of a log: its table and its records. */
  function LogBytes(h: Header): nat {
    2 * Records(h) + Times(Records(h), RecordSize(h))
  }

  /** The configuration that a file has unless it is given another. */
  lemma DefaultConfig(h: Header)
    requires h.logRecords == 0 && h.logRecordSize == 0
    ensures ConfigOk(h)
  {
    QuotientIs(LOG_SIZE, PAGE_SIZE);
    QuotientParts(LOG_SIZE, PAGE_SIZE);
    var n: nat := 0x4000;
    TimesIs(n, PAGE_SIZE);
    PagesBound();
    TimesMono(PAGE_COUNT, n, PAGE_SIZE);
  }

  /** A log extent has room for the table and the records. */
  ghost predicate LogRoom(h: Header, len: nat) {
    LogBytes(h) + HEADER_SIZE <= Offset(len)
  }

  ghost predicate LogOk(t: Extents, b: Bytes, h: Header) {
    && h.logPage >= 0 && IsActive(t, h.logPage) && HeaderAt(b, h.logPage).log
    && LogRoom(h, t[h.logPage].len)
    && FilledFromFront(b, h.logPage, Records(h))
  }

  ghost predicate IsFile(t: Extents, b: Bytes, a: nat) {
    IsActive(t, a) && !HeaderAt(b, a).log
  }

  ghost predicate FileOk(t: Extents, b: Bytes, a: nat) {
    && ConfigOk(HeaderAt(b, a))
    && (HeaderAt(b, a).modified ==> LogOk(t, b, HeaderAt(b, a)))
  }

  ghost predicate HasLog(t: Extents, b: Bytes, a: nat) {
    IsFile(t, b, a) && HeaderAt(b, a).modified
  }

  /** A log belongs to one file. */
  ghost predicate LogApart(t: Extents, b: Bytes, a: nat, c: nat) {
    HasLog(t, b, a) && HasLog(t, b, c) && a != c ==> HeaderAt(b, a).logPage != HeaderAt(b, c).logPage
  }

  ghost predicate FilesOk(t: Extents, b: Bytes) {
    && (forall a: nat {:trigger FileOk(t, b, a)} :: IsFile(t, b, a) ==> FileOk(t, b, a))
    && (forall a: nat, c: nat {:trigger LogApart(t, b, a, c)} :: LogApart(t, b, a, c))
  }

  // ----- Nothing else matters -----

  lemma KeptHeader(t: Extents, b: Bytes, t': Extents, b': Bytes, a: nat)
    requires Tiled(t, b) && IsActive(t, a) && Kept(t, b, t', b', a)
    ensures HeaderAt(b', a) == HeaderAt(b, a) && IsActive(t', a) && t'[a] == t[a]
  {
    assert ExtentOk(t, b, a);
    OffsetMono(a + 1, End(t, a));
    OffsetStep(a);
    DecodeSame(b, b', Offset(a));
  }

  lemma KeptBytes(t: Extents, b: Bytes, t': Extents, b': Bytes, a: nat, x: nat)
    requires IsActive(t, a) && Kept(t, b, t', b', a) && x < Offset(t[a].len)
    ensures At(b', Offset(a) + x) == At(b, Offset(a) + x)
  {
    OffsetAdd(a, t[a].len);
  }

  lemma KeptData(t: Extents, b: Bytes, t': Extents, b': Bytes, a: nat, o: nat)
    requires IsActive(t, a) && Kept(t, b, t', b', a) && t[a].len > 0 && o < Capacity(t[a].len)
    ensures At(b', Absolute(a, o)) == At(b, Absolute(a, o))
  {
    CapacityIs(t[a].len);
    KeptBytes(t, b, t', b', a, HEADER_SIZE + o);
  }

  /** A log that is kept has the same table and the same records. */
  lemma KeptLog(t: Extents, b: Bytes, t': Extents, b': Bytes, h: Header)
    requires h.logPage >= 0 && IsActive(t, h.logPage) && Kept(t, b, t', b', h.logPage) && LogRoom(h, t[h.logPage].len)
    ensures forall i: nat :: i < Records(h) ==> Entry(b', h.logPage, i) == Entry(b, h.logPage, i)
  {
    var lp: nat := h.logPage;
    forall i: nat | i < Records(h) ensures Entry(b', lp, i) == Entry(b, lp, i) {
      KeptBytes(t, b, t', b', lp, HEADER_SIZE + 2 * i);
      KeptBytes(t, b, t', b', lp, HEADER_SIZE + 2 * i + 1);
    }
  }

  lemma KeptRecord(t: Extents, b: Bytes, t': Extents, b': Bytes, h: Header, i: nat, x: nat)
    requires h.logPage >= 0 && IsActive(t, h.logPage) && Kept(t, b, t', b', h.logPage) && LogRoom(h, t[h.logPage].len)
    requires i < Records(h) && x < RecordSize(h)
    ensures At(b', RecordAt(h, h.logPage, i) + x) == At(b, RecordAt(h, h.logPage, i) + x)
  {
    TimesMono(i, Records(h), RecordSize(h));
    KeptBytes(t, b, t', b', h.logPage, HEADER_SIZE + 2 * Records(h) + Times(i, RecordSize(h)) + x);
  }

  lemma {:induction false} FirstZeroSame(b: Bytes, b': Bytes, logPage: nat, from: nat, records: nat)
    requires forall i: nat :: i < records ==> Entry(b', logPage, i) == Entry(b, logPage, i)
    ensures FirstZero(b', logPage, from, records) == FirstZero(b, logPage, from, records)
    decreases records - from
  {
    if from < records && Entry(b, logPage, from) != 0 { FirstZeroSame(b, b', logPage, from + 1, records); }
  }

  /** A file whose extent and log are kept is still well-formed. */
  lemma KeptFile(t: Extents, b: Bytes, t': Extents, b': Bytes, a: nat)
    requires Tiled(t, b) && IsFile(t, b, a) && FileOk(t, b, a) && Kept(t, b, t', b', a)
    requires HeaderAt(b, a).modified ==> Kept(t, b, t', b', HeaderAt(b, a).logPage)
    ensures IsFile(t', b', a) && FileOk(t', b', a) && HeaderAt(b', a) == HeaderAt(b, a) && t'[a] == t[a]
  {
    KeptHeader(t, b, t', b', a);
    var h := HeaderAt(b, a);
    if h.modified {
      KeptHeader(t, b, t', b', h.logPage);
      KeptLog(t, b, t', b', h);
      FirstZeroSame(b, b', h.logPage, 0, Records(h));
    }
  }

  /** And holds the same bytes. */
  lemma KeptByte(t: Extents, b: Bytes, t': Extents, b': Bytes, a: nat, o: nat)
    requires Tiled(t, b) && IsFile(t, b, a) && FileOk(t, b, a) && Kept(t, b, t', b', a) && t[a].len > 0
    requires o < Capacity(t[a].len)
    requires HeaderAt(b, a).modified ==> Kept(t, b, t', b', HeaderAt(b, a).logPage)
    ensures Byte(b', a, o) == Byte(b, a, o)
  {
    KeptHeader(t, b, t', b', a);
    KeptData(t, b, t', b', a, o);
    var h := HeaderAt(b, a);
    if h.modified {
      KeptLog(t, b, t', b', h);
      LastIndexSame(b, b', h.logPage, Records(h), Region(h, o));
      var i := LastIndex(b, h.logPage, Records(h), Region(h, o));
      LoggedByteIs(b, a, h, o, i);
      LoggedByteIs(b', a, h, o, i);
      LastIndexIs(b, h.logPage, Records(h), Region(h, o));
      RegionOffsetBound(h, o);
      if i >= 0 { KeptRecord(t, b, t', b', h, i, RegionOffset(h, o)); }
    } else {
      PlainByte(b, a, o);
      PlainByte(b', a, o);
    }
  }

  // ----- A new record -----

  /** The bytes after record n has been written for a region: first its table entry, then
      its data. */
  function WithRecord(b: Bytes, h: Header, n: nat, region: nat, d: Bytes): Bytes
    requires h.logPage >= 0 && region < 0xFFFF
  {
    Put(Put(b, EntryAt(h.logPage, n), Bytes16(region + 1)), RecordAt(h, h.logPage, n), d)
  }

  /** The record lies in the log, behind the table and the records before it. */
  lemma RecordPlace(h: Header, n: nat, len: nat)
    requires h.logPage >= 0 && LogRoom(h, len) && n < Records(h)
    ensures var e, r := EntryAt(h.logPage, n), RecordAt(h, h.logPage, n);
            && Offset(h.logPage) + HEADER_SIZE <= e && e + 2 <= RecordAt(h, h.logPage, 0) <= r
            && r + RecordSize(h) <= Offset(h.logPage + len)
  {
    OffsetAdd(h.logPage, len);
    TimesMono(n, Records(h), RecordSize(h));
    TimesMono(0, n, RecordSize(h));
  }

  lemma WithRecordAt(b: Bytes, h: Header, n: nat, region: nat, d: Bytes, len: nat, x: int)
    requires h.logPage >= 0 && region < 0xFFFF && LogRoom(h, len) && n < Records(h) && |d| == RecordSize(h)
    requires Offset(h.logPage + len) <= |b|
    ensures var e, r := EntryAt(h.logPage, n), RecordAt(h, h.logPage, n);
            At(WithRecord(b, h, n, region, d), x) ==
              if r <= x < r + |d| then d[x - r] else if e <= x < e + 2 then Bytes16(region + 1)[x - e] else At(b, x)
  {
    RecordPlace(h, n, len);
    var e, r := EntryAt(h.logPage, n), RecordAt(h, h.logPage, n);
    PutAt(b, e, Bytes16(region + 1), x);
    PutAt(Put(b, e, Bytes16(region + 1)), r, d, x);
  }

  /** The table after the write. */
  lemma WithRecordEntries(b: Bytes, h: Header, n: nat, region: nat, d: Bytes, len: nat, i: nat)
    requires h.logPage >= 0 && region < 0xFFFF && LogRoom(h, len) && n < Records(h) && |d| == RecordSize(h)
    requires Offset(h.logPage + len) <= |b| && i < Records(h)
    ensures Entry(WithRecord(b, h, n, region, d), h.logPage, i) == if i == n then region + 1 else Entry(b, h.logPage, i)
  {
    RecordPlace(h, n, len);
    WithRecordAt(b, h, n, region, d, len, EntryAt(h.logPage, i));
    WithRecordAt(b, h, n, region, d, len, EntryAt(h.logPage, i) + 1);
  }

  /** The records after the write. */
  lemma WithRecordData(b: Bytes, h: Header, n: nat, region: nat, d: Bytes, len: nat, i: nat, x: nat)
    requires h.logPage >= 0 && region < 0xFFFF && LogRoom(h, len) && n < Records(h) && |d| == RecordSize(h)
    requires Offset(h.logPage + len) <= |b| && i < Records(h) && x < RecordSize(h)
    ensures At(WithRecord(b, h, n, region, d), RecordAt(h, h.logPage, i) + x) ==
              if i == n then d[x] else At(b, RecordAt(h, h.logPage, i) + x)
  {
    RecordPlace(h, n, len);
    RecordPlace(h, i, len);
    if i < n { TimesMono(i, n, RecordSize(h)); } else if n < i { TimesMono(n, i, RecordSize(h)); }
    WithRecordAt(b, h, n, region, d, len, RecordAt(h, h.logPage, i) + x);
  }

  // ----- Writes inside one extent -----

  /** Only data bytes of the extent at page c differ. */
  ghost predicate DataChanged(t: Extents, b: Bytes, b': Bytes, c: nat) {
    && IsActive(t, c) && |b'| == |b|
    && forall x: int :: !(Offset(c) + HEADER_SIZE <= x < Offset(End(t, c))) ==> At(b', x) == At(b, x)
  }

  lemma DataKept(t: Extents, b: Bytes, b': Bytes, c: nat, a: nat)
    requires Tiled(t, b) && DataChanged(t, b, b', c) && a != c
    ensures Kept(t, b, t, b', a)
  {
    if IsActive(t, a) {
      assert ExtentOk(t, b, a) && ExtentOk(t, b, c) && Apart(t, a, c) && Apart(t, c, a);
      if a < c { OffsetMono(End(t, a), c); } else { OffsetMono(End(t, c), a); }
    }
  }

  lemma DataHeader(t: Extents, b: Bytes, b': Bytes, c: nat, a: nat)
    requires Tiled(t, b) && DataChanged(t, b, b', c) && a in t
    ensures HeaderAt(b', a) == HeaderAt(b, a) && ExtentOk(t, b', a)
  {
    assert ExtentOk(t, b, a) && ExtentOk(t, b, c) && Apart(t, a, c) && Apart(t, c, a);
    OffsetStep(a);
    if a < c {
      OffsetMono(End(t, a), c);
      OffsetMono(a + 1, c);
    } else if a > c {
      OffsetMono(End(t, c), a);
    }
    DecodeSame(b, b', Offset(a));
  }

  lemma DataTiled(t: Extents, b: Bytes, b': Bytes, c: nat)
    requires Tiled(t, b) && DataChanged(t, b, b', c)
    ensures Tiled(t, b') && HeaderAt(b', c) == HeaderAt(b, c)
    ensures forall a: nat :: a in t ==> HeaderAt(b', a) == HeaderAt(b, a)
  {
    forall a | a in t ensures ExtentOk(t, b', a) && HeaderAt(b', a) == HeaderAt(b, a) { DataHeader(t, b, b', c, a); }
  }

  /** The log of file a after a record has been added to it. */
  ghost predicate Logged(t: Extents, b: Bytes, b': Bytes, a: nat, n: nat, region: nat, d: Bytes) {
    && HasLog(t, b, a) && FileOk(t, b, a) && n < Records(HeaderAt(b, a)) && region < 0xFFFF
    && |d| == RecordSize(HeaderAt(b, a))
    && n == FirstZero(b, HeaderAt(b, a).logPage, 0, Records(HeaderAt(b, a)))
    && b' == WithRecord(b, HeaderAt(b, a), n, region, d)
  }

  lemma WithRecordOutside(b: Bytes, h: Header, n: nat, region: nat, d: Bytes, len: nat, x: int)
    requires h.logPage >= 0 && region < 0xFFFF && LogRoom(h, len) && n < Records(h) && |d| == RecordSize(h)
    requires Offset(h.logPage + len) <= |b| && !(Offset(h.logPage) + HEADER_SIZE <= x < Offset(h.logPage + len))
    ensures At(WithRecord(b, h, n, region, d), x) == At(b, x)
  {
    RecordPlace(h, n, len);
    WithRecordAt(b, h, n, region, d, len, x);
  }

  lemma LogInside(t: Extents, b: Bytes, lp: nat)
    requires Tiled(t, b) && IsActive(t, lp)
    ensures Offset(lp + t[lp].len) <= |b| && End(t, lp) == lp + t[lp].len
  {
    assert ExtentOk(t, b, lp);
    OffsetMono(End(t, lp), PAGE_COUNT);
  }

  lemma LoggedData(t: Extents, b: Bytes, b': Bytes, a: nat, n: nat, region: nat, d: Bytes)
    requires Tiled(t, b) && Logged(t, b, b', a, n, region, d)
    ensures DataChanged(t, b, b', HeaderAt(b, a).logPage)
  {
    var h := HeaderAt(b, a);
    LogInside(t, b, h.logPage);
    forall x: int | !(Offset(h.logPage) + HEADER_SIZE <= x < Offset(End(t, h.logPage))) ensures At(b', x) == At(b, x) {
      WithRecordOutside(b, h, n, region, d, t[h.logPage].len, x);
    }
  }

  lemma LoggedEntries(t: Extents, b: Bytes, b': Bytes, a: nat, n: nat, region: nat, d: Bytes)
    requires Tiled(t, b) && Logged(t, b, b', a, n, region, d)
    ensures var h := HeaderAt(b, a);
            forall i: nat ::
              i < Records(h) ==> Entry(b', h.logPage, i) == if i == n then region + 1 else Entry(b, h.logPage, i)
  {
    var h := HeaderAt(b, a);
    LogInside(t, b, h.logPage);
    forall i: nat | i < Records(h)
      ensures Entry(b', h.logPage, i) == if i == n then region + 1 else Entry(b, h.logPage, i)
    {
      WithRecordEntries(b, h, n, region, d, t[h.logPage].len, i);
    }
  }

  /** The table has one more entry, in front of unused ones. */
  lemma LoggedTable(t: Extents, b: Bytes, b': Bytes, a: nat, n: nat, region: nat, d: Bytes)
    requires Tiled(t, b) && Logged(t, b, b', a, n, region, d)
    ensures var h := HeaderAt(b, a);
            FirstZero(b', h.logPage, 0, Records(h)) == n + 1 && FilledFromFront(b', h.logPage, Records(h))
  {
    var h := HeaderAt(b, a);
    LoggedEntries(t, b, b', a, n, region, d);
    OneMoreEntry(b, b', h.logPage, n, region, Records(h));
  }

  lemma OneMoreEntry(b: Bytes, b': Bytes, lp: nat, n: nat, region: nat, records: nat)
    requires FilledFromFront(b, lp, records) && n == FirstZero(b, lp, 0, records) && n < records
    requires forall i: nat :: i < records ==> Entry(b', lp, i) == if i == n then region + 1 else Entry(b, lp, i)
    ensures FirstZero(b', lp, 0, records) == n + 1 && FilledFromFront(b', lp, records)
  {
    FirstZeroIs(b, lp, 0, records);
    FirstZeroUnique(b', lp, 0, records, n + 1);
  }

  lemma OneMoreIndex(b: Bytes, b': Bytes, lp: nat, n: nat, region: nat, records: nat, r: nat)
    requires FilledFromFront(b, lp, records) && n == FirstZero(b, lp, 0, records) && n < records
    requires forall i: nat :: i < records ==> Entry(b', lp, i) == if i == n then region + 1 else Entry(b, lp, i)
    ensures LastIndex(b', lp, records, r) == if r == region then n else LastIndex(b, lp, records, r)
    ensures -1 <= LastIndex(b, lp, records, r) < n
  {
    FirstZeroIs(b, lp, 0, records);
    LastIndexIs(b, lp, records, r);
    LastIndexUnique(b', lp, records, r, if r == region then n else LastIndex(b, lp, records, r));
  }

  /** The extent itself is untouched. */
  lemma LoggedExtent(t: Extents, b: Bytes, b': Bytes, a: nat, n: nat, region: nat, d: Bytes)
    requires Tiled(t, b) && Logged(t, b, b', a, n, region, d)
    ensures HeaderAt(b', a) == HeaderAt(b, a) && Kept(t, b, t, b', a)
  {
    LoggedData(t, b, b', a, n, region, d);
    DataKept(t, b, b', HeaderAt(b, a).logPage, a);
    KeptHeader(t, b, t, b', a);
  }

  /** Record i holds the new bytes if it is the new one. */
  lemma LoggedRecord(t: Extents, b: Bytes, b': Bytes, a: nat, n: nat, region: nat, d: Bytes, i: nat, x: nat)
    requires Tiled(t, b) && Logged(t, b, b', a, n, region, d)
    requires i < Records(HeaderAt(b, a)) && x < RecordSize(HeaderAt(b, a))
    ensures var h := HeaderAt(b, a);
            At(b', RecordAt(h, h.logPage, i) + x) == if i == n then d[x] else At(b, RecordAt(h, h.logPage, i) + x)
  {
    var h := HeaderAt(b, a);
    LogInside(t, b, h.logPage);
    WithRecordData(b, h, n, region, d, t[h.logPage].len, i, x);
  }

  lemma RegionOffsetBound(h: Header, o: nat)
    requires RecordSize(h) > 0
    ensures RegionOffset(h, o) < RecordSize(h) && o == Times(Region(h, o), RecordSize(h)) + RegionOffset(h, o)
  {
    QuotientParts(o, PositiveSize(h));
  }

  /** The file now holds the record's bytes in its region, and everywhere else what it held
      before. */
  lemma LoggedByte(t: Extents, b: Bytes, b': Bytes, a: nat, n: nat, region: nat, d: Bytes, o: nat)
    requires Tiled(t, b) && Logged(t, b, b', a, n, region, d) && t[a].len > 0 && o < Capacity(t[a].len)
    requires RegionOffset(HeaderAt(b, a), o) < RecordSize(HeaderAt(b, a))
    ensures var h := HeaderAt(b, a);
            Byte(b', a, o) == if Region(h, o) == region then d[RegionOffset(h, o)] else Byte(b, a, o)
  {
    var h := HeaderAt(b, a);
    LoggedByteExtent(t, b, b', a, n, region, d, o);
    var l, i := LoggedByteIndex(t, b, b', a, n, region, d, Region(h, o));
    if i >= 0 { LoggedRecord(t, b, b', a, n, region, d, i, RegionOffset(h, o)); }
    ByteAfter(b, b', a, h, o, n, region, d, l, i);
  }

  lemma LoggedByteExtent(t: Extents, b: Bytes, b': Bytes, a: nat, n: nat, region: nat, d: Bytes, o: nat)
    requires Tiled(t, b) && Logged(t, b, b', a, n, region, d) && t[a].len > 0 && o < Capacity(t[a].len)
    ensures HeaderAt(b', a) == HeaderAt(b, a) && At(b', Absolute(a, o)) == At(b, Absolute(a, o))
  {
    LoggedExtent(t, b, b', a, n, region, d);
    KeptData(t, b, t, b', a, o);
  }

  lemma LoggedByteIndex(t: Extents, b: Bytes, b': Bytes, a: nat, n: nat, region: nat, d: Bytes, r: nat)
    returns (l: int, i: int)
    requires Tiled(t, b) && Logged(t, b, b', a, n, region, d)
    ensures var h := HeaderAt(b, a);
            && l == LastIndex(b, h.logPage, Records(h), r) && i == LastIndex(b', h.logPage, Records(h), r)
            && -1 <= l < n && i == if r == region then n else l
  {
    var h := HeaderAt(b, a);
    l, i := LastIndex(b, h.logPage, Records(h), r), LastIndex(b', h.logPage, Records(h), r);
    LoggedEntries(t, b, b', a, n, region, d);
    OneMoreIndex(b, b', h.logPage, n, region, Records(h), r);
  }

  lemma ByteAfter(b: Bytes, b': Bytes, a: nat, h: Header, o: nat, n: nat, region: nat, d: Bytes, l: int, i: int)
    requires h == HeaderAt(b, a) == HeaderAt(b', a) && h.modified && h.logPage >= 0 && RegionOffset(h, o) < |d|
    requires l == LastIndex(b, h.logPage, Records(h), Region(h, o))
    requires i == LastIndex(b', h.logPage, Records(h), Region(h, o))
    requires -1 <= l < n && i == if Region(h, o) == region then n else l
    requires At(b', Absolute(a, o)) == At(b, Absolute(a, o))
    requires i >= 0 ==> At(b', RecordAt(h, h.logPage, i) + RegionOffset(h, o))
                        == if i == n then d[RegionOffset(h, o)] else At(b,
                            RecordAt(h, h.logPage, i) + RegionOffset(h, o))
    ensures Byte(b', a, o) == if Region(h, o) == region then d[RegionOffset(h, o)] else Byte(b, a, o)
  {
    LoggedByteIs(b, a, h, o, l);
    LoggedByteIs(b', a, h, o, i);
  }

  // ----- Reading -----

  /** A run of bytes within one region. */
  lemma RunInRegion(h: Header, offset: nat, n: nat, x: nat)
    requires RecordSize(h) > 0 && RegionOffset(h, offset) + n <= RecordSize(h) && x < n
    ensures Region(h, offset + x) == Region(h, offset) && RegionOffset(h, offset + x) == RegionOffset(h, offset) + x
  {
    RegionOffsetBound(h, offset);
    QuotientUnique(offset + x, RecordSize(h), Region(h, offset), RegionOffset(h, offset) + x);
  }

  /** `read_log_page`: at most the rest of the region is asked for; found or not, `n` says
      how much that is. */
  method ReadLogPage(flash: Flash, h: Header, recordCount: int, offset: nat, size: nat)
    returns (found: bool, n: nat, d: Bytes)
    requires h.logPage >= 0 && RecordSize(h) > 0 && Records(h) < 0x8000 && recordCount < 0x8000
    requires recordCount >= 0 ==>
               LastIndex(flash.bytes, h.logPage, recordCount, Region(h, offset)) ==
                   LastIndex(flash.bytes, h.logPage, Records(h), Region(h, offset))
    ensures n == Min(size, RecordSize(h) - RegionOffset(h, offset)) && RegionOffset(h, offset) < RecordSize(h)
    ensures found <==> LastIndex(flash.bytes, h.logPage, Records(h), Region(h, offset)) >= 0
    ensures found ==>
              var i := LastIndex(flash.bytes, h.logPage, Records(h), Region(h, offset));
              d == Slice(flash.bytes, RecordAt(h, h.logPage, i) + RegionOffset(h, offset), n)
  {
    RegionOffsetBound(h, offset);
    var region := Region(h, offset);
    n := Min(size, RecordSize(h) - RegionOffset(h, offset));
    var searchRecords := if recordCount < 0 then Records(h) else recordCount;
    var i := GetRecordIndex(flash, h.logPage, searchRecords, region);
    found, d := i >= 0, [];
    if found {
      d := flash.Read(RecordAt(h, h.logPage, i) + RegionOffset(h, offset), n);
    }
  }

  /** The bytes of a file in [from, from + n). */
  function FileBytes(b: Bytes, a: nat, from: nat, n: nat): (r: Bytes)
    ensures |r| == n
  {
    seq<byte>(n, i requires i >= 0 => Byte(b, a, from + i))
  }

  /** A run in one region comes from the last record for it, or from the extent. */
  lemma RunByteLog(b: Bytes, a: nat, h: Header, offset: nat, n: nat, i: nat, x: nat)
    requires h == HeaderAt(b, a) && h.modified && h.logPage >= 0 && RecordSize(h) > 0 && x < n
    requires RegionOffset(h, offset) + n <= RecordSize(h) && i == LastIndex(b, h.logPage, Records(h), Region(h, offset))
    ensures ByteFrom(b, a, offset, RecordAt(h, h.logPage, i) + RegionOffset(h, offset), x)
  {
    RunInRegion(h, offset, n, x);
    LoggedByteIs(b, a, h, offset + x, i);
  }

  lemma RunByteExtent(b: Bytes, a: nat, h: Header, offset: nat, n: nat, x: nat)
    requires h == HeaderAt(b, a) && h.modified && h.logPage >= 0 && RecordSize(h) > 0 && x < n
    requires RegionOffset(h, offset) + n <= RecordSize(h) && LastIndex(b, h.logPage, Records(h), Region(h, offset)) < 0
    ensures ByteFrom(b, a, offset, Absolute(a, offset), x)
  {
    RunInRegion(h, offset, n, x);
    LoggedByteIs(b, a, h, offset + x, LastIndex(b, h.logPage, Records(h), Region(h, offset)));
    assert Absolute(a, offset + x) == Absolute(a, offset) + x;
  }

  /** Bytes of a file and bytes of the device that agree one by one. */
  lemma SliceIsFile(b: Bytes, a: nat, offset: nat, n: nat, base: nat)
    requires forall x: nat {:trigger ByteFrom(b, a, offset, base, x)} :: x < n ==> ByteFrom(b, a, offset, base, x)
    ensures FileBytes(b, a, offset, n) == Slice(b, base, n)
  {
    var l, r := FileBytes(b, a, offset, n), Slice(b, base, n);
    forall x: nat | x < n ensures l[x] == r[x] {
      FileByte(b, a, offset, n, x);
      assert ByteFrom(b, a, offset, base, x);
    }
  }

  ghost predicate ByteFrom(b: Bytes, a: nat, offset: nat, base: nat, x: nat) {
    Byte(b, a, offset + x) == At(b, base + x)
  }

  lemma RunFromLog(b: Bytes, a: nat, h: Header, offset: nat, n: nat, i: nat)
    requires h == HeaderAt(b, a) && h.modified && h.logPage >= 0 && RecordSize(h) > 0
    requires RegionOffset(h, offset) + n <= RecordSize(h) && i == LastIndex(b, h.logPage, Records(h), Region(h, offset))
    ensures FileBytes(b, a, offset, n) == Slice(b, RecordAt(h, h.logPage, i) + RegionOffset(h, offset), n)
  {
    var base := RecordAt(h, h.logPage, i) + RegionOffset(h, offset);
    forall x: nat | x < n ensures ByteFrom(b, a, offset, base, x) { RunByteLog(b, a, h, offset, n, i, x); }
    SliceIsFile(b, a, offset, n, base);
  }

  lemma RunFromExtent(b: Bytes, a: nat, h: Header, offset: nat, n: nat)
    requires h == HeaderAt(b, a) && h.modified && h.logPage >= 0 && RecordSize(h) > 0
    requires RegionOffset(h, offset) + n <= RecordSize(h) && LastIndex(b, h.logPage, Records(h), Region(h, offset)) < 0
    ensures FileBytes(b, a, offset, n) == Slice(b, Absolute(a, offset), n)
  {
    var base := Absolute(a, offset);
    forall x: nat | x < n ensures ByteFrom(b, a, offset, base, x) { RunByteExtent(b, a, h, offset, n, x); }
    SliceIsFile(b, a, offset, n, base);
  }

  lemma PlainByte(b: Bytes, a: nat, o: nat)
    requires !HeaderAt(b, a).modified
    ensures Byte(b, a, o) == At(b, Absolute(a, o))
  {
  }

  lemma PlainBytes(b: Bytes, a: nat, offset: nat, n: nat)
    requires !HeaderAt(b, a).modified
    ensures FileBytes(b, a, offset, n) == Slice(b, Absolute(a, offset), n)
  {
    var base := Absolute(a, offset);
    forall x: nat | x < n ensures ByteFrom(b, a, offset, base, x) { PlainByte(b, a, offset + x); }
    SliceIsFile(b, a, offset, n, base);
  }

  lemma FileBytesJoin(b: Bytes, a: nat, from: nat, n: nat, m: nat)
    ensures FileBytes(b, a, from, n) + FileBytes(b, a, from + n, m) == FileBytes(b, a, from, n + m)
  {
    var l, r := FileBytes(b, a, from, n) + FileBytes(b, a, from + n, m), FileBytes(b, a, from, n + m);
    assert |l| == |r| && forall x :: 0 <= x < n + m ==> l[x] == r[x];
  }

  /** The count of records in the cache is that of the used entries; then a search among
      these is a search among all. */
  ghost predicate CountOk(b: Bytes, h: Header, recordCount: int) {
    recordCount >= 0 ==> h.modified && h.logPage >= 0 && recordCount == FirstZero(b, h.logPage, 0, Records(h))
  }

  lemma CountSearch(b: Bytes, h: Header, recordCount: int, region: nat)
    requires CountOk(b, h, recordCount) && recordCount >= 0 && FilledFromFront(b, h.logPage, Records(h))
    ensures LastIndex(b, h.logPage, recordCount, region) == LastIndex(b, h.logPage, Records(h), region)
  {
    FirstZeroIs(b, h.logPage, 0, Records(h));
    LastIndexUsed(b, h.logPage, recordCount, Records(h), region);
  }

  ghost predicate Readable(b: Bytes, page: nat, recordCount: int) {
    var h := HeaderAt(b, page);
    && h.modified && h.logPage >= 0 && RecordSize(h) > 0 && Records(h) < 0x8000 && recordCount <= Records(h)
    && CountOk(b, h, recordCount)
    && FilledFromFront(b, h.logPage, Records(h))
  }

  // ----- The size field -----

  /** A size as it is stored in a `log_param`, in 16 bits. */
  function SizeField(n: nat): nat {
    n % 0x1_0000
  }

  /** How many bytes one round of the loops of `cfs_read` and `cfs_write` asks for. */
  function Piece(h: Header, offset: nat, left: nat): (p: nat)
    requires RecordSize(h) > 0
    ensures p <= left && (p == 0 <==> SizeField(left) == 0)
  {
    RegionOffsetBound(h, offset);
    Min(SizeField(left), RecordSize(h) - RegionOffset(h, offset))
  }

  /** The bytes left after a number of rounds. */
  function LeftAfter(h: Header, offset: nat, size: nat, rounds: nat): (left: nat)
    requires RecordSize(h) > 0
    ensures left <= size
  {
    if rounds == 0 then size
    else
      var l := LeftAfter(h, offset, size, rounds - 1);
      l - Piece(h, offset + (size - l), l)
  }

  /** A round never gets below a multiple of 2^16. */
  lemma PieceStops(h: Header, offset: nat, left: nat, q: nat)
    requires RecordSize(h) > 0 && 0x1_0000 * q <= left
    ensures 0x1_0000 * q <= left - Piece(h, offset, left)
  {
    DivModDef(left, 0x1_0000);
    assert q <= left / 0x1_0000;
  }

  lemma {:induction false} RoundsForever(h: Header, offset: nat, size: nat, rounds: nat)
    requires RecordSize(h) > 0
    ensures 0x1_0000 * (size / 0x1_0000) <= LeftAfter(h, offset, size, rounds)
  {
    if rounds == 0 {
      DivModDef(size, 0x1_0000);
    } else {
      RoundsForever(h, offset, size, rounds - 1);
      var l := LeftAfter(h, offset, size, rounds - 1);
      PieceStops(h, offset + (size - l), l, size / 0x1_0000);
    }
  }

  /** After so many rounds nothing is left, as long as the size fits the field. */
  lemma {:induction false} RoundsProgress(h: Header, offset: nat, size: nat, rounds: nat)
    requires RecordSize(h) > 0 && size < 0x1_0000
    ensures LeftAfter(h, offset, size, rounds) <= if rounds <= size then size - rounds else 0
  {
    if rounds > 0 { RoundsProgress(h, offset, size, rounds - 1); }
  }

  /** The loops come to an end if and only if fewer than 2^16 bytes go through the log. */
  lemma LoopEnds(h: Header, offset: nat, size: nat)
    requires RecordSize(h) > 0
    ensures (exists rounds: nat :: LeftAfter(h, offset, size, rounds) == 0) <==> size < 0x1_0000
  {
    if size < 0x1_0000 {
      RoundsProgress(h, offset, size, size);
      assert LeftAfter(h, offset, size, size) == 0;
    } else if rounds: nat :| LeftAfter(h, offset, size, rounds) == 0 {
      RoundsForever(h, offset, size, rounds);
    }
  }

  /** At 2^16 the first round already asks for nothing. */
  lemma {:induction false} LoopHangs(h: Header, offset: nat, rounds: nat)
    requires RecordSize(h) > 0
    ensures LeftAfter(h, offset, 0x1_0000, rounds) == 0x1_0000
  {
    if rounds > 0 { LoopHangs(h, offset, rounds - 1); }
  }

  // ----- Reading through the log -----

  /** One round of `cfs_read`: from the log in the first place, otherwise from the extent. */
  method ReadRun(flash: Flash, page: nat, h: Header, recordCount: int, offset: nat, left: nat)
    returns (r: nat, buf: Bytes)
    requires h == HeaderAt(flash.bytes, page) && Readable(flash.bytes, page, recordCount)
    ensures r == Piece(h, offset, left) && buf == FileBytes(flash.bytes, page, offset, r)
  {
    if recordCount >= 0 { CountSearch(flash.bytes, h, recordCount, Region(h, offset)); }
    var found;
    found, r, buf := ReadLogPage(flash, h, recordCount, offset, SizeField(left));
    if found {
      RunFromLog(flash.bytes, page, h, offset, r, LastIndex(flash.bytes, h.logPage, Records(h), Region(h, offset)));
    } else {
      RunFromExtent(flash.bytes, page, h, offset, r);
      buf := flash.Read(Absolute(page, offset), r);
    }
  }

  /** The loop of `cfs_read` on a file with a log, region by region. A round that reads nothing
      changes nothing, so that it is repeated for ever; the model stops there and says so. */
  method ReadThroughLog(flash: Flash, page: nat, recordCount: int, offset: nat, size: nat)
    returns (d: Bytes, hangs: bool)
    requires Readable(flash.bytes, page, recordCount)
    ensures d == FileBytes(flash.bytes, page, offset, |d|)
    ensures hangs <==> size >= 0x1_0000
    ensures |d| == if hangs then SizeField(size) else size
  {
    var h := flash.ReadHeader(page);
    d, hangs := [], false;
    var bytesLeft := size;
    ghost var rounds := 0;
    while bytesLeft > 0
      invariant 0 <= bytesLeft == LeftAfter(h, offset, size, rounds) && |d| == size - bytesLeft
      invariant d == FileBytes(flash.bytes, page, offset, size - bytesLeft)
    {
      RoundsForever(h, offset, size, rounds);
      var r, buf := ReadRun(flash, page, h, recordCount, offset + (size - bytesLeft), bytesLeft);
      if r == 0 {
        StoppedAt(size, bytesLeft);
        return d, true;
      }
      FileBytesJoin(flash.bytes, page, offset, size - bytesLeft, r);
      d := d + buf;
      bytesLeft := bytesLeft - r;
      rounds := rounds + 1;
    }
    LoopEnds(h, offset, size);
  }

  lemma StoppedAt(size: nat, left: nat)
    requires SizeField(left) == 0 && 0 < left && 0x1_0000 * (size / 0x1_0000) <= left <= size
    ensures size >= 0x1_0000 && size - left == SizeField(size)
  {
    DivModDef(left, 0x1_0000);
    DivModDef(size, 0x1_0000);
  }

  // ----- The end of a file -----

  /** The end of a file as it is found on the device: behind the last byte of its extent that
      is not zero. */
  ghost predicate EndsAt(b: Bytes, a: nat, len: nat, e: nat) {
    && len > 0 && e <= Capacity(len) && (e > 0 ==> At(b, Absolute(a, e - 1)) != 0)
    && forall o: nat :: e <= o < Capacity(len) ==> At(b, Absolute(a, o)) == 0
  }

  /** There is one such place. */
  lemma OneEnd(b: Bytes, a: nat, len: nat, e: nat, e': nat)
    requires EndsAt(b, a, len, e) && EndsAt(b, a, len, e')
    ensures e == e'
  {
  }

  /** All bytes of the extent from byte x on are zero. */
  ghost predicate ZerosFrom(b: Bytes, a: nat, len: nat, x: nat) {
    forall y: int :: Offset(a) + x <= y < Offset(a) + Offset(len) ==> At(b, y) == 0
  }

  /** Byte x is the last one of the extent that is not zero. */
  lemma EndFound(b: Bytes, a: nat, len: nat, x: nat)
    requires len > 0 && x < Offset(len) && At(b, Offset(a) + x) != 0 && ZerosFrom(b, a, len, x + 1)
    ensures EndsAt(b, a, len, if x < HEADER_SIZE then 0 else x + 1 - HEADER_SIZE)
  {
  }

  lemma PageByte(page: nat, len: nat, i: nat)
    requires page < len && i < PAGE_SIZE
    ensures Offset(page) + i < Offset(len)
  {
    OffsetMono(page + 1, len);
    OffsetStep(page);
  }

  lemma NoEnd(b: Bytes, a: nat, len: nat)
    requires len > 0 && ZerosFrom(b, a, len, 0)
    ensures EndsAt(b, a, len, 0)
  {
  }

  /** `file_end` */
  method FileEnd(flash: Flash, start: nat, ghost len: nat) returns (end: nat)
    requires HeaderAt(flash.bytes, start).maxPages == len > 0
    ensures EndsAt(flash.bytes, start, len, end)
  {
    var h := flash.ReadHeader(start);
    var page := h.maxPages - 1;
    OffsetStep(page);
    while page >= 0
      invariant -1 <= page < len && ZerosFrom(flash.bytes, start, len, Offset(page + 1))
    {
      var buf := flash.Read(Offset(start + page), PAGE_SIZE);
      OffsetAdd(start, page);
      OffsetStep(page);
      var i := PAGE_SIZE - 1;
      while i >= 0
        invariant -1 <= i < PAGE_SIZE && ZerosFrom(flash.bytes, start, len, Offset(page) + i + 1)
      {
        if buf[i] != 0 {
          PageByte(page, len, i);
          EndFound(flash.bytes, start, len, Offset(page) + i);
          if page == 0 && i < HEADER_SIZE {
            return 0;
          }
          PageZero(page, i);
          return 1 + i + Offset(page) - HEADER_SIZE;
        }
        i := i - 1;
      }
      page := page - 1;
    }
    NoEnd(flash.bytes, start, len);
    end := 0;
  }

  lemma PageZero(page: nat, i: nat)
    requires i < PAGE_SIZE && !(page == 0 && i < HEADER_SIZE)
    ensures Offset(page) + i >= HEADER_SIZE
  {
    if page > 0 { OffsetMono(1, page); }
  }

  lemma DataSlice(b: Bytes, a: nat, end: nat, from: nat, n: nat)
    requires from + n <= end
    ensures FileBytes(b, a, 0, end)[from..from + n] == FileBytes(b, a, from, n)
  {
    var w := FileBytes(b, a, 0, end);
    var l, r := w[from..from + n], FileBytes(b, a, from, n);
    forall x | 0 <= x < n ensures l[x] == r[x] {
      FileByte(b, a, 0, end, from + x);
      FileByte(b, a, from, n, x);
      assert l[x] == w[from + x];
    }
  }

  lemma FileByte(b: Bytes, a: nat, from: nat, n: nat, x: nat)
    requires x < n
    ensures FileBytes(b, a, from, n)[x] == Byte(b, a, from + x)
  {
  }

  function ZeroBytes(n: nat): Bytes {
    seq<byte>(n, _ => 0)
  }

  // ----- Writing through the log -----

  /** The data d is spliced in at an offset; everywhere else below `cap` the file at a' holds
      what the one at a held. */
  ghost predicate Spliced(b: Bytes, a: nat, b': Bytes, a': nat, cap: nat, offset: nat, d: Bytes) {
    forall o: nat {:trigger Byte(b', a', o)} ::
      o < cap ==> Byte(b', a', o) == if offset <= o < offset + |d| then d[o - offset] else Byte(b, a, o)
  }

  /** The contents of a region with d spliced in. */
  ghost predicate RegionCopy(b: Bytes, a: nat, h: Header, region: nat, off: nat, d: Bytes, copy: Bytes) {
    && |copy| == RecordSize(h)
    && forall k: nat ::
         k < |copy| ==>
           copy[k] == if off <= k < off + |d| then d[k - off] else Byte(b, a, Times(region, RecordSize(h)) + k)
  }

  lemma RegionStart(h: Header, region: nat)
    requires RecordSize(h) > 0
    ensures Region(h, Times(region, RecordSize(h))) == region && RegionOffset(h, Times(region, RecordSize(h))) == 0
  {
    QuotientUnique(Times(region, RecordSize(h)), RecordSize(h), region, 0);
  }

  /** The contents of a region, from its last record or from the extent. */
  method ReadRegion(flash: Flash, page: nat, h: Header, recordCount: nat, region: nat) returns (copy: Bytes)
    requires h == HeaderAt(flash.bytes, page) && Readable(flash.bytes, page, recordCount)
    ensures copy == FileBytes(flash.bytes, page, Times(region, RecordSize(h)), RecordSize(h))
  {
    var start := Times(region, RecordSize(h));
    RegionStart(h, region);
    CountSearch(flash.bytes, h, recordCount, region);
    var found, n;
    found, n, copy := ReadLogPage(flash, h, recordCount, start, RecordSize(h));
    if found {
      RunFromLog(flash.bytes, page, h, start, n, LastIndex(flash.bytes, h.logPage, Records(h), region));
    } else {
      copy := flash.Read(Absolute(page, start), RecordSize(h));
      RunFromExtent(flash.bytes, page, h, start, n);
    }
  }

  /** The copy that `write_log_page` makes of a region: it reads the old contents unless all
      of the region is overwritten. */
  method BuildRecord(flash: Flash, page: nat, h: Header, recordCount: nat, region: nat, off: nat, d: Bytes)
    returns (copy: Bytes)
    requires h == HeaderAt(flash.bytes, page) && Readable(flash.bytes, page, recordCount) && off + |d| <= RecordSize(h)
    ensures RegionCopy(flash.bytes, page, h, region, off, d, copy)
  {
    if off > 0 || |d| != RecordSize(h) {
      copy := ReadRegion(flash, page, h, recordCount, region);
      PutIsCopy(flash.bytes, page, h, region, off, d, copy);
      copy := Put(copy, off, d);
    } else {
      copy := d;
    }
  }

  lemma PutIsCopy(b: Bytes, a: nat, h: Header, region: nat, off: nat, d: Bytes, c: Bytes)
    requires c == FileBytes(b, a, Times(region, RecordSize(h)), RecordSize(h)) && off + |d| <= RecordSize(h)
    ensures RegionCopy(b, a, h, region, off, d, Put(c, off, d))
  {
    var start, r := Times(region, RecordSize(h)), Put(c, off, d);
    forall k: nat | k < |r| ensures r[k] == if off <= k < off + |d| then d[k - off] else Byte(b, a, start + k) {
      PutElement(c, off, d, k);
      FileByte(b, a, start, RecordSize(h), k);
    }
  }

  lemma PutElement(c: Bytes, off: nat, d: Bytes, k: nat)
    requires k < |c|
    ensures Put(c, off, d)[k] == if off <= k < off + |d| then d[k - off] else c[k]
  {
  }

  /** A region number fits in 16 bits, with one to spare. */
  lemma RegionFits(h: Header, o: nat)
    requires ConfigOk(h) && o < FLASH_SIZE
    ensures Region(h, o) < 0xFFFF
  {
    RegionOffsetBound(h, o);
    var n: nat := 0xFFFF;
    TimesIs(n, RecordSize(h));
    if Region(h, o) >= n { TimesMono(n, Region(h, o), RecordSize(h)); }
  }

  /** The effect of a record on the file: the data is spliced in. */
  lemma RecordSplices(t: Extents, b: Bytes, b': Bytes, a: nat, h: Header, n: nat, offset: nat, d: Bytes, copy: Bytes)
    requires Tiled(t, b) && h == HeaderAt(b, a) && RecordSize(h) > 0 && Logged(t, b, b', a, n, Region(h, offset), copy)
    requires t[a].len > 0 && RegionOffset(h, offset) + |d| <= RecordSize(h)
    requires RegionCopy(b, a, h, Region(h, offset), RegionOffset(h, offset), d, copy)
    ensures Spliced(b, a, b', a, Capacity(t[a].len), offset, d)
  {
    forall o: nat | o < Capacity(t[a].len)
      ensures Byte(b', a, o) == if offset <= o < offset + |d| then d[o - offset] else Byte(b, a, o)
    {
      RecordByte(t, b, b', a, h, n, offset, d, copy, o);
    }
  }

  lemma RecordByte(t: Extents, b: Bytes, b': Bytes, a: nat, h: Header, n: nat, offset: nat, d: Bytes, copy: Bytes,
                   o: nat)
    requires Tiled(t, b) && h == HeaderAt(b, a) && RecordSize(h) > 0 && Logged(t, b, b', a, n, Region(h, offset), copy)
    requires t[a].len > 0 && o < Capacity(t[a].len)
    requires RegionOffset(h, offset) + |d| <= RecordSize(h)
    requires RegionCopy(b, a, h, Region(h, offset), RegionOffset(h, offset), d, copy)
    ensures Byte(b', a, o) == if offset <= o < offset + |d| then d[o - offset] else Byte(b, a, o)
  {
    RegionOffsetBound(h, o);
    LoggedByte(t, b, b', a, n, Region(h, offset), copy, o);
    if Region(h, o) != Region(h, offset) {
      OtherRegion(h, offset, |d|, o);
    } else {
      SameRegion(b, a, h, offset, d, copy, o);
    }
  }

  lemma SameRegion(b: Bytes, a: nat, h: Header, offset: nat, d: Bytes, copy: Bytes, o: nat)
    requires RecordSize(h) > 0 && Region(h, o) == Region(h, offset)
    requires RegionOffset(h, offset) + |d| <= RecordSize(h)
    requires RegionCopy(b, a, h, Region(h, offset), RegionOffset(h, offset), d, copy)
    ensures RegionOffset(h, o) < |copy|
    ensures copy[RegionOffset(h, o)] == if offset <= o < offset + |d| then d[o - offset] else Byte(b, a, o)
  {
    RegionOffsetBound(h, o);
    RegionOffsetBound(h, offset);
  }

  lemma OtherRegion(h: Header, offset: nat, n: nat, o: nat)
    requires RecordSize(h) > 0 && RegionOffset(h, offset) + n <= RecordSize(h) && Region(h, o) != Region(h, offset)
    ensures !(offset <= o < offset + n)
  {
    if offset <= o < offset + n { RunInRegion(h, offset, n, o - offset); }
  }

  // ----- Copying a file -----

  /** The first n bytes of the file at q are those of the one at a; the rest is zero. */
  ghost predicate CopiedUpTo(b0: Bytes, a: nat, b: Bytes, q: nat, n: nat, cap: nat) {
    && (forall o: nat {:trigger Byte(b, q, o)} :: o < n ==> Byte(b, q, o) == Byte(b0, a, o))
    && (forall o: nat {:trigger Byte(b, q, o)} :: n <= o < cap ==> Byte(b, q, o) == 0)
  }

  /** Data written to the extent of a file without a log. */
  lemma PlainPut(t: Extents, b: Bytes, q: nat, offset: nat, d: Bytes)
    requires Tiled(t, b) && IsActive(t, q) && t[q].len > 0 && offset + |d| <= Capacity(t[q].len)
    ensures DataChanged(t, b, Put(b, Absolute(q, offset), d), q)
    ensures forall o: nat {:trigger Absolute(q, o)} ::
              At(Put(b, Absolute(q, offset), d), Absolute(q, o)) ==
                  if offset <= o < offset + |d| then d[o - offset] else At(b, Absolute(q, o))
  {
    var b' := Put(b, Absolute(q, offset), d);
    ExtentHeader(t, b, q);
    LogInside(t, b, q);
    CapacityIs(t[q].len);
    OffsetAdd(q, t[q].len);
    forall x: int | !(Offset(q) + HEADER_SIZE <= x < Offset(End(t, q)))
      ensures At(b', x) == At(b, x)
    {
      PutAt(b, Absolute(q, offset), d, x);
    }
    forall o: nat
      ensures At(b', Absolute(q, o)) == if offset <= o < offset + |d| then d[o - offset] else At(b, Absolute(q, o))
    {
      PutAt(b, Absolute(q, offset), d, Absolute(q, o));
    }
  }

  /** In a file without a log, data written is spliced in. */
  lemma PlainSplices(t: Extents, b: Bytes, q: nat, offset: nat, d: Bytes, cap: nat)
    requires Tiled(t, b) && IsActive(t, q) && t[q].len > 0 && offset + |d| <= Capacity(t[q].len)
    requires !HeaderAt(b, q).modified
    ensures Spliced(b, q, Put(b, Absolute(q, offset), d), q, cap, offset, d)
  {
    var b' := Put(b, Absolute(q, offset), d);
    PlainPut(t, b, q, offset, d);
    DataTiled(t, b, b', q);
    forall o: nat | o < cap
      ensures Byte(b', q, o) == if offset <= o < offset + |d| then d[o - offset] else Byte(b, q, o)
    {
      PlainByte(b, q, o);
      PlainByte(b', q, o);
      assert At(b', Absolute(q, o)) == if offset <= o < offset + |d| then d[o - offset] else At(b, Absolute(q, o));
    }
  }

  /** One more piece has been copied. */
  lemma CopyMore(b0: Bytes, a: nat, b: Bytes, b': Bytes, q: nat, n: nat, d: Bytes, cap: nat)
    requires CopiedUpTo(b0, a, b, q, n, cap) && Spliced(b, q, b', q, cap, n, d) && n + |d| <= cap
    requires forall x: nat :: x < |d| ==> d[x] == Byte(b0, a, n + x)
    ensures CopiedUpTo(b0, a, b', q, n + |d|, cap)
  {
    forall o: nat | o < n + |d| ensures Byte(b', q, o) == Byte(b0, a, o) {
      if o >= n { assert d[o - n] == Byte(b0, a, n + (o - n)); }
    }
  }

  lemma CopiedBytes(b0: Bytes, a: nat, b: Bytes, q: nat, n: nat, cap: nat)
    requires CopiedUpTo(b0, a, b, q, n, cap)
    ensures FileBytes(b, q, 0, n) == FileBytes(b0, a, 0, n)
  {
    var l, r := FileBytes(b, q, 0, n), FileBytes(b0, a, 0, n);
    forall x: nat | x < n ensures l[x] == r[x] {
      FileByte(b, q, 0, n, x);
      FileByte(b0, a, 0, n, x);
    }
  }

  /** A copy stays a copy when neither the source before nor the copy after is touched. */
  lemma CopiedThrough(b0: Bytes, b1: Bytes, a: nat, b2: Bytes, b3: Bytes, q: nat, n: nat, cap: nat)
    requires CopiedUpTo(b1, a, b2, q, n, cap) && n <= cap
    requires forall o: nat :: o < n ==> Byte(b1, a, o) == Byte(b0, a, o)
    requires forall o: nat {:trigger Byte(b3, q, o)} :: o < cap ==> Byte(b3, q, o) == Byte(b2, q, o)
    ensures CopiedUpTo(b0, a, b3, q, n, cap)
  {
    forall o: nat | o < n ensures Byte(b3, q, o) == Byte(b0, a, o) {
      assert Byte(b3, q, o) == Byte(b2, q, o);
    }
    forall o: nat | n <= o < cap ensures Byte(b3, q, o) == 0 {
      assert Byte(b3, q, o) == Byte(b2, q, o);
    }
  }
}
