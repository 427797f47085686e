/**
 Micro logs: changes to a file go to records of a log. A table at the front of the log says
 which region of the file each record replaces; the last record for a region counts.
 */
module MicroLog {
  import opened Words
  import opened CoffeeConfig
  import opened FlashBytes
  import opened FlashDevice

  // ----- The shape of a log -----

  /** `adjust_log_config` */
  function RecordSize(h: Header): nat {
    if h.logRecordSize == 0 then PAGE_SIZE else h.logRecordSize
  }

  function Records(h: Header): nat {
    if h.logRecords == 0 then Quotient(LOG_SIZE, PositiveSize(h)) else h.logRecords
  }

  function PositiveSize(h: Header): (r: Positive)
    ensures r == RecordSize(h)
  {
    RecordSize(h)
  }

  /** `modify_log_buffer` */
  function Region(h: Header, offset: nat): nat {
    Quotient(offset, PositiveSize(h))
  }

  function RegionOffset(h: Header, offset: nat): nat {
    Rest(offset, PositiveSize(h))
  }

  function EntryAt(logPage: nat, i: nat): nat {
    Absolute(logPage, 2 * i)
  }

  function Entry(b: Bytes, logPage: nat, i: nat): nat {
    Word16(b, EntryAt(logPage, i))
  }

  function RecordAt(h: Header, logPage: nat, i: nat): nat {
    Absolute(logPage, 2 * Records(h) + Times(i, RecordSize(h)))
  }

  // ----- Searching the table -----

  /** The last of the first n entries that names the region, or -1. */
  function LastIndex(b: Bytes, logPage: nat, n: nat, region: nat): int {
    if n == 0 then -1
    else if Entry(b, logPage, n - 1) == region + 1 then n - 1 else LastIndex(b, logPage, n - 1, region)
  }

  /** It names the region, and none after it does. */
  lemma {:induction false} LastIndexIs(b: Bytes, logPage: nat, n: nat, region: nat)
    ensures var r := LastIndex(b, logPage, n, region);
            && -1 <= r < n
            && (r >= 0 ==> Entry(b, logPage, r) == region + 1)
            && forall i: nat :: r < i < n ==> Entry(b, logPage, i) != region + 1
  {
    if n > 0 && Entry(b, logPage, n - 1) != region + 1 { LastIndexIs(b, logPage, n - 1, region); }
  }

  /** The greatest index is the only one with these two properties. */
  lemma LastIndexUnique(b: Bytes, logPage: nat, n: nat, region: nat, r: int)
    requires -1 <= r < n && (r >= 0 ==> Entry(b, logPage, r) == region + 1)
    requires forall i: nat :: r < i < n ==> Entry(b, logPage, i) != region + 1
    ensures r == LastIndex(b, logPage, n, region)
  {
    LastIndexIs(b, logPage, n, region);
  }

  /** Unused entries match no region. */
  lemma {:induction false} LastIndexUsed(b: Bytes, logPage: nat, n: nat, m: nat, region: nat)
    requires n <= m && forall i: nat :: n <= i < m ==> Entry(b, logPage, i) == 0
    ensures LastIndex(b, logPage, m, region) == LastIndex(b, logPage, n, region)
    decreases m
  {
    if n < m {
      var i: nat := m - 1;
      assert Entry(b, logPage, i) == 0;
      LastIndexUsed(b, logPage, n, m - 1, region);
    }
  }

  /** The search depends only on the table. */
  lemma {:induction false} LastIndexSame(b: Bytes, b': Bytes, logPage: nat, n: nat, region: nat)
    requires forall i: nat :: i < n ==> Entry(b', logPage, i) == Entry(b, logPage, i)
    ensures LastIndex(b', logPage, n, region) == LastIndex(b, logPage, n, region)
  {
    if n > 0 {
      var i: nat := n - 1;
      assert Entry(b', logPage, i) == Entry(b, logPage, i);
      LastIndexSame(b, b', logPage, n - 1, region);
    }
  }

  /** An entry of a batch read from `base`. */
  lemma BatchEntry(b: Bytes, logPage: nat, first: nat, n: nat, i: nat)
    requires i < n
    ensures Word16(Slice(b, EntryAt(logPage, first), 2 * n), 2 * i) == Entry(b, logPage, first + i)
  {
    var a := EntryAt(logPage, first);
    assert EntryAt(logPage, first + i) == a + 2 * i;
  }

  function Min(x: nat, y: nat): nat {
    if x < y then x else y
  }

  lemma LimitPositive()
    ensures 0 < LOG_TABLE_LIMIT < 0x8000
  {
    DivModDef(LOG_SIZE, PAGE_SIZE);
  }

  /** `get_record_index`: batches are searched from the back, each from its back. The index
      found fits in the 16 bits, with sign, that the code has for it. */
  method GetRecordIndex(flash: Flash, logPage: nat, searchRecords: nat, region: nat) returns (match_index: int)
    requires searchRecords < 0x8000
    ensures match_index == LastIndex(flash.bytes, logPage, searchRecords, region)
  {
    LimitPositive();
    var batch := Min(searchRecords, LOG_TABLE_LIMIT);
    var processed := 0;
    match_index := -1;
    while processed < searchRecords && match_index < 0
      invariant processed <= searchRecords && (processed < searchRecords ==> batch > 0)
      invariant match_index >= -1
      invariant match_index < 0 ==>
                  forall i: nat ::
                    searchRecords - processed <= i < searchRecords ==> Entry(flash.bytes, logPage, i) != region + 1
      invariant match_index >= 0 ==> match_index == LastIndex(flash.bytes, logPage, searchRecords, region)
      decreases searchRecords - processed
    {
      if batch + processed > searchRecords {
        batch := searchRecords - processed;
      }
      var first := searchRecords - processed - batch;
      var indices := flash.Read(EntryAt(logPage, first), 2 * batch);
      match_index := SearchBatch(flash, logPage, searchRecords, region, first, batch, indices);
      processed := processed + batch;
    }
    if match_index < 0 {
      LastIndexUnique(flash.bytes, logPage, searchRecords, region, -1);
    }
  }

  /** The inner loop: one batch, from its back. */
  method SearchBatch(flash: Flash, logPage: nat, searchRecords: nat, region: nat, first: nat, batch: nat,
                     indices: Bytes)
    returns (match_index: int)
    requires first + batch <= searchRecords && indices == Slice(flash.bytes, EntryAt(logPage, first), 2 * batch)
    requires forall i: nat :: first + batch <= i < searchRecords ==> Entry(flash.bytes, logPage, i) != region + 1
    ensures match_index >= -1
    ensures match_index < 0 ==>
              forall i: nat :: first <= i < searchRecords ==> Entry(flash.bytes, logPage, i) != region + 1
    ensures match_index >= 0 ==> match_index == LastIndex(flash.bytes, logPage, searchRecords, region)
  {
    match_index := -1;
    var i := batch - 1;
    while i >= 0
      invariant -1 <= i < batch && match_index == -1
      invariant forall j: nat :: first + i < j < searchRecords ==> Entry(flash.bytes, logPage, j) != region + 1
    {
      BatchEntry(flash.bytes, logPage, first, batch, i);
      if Word16(indices, 2 * i) - 1 == region {
        match_index := first + i;
        LastIndexUnique(flash.bytes, logPage, searchRecords, region, match_index);
        return;
      }
      i := i - 1;
    }
  }

  // ----- The next free record -----

  /** The first unused entry, or the number of records if all are used. */
  function FirstZero(b: Bytes, logPage: nat, from: nat, records: nat): (r: nat)
    ensures from <= records ==> from <= r <= records
    decreases records - from
  {
    if from >= records then from
    else if Entry(b, logPage, from) == 0 then from else FirstZero(b, logPage, from + 1, records)
  }

  lemma {:induction false} FirstZeroIs(b: Bytes, logPage: nat, from: nat, records: nat)
    requires from <= records
    ensures var r := FirstZero(b, logPage, from, records);
            && (r < records ==> Entry(b, logPage, r) == 0)
            && forall i: nat :: from <= i < r ==> Entry(b, logPage, i) != 0
    decreases records - from
  {
    if from < records && Entry(b, logPage, from) != 0 { FirstZeroIs(b, logPage, from + 1, records); }
  }

  lemma FirstZeroUnique(b: Bytes, logPage: nat, from: nat, records: nat, r: nat)
    requires from <= r <= records && (r < records ==> Entry(b, logPage, r) == 0)
    requires forall i: nat :: from <= i < r ==> Entry(b, logPage, i) != 0
    ensures r == FirstZero(b, logPage, from, records)
  {
    FirstZeroIs(b, logPage, from, records);
    assert r < FirstZero(b, logPage, from, records) ==> Entry(b, logPage, r) != 0;
  }

  /** Where the last batch of the forward search starts. */
  function LastBatch(records: nat): nat {
    var p := Min(records, LOG_TABLE_LIMIT);
    if p == 0 || records == 0 then 0 else Times(Quotient(records - 1, p), p)
  }

  /** What the forward search comes to: leaving the inner loop does not leave the outer one,
      so only the last batch has a say; and when that is full, its length is returned. */
  function SearchForward(b: Bytes, logPage: nat, records: nat): nat {
    LastBatchBounds(records);
    var s := LastBatch(records);
    var z := FirstZero(b, logPage, s, records);
    if z < records then z else records - s
  }

  ghost predicate Multiple(s: nat, p: nat) {
    exists k: nat :: s == Times(k, p)
  }

  lemma NextMultiple(s: nat, p: nat)
    ensures Multiple(0, p)
    ensures Multiple(s, p) ==> Multiple(s + p, p)
  {
    assert 0 == Times(0, p);
    if k: nat :| s == Times(k, p) {
      assert s + p == Times(k + 1, p);
    }
  }

  lemma LastBatchIs(records: nat, p: nat, s: nat)
    requires p == Min(records, LOG_TABLE_LIMIT) && p > 0 && Multiple(s, p) && s < records <= s + p
    ensures LastBatch(records) == s
  {
    var k: nat :| s == Times(k, p);
    QuotientUnique(records - 1, p, k, records - 1 - s);
  }

  /** `find_next_record` */
  method FindNextRecord(flash: Flash, recordCount: int, logPage: nat, records: nat) returns (record: nat)
    ensures record == if recordCount >= 0 then recordCount else SearchForward(flash.bytes, logPage, records)
  {
    if recordCount >= 0 {
      return recordCount;
    }
    LimitPositive();
    var preferred := Min(records, LOG_TABLE_LIMIT);
    record := records;
    var processed := 0;
    ghost var start: nat := 0;
    NextMultiple(0, preferred);
    while processed < records
      invariant processed <= records && preferred == Min(records, LOG_TABLE_LIMIT) && Multiple(start, preferred)
      invariant processed > 0 ==> start < processed <= start + preferred
      invariant processed == records || Multiple(processed, preferred)
      invariant processed > 0 ==>
                  var z := FirstZero(flash.bytes, logPage, start, processed);
                  record == if z < processed then z else processed - start
      invariant processed == 0 ==> record == records
    {
      var batch := if records - processed >= preferred then preferred else records - processed;
      var indices := flash.Read(EntryAt(logPage, processed), 2 * batch);
      record := SearchTable(flash, logPage, processed, batch, indices);
      NextMultiple(processed, preferred);
      start := processed;
      processed := processed + batch;
    }
    if records > 0 { LastBatchIs(records, preferred, start); }
  }

  /** The inner loop: the first unused entry of a batch. */
  method SearchTable(flash: Flash, logPage: nat, processed: nat, batch: nat, indices: Bytes) returns (record: nat)
    requires indices == Slice(flash.bytes, EntryAt(logPage, processed), 2 * batch)
    ensures var z := FirstZero(flash.bytes, logPage, processed, processed + batch);
            record == if z < processed + batch then z else batch
  {
    record := 0;
    while record < batch
      invariant record <= batch
      invariant forall i: nat :: processed <= i < processed + record ==> Entry(flash.bytes, logPage, i) != 0
    {
      BatchEntry(flash.bytes, logPage, processed, batch, record);
      if Word16(indices, 2 * record) == 0 {
        record := record + processed;
        FirstZeroUnique(flash.bytes, logPage, processed, processed + batch, record);
        return;
      }
      record := record + 1;
    }
    FirstZeroUnique(flash.bytes, logPage, processed, processed + batch, processed + batch);
  }

  /** A log is filled from the front: behind an unused entry there are only unused ones. */
  ghost predicate FilledFromFront(b: Bytes, logPage: nat, records: nat) {
    forall i: nat :: FirstZero(b, logPage, 0, records) <= i < records ==> Entry(b, logPage, i) == 0
  }

  /** The forward search is right exactly when the table fits one batch, or the first unused
      entry is in the last batch. */
  lemma SearchForwardRight(b: Bytes, logPage: nat, records: nat)
    requires FilledFromFront(b, logPage, records)
    ensures var used := FirstZero(b, logPage, 0, records);
            SearchForward(b, logPage, records) == used <==>
              records <= LOG_TABLE_LIMIT || LastBatch(records) <= used < records
  {
    LimitPositive();
    var s, used := LastBatch(records), FirstZero(b, logPage, 0, records);
    FirstZeroIs(b, logPage, 0, records);
    LastBatchBounds(records);
    if used < s {
      FirstZeroUnique(b, logPage, s, records, s);
    } else {
      FirstZeroUnique(b, logPage, s, records, used);
    }
  }

  /** A log with one record more than fits a batch. Of a blank table, the last entry is
      called the next one; of a full table, the second, which is in use. */
  lemma SearchForwardWrong() returns (blank: Bytes, full: Bytes, records: nat)
    ensures FilledFromFront(blank, 0, records) && FirstZero(blank, 0, 0, records) == 0
    ensures SearchForward(blank, 0, records) == LOG_TABLE_LIMIT
    ensures FilledFromFront(full, 0, records) && FirstZero(full, 0, 0, records) == records
    ensures SearchForward(full, 0, records) == 1
  {
    LimitPositive();
    records := LOG_TABLE_LIMIT + 1;
    blank, full := seq<byte>(EntryAt(0, records), _ => 0), seq<byte>(EntryAt(0, records), _ => 1);
    forall i: nat | i < records
      ensures Entry(blank, 0, i) == 0 && Entry(full, 0, i) == 257
    {
      UniformEntry(records, i);
    }
    QuotientUnique(records - 1, LOG_TABLE_LIMIT, 1, 0);
    TableEnds(blank, records, 0);
    TableEnds(full, records, 1);
  }

  lemma UniformEntry(records: nat, i: nat)
    requires i < records
    ensures Entry(seq<byte>(EntryAt(0, records), _ => 0), 0, i) == 0
    ensures Entry(seq<byte>(EntryAt(0, records), _ => 1), 0, i) == 257
  {
    UniformWord(seq<byte>(EntryAt(0, records), _ => 0), EntryAt(0, i), 0);
    UniformWord(seq<byte>(EntryAt(0, records), _ => 1), EntryAt(0, i), 1);
  }

  lemma UniformWord(b: Bytes, a: nat, x: byte)
    requires a + 2 <= |b| && forall k :: 0 <= k < |b| ==> b[k] == x
    ensures Word16(b, a) == x as nat + 256 * x as nat
  {
  }

  /** A table whose entries are all unused, or all used. */
  lemma TableEnds(b: Bytes, records: nat, x: nat)
    requires LOG_TABLE_LIMIT + 1 == records && LastBatch(records) == LOG_TABLE_LIMIT
    requires forall i: nat :: i < records ==> (Entry(b, 0, i) == 0 <==> x == 0)
    ensures FilledFromFront(b, 0, records) && FirstZero(b, 0, 0, records) == (if x == 0 then 0 else records)
    ensures SearchForward(b, 0, records) == if x == 0 then LOG_TABLE_LIMIT else 1
  {
    FirstZeroUnique(b, 0, 0, records, if x == 0 then 0 else records);
    FirstZeroUnique(b, 0, LOG_TABLE_LIMIT, records, if x == 0 then LOG_TABLE_LIMIT else records);
  }

  lemma LastBatchBounds(records: nat)
    ensures records == 0 || LastBatch(records) < records
    ensures LastBatch(records) == 0 <==> records <= LOG_TABLE_LIMIT
  {
    LimitPositive();
    var p := Min(records, LOG_TABLE_LIMIT);
    if records > 0 {
      QuotientParts(records - 1, p);
      if records <= LOG_TABLE_LIMIT {
        QuotientUnique(records - 1, p, 0, records - 1);
      } else if Quotient(records - 1, p) > 0 {
        TimesMono(1, Quotient(records - 1, p), p);
      }
    }
  }
}
