/** A file through the steps of a write: records, merges with the log, extension. */
module FileWrites {
  import opened Words
  import opened CoffeeConfig
  import opened FlashBytes
  import opened Extents
  import opened Collector
  import opened MicroLog
  import opened FileContent
  import opened FileSystem
  import opened FileCache

  /** The device, the cache of files and the descriptors at one moment; and whether a removal is
      waited for before garbage is collected again. */
  datatype View = View(t: Extents, b: Bytes, files: seq<File>, fds: seq<Desc>, waiting: bool)

  function SlotOf(v: View, fd: int): int {
    if 0 <= fd < |v.fds| then v.fds[fd].file else -1
  }

  function OffsetOf(v: View, fd: int): nat {
    if 0 <= fd < |v.fds| then v.fds[fd].offset else 0
  }

  function CapOf(v: View, s: int): nat {
    Capacity(LenOf(v.files, s))
  }

  /** Everything but that files have different names. */
  ghost predicate ViewOk(v: View) {
    Tiled(v.t, v.b) && FilesOk(v.t, v.b) && CacheOk(v.t, v.b, v.files, v.fds)
  }

  ghost predicate SameName(b: Bytes, a: nat, b': Bytes, a': nat) {
    HeaderAt(b', a').name == HeaderAt(b, a).name
  }

  /** A file has the log configuration that another had. */
  ghost predicate SameLogs(b: Bytes, a: nat, b': Bytes, a': nat) {
    && HeaderAt(b', a').logRecords == HeaderAt(b, a).logRecords
    && HeaderAt(b', a').logRecordSize == HeaderAt(b, a).logRecordSize
  }

  // ----- Single steps -----

  /** The file of slot s is now in slot n, with the same name, with the same bytes up to its
      end and zeros behind; the descriptors are on it at the offsets they had; its old extent
      and its old log are no longer in use; nothing else has changed. */
  ghost predicate Merged(v: View, v': View, s: int, n: int, len: nat) {
    && Held(v'.t, v'.b, v'.files, n) && SameOpen(Remap(v.fds, s, n), v'.fds) && s != n
    && v'.files[n].end == EndOf(v.files, s) && v'.files[n].maxPages == len && !v'.files[n].modified
    && SameName(v.b, PageOf(v.files, s), v'.b, PageOf(v'.files, n))
    && SameLogs(v.b, PageOf(v.files, s), v'.b, PageOf(v'.files, n))
    && CopiedUpTo(v.b, PageOf(v.files, s), v'.b, PageOf(v'.files, n), EndOf(v.files, s), Capacity(len))
    && OldNames(v.t, v.b, v'.t, v'.b, {})
    && !IsActive(v.t, PageOf(v'.files, n)) && 0 <= n < |v.files| && v.files[n].references == 0
    && !IsActive(v'.t, PageOf(v.files, s))
    && (LogOf(v.b, PageOf(v.files, s)) >= 0 ==> !IsActive(v'.t, LogOf(v.b, PageOf(v.files, s))))
    && Others(v.t, v.b, v'.t, v'.b, FilePages(v.b, PageOf(v.files, s))) && SlotsKept(v.files, v'.files, s)
  }

  /** A piece of data has been written to the file in slot s, on its extent or to its log. */
  ghost predicate Wrote(v: View, v': View, s: int, offset: nat, d: Bytes) {
    && Held(v'.t, v'.b, v'.files, s) && SlotsKept(v.files, v'.files, s) && v'.fds == v.fds
    && PageOf(v'.files, s) == PageOf(v.files, s) && EndOf(v'.files, s) == EndOf(v.files, s)
    && LenOf(v'.files, s) == LenOf(v.files, s)
    && SameName(v.b, PageOf(v.files, s), v'.b, PageOf(v'.files, s)) && OldNames(v.t, v.b, v'.t, v'.b, {})
    && Others(v.t, v.b, v'.t, v'.b, {PageOf(v'.files, s)}) && FileSpliced(v.b, v.files, s, v'.b, v'.files, s, offset, d)
  }

  /** The files are as before, and so is what is open. */
  ghost predicate Untouched(v: View, v': View) {
    && SameOpen(v.fds, v'.fds) && SlotsKept(v.files, v'.files, -1)
    && Others(v.t, v.b, v'.t, v'.b, {}) && OldNames(v.t, v.b, v'.t, v'.b, {})
  }

  function EndAtLeast(f: File, e: int): File {
    if f.end < e then f.(end := e) else f
  }

  /** A descriptor, and if necessary the end of its file, is moved on. */
  function Advanced(v: View, fd: int, n: nat): View
    requires 0 <= fd < |v.fds| && 0 <= v.fds[fd].file < |v.files|
  {
    var s, o := v.fds[fd].file, v.fds[fd].offset + n;
    v.(files := v.files[s := EndAtLeast(v.files[s], o)], fds := v.fds[fd := v.fds[fd].(offset := o)])
  }

  // ----- The length of an extent -----

  /** An extent of len0 pages has been doubled, to len pages, and never when it was already large
      enough. */
  predicate DoubledTo(len0: nat, len: nat, need: nat) {
    len == len0
    || (len > 0 && len % 2 == 0 && need > Capacity(len / 2) && DoubledTo(len0, len / 2, need))
  }

  lemma DoubledOnce(len0: nat, len: nat, len': nat, need: nat)
    requires DoubledTo(len0, len, need) && need > Capacity(len) && 0 < len && len' == 2 * len
    ensures DoubledTo(len0, len', need)
  {
  }

  function Doubled(len: nat, k: nat): nat {
    if k == 0 then len else 2 * Doubled(len, k - 1)
  }

  /** So it has been doubled as often as necessary, and no more often. */
  lemma {:induction false} DoubledLeast(len0: nat, len: nat, need: nat) returns (k: nat)
    requires DoubledTo(len0, len, need) && need <= Capacity(len)
    ensures len == Doubled(len0, k) && forall j: nat :: need <= Capacity(Doubled(len0, j)) ==> k <= j
  {
    k := DoublingsTo(len0, len, need);
    if k > 0 {
      forall j: nat | need <= Capacity(Doubled(len0, j)) ensures k <= j {
        if j < k {
          DoubledMono(len0, j, k - 1);
          CapacityMono(Doubled(len0, j), len / 2);
        }
      }
    }
  }

  lemma {:induction false} DoublingsTo(len0: nat, len: nat, need: nat) returns (k: nat)
    requires DoubledTo(len0, len, need)
    ensures len == Doubled(len0, k) && (k > 0 ==> need > Capacity(len / 2))
  {
    if len == len0 {
      k := 0;
    } else {
      k := DoublingsTo(len0, len / 2, need);
      k := k + 1;
    }
  }

  lemma {:induction false} DoubledMono(len: nat, j: nat, k: nat)
    requires j <= k
    ensures Doubled(len, j) <= Doubled(len, k)
  {
    if j < k { DoubledMono(len, j, k - 1); }
  }

  /** The extent has been doubled just so often that n bytes fit behind the offset. */
  ghost predicate RoomMade(v0: View, v: View, fd: int, n: nat) {
    && OffsetOf(v0, fd) + n <= CapOf(v, SlotOf(v, fd))
    && DoubledTo(LenOf(v0.files, SlotOf(v0, fd)), LenOf(v.files, SlotOf(v, fd)), OffsetOf(v0, fd) + n)
  }

  // ----- Several steps -----

  /** The other descriptors, when the file of slot s0 is now in slot s. */
  ghost predicate DescsFollow(fds0: seq<Desc>, fd: int, s0: int, s: int, fds': seq<Desc>) {
    |fds'| == |fds0| && forall k :: 0 <= k < |fds0| && k != fd ==>
      (fds'[k].Open() <==> fds0[k].Open()) && (fds0[k].Open() ==> fds'[k] == Moved(fds0[k], s0, s))
  }

  ghost predicate SlotsFollow(files0: seq<File>, s0: int, s: int, files': seq<File>) {
    SlotsKept(files0, files', s0) && (s == s0 || (0 <= s < |files0| && files0[s].references == 0))
  }

  /** After the bytes d have been written through descriptor fd: its file holds them at the
      old offset and is otherwise what it was; it may have moved to another extent and to
      another slot, and all its descriptors with it. The other files are as they were. */
  ghost predicate Written(v0: View, v: View, fd: int, d: Bytes) {
    && 0 <= fd < |v0.fds| == |v.fds| && v0.fds[fd].Open()
    && var s0, s, o := SlotOf(v0, fd), SlotOf(v, fd), OffsetOf(v0, fd);
       && Held(v.t, v.b, v.files, s) && LenOf(v.files, s) > 0
       && v.fds[fd] == v0.fds[fd].(file := s, offset := o + |d|)
       && DescsFollow(v0.fds, fd, s0, s, v.fds) && SlotsFollow(v0.files, s0, s, v.files)
       && EndOf(v.files, s) == (if EndOf(v0.files, s0) < o + |d| then o + |d| else EndOf(v0.files, s0))
       && LenOf(v0.files, s0) <= LenOf(v.files, s)
       && SameName(v0.b, PageOf(v0.files, s0), v.b, PageOf(v.files, s))
       && Content(v0.b, PageOf(v0.files, s0), EndOf(v0.files, s0), CapOf(v0, s0), v.b, PageOf(v.files, s), CapOf(v, s),
                  o, d)
       && OnlyFile(v0.t, v0.b, PageOf(v0.files, s0), v.t, v.b, PageOf(v.files, s))
  }

  lemma NothingWritten(v: View, fd: int)
    requires ViewOk(v) && 0 <= fd < |v.fds| && v.fds[fd].Open()
    ensures Written(v, v, fd, [])
  {
    var s := SlotOf(v, fd);
    assert DescOk(v.t, v.b, v.files, v.fds[fd]) && SlotOk(v.t, v.b, v.files[s]);
    RefNone(v.fds, s);
    assert v.fds[fd].On(s);
    ContentHere(v.b, PageOf(v.files, s), EndOf(v.files, s), CapOf(v, s), OffsetOf(v, fd));
    forall a: nat ensures Other(v.t, v.b, v.t, v.b, a) { }
  }

  // ----- The descriptors -----

  /** Descriptors that followed a file to slot s follow it on to slot n. */
  lemma FollowOn(v0: View, v1: View, v2: View, fd: int, s: int, n: int)
    requires ViewOk(v0) && 0 <= fd < |v0.fds| && v0.fds[fd].Open() && s == SlotOf(v1, fd)
    requires DescsFollow(v0.fds, fd, SlotOf(v0, fd), s, v1.fds) && SlotsFollow(v0.files, SlotOf(v0, fd), s, v1.files)
    requires SameOpen(Remap(v1.fds, s, n), v2.fds) && v1.fds[fd].Open()
    ensures DescsFollow(v0.fds, fd, SlotOf(v0, fd), n, v2.fds) && v2.fds[fd] == v1.fds[fd].(file := n)
  {
    var s0 := SlotOf(v0, fd);
    forall k | 0 <= k < |v0.fds| && k != fd
      ensures (v2.fds[k].Open() <==> v0.fds[k].Open()) && (v0.fds[k].Open() ==> v2.fds[k] == Moved(v0.fds[k], s0, n))
    {
      if v0.fds[k].Open() {
        assert DescOk(v0.t, v0.b, v0.files, v0.fds[k]);
        RefNone(v0.fds, v0.fds[k].file);
        assert v0.fds[k].On(v0.fds[k].file);
      }
    }
  }

  /** As do the slots. */
  lemma SlotsOn(files0: seq<File>, files1: seq<File>, files2: seq<File>, s0: int, s: int, n: int)
    requires SlotsFollow(files0, s0, s, files1) && SlotsKept(files1, files2, s) && 0 <= n < |files1|
    requires files1[n].references == 0
    requires forall i :: 0 <= i < |files0| ==> files0[i].references >= 0
    ensures SlotsFollow(files0, s0, n, files2)
  {
  }

  // ----- A merge -----

  lemma MergeContent(v0: View, v1: View, v2: View, fd: int, d: Bytes, n: int, len: nat)
    requires ViewOk(v1) && Written(v0, v1, fd, d) && Merged(v1, v2, SlotOf(v1, fd), n, len)
    ensures var s0 := SlotOf(v0, fd);
            Content(v0.b, PageOf(v0.files, s0), EndOf(v0.files, s0), CapOf(v0, s0), v2.b, PageOf(v2.files, n),
                    CapOf(v2, n), OffsetOf(v0, fd), d)
  {
    var s0, s := SlotOf(v0, fd), SlotOf(v1, fd);
    assert SlotOk(v1.t, v1.b, v1.files[s]);
    ContentCopied(v0.b, PageOf(v0.files, s0), EndOf(v0.files, s0), CapOf(v0, s0), v1.b, PageOf(v1.files, s),
                  CapOf(v1, s),
                  v2.b, PageOf(v2.files, n), CapOf(v2, n), OffsetOf(v0, fd), d, EndOf(v1.files, s));
  }

  lemma MergeOnly(v1: View, v2: View, s: int, n: int, len: nat)
    requires ViewOk(v1) && Held(v1.t, v1.b, v1.files, s) && Merged(v1, v2, s, n, len)
    ensures OnlyFile(v1.t, v1.b, PageOf(v1.files, s), v2.t, v2.b, PageOf(v2.files, n))
  {
    var p := PageOf(v1.files, s);
    assert FileOk(v1.t, v1.b, p);
    forall a: nat | a != p && IsFile(v1.t, v1.b, a) ensures Other(v1.t, v1.b, v2.t, v2.b, a) { }
  }

  /** A merge, into an extent that is no smaller, changes nothing of what has been written. */
  lemma MergeStep(v0: View, v1: View, v2: View, fd: int, d: Bytes, n: int, len: nat)
    requires ViewOk(v0) && ViewOk(v1) && Written(v0, v1, fd, d)
    requires Merged(v1, v2, SlotOf(v1, fd), n, len) && LenOf(v1.files, SlotOf(v1, fd)) <= len
    ensures Written(v0, v2, fd, d) && SlotOf(v2, fd) == n
  {
    var s0, s := SlotOf(v0, fd), SlotOf(v1, fd);
    FollowOn(v0, v1, v2, fd, s, n);
    SlotsOn(v0.files, v1.files, v2.files, s0, s, n);
    MergeContent(v0, v1, v2, fd, d, n, len);
    MergeOnly(v1, v2, s, n, len);
    OnlyFileStep(v0.t, v0.b, PageOf(v0.files, s0), v1.t, v1.b, PageOf(v1.files, s), v2.t, v2.b, PageOf(v2.files, n));
  }

  // ----- A piece -----

  lemma SpliceStep(v0: View, v1: View, v2: View, fd: int, d: Bytes, s: int, e: Bytes)
    requires Written(v0, v1, fd, d) && s == SlotOf(v1, fd) && Wrote(v1, v2, s, OffsetOf(v1, fd), e)
    ensures var s0 := SlotOf(v0, fd);
            && Content(v0.b, PageOf(v0.files, s0), EndOf(v0.files, s0), CapOf(v0, s0), v2.b, PageOf(v2.files, s),
                       CapOf(v2, s), OffsetOf(v0, fd), d + e)
            && OnlyFile(v0.t, v0.b, PageOf(v0.files, s0), v2.t, v2.b, PageOf(v2.files, s))
  {
    var s0, p := SlotOf(v0, fd), PageOf(v1.files, s);
    ContentSpliced(v0.b, PageOf(v0.files, s0), EndOf(v0.files, s0), CapOf(v0, s0), v1.b, p, v2.b, CapOf(v2, s),
                   OffsetOf(v0, fd), d, e);
    OnlyFileHere(v1.t, v1.b, v2.t, v2.b, p, {p});
    OnlyFileStep(v0.t, v0.b, PageOf(v0.files, s0), v1.t, v1.b, p, v2.t, v2.b, p);
  }

  /** A piece written right behind what has been written, and the descriptor moved on. */
  lemma PieceStep(v0: View, v1: View, v2: View, fd: int, d: Bytes, e: Bytes)
    requires Written(v0, v1, fd, d) && Wrote(v1, v2, SlotOf(v1, fd), OffsetOf(v1, fd), e)
    ensures Written(v0, Advanced(v2, fd, |e|), fd, d + e)
  {
    SpliceStep(v0, v1, v2, fd, d, SlotOf(v1, fd), e);
  }

  /** What is written stays written when nothing happens to the files. */
  lemma UntouchedStep(v0: View, v1: View, v2: View, fd: int, d: Bytes)
    requires ViewOk(v1) && Written(v0, v1, fd, d) && Untouched(v1, v2)
    ensures Written(v0, v2, fd, d) && SlotOf(v2, fd) == SlotOf(v1, fd)
    ensures v2.files[SlotOf(v1, fd)] == v1.files[SlotOf(v1, fd)]
  {
    var s := SlotOf(v1, fd);
    var p := PageOf(v1.files, s);
    assert Other(v1.t, v1.b, v2.t, v2.b, p) && SlotOk(v1.t, v1.b, v1.files[s]);
    OtherSpliced(v1.t, v1.b, v2.t, v2.b, p);
    assert d + [] == d;
    UntouchedRest(v0, v1, v2, fd, d);
  }

  lemma UntouchedRest(v0: View, v1: View, v2: View, fd: int, d: Bytes)
    requires Written(v0, v1, fd, d) && Untouched(v1, v2)
    requires Spliced(v1.b, PageOf(v1.files, SlotOf(v1, fd)), v2.b, PageOf(v1.files, SlotOf(v1, fd)),
                     CapOf(v1, SlotOf(v1, fd)), 0, [])
    ensures Written(v0, v2, fd, d)
  {
    var s0, s := SlotOf(v0, fd), SlotOf(v1, fd);
    var p := PageOf(v1.files, s);
    assert Other(v1.t, v1.b, v2.t, v2.b, p);
    OnlyFileHere(v1.t, v1.b, v2.t, v2.b, p, {});
    OnlyFileStep(v0.t, v0.b, PageOf(v0.files, s0), v1.t, v1.b, p, v2.t, v2.b, p);
    ContentSpliced(v0.b, PageOf(v0.files, s0), EndOf(v0.files, s0), CapOf(v0, s0), v1.b, p, v2.b, CapOf(v2, s),
                   OffsetOf(v0, fd), d, []);
    assert d + [] == d;
  }

  // ----- The dummy byte -----

  const DUMMY: byte := 0xFF

  /** The last byte written may be overwritten with the dummy. */
  ghost predicate LastMayDiffer(d: Bytes, d': Bytes) {
    |d| > 0 && (d' == d || d' == d[..|d| - 1] + [DUMMY])
  }

  /** A record stands for the byte before the descriptor's offset. */
  ghost predicate LastRecorded(v: View, fd: int) {
    OffsetOf(v, fd) > 0 && HasRecord(v.b, PageOf(v.files, SlotOf(v, fd)), OffsetOf(v, fd) - 1)
  }

  /** Where nothing happens to the files, records stay. */
  lemma RecordedStill(v1: View, v2: View, fd: int)
    requires ViewOk(v1) && 0 <= fd < |v1.fds| && v1.fds[fd].Open() && Untouched(v1, v2)
    ensures LastRecorded(v2, fd) <==> LastRecorded(v1, fd)
    ensures 0 <= SlotOf(v1, fd) < |v1.files| == |v2.files| && v2.files[SlotOf(v1, fd)] == v1.files[SlotOf(v1, fd)]
  {
    var s := SlotOf(v1, fd);
    assert DescOk(v1.t, v1.b, v1.files, v1.fds[fd]) && SlotOk(v1.t, v1.b, v1.files[s]);
    RefNone(v1.fds, s);
    assert v1.fds[fd].On(s);
    assert Other(v1.t, v1.b, v2.t, v2.b, PageOf(v1.files, s));
  }

  /** The dummy byte goes to the extent where the last byte written belongs. If a record
      stands for that byte, the file does not change. */
  lemma DummyStep(v0: View, v1: View, v2: View, fd: int, d: Bytes) returns (d': Bytes)
    requires ViewOk(v1) && Written(v0, v1, fd, d) && |d| > 0
    requires v2 == v1.(b := v2.b) && DataChanged(v1.t, v1.b, v2.b, PageOf(v1.files, SlotOf(v1, fd)))
    requires Held(v2.t, v2.b, v2.files, SlotOf(v1, fd))
    requires Others(v1.t, v1.b, v2.t, v2.b, {PageOf(v1.files, SlotOf(v1, fd))})
    requires SameName(v1.b, PageOf(v1.files, SlotOf(v1, fd)), v2.b, PageOf(v1.files, SlotOf(v1, fd)))
    requires v2.b == Put(v1.b, Absolute(PageOf(v1.files, SlotOf(v1, fd)), OffsetOf(v1, fd) - 1), [DUMMY])
    ensures Written(v0, v2, fd, d') && LastMayDiffer(d, d')
    ensures d' == if LastRecorded(v1, fd) then d else d[..|d| - 1] + [DUMMY]
  {
    var s, x: nat := SlotOf(v1, fd), OffsetOf(v1, fd) - 1;
    var p := PageOf(v1.files, s);
    d' := if HasRecord(v1.b, p, x) then d else d[..|d| - 1] + [DUMMY];
    DummyInside(v0, v1, fd, d, x);
    DummyContent(v0, v1, v2, fd, d, d', p, x);
    OnlyFileHere(v1.t, v1.b, v2.t, v2.b, p, {p});
    OtherBytesStep(v0, v1, v2, fd, d, d');
  }

  lemma DummyInside(v0: View, v1: View, fd: int, d: Bytes, x: nat)
    requires ViewOk(v1) && Written(v0, v1, fd, d) && x < OffsetOf(v1, fd)
    ensures Absolute(PageOf(v1.files, SlotOf(v1, fd)), x) < |v1.b|
  {
    var s := SlotOf(v1, fd);
    assert SlotOk(v1.t, v1.b, v1.files[s]);
    ByteInside(v1, s, x);
  }

  /** Only the bytes of the device change. */
  lemma OtherBytesStep(v0: View, v1: View, v2: View, fd: int, d: Bytes, d': Bytes)
    requires Written(v0, v1, fd, d) && v2 == v1.(b := v2.b) && |d'| == |d| && Held(v2.t, v2.b, v2.files, SlotOf(v1, fd))
    requires var s0, s := SlotOf(v0, fd), SlotOf(v1, fd);
             && SameName(v1.b, PageOf(v1.files, s), v2.b, PageOf(v1.files, s))
             && Content(v0.b, PageOf(v0.files, s0), EndOf(v0.files, s0), CapOf(v0, s0), v2.b, PageOf(v1.files, s),
                        CapOf(v2, s), OffsetOf(v0, fd), d')
             && OnlyFile(v1.t, v1.b, PageOf(v1.files, s), v2.t, v2.b, PageOf(v1.files, s))
    ensures Written(v0, v2, fd, d')
  {
    var s0, p := SlotOf(v0, fd), PageOf(v1.files, SlotOf(v1, fd));
    OnlyFileStep(v0.t, v0.b, PageOf(v0.files, s0), v1.t, v1.b, p, v2.t, v2.b, p);
  }

  lemma DummyContent(v0: View, v1: View, v2: View, fd: int, d: Bytes, d': Bytes, p: nat, x: nat)
    requires ViewOk(v1) && Written(v0, v1, fd, d) && |d| > 0 && p == PageOf(v1.files, SlotOf(v1, fd))
    requires x == OffsetOf(v1, fd) - 1
    requires v2 == v1.(b := v2.b) && DataChanged(v1.t, v1.b, v2.b, p) && v2.b == Put(v1.b, Absolute(p, x), [DUMMY])
    requires d' == (if HasRecord(v1.b, p, x) then d else d[..|d| - 1] + [DUMMY]) && Absolute(p, x) < |v1.b|
    ensures var s0, s := SlotOf(v0, fd), SlotOf(v1, fd);
            Content(v0.b, PageOf(v0.files, s0), EndOf(v0.files, s0), CapOf(v0, s0), v2.b, p, CapOf(v2, s),
                    OffsetOf(v0, fd), d')
  {
    var s0, s := SlotOf(v0, fd), SlotOf(v1, fd);
    var p0, end0, o0 := PageOf(v0.files, s0), EndOf(v0.files, s0), OffsetOf(v0, fd);
    forall o: nat | o < CapOf(v1, s) ensures ContentByte(v0.b, p0, end0, CapOf(v0, s0), Byte(v2.b, p, o), o, o0, d') {
      DataByte(v1.t, v1.b, v2.b, p, o);
      DummyAt(v1.b, p, x, o);
      assert ContentByte(v0.b, p0, end0, CapOf(v0, s0), Byte(v1.b, p, o), o, o0, d);
    }
  }

  /** A byte within the capacity of a cached file lies on the device. */
  lemma ByteInside(v: View, s: int, x: nat)
    requires ViewOk(v) && Cached(v.t, v.b, v.files, s) && x < CapOf(v, s)
    ensures Absolute(PageOf(v.files, s), x) < |v.b|
  {
    var p := PageOf(v.files, s);
    assert SlotOk(v.t, v.b, v.files[s]);
    LogInside(v.t, v.b, p);
    CapacityIs(v.t[p].len);
    OffsetAdd(p, v.t[p].len);
  }

  lemma DummyAt(b: Bytes, p: nat, x: nat, o: nat)
    requires Absolute(p, x) < |b|
    ensures At(Put(b, Absolute(p, x), [DUMMY]), Absolute(p, o)) == if o == x then DUMMY else At(b, Absolute(p, o))
  {
    PutAt(b, Absolute(p, x), [DUMMY], Absolute(p, o));
  }

  // ----- The data piece by piece -----

  /** The first k bytes of the data. */
  ghost predicate Front(d: Bytes, buf: Bytes, k: int) {
    0 <= k <= |buf| && d == buf[..k]
  }

  /** After a piece of i bytes; a count of -1 or 0 means that there was none. */
  ghost predicate NextPiece(d: Bytes, data: Bytes, i: int, d': Bytes) {
    i <= |data| && d' == if i > 0 then d + data[..i] else d
  }

  lemma FrontPiece(d: Bytes, buf: Bytes, k: nat, size: nat, i: int, d': Bytes)
    requires Front(d, buf, k) && k + size <= |buf| && NextPiece(d, buf[k..k + size], i, d')
    ensures Front(d', buf, if i > 0 then k + i else k)
  {
  }

  /** The size field while data is left. */
  lemma SizeFieldBound(n: nat, k: nat)
    requires k <= n && (n >= 0x1_0000 ==> k <= SizeField(n))
    ensures SizeField(n - k) <= n - k
    ensures n < 0x1_0000 ==> SizeField(n - k) == n - k
    ensures n >= 0x1_0000 ==> SizeField(n - k) == SizeField(n) - k && k < n
  {
    DivModDef(n, 0x1_0000);
    DivModDef(n - k, 0x1_0000);
    if n >= 0x1_0000 { DivModUnique(n - k, 0x1_0000, n / 0x1_0000, SizeField(n) - k); }
  }

  // ----- The rounds of the log loop, by the numbers -----

  /** The rounds that n bytes at an offset take: one for each region, of z bytes, that they
      touch. */
  function Pieces(z: Positive, offset: nat, n: nat): int {
    if n == 0 then 0 else Quotient(offset + n - 1, z) - Quotient(offset, z) + 1
  }

  /** The part of n bytes at an offset that goes to the first region. */
  function PieceSize(z: Positive, offset: nat, n: nat): nat {
    QuotientParts(offset, z);
    Min(n, z - Rest(offset, z))
  }

  /** The first piece takes one of the rounds. */
  lemma NextPieces(z: Positive, offset: nat, n: nat)
    requires n > 0
    ensures 0 < PieceSize(z, offset, n) <= n && Pieces(z, offset, n) > 0
    ensures Pieces(z, offset + PieceSize(z, offset, n), n - PieceSize(z, offset, n)) == Pieces(z, offset, n) - 1
  {
    QuotientParts(offset, z);
    QuotientParts(offset + n - 1, z);
    var p := PieceSize(z, offset, n);
    if p == n {
      QuotientUnique(offset + n - 1, z, Quotient(offset, z), Rest(offset, z) + n - 1);
    } else {
      QuotientUnique(offset + p, z, Quotient(offset, z) + 1, 0);
      if Quotient(offset + n - 1, z) < Quotient(offset + p, z) {
        TimesMono(Quotient(offset + n - 1, z), Quotient(offset + p, z), z);
      }
    }
  }

  /** A file and its log, and the place where allocation goes on: the size of a record, the
      records of a log, the pages of a log and of the file, whether there is a log, and the
      records left in it. */
  datatype Ledger = Ledger(size: Positive, records: nat, logPages: nat, len: nat, logged: bool, unused: int, next: nat)

  datatype Outcome = Adds | Merges | Fails

  /** A round on a device that fills from the front: a record goes to the log; a full log is
      merged with the file; or else there is no room. */
  function Round(l: Ledger): (Outcome, Ledger) {
    if l.logged && l.unused > 0 then
      (Adds, l.(unused := l.unused - 1))
    else if l.logged then
      if l.next + l.len < PAGE_COUNT then (Merges, l.(logged := false, unused := 0, next := l.next + l.len))
      else (Fails, l)
    else if l.next + l.logPages < PAGE_COUNT then
      (Adds, l.(logged := true, unused := l.records - 1, next := l.next + l.logPages))
    else
      (Fails, l)
  }

  /** The pages of a log. */
  function LogPages(h: Header): nat {
    PageCount(LogBytes(h))
  }

  /** The records that are left in a file's log. */
  function Unused(b: Bytes, page: nat): nat {
    var h := HeaderAt(b, page);
    if h.modified && h.logPage >= 0 then Records(h) - FirstZero(b, h.logPage, 0, Records(h)) else 0
  }

  /** The numbers of the file in slot s. */
  function LedgerAt(b: Bytes, files: seq<File>, s: int, next: nat): Ledger {
    var h := HeaderAt(b, PageOf(files, s));
    Ledger(PositiveSize(h), Records(h), LogPages(h), LenOf(files, s), h.modified, Unused(b, PageOf(files, s)), next)
  }

  lemma OtherLedger(v: View, v': View, s: int, next: nat)
    requires Held(v.t, v.b, v.files, s) && Other(v.t, v.b, v'.t, v'.b, PageOf(v.files, s))
    requires v.t[PageOf(v.files, s)].len > 0
    requires PageOf(v'.files, s) == PageOf(v.files, s) && LenOf(v'.files, s) == LenOf(v.files, s)
    ensures LedgerAt(v'.b, v'.files, s, next) == LedgerAt(v.b, v.files, s, next)
  {
    var h := HeaderAt(v.b, PageOf(v.files, s));
    if h.modified && h.logPage >= 0 { assert CountOk(v.b, h, FirstZero(v.b, h.logPage, 0, Records(h))); }
  }

  lemma GivenLedger(b: Bytes, files: seq<File>, b': Bytes, files': seq<File>, s: int, h': Header, next: nat, next': nat)
    requires PageOf(files', s) == PageOf(files, s) && LenOf(files', s) == LenOf(files, s)
    requires h' == HeaderAt(b', PageOf(files', s)) && h'.modified && LogCount(b', files', s, 0)
    requires h' == HeaderAt(b, PageOf(files, s)).(modified := h'.modified, logPage := h'.logPage, valid := h'.valid)
    ensures LedgerAt(b', files', s, next') == var l := LedgerAt(b, files, s, next); l.(logged := true,
                unused := l.records, next := next')
  {
  }

  lemma MergedLedger(v: View, v': View, s: int, n: int, len: nat, next: nat)
    requires Merged(v, v', s, n, len) && ViewOk(v')
    ensures LedgerAt(v'.b, v'.files, n, next) ==
                LedgerAt(v.b, v.files, s, next).(len := len, logged := false, unused := 0)
    ensures NoneFree(v'.fds) <==> NoneFree(v.fds)
  {
    assert SlotOk(v'.t, v'.b, v'.files[n]);
    RemapOpen(v.fds, s, n, v'.fds);
  }

  /** A log has been made, and then a record. */
  lemma FirstRound(l: Ledger, l1: Ledger, l2: Ledger, i: int, piece: nat)
    requires !l.logged && l.records > 0 && l.next + l.logPages < PAGE_COUNT
    requires l1 == l.(logged := true, unused := l.records, next := l.next + l.logPages)
    requires RoundIs(l1, l2, i, false, piece)
    ensures RoundIs(l, l2, i, false, piece)
  {
  }

  /** How many of m pieces are left when there is no more room, or no more to write. */
  function Foretell(m: nat, l: Ledger): (nat, Ledger)
    decreases m, if l.logged then 1 else 0
  {
    if m == 0 then (0, l)
    else match Round(l).0
      case Adds => Foretell(m - 1, Round(l).1)
      case Merges => Foretell(m, Round(l).1)
      case Fails => (m, l)
  }

  /** A round has gone as the numbers say; `piece` is what goes to a record. */
  predicate RoundIs(l: Ledger, l': Ledger, i: int, merged: bool, piece: nat) {
    && l' == Round(l).1 && (i == -1 <==> Round(l).0 == Fails) && (merged <==> Round(l).0 == Merges)
    && (Round(l).0 == Adds ==> i == piece)
  }

  /** The log has records enough for m pieces. */
  predicate Enough(l: Ledger, m: int) {
    l.logged && m <= l.unused
  }

  /** The end of the loop is known, since the device fills from the front or the log will do. */
  predicate Foreseen(l: Ledger, m: int, sure: bool, end: (nat, Ledger)) {
    m >= 0 && (sure || Enough(l, m)) && Foretell(m, l) == end
  }

  /** What is known of the end: the rounds that will be missing, and the numbers then. */
  datatype Forecast = Unknown | Known(missing: nat, ledger: Ledger)

  /** It stays so, round by round. */
  lemma RoundForeseen(l: Ledger, l': Ledger, offset: nat, n: nat, i: int, merged: bool, sure: bool, sure': bool,
                      end: (nat, Ledger))
    requires n > 0 && Foreseen(l, Pieces(l.size, offset, n), sure, end) && (sure ==> sure')
    requires RoundIs(l, l', i, merged, PieceSize(l.size, offset, n))
    ensures l'.size == l.size
    ensures i == -1 ==> end == (Pieces(l.size, offset, n), l') && end.0 > 0
    ensures merged ==> Foreseen(l', Pieces(l.size, offset, n), sure', end)
    ensures i != -1 && !merged ==> 0 < i <= n && Foreseen(l', Pieces(l.size, offset + i, n - i), sure', end)
  {
    NextPieces(l.size, offset, n);
  }

  /** With records enough in the log, nothing is left. */
  lemma {:induction false} EnoughForetold(m: nat, l: Ledger)
    requires Enough(l, m)
    ensures Foretell(m, l) == (0, l.(unused := l.unused - m))
  {
    if m > 0 { EnoughForetold(m - 1, l.(unused := l.unused - 1)); }
  }

  /** The pages for the merges and the new logs that m pieces take. */
  function PagesNeeded(m: nat, l: Ledger): nat
    requires l.records > 0
    decreases m, if l.logged then 1 else 0
  {
    if m == 0 then 0
    else if l.logged && l.unused > 0 then PagesNeeded(m - 1, l.(unused := l.unused - 1))
    else if l.logged then l.len + PagesNeeded(m, l.(logged := false, unused := 0))
    else l.logPages + PagesNeeded(m - 1, l.(logged := true, unused := l.records - 1))
  }

  /** Nothing is left exactly if there is room for them all. */
  lemma {:induction false} ForetellIs(m: nat, l: Ledger)
    requires l.records > 0 && l.logPages > 0
    ensures Foretell(m, l).0 == 0 <==> PagesNeeded(m, l) == 0 || l.next + PagesNeeded(m, l) < PAGE_COUNT
    decreases m, if l.logged then 1 else 0
  {
    if m > 0 {
      var l' := Round(l).1;
      match Round(l).0
      case Adds => ForetellIs(m - 1, l'); NeededSame(m - 1, l', l.next);
      case Merges => ForetellIs(m, l'); NeededSame(m, l', l.next);
      case Fails =>
    }
  }

  /** The place where allocation goes on does not matter for what is needed. */
  lemma {:induction false} NeededSame(m: nat, l: Ledger, next: nat)
    requires l.records > 0
    ensures PagesNeeded(m, l.(next := next)) == PagesNeeded(m, l)
    decreases m, if l.logged then 1 else 0
  {
    if m > 0 {
      if l.logged && l.unused > 0 {
        NeededSame(m - 1, l.(unused := l.unused - 1), next);
      } else if l.logged {
        NeededSame(m, l.(logged := false, unused := 0), next);
      } else {
        NeededSame(m - 1, l.(logged := true, unused := l.records - 1), next);
      }
    }
  }

  /** What a write that stops early has written. */
  ghost predicate PartOf(d: Bytes, buf: Bytes) {
    0 < |d| < |buf| && LastMayDiffer(buf[..|d|], d)
  }

  /** Nothing, all or a part. */
  ghost predicate Portion(d: Bytes, buf: Bytes) {
    |d| == 0 || d == buf || PartOf(d, buf)
  }

  lemma FrontEnd(d: Bytes, buf: Bytes, k: int, dummy: bool, d': Bytes)
    requires Front(d, buf, k) && (dummy ==> 0 < k < |buf|)
    requires d' == if dummy then d[..|d| - 1] + [DUMMY] else d
    ensures |d'| == k && (k == |buf| ==> d' == buf) && Portion(d', buf)
  {
  }

  // ----- What a write means for the contents -----

  /** A file's bytes with d spliced in at an offset within it. */
  function Splice(w: Bytes, o: nat, d: Bytes): Bytes
    requires o <= |w|
  {
    w[..o] + d + if o + |d| < |w| then w[o + |d|..] else []
  }

  function DataOf(v: View, s: int): Bytes {
    FileBytes(v.b, PageOf(v.files, s), 0, EndOf(v.files, s))
  }

  /** A merge changes no byte of the file. */
  lemma MergedData(v: View, v': View, s: int, n: int, len: nat)
    requires Merged(v, v', s, n, len)
    ensures DataOf(v', n) == DataOf(v, s)
  {
    CopiedBytes(v.b, PageOf(v.files, s), v'.b, PageOf(v'.files, n), EndOf(v.files, s), Capacity(len));
  }

  /** The file behind the descriptor: what it was, with the data spliced in. */
  lemma WrittenData(v0: View, v: View, fd: int, d: Bytes)
    requires ViewOk(v0) && ViewOk(v) && Written(v0, v, fd, d)
    ensures OffsetOf(v0, fd) <= EndOf(v0.files, SlotOf(v0, fd))
    ensures DataOf(v, SlotOf(v, fd)) == Splice(DataOf(v0, SlotOf(v0, fd)), OffsetOf(v0, fd), d)
  {
    var s0, s, o0 := SlotOf(v0, fd), SlotOf(v, fd), OffsetOf(v0, fd);
    assert DescOk(v0.t, v0.b, v0.files, v0.fds[fd]) && SlotOk(v.t, v.b, v.files[s]);
    var l, r := DataOf(v, s), Splice(DataOf(v0, s0), o0, d);
    forall x | 0 <= x < |l| ensures l[x] == r[x] {
      FileByte(v.b, PageOf(v.files, s), 0, EndOf(v.files, s), x);
      if x < EndOf(v0.files, s0) { FileByte(v0.b, PageOf(v0.files, s0), 0, EndOf(v0.files, s0), x); }
      assert ContentByte(v0.b, PageOf(v0.files, s0), EndOf(v0.files, s0), CapOf(v0, s0),
                         Byte(v.b, PageOf(v.files, s), x), x, o0, d);
    }
  }

  /** The bytes of the extent behind the end of the file are zeros. */
  ghost predicate BlankBehind(v: View, s: int) {
    forall o: nat {:trigger Byte(v.b, PageOf(v.files, s), o)} ::
      EndOf(v.files, s) <= o < CapOf(v, s) ==> Byte(v.b, PageOf(v.files, s), o) == 0
  }

  lemma WrittenBlank(v0: View, v: View, fd: int, d: Bytes)
    requires Written(v0, v, fd, d) && BlankBehind(v0, SlotOf(v0, fd))
    ensures BlankBehind(v, SlotOf(v, fd))
  {
    var s0, s := SlotOf(v0, fd), SlotOf(v, fd);
    var p0, p := PageOf(v0.files, s0), PageOf(v.files, s);
    forall o: nat | EndOf(v.files, s) <= o < CapOf(v, s) ensures Byte(v.b, p, o) == 0 {
      assert ContentByte(v0.b, p0, EndOf(v0.files, s0), CapOf(v0, s0), Byte(v.b, p, o), o, OffsetOf(v0, fd), d);
    }
  }
}
