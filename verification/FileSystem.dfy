/** What each change to the device leaves alone: all files but the one it is made for. */
module FileSystem {
  import opened Words
  import opened CoffeeConfig
  import opened FlashBytes
  import opened FlashDevice
  import opened Extents
  import opened Collector
  import opened Allocation
  import opened MicroLog
  import opened FileContent

  /** The log has a record for the region of offset o. */
  ghost predicate HasRecord(b: Bytes, a: nat, o: nat) {
    var h := HeaderAt(b, a);
    h.modified && h.logPage >= 0 && LastIndex(b, h.logPage, Records(h), Region(h, o)) >= 0
  }

  /** The extent at page a is as before; if it is a file, it holds the same bytes, and its
      log as many records, for the same regions. */
  ghost predicate Other(t: Extents, b: Bytes, t': Extents, b': Bytes, a: nat) {
    && (IsActive(t, a) ==> IsActive(t', a) && t'[a] == t[a] && HeaderAt(b', a) == HeaderAt(b, a))
    && (IsFile(t, b, a) && t[a].len > 0 ==>
          && (forall o: nat {:trigger Byte(b', a, o)} :: o < Capacity(t[a].len) ==> Byte(b', a, o) == Byte(b, a, o))
          && (forall rc: int :: CountOk(b, HeaderAt(b, a), rc) ==> CountOk(b', HeaderAt(b, a), rc))
          && (forall o: nat {:trigger HasRecord(b', a, o)} :: HasRecord(b', a, o) == HasRecord(b, a, o)))
  }

  ghost predicate Others(t: Extents, b: Bytes, t': Extents, b': Bytes, but: set<nat>) {
    forall a: nat {:trigger Other(t, b, t', b', a)} :: a !in but ==> Other(t, b, t', b', a)
  }

  lemma OthersTransitive(t: Extents, b: Bytes, t1: Extents, b1: Bytes, t2: Extents, b2: Bytes, but: set<nat>,
                         but': set<nat>)
    requires Others(t, b, t1, b1, but) && Others(t1, b1, t2, b2, but')
    ensures Others(t, b, t2, b2, but + but')
  {
    forall a: nat | a !in but + but' ensures Other(t, b, t2, b2, a) {
      OtherTransitive(t, b, t1, b1, t2, b2, a);
    }
  }

  lemma OtherTransitive(t: Extents, b: Bytes, t1: Extents, b1: Bytes, t2: Extents, b2: Bytes, a: nat)
    requires Other(t, b, t1, b1, a) && Other(t1, b1, t2, b2, a)
    ensures Other(t, b, t2, b2, a)
  {
    if IsFile(t, b, a) && t[a].len > 0 {
      forall o: nat | o < Capacity(t[a].len) ensures Byte(b2, a, o) == Byte(b, a, o) {
        assert Byte(b1, a, o) == Byte(b, a, o);
      }
      forall o: nat ensures HasRecord(b2, a, o) == HasRecord(b, a, o) {
        assert HasRecord(b1, a, o) == HasRecord(b, a, o);
      }
    }
  }

  /** The extent of a file and that of its log are untouched. */
  ghost predicate FileKept(t: Extents, b: Bytes, t': Extents, b': Bytes, a: nat) {
    && Kept(t, b, t', b', a)
    && (HeaderAt(b, a).modified && HeaderAt(b, a).logPage >= 0 ==> Kept(t, b, t', b', HeaderAt(b, a).logPage))
  }

  lemma FileKeptOther(t: Extents, b: Bytes, t': Extents, b': Bytes, a: nat)
    requires Tiled(t, b) && IsFile(t, b, a) && FileOk(t, b, a) && FileKept(t, b, t', b', a)
    ensures IsFile(t', b', a) && FileOk(t', b', a) && Other(t, b, t', b', a)
  {
    KeptFile(t, b, t', b', a);
    if t[a].len > 0 {
      forall o: nat | o < Capacity(t[a].len) ensures Byte(b', a, o) == Byte(b, a, o) { KeptByte(t, b, t', b', a, o); }
    }
    var h := HeaderAt(b, a);
    if h.modified {
      KeptLog(t, b, t', b', h);
      FirstZeroSame(b, b', h.logPage, 0, Records(h));
      forall o: nat ensures HasRecord(b', a, o) == HasRecord(b, a, o) {
        LastIndexSame(b, b', h.logPage, Records(h), Region(h, o));
      }
    }
  }

  /** All files but x are untouched, and there are no new ones but x. */
  ghost predicate Unaffected(t: Extents, b: Bytes, t': Extents, b': Bytes, x: nat) {
    forall a: nat {:trigger FileKept(t, b, t', b', a)} ::
      a != x && (IsFile(t, b, a) || IsFile(t', b', a)) ==> IsFile(t, b, a) && FileKept(t, b, t', b', a)
  }

  /** Then it is enough to look at x. */
  lemma UnaffectedFiles(t: Extents, b: Bytes, t': Extents, b': Bytes, x: nat)
    requires Tiled(t, b) && FilesOk(t, b) && Unaffected(t, b, t', b', x)
    requires IsFile(t', b', x) ==> FileOk(t', b', x)
    requires HasLog(t', b', x) ==>
               forall c: nat :: c != x && HasLog(t, b, c) ==> HeaderAt(b, c).logPage != HeaderAt(b', x).logPage
    ensures FilesOk(t', b')
    ensures forall a: nat :: a != x && IsFile(t, b, a) ==> Other(t, b, t', b', a) && IsFile(t', b', a)
    ensures forall a: nat :: a != x && IsFile(t', b', a) ==> IsFile(t, b, a) && HeaderAt(b', a) == HeaderAt(b, a)
  {
    forall a: nat | a != x && (IsFile(t, b, a) || IsFile(t', b', a))
      ensures IsFile(t, b, a) && IsFile(t', b', a) && FileOk(t', b', a) && Other(t, b, t', b', a)
      ensures HeaderAt(b', a) == HeaderAt(b, a)
    {
      assert IsFile(t, b, a) && FileKept(t, b, t', b', a);
      assert FileOk(t, b, a);
      FileKeptOther(t, b, t', b', a);
    }
    forall a: nat, c: nat ensures LogApart(t', b', a, c) {
      assert LogApart(t, b, a, c);
    }
  }

  /** Files have different names, but for those in `but`. */
  ghost predicate NameApart(t: Extents, b: Bytes, a: nat, c: nat) {
    IsFile(t, b, a) && IsFile(t, b, c) && HeaderAt(b, a).name == HeaderAt(b, c).name ==> a == c
  }

  ghost predicate NamesApart(t: Extents, b: Bytes) {
    forall a: nat, c: nat {:trigger NameApart(t, b, a, c)} :: NameApart(t, b, a, c)
  }

  ghost predicate HasName(t: Extents, b: Bytes, a: nat, name: Bytes) {
    IsFile(t, b, a) && HeaderAt(b, a).name == name
  }

  /** No file has this name. */
  ghost predicate Unnamed(t: Extents, b: Bytes, name: Bytes) {
    forall a: nat {:trigger HasName(t, b, a, name)} :: !HasName(t, b, a, name)
  }

  /** The file at page c, if there is one, has a name from before, or one of `but`. */
  ghost predicate OldName(t: Extents, b: Bytes, t': Extents, b': Bytes, but: set<Bytes>, c: nat) {
    IsFile(t', b', c) && HeaderAt(b', c).name !in but ==> !Unnamed(t, b, HeaderAt(b', c).name)
  }

  ghost predicate OldNames(t: Extents, b: Bytes, t': Extents, b': Bytes, but: set<Bytes>) {
    forall c: nat {:trigger OldName(t, b, t', b', but, c)} :: OldName(t, b, t', b', but, c)
  }

  lemma OldNamesTwice(t: Extents, b: Bytes, t1: Extents, b1: Bytes, t2: Extents, b2: Bytes)
    requires OldNames(t, b, t1, b1, {}) && OldNames(t1, b1, t2, b2, {})
    ensures OldNames(t, b, t2, b2, {})
  {
    forall c: nat ensures OldName(t, b, t2, b2, {}, c) {
      assert OldName(t1, b1, t2, b2, {}, c);
      if IsFile(t2, b2, c) {
        var a: nat :| HasName(t1, b1, a, HeaderAt(b2, c).name);
        assert OldName(t, b, t1, b1, {}, a);
      }
    }
  }

  /** All files but that at page q were there, with their names. */
  lemma OldNamesBut(t: Extents, b: Bytes, t': Extents, b': Bytes, q: int, but: set<Bytes>)
    requires forall c: nat ::
               c != q && IsFile(t', b', c) ==> IsFile(t, b, c) && HeaderAt(b', c).name == HeaderAt(b, c).name
    requires q >= 0 && IsFile(t', b', q) ==> HeaderAt(b', q).name in but || !Unnamed(t, b, HeaderAt(b', q).name)
    ensures OldNames(t, b, t', b', but)
  {
    forall c: nat ensures OldName(t, b, t', b', but, c) {
      if c != q && IsFile(t', b', c) { assert HasName(t, b, c, HeaderAt(b', c).name); }
    }
  }

  // ----- Collection -----

  lemma CollectedFiles(t: Extents, b: Bytes, t': Extents, b': Bytes)
    requires Tiled(t, b) && FilesOk(t, b) && ActiveKept(t, b, t', b')
    ensures FilesOk(t', b') && Others(t, b, t', b', {})
    ensures forall a: nat :: IsFile(t', b', a) ==> IsFile(t, b, a) && HeaderAt(b', a) == HeaderAt(b, a)
  {
    forall a: nat ensures Kept(t, b, t', b', a) { }
    var none: nat := PAGE_COUNT;
    assert none in t ==> ExtentOk(t, b, none);
    assert Kept(t, b, t', b', none);
    forall a: nat | a != none && (IsFile(t, b, a) || IsFile(t', b', a))
      ensures IsFile(t, b, a) && FileKept(t, b, t', b', a)
    {
      assert Kept(t, b, t', b', a);
      KeptHeader(t, b, t', b', a);
    }
    UnaffectedFiles(t, b, t', b', none);
    forall a: nat ensures Other(t, b, t', b', a) {
      assert Kept(t, b, t', b', a);
      if IsActive(t, a) { KeptHeader(t, b, t', b', a); }
    }
  }

  // ----- A new extent -----

  lemma NewOther(t: Extents, b: Bytes, t': Extents, b': Bytes, q: nat, amount: nat, h: Header, a: nat)
    requires Tiled(t, b) && NewExtent(t, b, t', b', q, amount, h) && a != q
    ensures Kept(t, b, t', b', a)
    ensures IsActive(t', a) ==> IsActive(t, a) && HeaderAt(b', a) == HeaderAt(b, a)
    ensures IsActive(t, a) ==> IsActive(t', a) && t'[a] == t[a] && HeaderAt(b', a) == HeaderAt(b, a)
  {
    assert Kept(t, b, t', b', a);
    if IsActive(t, a) { KeptHeader(t, b, t', b', a); }
  }

  lemma NewFiles(t: Extents, b: Bytes, t': Extents, b': Bytes, q: nat, amount: nat, h: Header)
    requires Tiled(t, b) && FilesOk(t, b) && NewExtent(t, b, t', b', q, amount, h)
    requires !h.log ==> ConfigOk(h) && !h.modified
    ensures FilesOk(t', b') && Others(t, b, t', b', {q})
    ensures forall a: nat :: a != q && IsFile(t', b', a) ==> IsFile(t, b, a) && HeaderAt(b', a) == HeaderAt(b, a)
    ensures forall c: nat :: HasLog(t', b', c) ==> HeaderAt(b', c).logPage != q
  {
    forall a: nat | a != q && (IsFile(t, b, a) || IsFile(t', b', a))
      ensures IsFile(t, b, a) && FileKept(t, b, t', b', a)
    {
      NewOther(t, b, t', b', q, amount, h, a);
      assert FileOk(t, b, a);
      if HeaderAt(b, a).modified { NewOther(t, b, t', b', q, amount, h, HeaderAt(b, a).logPage); }
    }
    UnaffectedFiles(t, b, t', b', q);
    forall a: nat | a != q ensures Other(t, b, t', b', a) { NewOther(t, b, t', b', q, amount, h, a); }
    forall c: nat | HasLog(t', b', c) ensures HeaderAt(b', c).logPage != q {
      if c != q { NewOther(t, b, t', b', q, amount, h, c); assert FileOk(t, b, c); }
    }
  }

  /** A new file holds zeros. */
  lemma NewFileZeros(b: Bytes, q: nat, amount: nat, o: nat)
    requires amount > 0 && !HeaderAt(b, q).modified && Zeros(b, Offset(q) + HEADER_SIZE, Offset(q + amount))
    requires o < Capacity(amount)
    ensures Byte(b, q, o) == 0
  {
    OffsetAdd(q, amount);
  }

  // ----- A record or data -----

  lemma LoggedFiles(t: Extents, b: Bytes, b': Bytes, a: nat, n: nat, region: nat, d: Bytes)
    requires Tiled(t, b) && FilesOk(t, b) && Logged(t, b, b', a, n, region, d)
    ensures FilesOk(t, b') && Others(t, b, t, b', {a})
    ensures forall c: nat :: c in t ==> HeaderAt(b', c) == HeaderAt(b, c)
  {
    var lp: nat := HeaderAt(b, a).logPage;
    LoggedData(t, b, b', a, n, region, d);
    DataTiled(t, b, b', lp);
    LoggedTable(t, b, b', a, n, region, d);
    forall c: nat | c != a && (IsFile(t, b, c) || IsFile(t, b', c))
      ensures IsFile(t, b, c) && FileKept(t, b, t, b', c)
    {
      assert FileOk(t, b, c) && LogApart(t, b, a, c);
      DataKept(t, b, b', lp, c);
      if HeaderAt(b, c).modified { DataKept(t, b, b', lp, HeaderAt(b, c).logPage); }
    }
    assert forall c: nat :: c != a && HasLog(t, b, c) ==> LogApart(t, b, c, a);
    UnaffectedFiles(t, b, t, b', a);
    forall c: nat | c != a ensures Other(t, b, t, b', c) { }
  }

  lemma DataFiles(t: Extents, b: Bytes, b': Bytes, a: nat)
    requires Tiled(t, b) && FilesOk(t, b) && DataChanged(t, b, b', a) && IsFile(t, b, a)
    ensures FilesOk(t, b') && Others(t, b, t, b', {a})
    ensures forall c: nat :: c in t ==> HeaderAt(b', c) == HeaderAt(b, c)
  {
    DataTiled(t, b, b', a);
    forall c: nat | c != a && (IsFile(t, b, c) || IsFile(t, b', c))
      ensures IsFile(t, b, c) && FileKept(t, b, t, b', c)
    {
      assert FileOk(t, b, c);
      DataKept(t, b, b', a, c);
      if HeaderAt(b, c).modified { DataKept(t, b, b', a, HeaderAt(b, c).logPage); }
    }
    assert FileOk(t, b, a);
    var h := HeaderAt(b, a);
    if h.modified {
      DataKept(t, b, b', a, h.logPage);
      KeptLog(t, b, t, b', h);
      FirstZeroSame(b, b', h.logPage, 0, Records(h));
    }
    assert forall c: nat :: c != a && HasLog(t, b, c) ==> LogApart(t, b, c, a);
    UnaffectedFiles(t, b, t, b', a);
    forall c: nat | c != a ensures Other(t, b, t, b', c) { }
  }

  /** Data bytes of a file's extent are overwritten: in a file without a log its bytes at
      these offsets, in a file with a log only bytes that no record stands for. */
  lemma DataByte(t: Extents, b: Bytes, b': Bytes, a: nat, o: nat)
    requires Tiled(t, b) && FilesOk(t, b) && DataChanged(t, b, b', a) && IsFile(t, b, a)
    ensures !HasRecord(b, a, o) ==> Byte(b', a, o) == At(b', Absolute(a, o))
    ensures HasRecord(b, a, o) ==> Byte(b', a, o) == Byte(b, a, o)
    ensures At(b', Absolute(a, o)) == At(b, Absolute(a, o)) ==> Byte(b', a, o) == Byte(b, a, o)
  {
    assert FileOk(t, b, a);
    DataTiled(t, b, b', a);
    var h := HeaderAt(b, a);
    if h.modified {
      DataKept(t, b, b', a, h.logPage);
      KeptLog(t, b, t, b', h);
      LastIndexSame(b, b', h.logPage, Records(h), Region(h, o));
      var i := LastIndex(b, h.logPage, Records(h), Region(h, o));
      LastIndexIs(b, h.logPage, Records(h), Region(h, o));
      LoggedByteIs(b, a, h, o, i);
      LoggedByteIs(b', a, h, o, i);
      RegionOffsetBound(h, o);
      if i >= 0 { KeptRecord(t, b, t, b', h, i, RegionOffset(h, o)); }
    }
  }

  // ----- A header is written again -----

  lemma Reheaded(t: Extents, b: Bytes, b': Bytes, a: nat, h: Header, c: nat)
    requires Tiled(t, b) && a in t && HeaderWritten(b, b', a, h) && c in t && c != a
    ensures Kept(t, b, t, b', c) && HeaderAt(b', c) == HeaderAt(b, c) && ExtentOk(t, b', c)
  {
    assert ExtentOk(t, b, a) && ExtentOk(t, b, c) && Apart(t, a, c) && Apart(t, c, a);
    HeaderOnly(b, b', a, h);
    HeaderSame(b, b', a, a + 1, c);
    ExtentSame(t, b, t, b', a, a + 1, c);
    BytesKept(t, b, b', c, a, a + 1);
  }

  lemma ReheadedTiled(t: Extents, b: Bytes, b': Bytes, a: nat, h: Header)
    requires Tiled(t, b) && IsActive(t, a) && HeaderWritten(b, b', a, h) && h.Active() && h.maxPages == t[a].len
    ensures Tiled(t, b')
    ensures forall c: nat :: c in t && c != a ==> HeaderAt(b', c) == HeaderAt(b, c) && Kept(t, b, t, b', c)
  {
    assert ExtentOk(t, b, a);
    forall c: nat | c in t && c != a
      ensures ExtentOk(t, b', c) && HeaderAt(b', c) == HeaderAt(b, c) && Kept(t, b, t, b', c)
    {
      Reheaded(t, b, b', a, h, c);
    }
    assert ExtentOk(t, b', a);
  }

  /** File a has been given the empty log at page q. */
  ghost predicate GivenLog(t: Extents, b: Bytes, b': Bytes, a: nat, q: nat, h: Header) {
    && IsFile(t, b, a) && !HeaderAt(b, a).modified
    && h == HeaderAt(b, a).(modified := true, logPage := q, valid := true) && HeaderWritten(b, b', a, h)
    && IsActive(t, q) && HeaderAt(b, q).log && LogRoom(h, t[q].len)
    && Zeros(b, Offset(q) + HEADER_SIZE, Offset(End(t, q)))
    && forall c: nat :: HasLog(t, b, c) ==> HeaderAt(b, c).logPage != q
  }

  lemma NoEntries(b: Bytes, q: nat, len: nat, n: nat, region: nat)
    requires Zeros(b, Offset(q) + HEADER_SIZE, Offset(q + len)) && HEADER_SIZE + 2 * n <= Offset(len)
    ensures LastIndex(b, q, n, region) == -1
    ensures forall i: nat :: i < n ==> Entry(b, q, i) == 0
  {
    forall i: nat | i < n ensures Entry(b, q, i) == 0 { NoEntry(b, q, len, i); }
    NoIndex(b, q, n, region);
  }

  lemma {:induction false} NoIndex(b: Bytes, q: nat, n: nat, region: nat)
    requires forall i: nat :: i < n ==> Entry(b, q, i) == 0
    ensures LastIndex(b, q, n, region) == -1
  {
    if n > 0 { NoIndex(b, q, n - 1, region); }
  }

  lemma NoEntry(b: Bytes, q: nat, len: nat, i: nat)
    requires Zeros(b, Offset(q) + HEADER_SIZE, Offset(q + len)) && HEADER_SIZE + 2 * i + 2 <= Offset(len)
    ensures Entry(b, q, i) == 0
  {
    OffsetAdd(q, len);
  }

  lemma RecordsFit(h: Header, len: nat)
    requires LogRoom(h, len)
    ensures HEADER_SIZE + 2 * Records(h) <= Offset(len)
  {
    TimesMono(0, Records(h), RecordSize(h));
  }

  lemma GivenLogEmpty(t: Extents, b: Bytes, b': Bytes, a: nat, q: nat, h: Header)
    requires Tiled(t, b) && GivenLog(t, b, b', a, q, h)
    ensures q != a && Kept(t, b, t, b', q) && HeaderAt(b', q) == HeaderAt(b, q)
    ensures FirstZero(b', q, 0, Records(h)) == 0 && FilledFromFront(b', q, Records(h))
    ensures forall r: nat :: LastIndex(b', q, Records(h), r) == -1
  {
    Reheaded(t, b, b', a, h, q);
    RecordsFit(h, t[q].len);
    assert Zeros(b', Offset(q) + HEADER_SIZE, Offset(q + t[q].len));
    forall r: nat ensures LastIndex(b', q, Records(h), r) == -1 { NoEntries(b', q, t[q].len, Records(h), r); }
    NoEntries(b', q, t[q].len, Records(h), 0);
    FirstZeroUnique(b', q, 0, Records(h), 0);
  }

  /** Giving a file a log changes no byte of it, and no other file. */
  lemma GivenLogFiles(t: Extents, b: Bytes, b': Bytes, a: nat, q: nat, h: Header)
    requires Tiled(t, b) && FilesOk(t, b) && GivenLog(t, b, b', a, q, h)
    ensures Tiled(t, b') && FilesOk(t, b') && Others(t, b, t, b', {a})
    ensures IsFile(t, b', a) && FirstZero(b', q, 0, Records(h)) == 0
    ensures forall c: nat :: c in t && c != a ==> HeaderAt(b', c) == HeaderAt(b, c)
  {
    assert ExtentOk(t, b, a) && FileOk(t, b, a);
    ReheadedTiled(t, b, b', a, h);
    GivenLogEmpty(t, b, b', a, q, h);
    forall c: nat | c != a && (IsFile(t, b, c) || IsFile(t, b', c))
      ensures IsFile(t, b, c) && FileKept(t, b, t, b', c)
    {
      assert FileOk(t, b, c);
    }
    UnaffectedFiles(t, b, t, b', a);
    forall c: nat | c != a ensures Other(t, b, t, b', c) { }
  }

  lemma GivenLogByte(t: Extents, b: Bytes, b': Bytes, a: nat, q: nat, h: Header, o: nat)
    requires Tiled(t, b) && GivenLog(t, b, b', a, q, h)
    ensures Byte(b', a, o) == Byte(b, a, o)
  {
    GivenLogEmpty(t, b, b', a, q, h);
    var r := Region(h, o);
    assert LastIndex(b', q, Records(h), r) == -1;
    LoggedByteIs(b', a, h, o, -1);
  }

  // ----- Removal -----

  function Obsoleted(t: Extents, a: nat): Extents
    requires a in t
  {
    t[a := t[a].(kind := Obsolete)]
  }

  lemma ObsoletedFills(t: Extents, a: nat, p: nat)
    requires FreeFrom(t, p) && IsActive(t, a)
    ensures FreeFrom(Obsoleted(t, a), p)
  {
    var t' := Obsoleted(t, a);
    forall x: nat | p <= x < PAGE_COUNT ensures Page(t', x, Spare) {
      assert Page(t, x, Spare);
      var c :| c in t && c <= x < End(t, c) && UseOf(t[c].kind) == Spare;
      assert c in t' && c <= x < End(t', c) && UseOf(t'[c].kind) == Spare;
    }
  }

  ghost predicate MarkedObsolete(t: Extents, b: Bytes, b': Bytes, a: nat) {
    IsActive(t, a) && HeaderWritten(b, b', a, HeaderAt(b, a).(obsolete := true, valid := true))
  }

  lemma RemovedOther(t: Extents, b: Bytes, b': Bytes, a: nat, c: nat)
    requires Tiled(t, b) && MarkedObsolete(t, b, b', a) && c != a
    ensures Kept(t, b, Obsoleted(t, a), b', c)
    ensures c in t ==> HeaderAt(b', c) == HeaderAt(b, c) && ExtentOk(Obsoleted(t, a), b', c)
  {
    if c in t {
      Reheaded(t, b, b', a, HeaderAt(b, a).(obsolete := true, valid := true), c);
      assert ExtentOk(t, b', c);
    }
  }

  lemma RemovedItself(t: Extents, b: Bytes, b': Bytes, a: nat)
    requires Tiled(t, b) && MarkedObsolete(t, b, b', a)
    ensures ExtentOk(Obsoleted(t, a), b', a)
  {
    assert ExtentOk(t, b, a);
  }

  /** One extent is marked obsolete; all others are as before. */
  lemma RemovedExtent(t: Extents, b: Bytes, b': Bytes, a: nat)
    requires Tiled(t, b) && NoHeadless(t) && MarkedObsolete(t, b, b', a)
    ensures Tiled(Obsoleted(t, a), b') && NoHeadless(Obsoleted(t, a)) && !IsActive(Obsoleted(t, a), a)
    ensures forall p: nat :: Boundary(t, p) ==> Boundary(Obsoleted(t, a), p)
    ensures forall c: nat :: c != a ==> Kept(t, b, Obsoleted(t, a), b', c)
    ensures forall c: nat :: c in t && c != a ==> HeaderAt(b', c) == HeaderAt(b, c)
  {
    var t' := Obsoleted(t, a);
    forall c: nat | c != a
      ensures Kept(t, b, t', b', c) && (c in t ==> HeaderAt(b', c) == HeaderAt(b, c) && ExtentOk(t', b', c))
    {
      RemovedOther(t, b, b', a, c);
    }
    RemovedItself(t, b, b', a);
    forall x, y | x in t' && y in t' ensures Apart(t', x, y) { assert Apart(t, x, y); }
  }

  /** The extents of a file and of its log, if it has one, are no longer in use; nothing else
      has changed. */
  ghost predicate Removed(t: Extents, b: Bytes, t': Extents, b': Bytes, a: nat) {
    && IsFile(t, b, a) && !IsActive(t', a)
    && forall c: nat {:trigger Kept(t, b, t', b', c)} ::
         c != a && !(HasLog(t, b, a) && c == HeaderAt(b, a).logPage) ==> Kept(t, b, t', b', c)
  }

  /** The extents that go with file a. */
  function FilePages(b: Bytes, a: nat): set<nat> {
    {a} + if LogOf(b, a) >= 0 then {LogOf(b, a) as nat} else {}
  }

  /** The page of a file's log, or -2. */
  function LogOf(b: Bytes, page: nat): int {
    if HeaderAt(b, page).modified && HeaderAt(b, page).logPage >= 0 then HeaderAt(b, page).logPage else -2
  }

  lemma RemovedFiles(t: Extents, b: Bytes, t': Extents, b': Bytes, a: nat)
    requires Tiled(t, b) && FilesOk(t, b) && Removed(t, b, t', b', a)
    requires LogOf(b, a) >= 0 ==> !IsActive(t', LogOf(b, a))
    ensures FilesOk(t', b') && Others(t, b, t', b', FilePages(b, a))
    ensures forall c: nat :: IsFile(t', b', c) ==> IsFile(t, b, c) && c != a && HeaderAt(b', c) == HeaderAt(b, c)
  {
    var lp: int := if HasLog(t, b, a) then HeaderAt(b, a).logPage else -1;
    assert FileOk(t, b, a);
    forall c: nat | c != a && c != lp
      ensures Kept(t, b, t', b', c) && (IsActive(t, c) ==> HeaderAt(b', c) == HeaderAt(b, c)) {
      assert Kept(t, b, t', b', c);
      if IsActive(t, c) { KeptHeader(t, b, t', b', c); }
    }
    forall c: nat | c != a && (IsFile(t, b, c) || IsFile(t', b', c))
      ensures IsFile(t, b, c) && FileKept(t, b, t', b', c)
    {
      assert Kept(t, b, t', b', c) || c == lp;
      assert FileOk(t, b, c) && LogApart(t, b, a, c);
    }
    UnaffectedFiles(t, b, t', b', a);
    forall c: nat | c != a && c != lp ensures Other(t, b, t', b', c) { }
  }

  /** The steps of removing file a: first its log, if it has one, then the file itself. */
  lemma RemovedBoth(t: Extents, b: Bytes, t1: Extents, b1: Bytes, t2: Extents, b2: Bytes, a: nat, lp: nat)
    requires Tiled(t, b) && IsFile(t, b, a) && HasLog(t, b, a) && lp == HeaderAt(b, a).logPage && Tiled(t1, b1)
    requires MarkedObsolete(t, b, b1, lp) && t1 == Obsoleted(t, lp) && MarkedObsolete(t1, b1, b2, a)
    requires t2 == Obsoleted(t1, a)
    ensures Removed(t, b, t2, b2, a) && !IsActive(t2, lp)
  {
    forall c: nat | c != a && c != lp ensures Kept(t, b, t2, b2, c) {
      RemovedOther(t, b, b1, lp, c);
      RemovedOther(t1, b1, b2, a, c);
      KeptAgain(t, b, t1, b1, t2, b2, c);
    }
  }

  lemma KeptAgain(t: Extents, b: Bytes, t1: Extents, b1: Bytes, t2: Extents, b2: Bytes, c: nat)
    requires Kept(t, b, t1, b1, c) && Kept(t1, b1, t2, b2, c)
    ensures Kept(t, b, t2, b2, c)
  {
  }

  lemma RemovedAlone(t: Extents, b: Bytes, t1: Extents, b1: Bytes, a: nat)
    requires Tiled(t, b) && NoHeadless(t) && IsFile(t, b, a) && !HeaderAt(b, a).modified
    requires MarkedObsolete(t, b, b1, a) && t1 == Obsoleted(t, a)
    ensures Removed(t, b, t1, b1, a)
  {
    RemovedExtent(t, b, b1, a);
  }

  /** After marking one extent, another is still what it was. */
  lemma StillThere(t: Extents, b: Bytes, b1: Bytes, a: nat, c: nat)
    requires Tiled(t, b) && NoHeadless(t) && MarkedObsolete(t, b, b1, a) && c != a && IsActive(t, c)
    ensures IsActive(Obsoleted(t, a), c) && HeaderAt(b1, c) == HeaderAt(b, c)
  {
    RemovedExtent(t, b, b1, a);
  }

  /** A page where no extent was in use is no exception. */
  lemma OthersNew(t: Extents, b: Bytes, t': Extents, b': Bytes, q: nat, but: set<nat>)
    requires Others(t, b, t', b', {q} + but) && !IsActive(t, q)
    ensures Others(t, b, t', b', but)
  {
    forall a: nat | a !in but ensures Other(t, b, t', b', a) {
      if a == q { assert !IsFile(t, b, a); }
    }
  }

  /** Nothing is spliced in where the other files are. */
  lemma OtherSpliced(t: Extents, b: Bytes, t': Extents, b': Bytes, a: nat)
    requires Other(t, b, t', b', a) && IsFile(t, b, a) && t[a].len > 0
    ensures Spliced(b, a, b', a, Capacity(t[a].len), 0, [])
  {
  }

  lemma SplicedAfter(b: Bytes, b1: Bytes, b2: Bytes, a: nat, cap: nat, offset: nat, d: Bytes)
    requires Spliced(b, a, b1, a, cap, 0, []) && Spliced(b1, a, b2, a, cap, offset, d)
    ensures Spliced(b, a, b2, a, cap, offset, d)
  {
    forall o: nat | o < cap
      ensures Byte(b2, a, o) == if offset <= o < offset + |d| then d[o - offset] else Byte(b, a, o)
    {
      assert Byte(b1, a, o) == Byte(b, a, o);
    }
  }

  // ----- A new configuration -----

  /** The header of a file without a log is written again, with another configuration. */
  ghost predicate Reconfigured(t: Extents, b: Bytes, b': Bytes, q: nat, h: Header) {
    && IsFile(t, b, q) && !HeaderAt(b, q).modified && HeaderWritten(b, b', q, h) && ConfigOk(h)
    && h == HeaderAt(b, q).(logRecords := h.logRecords, logRecordSize := h.logRecordSize, valid := true)
  }

  lemma ReconfiguredFiles(t: Extents, b: Bytes, b': Bytes, q: nat, h: Header)
    requires Tiled(t, b) && FilesOk(t, b) && Reconfigured(t, b, b', q, h)
    ensures Tiled(t, b') && FilesOk(t, b') && Others(t, b, t, b', {q}) && IsFile(t, b', q)
    ensures forall c: nat :: c in t && c != q ==> HeaderAt(b', c) == HeaderAt(b, c)
  {
    ExtentHeader(t, b, q);
    ReheadedTiled(t, b, b', q, h);
    forall c: nat | c != q && (IsFile(t, b, c) || IsFile(t, b', c))
      ensures IsFile(t, b, c) && FileKept(t, b, t, b', c)
    {
      assert FileOk(t, b, c);
    }
    UnaffectedFiles(t, b, t, b', q);
    forall c: nat | c != q ensures Other(t, b, t, b', c) { }
  }

  lemma ReconfiguredByte(t: Extents, b: Bytes, b': Bytes, q: nat, h: Header, o: nat)
    requires Reconfigured(t, b, b', q, h)
    ensures Byte(b', q, o) == Byte(b, q, o)
  {
    PlainByte(b, q, o);
    PlainByte(b', q, o);
  }

  /** What is read from an untouched file is what was there. */
  lemma OtherBytes(t: Extents, b: Bytes, t': Extents, b': Bytes, a: nat, from: nat, n: nat)
    requires Other(t, b, t', b', a) && IsFile(t, b, a) && t[a].len > 0 && from + n <= Capacity(t[a].len)
    ensures FileBytes(b', a, from, n) == FileBytes(b, a, from, n)
  {
    var l, r := FileBytes(b', a, from, n), FileBytes(b, a, from, n);
    forall x: nat | x < n ensures l[x] == r[x] {
      FileByte(b', a, from, n, x);
      FileByte(b, a, from, n, x);
      assert Byte(b', a, from + x) == Byte(b, a, from + x);
    }
  }

  /** The record just written is found for all offsets of its data. */
  lemma RecordsFound(t: Extents, b: Bytes, b': Bytes, a: nat, h: Header, n: nat, offset: nat, size: nat, copy: Bytes)
    requires Tiled(t, b) && h == HeaderAt(b, a) && RecordSize(h) > 0 && Logged(t, b, b', a, n, Region(h, offset), copy)
    requires RegionOffset(h, offset) + size <= RecordSize(h) && HeaderAt(b', a) == h
    ensures forall x: nat {:trigger HasRecord(b', a, x)} :: offset <= x < offset + size ==> HasRecord(b', a, x)
  {
    var region, lp: nat := Region(h, offset), h.logPage;
    assert LastIndex(b', lp, Records(h), region) == n by {
      LoggedEntries(t, b, b', a, n, region, copy);
      OneMoreIndex(b, b', lp, n, region, Records(h), region);
    }
    forall x: nat | offset <= x < offset + size ensures HasRecord(b', a, x) {
      RunInRegion(h, offset, size, x - offset);
      RecordFound(b', a, h, region, x);
    }
  }

  lemma RecordFound(b: Bytes, a: nat, h: Header, region: nat, x: nat)
    requires HeaderAt(b, a) == h && h.modified && h.logPage >= 0 && Region(h, x) == region
    requires LastIndex(b, h.logPage, Records(h), region) >= 0
    ensures HasRecord(b, a, x)
  {
  }

  // ----- One file through several steps -----

  /** The file that was at page p0 is now at page p, and all other files are as before. */
  ghost predicate OnlyFile(t0: Extents, b0: Bytes, p0: nat, t: Extents, b: Bytes, p: nat) {
    && (p == p0 || !IsFile(t0, b0, p))
    && forall a: nat {:trigger Other(t0, b0, t, b, a)} :: a != p0 && IsFile(t0, b0, a) ==> Other(t0, b0, t, b, a)
  }

  lemma OnlyFileStep(t0: Extents, b0: Bytes, p0: nat, t1: Extents, b1: Bytes, p1: nat, t2: Extents, b2: Bytes, p2: nat)
    requires OnlyFile(t0, b0, p0, t1, b1, p1) && OnlyFile(t1, b1, p1, t2, b2, p2)
    ensures OnlyFile(t0, b0, p0, t2, b2, p2)
  {
    forall a: nat | a != p0 && IsFile(t0, b0, a) ensures Other(t0, b0, t2, b2, a) && a != p2 {
      assert Other(t0, b0, t1, b1, a) && Other(t1, b1, t2, b2, a);
      OtherTransitive(t0, b0, t1, b1, t2, b2, a);
    }
  }

  lemma OnlyFileHere(t: Extents, b: Bytes, t': Extents, b': Bytes, p: nat, but: set<nat>)
    requires Others(t, b, t', b', but) && forall x: nat :: x in but ==> x == p || !IsFile(t, b, x)
    ensures OnlyFile(t, b, p, t', b', p)
  {
    forall a: nat | a != p && IsFile(t, b, a) ensures Other(t, b, t', b', a) { }
  }

  /** A file through writes, merges and extension: d has been written at an offset, what was
      below the old end is there otherwise, and behind it are zeros or what was there. */
  ghost predicate Content(b0: Bytes, p0: nat, end0: nat, cap0: nat, b: Bytes, p: nat, cap: nat, offset: nat, d: Bytes) {
    forall o: nat {:trigger Byte(b, p, o)} :: o < cap ==> ContentByte(b0, p0, end0, cap0, Byte(b, p, o), o, offset, d)
  }

  ghost predicate ContentByte(b0: Bytes, p0: nat, end0: nat, cap0: nat, x: byte, o: nat, offset: nat, d: Bytes) {
    if offset <= o < offset + |d| then x == d[o - offset]
    else if o < end0 then x == Byte(b0, p0, o)
    else x == 0 || (o < cap0 && x == Byte(b0, p0, o))
  }

  lemma ContentHere(b: Bytes, p: nat, end0: nat, cap: nat, offset: nat)
    ensures Content(b, p, end0, cap, b, p, cap, offset, [])
  {
  }

  /** More data, right behind. */
  lemma ContentSpliced(b0: Bytes, p0: nat, end0: nat, cap0: nat, b1: Bytes, p: nat, b2: Bytes, cap: nat, offset: nat,
                       d: Bytes, e: Bytes)
    requires Content(b0, p0, end0, cap0, b1, p, cap, offset, d) && Spliced(b1, p, b2, p, cap, offset + |d|, e)
    ensures Content(b0, p0, end0, cap0, b2, p, cap, offset, d + e)
  {
    forall o: nat | o < cap ensures ContentByte(b0, p0, end0, cap0, Byte(b2, p, o), o, offset, d + e) {
      assert Byte(b2, p, o) == if offset + |d| <= o < offset + |d| + |e| then e[o - offset - |d|] else Byte(b1, p, o);
    }
  }

  /** A copy of everything up to the end. */
  lemma ContentCopied(b0: Bytes, p0: nat, end0: nat, cap0: nat, b1: Bytes, p1: nat, cap1: nat, b2: Bytes, p2: nat,
                      cap2: nat, offset: nat, d: Bytes, e: nat)
    requires Content(b0, p0, end0, cap0, b1, p1, cap1, offset, d) && CopiedUpTo(b1, p1, b2, p2, e, cap2)
    requires end0 <= e && offset + |d| <= e <= cap1
    ensures Content(b0, p0, end0, cap0, b2, p2, cap2, offset, d)
  {
    forall o: nat | o < cap2 ensures ContentByte(b0, p0, end0, cap0, Byte(b2, p2, o), o, offset, d) {
      if o < e { assert Byte(b2, p2, o) == Byte(b1, p1, o); }
    }
  }
}
