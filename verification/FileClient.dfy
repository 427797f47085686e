/** A client of the file system: every call it makes is a step of the run model. */
module FileClient {
  import opened Words
  import opened CoffeeConfig
  import opened FlashBytes
  import opened Extents
  import opened Collector
  import opened MicroLog
  import opened FileContent
  import opened FileSystem
  import opened FileCache
  import opened FileWrites
  import opened FileRuns
  import C = Coffee

  // ----- What the client sees of a state -----

  ghost predicate Good(v: View) {
    ViewOk(v) && NamesApart(v.t, v.b)
  }

  ghost function HandleOf(v: View, k: int): Handle {
    if 0 <= k < |v.fds| && v.fds[k].Open() then
      var s, d := v.fds[k].file, v.fds[k];
      Handle.Open(HeaderAt(v.b, PageOf(v.files, s)).name, DataOf(v, s), d.offset, BlankBehind(v, s), d.read, d.write)
    else Closed
  }

  ghost function Abs(v: View): (s: seq<Handle>)
    ensures |s| == |v.fds| && forall k: int {:trigger s[k]} :: 0 <= k < |s| ==> s[k] == HandleOf(v, k)
  {
    seq(|v.fds|, k requires 0 <= k < |v.fds| => HandleOf(v, k))
  }

  lemma HandleFacts(v: View, k: int)
    requires ViewOk(v) && 0 <= k < |v.fds| && v.fds[k].Open()
    ensures var s := v.fds[k].file;
            && Held(v.t, v.b, v.files, s) && v.fds[k].offset <= EndOf(v.files, s) <= CapOf(v, s)
            && |DataOf(v, s)| == EndOf(v.files, s)
            && LenOf(v.files, s) > 0 && v.t[PageOf(v.files, s)].len == LenOf(v.files, s)
  {
    assert DescOk(v.t, v.b, v.files, v.fds[k]) && SlotOk(v.t, v.b, v.files[v.fds[k].file]);
    RefNone(v.fds, v.fds[k].file);
    assert v.fds[k].On(v.fds[k].file);
  }

  /** Descriptors are on the same file exactly when they are on the same slot. */
  lemma SameSlotSameName(v: View, j: int, k: int)
    requires Good(v) && 0 <= j < |v.fds| && 0 <= k < |v.fds| && v.fds[j].Open() && v.fds[k].Open()
    ensures HandleOf(v, j).name == HandleOf(v, k).name <==> v.fds[j].file == v.fds[k].file
  {
    HandleFacts(v, j);
    HandleFacts(v, k);
    var s, n := v.fds[j].file, v.fds[k].file;
    assert NameApart(v.t, v.b, PageOf(v.files, s), PageOf(v.files, n));
    assert SlotApart(v.files, s, n);
  }

  /** A slot whose file is as it was. */
  ghost predicate SlotSame(v: View, v': View, s: int) {
    && PageOf(v'.files, s) == PageOf(v.files, s) && EndOf(v'.files, s) == EndOf(v.files, s)
    && LenOf(v'.files, s) == LenOf(v.files, s)
    && Other(v.t, v.b, v'.t, v'.b, PageOf(v.files, s))
  }

  lemma SameHandle(v: View, v': View, k: int)
    requires ViewOk(v) && 0 <= k < |v.fds| == |v'.fds| && v.fds[k].Open() && v'.fds[k] == v.fds[k]
    requires SlotSame(v, v', v.fds[k].file)
    ensures HandleOf(v', k) == HandleOf(v, k)
  {
    HandleFacts(v, k);
    var s := v.fds[k].file;
    var p := PageOf(v.files, s);
    OtherBytes(v.t, v.b, v'.t, v'.b, p, 0, EndOf(v.files, s));
    assert forall o: nat :: o < CapOf(v, s) ==> Byte(v'.b, p, o) == Byte(v.b, p, o);
  }

  // ----- Writing -----

  lemma WrittenOther(v: View, v': View, fd: int, d: Bytes, k: int)
    requires Good(v) && Written(v, v', fd, d) && 0 <= k < |v.fds| && k != fd && v.fds[k].Open()
    requires v.fds[k].file != v.fds[fd].file
    ensures HandleOf(v', k) == HandleOf(v, k)
  {
    HandleFacts(v, k);
    HandleFacts(v, fd);
    var s := v.fds[k].file;
    assert SlotApart(v.files, s, v.fds[fd].file);
    assert Other(v.t, v.b, v'.t, v'.b, PageOf(v.files, s));
    SameHandle(v, v', k);
  }

  lemma WriteRefines(v: View, v': View, fd: int, buf: Bytes, r: int, d: Bytes)
    requires Good(v) && ViewOk(v') && Written(v, v', fd, d) && v.fds[fd].write && (r == -1 || r == |buf|)
    requires if r == -1 then d == [] else d == buf || PartOf(d, buf)
    ensures Step(Abs(v), CallWrite(fd, buf, r, d), Abs(v'))
  {
    var s, s', c := Abs(v), Abs(v'), CallWrite(fd, buf, r, d);
    WriteMoves(v, v', fd, c);
    forall k: int | 0 <= k < |s| && k != fd ensures Rests(s, c, s', k) { WriteRests(v, v', fd, c, k); }
  }

  lemma WriteMoves(v: View, v': View, fd: int, c: Call)
    requires Good(v) && ViewOk(v') && c.CallWrite? && c.fd == fd && Written(v, v', fd, c.done)
    ensures IsOpen(Abs(v), fd) && Follows(Abs(v), c, Abs(v'), fd, Abs(v)[fd].offset + |c.done|)
  {
    WrittenData(v, v', fd, c.done);
    HandleFacts(v, fd);
    if BlankBehind(v, SlotOf(v, fd)) { WrittenBlank(v, v', fd, c.done); }
  }

  lemma WriteRests(v: View, v': View, fd: int, c: Call, k: int)
    requires Good(v) && ViewOk(v') && c.CallWrite? && c.fd == fd && Written(v, v', fd, c.done) && 0 <= k < |v.fds|
    requires k != fd
    ensures Rests(Abs(v), c, Abs(v'), k)
  {
    WriteMoves(v, v', fd, c);
    if v.fds[k].Open() {
      HandleFacts(v, k);
      SameSlotSameName(v, k, fd);
      if v.fds[k].file != v.fds[fd].file { WrittenOther(v, v', fd, c.done, k); }
    }
  }

  // ----- Changes to the cache alone -----

  /** Device and slots are as before, but for references. */
  ghost predicate OnlyCache(v: View, v': View) {
    && v'.t == v.t && v'.b == v.b && |v'.files| == |v.files| && |v'.fds| == |v.fds|
    && forall s ::
         && PageOf(v'.files, s) == PageOf(v.files, s) && EndOf(v'.files, s) == EndOf(v.files, s)
         && LenOf(v'.files, s) == LenOf(v.files, s)
  }

  lemma CacheHandle(v: View, v': View, k: int)
    requires OnlyCache(v, v') && 0 <= k < |v.fds| && v.fds[k].Open()
    requires v'.fds[k] == v.fds[k].(offset := v'.fds[k].offset)
    ensures HandleOf(v, k).Open? && HandleOf(v', k) == HandleOf(v, k).(offset := v'.fds[k].offset)
  {
  }

  lemma CacheRests(v: View, v': View, c: Call, fd: int)
    requires OnlyCache(v, v') && forall k :: 0 <= k < |v.fds| && k != fd ==> v'.fds[k] == v.fds[k]
    requires !c.CallWrite? && !c.CallSeek?
    ensures RestsBut(Abs(v), c, Abs(v'), fd)
  {
    forall k: int | 0 <= k < |v.fds| && k != fd ensures Rests(Abs(v), c, Abs(v'), k) {
      if v.fds[k].Open() { CacheHandle(v, v', k); }
    }
  }

  /** A call that changes nothing. */
  lemma NothingRefines(v: View, c: Call)
    requires (c.CallWrite? ==> c.done == []) && (c.CallSeek? ==> c.fill == [])
    ensures RestsBut(Abs(v), c, Abs(v), -1)
  {
    var s := Abs(v);
    forall k: int | 0 <= k < |s| ensures Rests(s, c, s, k) {
      if s[k].Open? {
        assert s[k].data + [] == s[k].data;
        NothingNew(s, c, s[k].name, s[k].data);
      }
    }
  }

  lemma NothingNew(s: seq<Handle>, c: Call, name: Bytes, data: Bytes)
    requires (c.CallWrite? ==> c.done == []) && (c.CallSeek? ==> c.fill == [])
    ensures NewData(s, c, name, data) == data
  {
  }

  // ----- Seeking -----

  lemma SeekRefines(v: View, v': View, fd: int, target: nat)
    requires Good(v) && Good(v') && 0 <= fd < |v.fds| && v.fds[fd].Open() && 0 <= v.fds[fd].file < |v.files|
    requires v' == v.(files := v.files[v.fds[fd].file := EndAtLeast(v.files[v.fds[fd].file], target)],
                      fds := v.fds[fd := v.fds[fd].(offset := target)])
    ensures var p, e := PageOf(v.files, v.fds[fd].file), EndOf(v.files, v.fds[fd].file);
            Step(Abs(v), CallSeek(fd, target, target, FileBytes(v.b, p, e, Longer(e, target))), Abs(v'))
  {
    HandleFacts(v, fd);
    HandleFacts(v', fd);
    var slot := v.fds[fd].file;
    var p, e := PageOf(v.files, slot), EndOf(v.files, slot);
    var fill := FileBytes(v.b, p, e, Longer(e, target));
    var s, s', c := Abs(v), Abs(v'), CallSeek(fd, target, target, fill);
    FileBytesJoin(v.b, p, 0, e, Longer(e, target));
    assert FileBytes(v.b, p, 0, e) + [] == FileBytes(v.b, p, 0, e);
    assert DataOf(v', slot) == DataOf(v, slot) + fill;
    assert Follows(s, c, s', fd, target);
    forall k: int | 0 <= k < |s| && k != fd ensures Rests(s, c, s', k) { SeekRests(v, v', fd, c, k); }
    forall k: int | OpenOn(s, k, s[fd].name) && s[k].blank ensures fill == ZeroBytes(|fill|) {
      SameSlotSameName(v, k, fd);
      FillZeros(v, slot, target, fill);
    }
  }

  lemma SeekRests(v: View, v': View, fd: int, c: Call, k: int)
    requires Good(v) && Good(v') && 0 <= fd < |v.fds| && v.fds[fd].Open() && 0 <= v.fds[fd].file < |v.files|
    requires 0 <= k < |v.fds| && k != fd
    requires c.CallSeek? && c.fd == fd && c.target >= 0
    requires v' == v.(files := v.files[v.fds[fd].file := EndAtLeast(v.files[v.fds[fd].file], c.target)],
                      fds := v.fds[fd := v.fds[fd].(offset := c.target)])
    requires DataOf(v', v.fds[fd].file) == DataOf(v, v.fds[fd].file) + c.fill
    ensures Rests(Abs(v), c, Abs(v'), k)
  {
    if v.fds[k].Open() {
      HandleFacts(v, k);
      SameSlotSameName(v, k, fd);
      assert v.fds[k].file != v.fds[fd].file ==> SlotSame(v, v', v.fds[k].file);
    }
  }

  lemma FillZeros(v: View, slot: int, target: nat, fill: Bytes)
    requires BlankBehind(v, slot) && target <= CapOf(v, slot)
    requires fill == FileBytes(v.b, PageOf(v.files, slot), EndOf(v.files, slot), Longer(EndOf(v.files, slot), target))
    ensures fill == ZeroBytes(|fill|)
  {
    var p, e := PageOf(v.files, slot), EndOf(v.files, slot);
    forall x: nat | x < |fill| ensures fill[x] == 0 {
      FileByte(v.b, p, e, |fill|, x);
      assert Byte(v.b, p, e + x) == 0;
    }
  }

  // ----- Opening -----

  /** What `cfs_open` does, for a file that is there and for a new one. */
  ghost predicate OpensOn(v: View, v': View, fd: int, name: Bytes, append: bool) {
    && 0 <= fd < |v.fds| && !v.fds[fd].Open() && |v'.fds| == |v.fds| && v'.fds == v.fds[fd := v'.fds[fd]]
    && v'.fds[fd].Open()
    && var s := v'.fds[fd].file;
       && Cached(v'.t, v'.b, v'.files, s) && HasName(v'.t, v'.b, PageOf(v'.files, s), name)
       && SlotsKept(v.files, v'.files, s)
       && v'.fds[fd].offset == (if append then EndOf(v'.files, s) else 0)
       && if Unnamed(v.t, v.b, name) then
            && Others(v.t, v.b, v'.t, v'.b, {PageOf(v'.files, s)}) && !IsActive(v.t, PageOf(v'.files, s))
            && 0 <= s < |v.files| && v.files[s].references == 0
          else v'.t == v.t && v'.b == v.b && Referenced(v.files, v'.files, s)
  }

  lemma OpenOther(v: View, v': View, fd: int, name: Bytes, append: bool, k: int)
    requires Good(v) && Good(v') && OpensOn(v, v', fd, name, append) && 0 <= k < |v.fds| && v.fds[k].Open()
    ensures k != fd && HandleOf(v', k) == HandleOf(v, k)
  {
    HandleFacts(v, k);
    var s := v.fds[k].file;
    if Unnamed(v.t, v.b, name) {
      assert Other(v.t, v.b, v'.t, v'.b, PageOf(v.files, s));
    } else {
      assert Other(v.t, v.b, v'.t, v'.b, PageOf(v.files, s));
    }
    SameHandle(v, v', k);
  }

  lemma OpenRefines(v: View, v': View, fd: int, name: Bytes, read: bool, write: bool, append: bool)
    requires Good(v) && Good(v') && OpensOn(v, v', fd, name, append) && v'.fds[fd].read == read
    requires v'.fds[fd].write == write
    ensures Step(Abs(v), CallOpen(name, read, write, append, fd), Abs(v'))
  {
    var s, s', c := Abs(v), Abs(v'), CallOpen(name, read, write, append, fd);
    HandleFacts(v', fd);
    forall k: int | 0 <= k < |s| && k != fd ensures Rests(s, c, s', k) {
      if v.fds[k].Open() { OpenOther(v, v', fd, name, append, k); }
    }
    forall k: int | OpenOn(s, k, name) ensures s'[fd].data == s[k].data {
      OpenOther(v, v', fd, name, append, k);
      SameSlotSameName(v', k, fd);
    }
  }

  /** The files and descriptors are as before. */
  lemma UntouchedRefines(v: View, v': View, c: Call)
    requires Good(v) && v'.fds == v.fds && SlotsKept(v.files, v'.files, -1) && Others(v.t, v.b, v'.t, v'.b, {})
    requires !c.CallWrite? && !c.CallSeek?
    ensures RestsBut(Abs(v), c, Abs(v'), -1)
  {
    var s, s' := Abs(v), Abs(v');
    forall k: int | 0 <= k < |s| ensures Rests(s, c, s', k) {
      if v.fds[k].Open() {
        HandleFacts(v, k);
        assert Other(v.t, v.b, v'.t, v'.b, PageOf(v.files, v.fds[k].file));
        SameHandle(v, v', k);
      }
    }
  }

  // ----- Removal -----

  lemma RemoveOther(v: View, v': View, page: nat, k: int)
    requires Good(v) && IsFile(v.t, v.b, page) && DescsClosed(v.files, v.fds, page, v'.files, v'.fds)
    requires Others(v.t, v.b, v'.t, v'.b, FilePages(v.b, page)) && 0 <= k < |v.fds| && v'.fds[k].Open()
    ensures v.fds[k].Open() && HandleOf(v', k) == HandleOf(v, k)
  {
    HandleFacts(v, k);
    assert FileOk(v.t, v.b, page);
    assert Other(v.t, v.b, v'.t, v'.b, PageOf(v.files, v.fds[k].file));
    SameHandle(v, v', k);
  }

  lemma RemoveRefines(v: View, v': View, page: nat, name: Bytes)
    requires Good(v) && HasName(v.t, v.b, page, name) && DescsClosed(v.files, v.fds, page, v'.files, v'.fds)
    requires Others(v.t, v.b, v'.t, v'.b, FilePages(v.b, page))
    ensures Step(Abs(v), CallRemove(name, 0), Abs(v'))
  {
    var s, s', c := Abs(v), Abs(v'), CallRemove(name, 0);
    forall k: int | 0 <= k < |s| ensures if OpenOn(s, k, name) then s'[k].Closed? else Rests(s, c, s', k) {
      if v.fds[k].Open() {
        HandleFacts(v, k);
        assert NameApart(v.t, v.b, PageOf(v.files, v.fds[k].file), page);
      }
      if v'.fds[k].Open() { RemoveOther(v, v', page, k); }
    }
  }

  // ----- The files on the device -----

  /** The file of this name. */
  ghost function PageNamed(t: Extents, b: Bytes, name: Bytes): (a: nat)
    requires !Unnamed(t, b, name)
    ensures HasName(t, b, a, name)
  {
    var a: nat :| HasName(t, b, a, name);
    a
  }

  ghost function Names(t: Extents, b: Bytes): set<Bytes> {
    set a | a in t && IsFile(t, b, a) :: HeaderAt(b, a).name
  }

  /** All bytes of the files, as far as their extents go. */
  ghost function DiskOf(t: Extents, b: Bytes): map<Bytes, Bytes> {
    map name | name in Names(t, b) && !Unnamed(t, b, name) ::
      FileBytes(b, PageNamed(t, b, name), 0, Capacity(t[PageNamed(t, b, name)].len))
  }

  lemma DiskNames(t: Extents, b: Bytes, name: Bytes)
    ensures name in DiskOf(t, b) <==> !Unnamed(t, b, name)
  {
    if a: nat :| HasName(t, b, a, name) { assert name in Names(t, b); }
  }

  /** Byte x of the extent at page a, with zeros behind. */
  function ExtentByte(t: Extents, b: Bytes, a: nat, x: nat): byte {
    if a in t && x < Capacity(t[a].len) then Byte(b, a, x) else 0
  }

  lemma DiskByte(t: Extents, b: Bytes, a: nat, name: Bytes, x: nat)
    requires NamesApart(t, b) && HasName(t, b, a, name)
    ensures name in DiskOf(t, b) && At0(DiskOf(t, b)[name], x) == ExtentByte(t, b, a, x)
  {
    DiskNames(t, b, name);
    assert NameApart(t, b, a, PageNamed(t, b, name));
    if x < Capacity(t[a].len) { FileByte(b, a, 0, Capacity(t[a].len), x); }
  }

  lemma HandlesBacked(v: View)
    requires Good(v)
    ensures Backed(Abs(v), DiskOf(v.t, v.b))
  {
    forall k: int ensures HandleBacked(Abs(v), DiskOf(v.t, v.b), k) {
      if IsOpen(Abs(v), k) { OneBacked(v, k); }
    }
  }

  lemma OneBacked(v: View, k: int)
    requires Good(v) && 0 <= k < |v.fds| && v.fds[k].Open()
    ensures HandleBacked(Abs(v), DiskOf(v.t, v.b), k)
  {
    HandleFacts(v, k);
    var s := v.fds[k].file;
    var a, name := PageOf(v.files, s), HandleOf(v, k).name;
    DiskByte(v.t, v.b, a, name, 0);
    forall x: nat | x < EndOf(v.files, s) ensures DataOf(v, s)[x] == At0(DiskOf(v.t, v.b)[name], x) {
      DiskByte(v.t, v.b, a, name, x);
      FileByte(v.b, a, 0, EndOf(v.files, s), x);
    }
  }

  /** A file that a call is not on. */
  lemma OtherName(v: View, v': View, c: Call, a: nat, name: Bytes)
    requires NamesApart(v.t, v.b) && NamesApart(v'.t, v'.b) && HasName(v.t, v.b, a, name) && v.t[a].len > 0
    requires Other(v.t, v.b, v'.t, v'.b, a) && !WritesOn(Abs(v), c, name)
    requires !(c.CallRemove? && c.r == 0 && c.name == name)
    ensures NameStep(Abs(v), DiskOf(v.t, v.b), c, DiskOf(v'.t, v'.b), name)
  {
    DiskByte(v.t, v.b, a, name, 0);
    DiskByte(v'.t, v'.b, a, name, 0);
    forall x: nat ensures At0(DiskOf(v'.t, v'.b)[name], x) == At0(DiskOf(v.t, v.b)[name], x) {
      DiskByte(v.t, v.b, a, name, x);
      DiskByte(v'.t, v'.b, a, name, x);
    }
  }

  /** A name that no file has, before and after. */
  lemma NoName(v: View, v': View, c: Call, name: Bytes)
    requires Unnamed(v.t, v.b, name) && OldNames(v.t, v.b, v'.t, v'.b, {})
    ensures NameStep(Abs(v), DiskOf(v.t, v.b), c, DiskOf(v'.t, v'.b), name)
  {
    DiskNames(v.t, v.b, name);
    DiskNames(v'.t, v'.b, name);
    forall a: nat ensures !HasName(v'.t, v'.b, a, name) { assert OldName(v.t, v.b, v'.t, v'.b, {}, a); }
  }

  lemma FileLen(v: View, a: nat)
    requires ViewOk(v) && IsFile(v.t, v.b, a)
    ensures v.t[a].len > 0
  {
    assert ExtentOk(v.t, v.b, a);
  }

  // ----- Writing -----

  lemma WriteDisk(v: View, v': View, fd: int, c: Call)
    requires Good(v) && Good(v') && c.CallWrite? && c.fd == fd && Written(v, v', fd, c.done)
    requires OldNames(v.t, v.b, v'.t, v'.b, {})
    ensures DiskStep(Abs(v), DiskOf(v.t, v.b), c, DiskOf(v'.t, v'.b))
  {
    HandleFacts(v, fd);
    var p := PageOf(v.files, SlotOf(v, fd));
    forall name: Bytes ensures NameStep(Abs(v), DiskOf(v.t, v.b), c, DiskOf(v'.t, v'.b), name) {
      if Unnamed(v.t, v.b, name) {
        NoName(v, v', c, name);
      } else {
        var a := PageNamed(v.t, v.b, name);
        if a == p {
          WrittenName(v, v', fd, c);
        } else {
          assert NameApart(v.t, v.b, a, p) && Other(v.t, v.b, v'.t, v'.b, a);
          FileLen(v, a);
          OtherName(v, v', c, a, name);
        }
      }
    }
  }

  /** The file that is written. */
  lemma WrittenName(v: View, v': View, fd: int, c: Call)
    requires Good(v) && Good(v') && c.CallWrite? && c.fd == fd && Written(v, v', fd, c.done)
    ensures NameStep(Abs(v), DiskOf(v.t, v.b), c, DiskOf(v'.t, v'.b),
                     HeaderAt(v.b, PageOf(v.files, SlotOf(v, fd))).name)
  {
    HandleFacts(v, fd);
    HandleFacts(v', fd);
    var name := HeaderAt(v.b, PageOf(v.files, SlotOf(v, fd))).name;
    DiskByte(v.t, v.b, PageOf(v.files, SlotOf(v, fd)), name, 0);
    DiskByte(v'.t, v'.b, PageOf(v'.files, SlotOf(v', fd)), name, 0);
    forall x: nat
      ensures ByteStep(Abs(v), c, name, x, At0(DiskOf(v.t, v.b)[name], x), At0(DiskOf(v'.t, v'.b)[name], x))
    {
      DiskByte(v.t, v.b, PageOf(v.files, SlotOf(v, fd)), name, x);
      DiskByte(v'.t, v'.b, PageOf(v'.files, SlotOf(v', fd)), name, x);
      WrittenByte(v, v', fd, c, name, x);
    }
  }

  lemma WrittenByte(v: View, v': View, fd: int, c: Call, name: Bytes, x: nat)
    requires Good(v) && Good(v') && c.CallWrite? && c.fd == fd && Written(v, v', fd, c.done)
    requires name == HeaderAt(v.b, PageOf(v.files, SlotOf(v, fd))).name
    ensures ByteStep(Abs(v), c, name, x, ExtentByte(v.t, v.b, PageOf(v.files, SlotOf(v, fd)), x),
                     ExtentByte(v'.t, v'.b, PageOf(v'.files, SlotOf(v', fd)), x))
  {
    HandleFacts(v, fd);
    HandleFacts(v', fd);
    CapacityMono(LenOf(v.files, SlotOf(v, fd)), LenOf(v'.files, SlotOf(v', fd)));
    var p, p' := PageOf(v.files, SlotOf(v, fd)), PageOf(v'.files, SlotOf(v', fd));
    if x < CapOf(v', SlotOf(v', fd)) {
      assert ContentByte(v.b, p, EndOf(v.files, SlotOf(v, fd)), CapOf(v, SlotOf(v, fd)), Byte(v'.b, p', x), x,
                         OffsetOf(v, fd), c.done);
    }
  }

  // ----- Opening and removing -----

  /** A new file, of zeros. */
  ghost predicate NewZeros(v': View, q: nat, name: Bytes) {
    && HasName(v'.t, v'.b, q, name)
    && forall o: nat {:trigger Byte(v'.b, q, o)} :: o < Capacity(v'.t[q].len) ==> Byte(v'.b, q, o) == 0
  }

  lemma NewDisk(v: View, v': View, c: Call, q: nat, name: Bytes)
    requires Good(v) && Good(v') && c.CallOpen? && c.name == name && Unnamed(v.t, v.b, name) && NewZeros(v', q, name)
    requires !IsActive(v.t, q) && Others(v.t, v.b, v'.t, v'.b, {q}) && OldNames(v.t, v.b, v'.t, v'.b, {name})
    ensures DiskStep(Abs(v), DiskOf(v.t, v.b), c, DiskOf(v'.t, v'.b))
  {
    forall n: Bytes ensures NameStep(Abs(v), DiskOf(v.t, v.b), c, DiskOf(v'.t, v'.b), n) {
      DiskNames(v.t, v.b, n);
      DiskNames(v'.t, v'.b, n);
      if n == name {
        forall x: nat
          ensures n in DiskOf(v'.t, v'.b) && At0(DiskOf(v'.t, v'.b)[n], x) == 0
        {
          DiskByte(v'.t, v'.b, q, n, x);
        }
      } else if Unnamed(v.t, v.b, n) {
        forall a: nat ensures !HasName(v'.t, v'.b, a, n) { assert OldName(v.t, v.b, v'.t, v'.b, {name}, a); }
      } else {
        var a := PageNamed(v.t, v.b, n);
        assert Other(v.t, v.b, v'.t, v'.b, a);
        FileLen(v, a);
        OtherName(v, v', c, a, n);
      }
    }
  }

  /** Nothing has happened to the files. */
  lemma SameFiles(v: View, v': View, c: Call)
    requires Good(v) && Good(v') && Others(v.t, v.b, v'.t, v'.b, {}) && OldNames(v.t, v.b, v'.t, v'.b, {})
    requires c.CallOpen?
    ensures DiskStep(Abs(v), DiskOf(v.t, v.b), c, DiskOf(v'.t, v'.b))
  {
    forall n: Bytes ensures NameStep(Abs(v), DiskOf(v.t, v.b), c, DiskOf(v'.t, v'.b), n) {
      if Unnamed(v.t, v.b, n) {
        NoName(v, v', c, n);
      } else {
        var a := PageNamed(v.t, v.b, n);
        assert Other(v.t, v.b, v'.t, v'.b, a);
        FileLen(v, a);
        OtherName(v, v', c, a, n);
      }
    }
  }

  lemma RemoveDisk(v: View, v': View, page: nat, name: Bytes)
    requires Good(v) && Good(v') && HasName(v.t, v.b, page, name) && Others(v.t, v.b, v'.t, v'.b, FilePages(v.b, page))
    requires OldNames(v.t, v.b, v'.t, v'.b, {}) && Unnamed(v'.t, v'.b, name)
    ensures DiskStep(Abs(v), DiskOf(v.t, v.b), CallRemove(name, 0), DiskOf(v'.t, v'.b))
  {
    var c := CallRemove(name, 0);
    assert FileOk(v.t, v.b, page);
    forall n: Bytes ensures NameStep(Abs(v), DiskOf(v.t, v.b), c, DiskOf(v'.t, v'.b), n) {
      if n == name {
        DiskNames(v'.t, v'.b, n);
      } else if Unnamed(v.t, v.b, n) {
        NoName(v, v', c, n);
      } else {
        var a := PageNamed(v.t, v.b, n);
        assert Other(v.t, v.b, v'.t, v'.b, a);
        FileLen(v, a);
        OtherName(v, v', c, a, n);
      }
    }
  }

  // ----- The calls -----

  ghost function State(c: C.Coffee): seq<Handle>
    reads c, c.store, c.store.flash
  {
    Abs(c.Now())
  }

  ghost function Disk(c: C.Coffee): map<Bytes, Bytes>
    reads c, c.store, c.store.flash
  {
    DiskOf(c.T(), c.B())
  }

  method Open(c: C.Coffee, name: Bytes, read: bool, write: bool, append: bool) returns (fd: int, ghost leak: int)
    requires c.Valid() && !c.store.lost && |name| == NAME_LENGTH && (read || write || append)
    modifies c, c.store, c.store.flash
    ensures c.Core() && Step(old(State(c)), CallOpen(name, read, write, append, fd), State(c))
    ensures leak >= 0 ==> fd == -1 && !old(c.Findable(name)) && (c.Valid() <==> Unnamed(old(c.T()), old(c.B()), name))
    ensures leak < 0 ==> c.Valid()
    ensures c.Valid() ==> DiskStep(old(State(c)), old(Disk(c)), CallOpen(name, read, write, append, fd), Disk(c))
  {
    ghost var v := c.Now();
    fd, leak := c.CfsOpen(name, read, write, append);
    ghost var call := CallOpen(name, read, write, append, fd);
    if fd >= 0 {
      OpenRefines(v, c.Now(), fd, name, read, write, append);
    } else {
      UntouchedRefines(v, c.Now(), call);
    }
    if c.Valid() {
      if leak >= 0 {
        NewDisk(v, c.Now(), call, leak, name);
      } else if fd < 0 {
        SameFiles(v, c.Now(), call);
      } else if Unnamed(v.t, v.b, name) {
        OpenedZeros(c, v, fd, name);
        NewDisk(v, c.Now(), call, c.files[c.fds[fd].file].page, name);
      } else {
        SameDisk(Abs(v), DiskOf(v.t, v.b), call);
      }
    }
  }

  lemma OpenedZeros(c: C.Coffee, v: View, fd: int, name: Bytes)
    requires c.Core() && c.NewlyOpened(v.t, v.b, v.files, v.fds, fd, name) && c.fds[fd].Open()
    ensures NewZeros(c.Now(), c.files[c.fds[fd].file].page, name)
  {
    HandleFacts(c.Now(), fd);
  }

  /** Seeking within the capacity of the extent. */
  method Seek(c: C.Coffee, fd: int, offset: int, whence: C.Whence) returns (r: int, ghost fill: Bytes)
    requires c.Valid()
    requires c.FdValid(fd) ==> c.SeekTarget(fd, offset, whence) <= Capacity(LenOf(c.files, c.fds[fd].file))
    modifies c`files, c`fds
    ensures c.Valid() && Disk(c) == old(Disk(c))
    ensures Step(old(State(c)), CallSeek(fd, old(c.SeekTarget(fd, offset, whence)), r, fill), State(c))
  {
    ghost var v := c.Now();
    ghost var target := c.SeekTarget(fd, offset, whence);
    r := c.CfsSeek(fd, offset, whence);
    fill := [];
    if r >= 0 {
      SeekRefines(v, c.Now(), fd, r);
      fill := FileBytes(v.b, PageOf(v.files, v.fds[fd].file), EndOf(v.files, v.fds[fd].file),
                        Longer(EndOf(v.files, v.fds[fd].file), r));
    } else {
      NothingRefines(v, CallSeek(fd, target, r, fill));
    }
  }

  /** The call comes back if fewer than 2^16 bytes are asked for, or the file has no log. */
  method Read(c: C.Coffee, fd: int, size: nat) returns (r: int, buf: Bytes, hangs: bool)
    requires c.Valid()
    modifies c`fds
    ensures c.Valid() && Disk(c) == old(Disk(c))
    ensures !hangs ==> Step(old(State(c)), CallRead(fd, size, r, buf), State(c))
    ensures hangs ==>
              size >= 0x1_0000 && c.FdValid(fd) && 0 <= c.fds[fd].file < |c.files| && c.files[c.fds[fd].file].modified
  {
    ghost var v := c.Now();
    r, buf, hangs := c.CfsRead(fd, size);
    if r >= 0 {
      HandleFacts(v, fd);
      CacheRests(v, c.Now(), CallRead(fd, size, r, buf), fd);
      CacheHandle(v, c.Now(), fd);
    } else {
      NothingRefines(v, CallRead(fd, size, r, buf));
    }
  }

  /** The call comes back if fewer than 2^16 bytes are given, or they do not go through a log. */
  method Write(c: C.Coffee, fd: int, buf: Bytes, rounds: nat)
    returns (r: int, done: bool, ghost d: Bytes, ghost leak: int)
    requires c.Valid() && !c.store.lost
    modifies c, c.store, c.store.flash
    ensures c.Core() && (c.Valid() <==> leak < 0)
    ensures SlotAvailable(old(c.files)) ==> leak < 0 && SlotAvailable(c.files)
    ensures done ==> Step(old(State(c)), CallWrite(fd, buf, r, d), State(c))
    ensures done && c.Valid() ==> DiskStep(old(State(c)), old(Disk(c)), CallWrite(fd, buf, r, d), Disk(c))
    ensures !done ==> |buf| >= 0x1_0000 && old(c.Logging(fd, |buf|))
  {
    ghost var v := c.Now();
    ghost var able := c.FdValid(fd) && c.fds[fd].write;
    r, done, d, leak := c.CfsWrite(fd, buf, rounds);
    ghost var call := CallWrite(fd, buf, r, d);
    if done {
      if able {
        WriteRefines(v, c.Now(), fd, buf, r, d);
        if c.Valid() { WriteDisk(v, c.Now(), fd, call); }
      } else {
        NothingRefines(v, call);
        SameDisk(Abs(v), DiskOf(v.t, v.b), call);
      }
    }
  }

  method Close(c: C.Coffee, fd: int)
    requires c.Valid()
    modifies c`files, c`fds
    ensures c.Valid() && Disk(c) == old(Disk(c)) && Step(old(State(c)), CallClose(fd), State(c))
  {
    ghost var v := c.Now();
    ghost var able := c.FdValid(fd);
    c.CfsClose(fd);
    if able {
      CacheRests(v, c.Now(), CallClose(fd), fd);
    } else {
      NothingRefines(v, CallClose(fd));
    }
  }

  method Remove(c: C.Coffee, name: Bytes) returns (r: int)
    requires c.Valid()
    modifies c, c.store, c.store.flash
    ensures c.Valid() && Step(old(State(c)), CallRemove(name, r), State(c))
    ensures DiskStep(old(State(c)), old(Disk(c)), CallRemove(name, r), Disk(c))
  {
    ghost var v := c.Now();
    ghost var page;
    r, page := c.CfsRemove(name);
    if r == 0 {
      RemoveRefines(v, c.Now(), page, name);
      RemoveDisk(v, c.Now(), page, name);
    } else {
      NothingRefines(v, CallRemove(name, r));
      SameDisk(Abs(v), DiskOf(v.t, v.b), CallRemove(name, r));
    }
  }

  /** Between calls, what descriptors see is what is on the device. */
  lemma AlwaysBacked(c: C.Coffee)
    requires c.Valid()
    ensures Backed(State(c), Disk(c))
  {
    HandlesBacked(c.Now());
  }
}
