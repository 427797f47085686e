/** The file operations of the Coffee file system. */
module Coffee {
  import opened Words
  import opened CoffeeConfig
  import opened FlashBytes
  import opened FlashDevice
  import opened Extents
  import opened Collector
  import opened Allocation
  import opened Reserving
  import opened MicroLog
  import opened FileContent
  import opened FileSystem
  import opened FileCache
  import opened FileWrites
  import S = CoffeeStore

  /** CFS_SEEK_SET, CFS_SEEK_CUR and CFS_SEEK_END. */
  datatype Whence = FromStart | FromCurrent | FromEnd

  class Coffee {
    const store: S.Store
    var files: seq<File>
    var fds: seq<Desc>

    /** `cfs_coffee_format`: a device without files. */
    constructor ()
      ensures Valid() && fresh(store) && fresh(store.flash)
      ensures forall k :: 0 <= k < |fds| ==> !fds[k].Open()
      ensures forall a: nat :: !IsActive(T(), a)
      ensures !store.lost && SlotAvailable(files) && store.nextFree == 0 && (SECTOR_COUNT == 1 ==> store.Filling())
    {
      store := new S.Store();
      files := seq(MAX_OPEN_FILES, _ => NO_FILE);
      fds := seq(FD_SET_SIZE, _ => NO_DESC);
      new;
      assert files[0].references == 0;
      forall a: nat, c: nat ensures LogApart(T(), B(), a, c) { }
      forall i | 0 <= i < |files| ensures files[i].references == RefCount(fds, i) { RefNone(fds, i); }
    }

    ghost function T(): Extents
      reads store
    {
      store.extents
    }

    ghost function B(): Bytes
      reads store, store.flash
    {
      store.flash.bytes
    }

    ghost function Now(): View
      reads this, store, store.flash
    {
      View(T(), B(), files, fds, store.gcWait)
    }

    /** Everything but that files have different names. */
    ghost predicate Core()
      reads this, store, store.flash
    {
      store.StoreOk() && FilesOk(T(), B()) && CacheOk(T(), B(), files, fds)
    }

    ghost predicate Valid()
      reads this, store, store.flash
    {
      Core() && NamesApart(T(), B())
    }

    /** The bytes of the file in slot s. */
    ghost function Data(s: int): Bytes
      requires 0 <= s < |files| && files[s].page >= 0 && files[s].end >= 0
      reads this, store, store.flash
    {
      FileBytes(B(), files[s].page, 0, files[s].end)
    }

    lemma SlotFacts(s: int)
      requires Core() && 0 <= s < |files| && !files[s].FreeSlot()
      ensures SlotOk(T(), B(), files[s]) && IsActive(T(), files[s].page)
      ensures IsFile(T(), B(), files[s].page) ==> FileOk(T(), B(), files[s].page)
    {
      assert SlotOk(T(), B(), files[s]);
    }

    lemma DescFacts(fd: int)
      requires Core() && 0 <= fd < |fds| && fds[fd].Open()
      ensures var s := fds[fd].file;
              && 0 <= s < |files| && Cached(T(), B(), files, s) && fds[fd].offset <= files[s].end
              && SlotOk(T(), B(), files[s])
      ensures FileOk(T(), B(), files[fds[fd].file].page)
    {
      assert DescOk(T(), B(), files, fds[fd]);
      SlotFacts(fds[fd].file);
    }

    // ----- Reading -----

    predicate FdValid(fd: int)
      reads this
    {
      0 <= fd < FD_SET_SIZE && fd < |fds| && fds[fd].Open()
    }

    /** The bytes at an offset of a cached file, from the extent or through the log. */
    method ReadAt(s: int, offset: nat, size: nat) returns (buf: Bytes, hangs: bool)
      requires Core() && 0 <= s < |files| && Cached(T(), B(), files, s)
      ensures buf == FileBytes(B(), files[s].page, offset, |buf|)
      ensures hangs <==> files[s].modified && size >= 0x1_0000
      ensures |buf| == if hangs then SizeField(size) else size
    {
      SlotFacts(s);
      var file := files[s];
      if !file.modified {
        hangs := false;
        buf := store.flash.Read(Absolute(file.page, offset), size);
        PlainBytes(B(), file.page, offset, size);
      } else {
        buf, hangs := ReadThroughLog(store.flash, file.page, file.recordCount, offset, size);
      }
    }

    /** `cfs_read`: the bytes of the file from the descriptor's offset on, up to its end. If the
        file has a log and 2^16 bytes or more are to be read, the call hangs: it goes round for
        ever once what is left of the size no longer shows in 16 bits. */
    method CfsRead(fd: int, size0: nat) returns (r: int, buf: Bytes, hangs: bool)
      requires Core()
      modifies `fds
      ensures Core() && unchanged(store) && unchanged(store.flash)
      ensures !(old(FdValid(fd)) && old(fds)[fd].read) ==> r == -1 && !hangs && fds == old(fds)
      ensures old(FdValid(fd)) && old(fds)[fd].read ==>
                var s, o := old(fds)[fd].file, old(fds)[fd].offset;
                && 0 <= s < |files| && Cached(T(), B(), files, s) && o <= files[s].end
                && var n := Min(size0, files[s].end - o);
                   && (hangs <==> files[s].modified && n >= 0x1_0000)
                   && r == (if hangs then SizeField(n) else n) && buf == Data(s)[o..o + r]
                   && fds == old(fds)[fd := old(fds)[fd].(offset := o + r)]
    {
      if !(FdValid(fd) && fds[fd].read) {
        return -1, [], false;
      }
      DescFacts(fd);
      var d := fds[fd];
      var size := size0;
      if d.offset + size > files[d.file].end {
        size := files[d.file].end - d.offset;
      }
      buf, hangs := ReadAt(d.file, d.offset, size);
      DataSlice(B(), files[d.file].page, files[d.file].end, d.offset, |buf|);
      DescMoved(T(), B(), files, fds, fd, d.(offset := d.offset + |buf|));
      fds := fds[fd := d.(offset := d.offset + |buf|)];
      r := |buf|;
    }

    // ----- Seeking and closing -----

    /** Where a seek goes; a descriptor that is not open goes nowhere. */
    function SeekTarget(fd: int, offset: int, whence: Whence): int
      reads this
    {
      if 0 <= fd < |fds| && 0 <= fds[fd].file < |files| then
        match whence
        case FromStart => offset
        case FromCurrent => fds[fd].offset + offset
        case FromEnd => files[fds[fd].file].end + offset
      else -1
    }

    /** The bytes between the end of a file and the end of its extent are zeros. */
    ghost predicate Blank(s: int)
      requires 0 <= s < |files| && files[s].page >= 0 && files[s].end >= 0 && files[s].maxPages > 0
      reads this, store, store.flash
    {
      forall o: nat :: files[s].end <= o < Capacity(files[s].maxPages) ==> Byte(B(), files[s].page, o) == 0
    }

    /** `cfs_seek`. The code bounds the new offset by the whole extent, header included; the
        file stays within its extent exactly when the new offset is within the capacity. */
    method CfsSeek(fd: int, offset: int, whence: Whence) returns (r: int)
      requires Core()
      modifies `files, `fds
      ensures unchanged(store) && unchanged(store.flash)
      ensures r < 0 ==> r == -1 && unchanged(this)
      ensures old(FdValid(fd)) ==> 0 <= old(fds)[fd].file < |old(files)| && old(files)[old(fds)[fd].file].maxPages > 0
      ensures r >= 0 <==>
                && old(FdValid(fd))
                && 0 <= old(SeekTarget(fd, offset, whence)) <= Offset(old(files)[old(fds)[fd].file].maxPages)
      ensures r >= 0 ==> r == old(SeekTarget(fd, offset, whence))
      ensures r >= 0 ==> files == old(files)[old(fds)[fd].file := EndAtLeast(old(files)[old(fds)[fd].file], r)]
      ensures r >= 0 ==> fds == old(fds)[fd := old(fds)[fd].(offset := r)]
      ensures r >= 0 ==> (Core() <==> r <= Capacity(old(files)[old(fds)[fd].file].maxPages))
    {
      if !FdValid(fd) {
        return -1;
      }
      DescFacts(fd);
      var s := fds[fd].file;
      var target := SeekTarget(fd, offset, whence);
      if target < 0 || target > Offset(files[s].maxPages) {
        return -1;
      }
      SeekWithin(fd, target);
      if files[s].end < target {
        files := files[s := files[s].(end := target)];
      }
      fds := fds[fd := fds[fd].(offset := target)];
      r := target;
    }

    lemma SeekWithin(fd: int, target: nat)
      requires Core() && FdValid(fd)
      ensures var s := fds[fd].file;
              0 <= s < |files| && files[s].maxPages > 0
              && (CacheOk(T(), B(), files[s := EndAtLeast(files[s], target)],
                          fds[fd := fds[fd].(offset := target)]) <==>
                    target <= Capacity(files[s].maxPages))
    {
      DescFacts(fd);
      var s := fds[fd].file;
      var f := EndAtLeast(files[s], target);
      var files', fds' := files[s := f], fds[fd := fds[fd].(offset := target)];
      if target <= Capacity(files[s].maxPages) {
        SlotUpdated(T(), B(), files, fds, s, f);
        DescMoved(T(), B(), files', fds, fd, fds'[fd]);
      } else {
        assert !SlotOk(T(), B(), files'[s]);
      }
    }

    /** Every open file can be left with an end behind its capacity: the code accepts the
        target `max_pages * COFFEE_PAGE_SIZE`. */
    method SeekTooFar(fd: int) returns (r: int)
      requires Core() && FdValid(fd)
      modifies `files, `fds
      ensures 0 <= old(fds)[fd].file < |old(files)|
      ensures r == Offset(LenOf(old(files), old(fds)[fd].file)) > Capacity(LenOf(old(files), old(fds)[fd].file))
      ensures 0 <= old(fds)[fd].file < |files| && files[old(fds)[fd].file].end == r && !Core()
    {
      DescFacts(fd);
      CapacityIs(files[fds[fd].file].maxPages);
      r := CfsSeek(fd, Offset(files[fds[fd].file].maxPages), FromStart);
    }

    /** `cfs_close` */
    method CfsClose(fd: int)
      requires Core()
      modifies `files, `fds
      ensures Core() && unchanged(store) && unchanged(store.flash)
      ensures !old(FdValid(fd)) ==> unchanged(this)
      ensures old(FdValid(fd)) ==>
                fds == old(fds)[fd := old(fds)[fd].(file := -1, read := false, write := false, append := false)]
      ensures old(FdValid(fd)) ==> var s := old(fds)[fd].file;
                && 0 <= s < |old(files)|
                && files == old(files)[s := old(files)[s].(references := old(files)[s].references - 1)]
    {
      if FdValid(fd) {
        var d := fds[fd].(file := -1, read := false, write := false, append := false);
        DescClosed(T(), B(), files, fds, fd, d);
        var s := fds[fd].file;
        fds := fds[fd := d];
        files := files[s := files[s].(references := files[s].references - 1)];
      }
    }

    // ----- The cache of files -----

    /** `load_file`: a free slot, or else the last one that no descriptor refers to. */
    method LoadFile(start: nat, h: Header) returns (s: int)
      requires Core() && IsActive(T(), start) && T()[start].len == h.maxPages && h == HeaderAt(B(), start)
      requires !(h.log && h.modified)
      requires forall i :: 0 <= i < |files| && !files[i].FreeSlot() ==> files[i].page != start
      modifies `files
      ensures Core()
      ensures s < 0 ==> s == -1 && files == old(files) && !SlotAvailable(files)
      ensures s >= 0 ==>
                && PickedSlot(old(files), s) && old(files)[s].references == 0
                && files == old(files)[s := File(-1, start, h.maxPages, -1, 0, h.modified)]
    {
      var free, unreferenced, i := -1, -1, 0;
      while i < MAX_OPEN_FILES && free == -1
        invariant 0 <= i <= MAX_OPEN_FILES && -1 <= unreferenced < i && (free == -1 || (free == i - 1 && i > 0))
        invariant free >= 0 ==> files[free].FreeSlot()
        invariant unreferenced >= 0 ==> files[unreferenced].references == 0
        invariant forall j :: 0 <= j < i && j != free ==> !files[j].FreeSlot()
        invariant forall j :: unreferenced < j < i && j != free ==> files[j].references != 0
      {
        if files[i].FreeSlot() {
          free := i;
        } else if files[i].references == 0 {
          unreferenced := i;
        }
        i := i + 1;
      }
      s := if free >= 0 then free else unreferenced;
      if s >= 0 {
        if free >= 0 { FreeUnreferenced(free); }
        var f := File(-1, start, h.maxPages, -1, 0, h.modified);
        assert ExtentOk(T(), B(), start);
        CacheLoaded(T(), B(), files, fds, s, f);
        files := files[s := f];
      }
    }

    lemma FreeUnreferenced(s: int)
      requires Core() && 0 <= s < |files| && files[s].FreeSlot()
      ensures files[s].references == 0
    {
      RefNone(fds, s);
      forall k | 0 <= k < |fds| ensures !fds[k].On(s) { assert DescOk(T(), B(), files, fds[k]); }
    }

    /** The slot holds a file of this name. */
    ghost predicate SlotNamed(i: int, name: Bytes)
      reads this, store, store.flash
    {
      0 <= i < |files| && !files[i].FreeSlot() && files[i].page >= 0 && HasName(T(), B(), files[i].page, name)
    }

    ghost predicate InCache(name: Bytes)
      reads this, store, store.flash
    {
      exists i: int :: SlotNamed(i, name)
    }

    /** The file is cached, and its end is known. */
    ghost predicate EndCached(name: Bytes)
      reads this, store, store.flash
    {
      exists i: int :: SlotNamed(i, name) && files[i].end >= 0
    }

    lemma OneSlot(name: Bytes, s: int)
      requires Valid() && SlotNamed(s, name)
      ensures EndCached(name) <==> files[s].end >= 0
    {
      forall i: int | SlotNamed(i, name) ensures i == s {
        assert NameApart(T(), B(), files[i].page, files[s].page) && SlotApart(files, i, s);
      }
    }

    /** The file, if there is one, is cached or can be. */
    ghost predicate Findable(name: Bytes)
      reads this, store, store.flash
    {
      SlotAvailable(files) || InCache(name)
    }

    /** `find_file`: the cache first, then the header walk. If descriptors refer to all slots, a
        file that is not cached is not found, although it is there. */
    method FindFile(name: Bytes) returns (s: int)
      requires Core()
      modifies `files
      ensures Core()
      ensures s >= 0 ==> SlotNamed(s, name)
      ensures s >= 0 ==>
                files == old(files)
                || (PickedSlot(old(files), s) && old(files)[s].references == 0 && files == old(files)[s := files[s]]
                    && files[s].end == -1 && files[s].references == 0 && !old(InCache(name)))
      ensures s < 0 ==> s == -1 && files == old(files)
      ensures s < 0 <==> Unnamed(T(), B(), name) || !old(Findable(name))
    {
      var i := 0;
      while i < MAX_OPEN_FILES
        invariant 0 <= i <= MAX_OPEN_FILES == |files| && files == old(files)
        invariant forall j :: 0 <= j < i && !files[j].FreeSlot() ==>
                    files[j].page >= 0 && !HasName(T(), B(), files[j].page, name)
      {
        if !files[i].FreeSlot() {
          SlotFacts(i);
          SlotActive(T(), B(), files[i]);
          var h := store.flash.ReadHeader(files[i].page);
          if h.Active() && !h.log && h.name == name {
            assert SlotNamed(i, name);
            return i;
          }
        }
        i := i + 1;
      }
      assert !InCache(name);
      s := ScanFor(name);
    }

    /** The scan of the device. */
    method ScanFor(name: Bytes) returns (s: int)
      requires Core()
      requires forall j :: 0 <= j < |files| && !files[j].FreeSlot() ==>
                 files[j].page >= 0 && !HasName(T(), B(), files[j].page, name)
      modifies `files
      ensures Core()
      ensures s >= 0 ==> SlotNamed(s, name)
      ensures s >= 0 ==>
                PickedSlot(old(files), s) && old(files)[s].references == 0 && files == old(files)[s := files[s]]
                && files[s].end == -1 && files[s].references == 0
      ensures s < 0 ==> s == -1 && files == old(files)
      ensures s < 0 <==> Unnamed(T(), B(), name) || !SlotAvailable(old(files))
    {
      s := -1;
      var page := 0;
      while page < PAGE_COUNT
        invariant page <= PAGE_COUNT && Boundary(T(), page) && files == old(files) && s == -1
        invariant forall a: nat :: a < page ==> !HasName(T(), B(), a, name)
        decreases PAGE_COUNT - page
      {
        var h := store.flash.ReadHeader(page);
        ExtentHeader(T(), B(), page);
        NextFileIs(T(), B(), page);
        if h.Active() && !h.log && h.name == name {
          assert HasName(T(), B(), page, name);
          s := LoadFile(page, h);
          return;
        }
        NothingSkipped(T(), B(), page);
        page := NextFile(page, h);
      }
      forall a: nat ensures !HasName(T(), B(), a, name) {
        if a in T() { ExtentHeader(T(), B(), a); }
      }
    }

    // ----- Reserving an extent -----

    ghost predicate AllOpen()
      reads this
    {
      NoneFree(fds)
    }

    /** Pages for an extent are found without collecting garbage. */
    ghost predicate RoomFor(pages: nat)
      reads store
    {
      !NoneFits(store.extents, store.nextFree, pages)
    }

    /** The header that `reserve` writes. */
    function NewHeader(name: Bytes, pages: nat, log: bool): Header {
      ZeroHeader().(name := name, maxPages := pages, inUse := true, valid := true, log := log)
    }

    /** Pages from q on have been reserved, and written since. */
    ghost predicate TakenFrom(w: Space, q: nat, pages: nat, h: Header)
      reads store
    {
      exists w1: Space :: Granted(w, w1, q, pages, h) && store.nextFree == w1.next && !store.lost
    }

    /** `reserve`, for a name that may be taken: an extent is allocated and cached. If there is no
        slot for it, the extent stays behind all the same. */
    method Reserve(name: Bytes, pages: nat, log: bool) returns (s: int, ghost page: int)
      requires Core() && !store.lost && |name| == NAME_LENGTH && 0 < pages < 0x8000
      modifies this, store, store.flash
      ensures Core() && fds == old(fds) && s >= -1 && page >= -1
      ensures page < 0 ==>
                && s < 0 && Others(old(T()), old(B()), T(), B(), {})
                && Refused(old(store.Snap()), store.Snap(), pages)
      ensures page >= 0 ==> Granted(old(store.Snap()), store.Snap(), page, pages, NewHeader(name, pages, log))
      ensures page < 0 ==> forall a: nat :: IsFile(T(), B(), a) ==>
                IsFile(old(T()), old(B()), a) && HeaderAt(B(), a) == HeaderAt(old(B()), a)
      ensures s < 0 ==> files == old(files)
      ensures page >= 0 ==> (s >= 0 <==> SlotAvailable(old(files)))
      ensures page >= 0 ==>
                && !store.lost
                && NewExtent(old(T()), old(B()), T(), B(), page, pages, NewHeader(name, pages, log))
      ensures page >= 0 ==>
                forall j :: 0 <= j < |old(files)| && !old(files)[j].FreeSlot() ==> old(files)[j].page != page
      ensures s >= 0 ==>
                && page >= 0 && PickedSlot(old(files), s) && old(files)[s].references == 0
                && files == old(files)[s := File(0, page, pages, -1, 0, false)]
      ensures old(RoomFor(pages)) ==> page >= 0
      ensures old(store.Filling()) ==>
                store.Filling() && FillStep(old(store.nextFree), store.nextFree, pages, page >= 0)
    {
      var h := NewHeader(name, pages, log);
      ghost var t, b := T(), B();
      var q := store.Allocate(h, pages);
      page := q;
      if q < 0 {
        CollectedFiles(t, b, T(), B());
        CacheKept(t, b, T(), B(), files, fds, {});
        return -1, -1;
      }
      Allocated(t, b, q, pages, h);
      s := LoadNew(q, h);
    }

    /** A new extent is cached; its end is known to be 0. */
    method LoadNew(q: nat, ghost h: Header) returns (s: int)
      requires Core() && IsActive(T(), q) && T()[q].len == h.maxPages > 0 && h == HeaderAt(B(), q) && !h.modified
      requires forall i :: 0 <= i < |files| && !files[i].FreeSlot() ==> files[i].page != q
      modifies `files
      ensures Core() && s >= -1 && (s >= 0 <==> SlotAvailable(old(files))) && (s < 0 ==> files == old(files))
      ensures s >= 0 ==>
                && PickedSlot(old(files), s) && old(files)[s].references == 0
                && files == old(files)[s := File(0, q, h.maxPages, -1, 0, false)]
    {
      var hdr := store.flash.ReadHeader(q);
      s := LoadFile(q, hdr);
      if s >= 0 {
        EndKnown(s);
        files := files[s := files[s].(end := 0)];
      }
    }

    /** The cache after an extent has been allocated. */
    lemma Allocated(t: Extents, b: Bytes, page: nat, pages: nat, h: Header)
      requires Tiled(t, b) && FilesOk(t, b) && CacheOk(t, b, files, fds) && store.StoreOk()
      requires NewExtent(t, b, T(), B(), page, pages, h) && pages > 0 && h == NewHeader(h.name, pages, h.log)
      ensures Core()
      ensures forall i :: 0 <= i < |files| && !files[i].FreeSlot() ==> files[i].page != page
    {
      if !h.log { DefaultConfig(h); }
      NewFiles(t, b, T(), B(), page, pages, h);
      forall i | 0 <= i < |files| && !files[i].FreeSlot()
        ensures files[i].page != page
      {
        assert SlotOk(t, b, files[i]);
      }
      CacheKept(t, b, T(), B(), files, fds, {page});
    }

    /** The end of a file just reserved is known to be 0. */
    lemma EndKnown(s: int)
      requires Core() && 0 <= s < |files| && !files[s].FreeSlot() && files[s].end == -1
      ensures CacheOk(T(), B(), files[s := files[s].(end := 0)], fds)
    {
      SlotFacts(s);
      SlotUpdated(T(), B(), files, fds, s, files[s].(end := 0));
    }

    // ----- Removal -----

    /** Descriptors on a removed file are closed. */
    method CloseDescs(page: nat)
      modifies `fds
      ensures fds == ClosePage(old(fds), files, page)
    {
      var i := 0;
      while i < |fds|
        invariant 0 <= i <= |fds| == |old(fds)|
        invariant fds[..i] == ClosePage(old(fds), files, page)[..i] && fds[i..] == old(fds)[i..]
      {
        if fds[i].file >= 0 && fds[i].file < |files| && files[fds[i].file].page == page {
          fds := fds[i := Shut(fds[i])];
        }
        i := i + 1;
      }
    }

    /** The cache forgets an extent. */
    method ForgetPage(page: nat)
      modifies `files
      ensures files == ClearPage(old(files), page)
    {
      var i := 0;
      while i < |files|
        invariant 0 <= i <= |files| == |old(files)|
        invariant files[..i] == ClearPage(old(files), page)[..i] && files[i..] == old(files)[i..]
      {
        if files[i].page == page {
          files := files[i := Cleared(files[i])];
        }
        i := i + 1;
      }
    }

    /** Something has been removed: allocation goes on where it did, and garbage may be collected
        again. */
    ghost predicate Awoken(s: Space)
      reads store, store.flash
    {
      store.Snap() == s.(extents := T(), bytes := B(), waiting := false)
    }

    /** `remove_by_page` without the log. */
    method RemoveExtent(page: nat, closeFds: bool) returns (r: int)
      requires store.StoreOk() && IsActive(T(), page)
      modifies this, store, store.flash
      ensures r == 0 && store.StoreOk() && Awoken(old(store.Snap()))
      ensures MarkedObsolete(old(T()), old(B()), B(), page) && T() == Obsoleted(old(T()), page)
      ensures old(store.FreeBehind()) ==> store.FreeBehind()
      ensures fds == if closeFds then ClosePage(old(fds), old(files), page) else old(fds)
      ensures files == ClearPage(old(files), page)
    {
      var h := store.flash.ReadHeader(page);
      ExtentHeader(T(), B(), page);
      if !h.Active() {
        assert false;
        return -1;
      }
      store.MarkPage(page, h);
      if closeFds {
        CloseDescs(page);
      }
      ForgetPage(page);
      r := 0;
    }

    /** `remove_by_page` with the log of the file, if it has one. */
    method RemoveFile(page: nat, closeFds: bool) returns (r: int)
      requires store.StoreOk() && FilesOk(T(), B()) && IsFile(T(), B(), page)
      requires forall i :: 0 <= i < |files| ==> files[i].page >= -1
      modifies this, store, store.flash
      ensures r == 0 && store.StoreOk() && Awoken(old(store.Snap()))
      ensures Removed(old(T()), old(B()), T(), B(), page) && FilesOk(T(), B())
      ensures old(store.FreeBehind()) ==> store.FreeBehind()
      ensures var lp := LogOf(old(B()), page);
              && (lp >= 0 ==> !IsActive(T(), lp))
              && fds == (if closeFds then ClosePage(old(fds), ClearPage(old(files), lp), page) else old(fds))
              && files == ClearPage(ClearPage(old(files), lp), page)
    {
      ghost var t, b := T(), B();
      var h := store.flash.ReadHeader(page);
      FileFacts(page);
      if h.modified {
        var lp: nat := h.logPage;
        r := RemoveExtent(lp, false);
        StillThere(t, b, B(), lp, page);
        RemovedExtent(t, b, B(), lp);
        ghost var t1, b1 := T(), B();
        r := RemoveExtent(page, closeFds);
        RemovedBoth(t, b, t1, b1, T(), B(), page, lp);
      } else {
        assert ClearPage(files, -2) == files;
        r := RemoveExtent(page, closeFds);
        RemovedAlone(t, b, T(), B(), page);
      }
      RemovedFiles(t, b, T(), B(), page);
    }

    lemma FileFacts(page: nat)
      requires FilesOk(T(), B()) && IsFile(T(), B(), page)
      ensures FileOk(T(), B(), page)
      ensures HeaderAt(B(), page).modified ==>
                && HeaderAt(B(), page).logPage >= 0 && IsActive(T(), HeaderAt(B(), page).logPage)
                && HeaderAt(B(), page).logPage != page
      ensures HeaderAt(B(), page).modified ==> HeaderAt(B(), HeaderAt(B(), page).logPage).log
    {
      assert FileOk(T(), B(), page);
    }

    /** What the removal of a file leaves. */
    lemma AfterRemoval(t: Extents, b: Bytes, page: nat, files0: seq<File>, fds0: seq<Desc>)
      requires Tiled(t, b) && FilesOk(t, b) && CacheOk(t, b, files0, fds0) && Removed(t, b, T(), B(), page)
      requires LogOf(b, page) >= 0 ==> !IsActive(T(), LogOf(b, page))
      ensures var files1 := ClearPage(files0, LogOf(b, page));
              CacheOk(T(), B(), ClearPage(files1, page), ClosePage(fds0, files1, page))
      ensures Others(t, b, T(), B(), FilePages(b, page))
      ensures forall c: nat ::
                IsFile(T(), B(), c) ==> IsFile(t, b, c) && c != page && HeaderAt(B(), c) == HeaderAt(b, c)
    {
      assert FileOk(t, b, page);
      RemovedFiles(t, b, T(), B(), page);
      var lp := LogOf(b, page);
      RemovedCache(t, b, T(), B(), files0, fds0, page, lp, FilePages(b, page));
    }

    /** Files with the same names as before have different ones. */
    lemma NamesKept(t: Extents, b: Bytes)
      requires NamesApart(t, b)
      requires forall c: nat :: IsFile(T(), B(), c) ==> IsFile(t, b, c) && HeaderAt(B(), c).name == HeaderAt(b, c).name
      ensures NamesApart(T(), B()) && OldNames(t, b, T(), B(), {})
      ensures forall ns: set<Bytes> :: OldNames(t, b, T(), B(), ns)
    {
      OldNamesBut(t, b, T(), B(), -1, {});
      forall ns: set<Bytes> ensures OldNames(t, b, T(), B(), ns) { OldNamesBut(t, b, T(), B(), -1, ns); }
      forall a: nat, c: nat ensures NameApart(T(), B(), a, c) { assert NameApart(t, b, a, c); }
    }

    /** `cfs_remove`: the file and its log are marked for collection, and its descriptors are
        closed. No file has the name afterwards. It fails if there is no such file, or
        `find_file` does not find it. */
    method CfsRemove(name: Bytes) returns (r: int, ghost page: nat)
      requires Valid()
      modifies this, store, store.flash
      ensures Valid()
      ensures r == -1 || r == 0
      ensures r == -1 <==> Unnamed(old(T()), old(B()), name) || !old(Findable(name))
      ensures r == -1 ==> unchanged(store) && unchanged(store.flash) && fds == old(fds)
      ensures OldNames(old(T()), old(B()), T(), B(), {}) && (r == 0 ==> Unnamed(T(), B(), name))
      ensures r == 0 ==> Removed(old(T()), old(B()), T(), B(), page) && HeaderAt(old(B()), page).name == name
      ensures r == 0 ==> Others(old(T()), old(B()), T(), B(), FilePages(old(B()), page))
      ensures r == 0 ==> DescsClosed(old(files), old(fds), page, files, fds) && Awoken(old(store.Snap()))
      ensures r == -1 ==> files == old(files)
      ensures r == 0 ==> exists s :: SlotsBut(old(files), files, s, s, LogOf(old(B()), page))
    {
      ghost var t, b := T(), B();
      ghost var files00 := files;
      OthersNone();
      var s := FindFile(name);
      if s < 0 {
        return -1, 0;
      }
      SlotPages();
      page := files[s].page;
      ghost var files0, fds0 := files, fds;
      r := RemoveFile(files[s].page, true);
      AfterRemoval(t, b, page, files0, fds0);
      assert FileOk(t, b, page);
      ClearedBut(t, b, files00, files0, fds0, s, page, LogOf(b, page));
      RemovedDescs(t, b, files00, files0, fds0, s, page, LogOf(b, page));
      NamesKept(t, b);
      forall a: nat ensures !HasName(T(), B(), a, name) {
        assert NameApart(t, b, a, page);
      }
    }

    lemma SlotPages()
      requires Core()
      ensures forall i :: 0 <= i < |files| ==> files[i].page >= -1
    {
      forall i | 0 <= i < |files| ensures files[i].page >= -1 { assert SlotOk(T(), B(), files[i]); }
    }

    // ----- Opening -----

    method GetAvailableFd() returns (fd: int)
      ensures -1 <= fd < |fds| && (fd >= 0 ==> !fds[fd].Open())
      ensures forall k :: 0 <= k < (if fd < 0 then |fds| else fd) ==> fds[k].Open()
    {
      fd := 0;
      while fd < |fds|
        invariant 0 <= fd <= |fds| && forall k :: 0 <= k < fd ==> fds[k].Open()
      {
        if !fds[fd].Open() {
          return;
        }
        fd := fd + 1;
      }
      fd := -1;
    }

    /** The last step of `cfs_open`. */
    method OpenOn(fd: int, s: int, read: bool, write: bool, append: bool)
      requires Core() && 0 <= fd < |fds| && !fds[fd].Open() && Cached(T(), B(), files, s) && (read || write || append)
      modifies `files, `fds
      ensures Core()
      ensures fds == old(fds)[fd := Desc(if append then old(files)[s].end else 0, s, read, write, append)]
      ensures files == old(files)[s := old(files)[s].(references := old(files)[s].references + 1)]
    {
      var d := Desc(if append then files[s].end else 0, s, read, write, append);
      DescOpened(T(), B(), files, fds, fd, d);
      fds := fds[fd := d];
      files := files[s := files[s].(references := files[s].references + 1)];
    }

    /** The end of a cached file is what the device says. */
    ghost predicate EndOnDevice(s: int)
      reads this, store, store.flash
    {
      && 0 <= s < |files| && files[s].page >= 0 && files[s].maxPages > 0 && files[s].end >= 0
      && EndsAt(B(), files[s].page, files[s].maxPages, files[s].end)
    }

    /** The end of a file that has been opened is the one that was cached, if one was, and
        otherwise what the device says. */
    ghost predicate EndFrom(cached: bool, files0: seq<File>, s: int)
      reads this, store, store.flash
    {
      if cached then 0 <= s < |files0| && s < |files| && files[s].end == files0[s].end >= 0 else EndOnDevice(s)
    }

    /** So the end on opening is one that it was before exactly if that is cached, or is what the
        device says. */
    lemma EndOnOpening(cached: bool, files0: seq<File>, s: int, e: nat)
      requires EndFrom(cached, files0, s)
      ensures 0 <= s < |files| && (cached ==> s < |files0|)
      ensures files[s].end == e <==>
                if cached then files0[s].end == e else EndsAt(B(), PageOf(files, s), LenOf(files, s), e)
    {
      if !cached && EndsAt(B(), PageOf(files, s), LenOf(files, s), e) {
        OneEnd(B(), PageOf(files, s), LenOf(files, s), e, files[s].end);
      }
    }

    /** The end of a cached file is found out, if it is not known. */
    method KnowEnd(s: int)
      requires Core() && 0 <= s < |files| && !files[s].FreeSlot() && files[s].page >= 0
      requires IsFile(T(), B(), files[s].page)
      modifies `files
      ensures Core() && Cached(T(), B(), files, s)
      ensures old(files)[s].end >= 0 ==> files == old(files)
      ensures old(files)[s].end < 0 ==> files == old(files)[s := old(files)[s].(end := files[s].end)] && EndOnDevice(s)
    {
      SlotFacts(s);
      if files[s].end < 0 {
        SlotActive(T(), B(), files[s]);
        var e := FileEnd(store.flash, files[s].page, files[s].maxPages);
        SlotUpdated(T(), B(), files, fds, s, files[s].(end := e));
        files := files[s := files[s].(end := e)];
      }
    }

    /** `cfs_open` for a file that is there; nothing is written. */
    method OpenExisting(fd: int, s0: int, read: bool, write: bool, append: bool)
      requires Core() && 0 <= fd < |fds| && !fds[fd].Open() && (read || write || append)
      requires 0 <= s0 < |files| && !files[s0].FreeSlot() && files[s0].page >= 0 && IsFile(T(), B(), files[s0].page)
      modifies `files, `fds
      ensures Core() && Cached(T(), B(), files, s0) && files[s0].page == old(files)[s0].page
      ensures SlotsKept(old(files), files, s0)
      ensures fds == old(fds)[fd := Desc(if append then files[s0].end else 0, s0, read, write, append)]
      ensures old(files)[s0].end >= 0 ==>
                files == old(files)[s0 := old(files)[s0].(references := old(files)[s0].references + 1)]
      ensures EndFrom(old(files)[s0].end >= 0, old(files), s0) && SlotsBut(old(files), files, s0, s0, -2)
    {
      KnowEnd(s0);
      OpenOn(fd, s0, read, write, append);
    }

    /** `cfs_open` for a file that is found. */
    method OpenFound(fd: int, name: Bytes, read: bool, write: bool, append: bool) returns (found: bool)
      requires Valid() && 0 <= fd < |fds| && !fds[fd].Open() && (read || write || append)
      modifies `files, `fds
      ensures Valid() && unchanged(store) && unchanged(store.flash)
      ensures found <==> !Unnamed(T(), B(), name) && old(Findable(name))
      ensures !found ==> files == old(files) && fds == old(fds)
      ensures found ==>
                && |fds| == |old(fds)| && Cached(T(), B(), files, fds[fd].file)
                && HasName(T(), B(), files[fds[fd].file].page, name)
                && fds == old(fds)[fd := Desc(fds[fd].offset, fds[fd].file, read, write, append)]
                && fds[fd].offset == (if append then files[fds[fd].file].end else 0)
      ensures found ==>
                && SlotsKept(old(files), files, fds[fd].file) && Referenced(old(files), files, fds[fd].file)
                && EndFrom(old(EndCached(name)), old(files), fds[fd].file)
                && (old(InCache(name)) || PickedSlot(old(files), fds[fd].file))
                && SlotsBut(old(files), files, fds[fd].file, fds[fd].file, -2)
    {
      ghost var cached, files0 := EndCached(name), files;
      NotCached(name);
      var s := FindFile(name);
      found := s >= 0;
      if found {
        OneSlot(name, s);
        assert cached <==> files[s].end >= 0;
        ghost var files1 := files;
        OpenExisting(fd, s, read, write, append);
        SlotsButTwice(files0, files1, files, s);
      }
    }

    /** Page q has been made a blank file of this name that nothing refers to. */
    ghost predicate LeftBehind(t: Extents, b: Bytes, q: nat, name: Bytes)
      reads store, store.flash
    {
      && !IsActive(t, q) && HasName(T(), B(), q, name) && Others(t, b, T(), B(), {q}) && T()[q].len > 0
      && forall o: nat {:trigger Byte(B(), q, o)} :: o < Capacity(T()[q].len) ==> Byte(B(), q, o) == 0
    }

    /** Names stay different exactly if the new one was not taken. */
    lemma NewFileNames(t: Extents, b: Bytes, q: nat, pages: nat, name: Bytes)
      requires Tiled(t, b) && FilesOk(t, b) && NamesApart(t, b) && pages > 0
      requires NewExtent(t, b, T(), B(), q, pages, NewHeader(name, pages, false))
      ensures LeftBehind(t, b, q, name) && Others(t, b, T(), B(), {})
      ensures OldNames(t, b, T(), B(), {name}) && (!Unnamed(t, b, name) ==> OldNames(t, b, T(), B(), {}))
      ensures NamesApart(T(), B()) <==> Unnamed(t, b, name)
    {
      NewIsBlank(t, b, q, name, pages);
      OldNamesBut(t, b, T(), B(), q, {name});
      if !Unnamed(t, b, name) { OldNamesBut(t, b, T(), B(), q, {}); }
      assert {q} + {} == {q};
      OthersNew(t, b, T(), B(), q, {});
      if Unnamed(t, b, name) {
        NewNameApart(t, b, q, name);
      } else {
        var a: nat :| HasName(t, b, a, name);
        assert Other(t, b, T(), B(), a);
        assert !NameApart(T(), B(), a, q);
      }
    }

    /** An extent for a new file has been reserved at page q. */
    ghost predicate Made(s: Space, q: nat, name: Bytes)
      reads store, store.flash
    {
      Granted(s, store.Snap(), q, PageCount(DYN_SIZE), NewHeader(name, PageCount(DYN_SIZE), false))
    }

    /** `cfs_open` for a new file, or for one that was not found. */
    method OpenNew(fd: int, name: Bytes, read: bool, write: bool, append: bool) returns (ok: bool, ghost leak: int)
      requires Valid() && !store.lost && |name| == NAME_LENGTH && (read || write || append)
      requires 0 <= fd < |fds| && !fds[fd].Open() && (Unnamed(T(), B(), name) || !SlotAvailable(files))
      modifies this, store, store.flash
      ensures Core() && leak >= -1 && OldNames(old(T()), old(B()), T(), B(), {name})
      ensures !ok ==> fds == old(fds) && files == old(files) && Others(old(T()), old(B()), T(), B(), {})
      ensures leak < 0 ==> Valid() && (ok || Refused(old(store.Snap()), store.Snap(), PageCount(DYN_SIZE)))
      ensures leak >= 0 ==> Made(old(store.Snap()), leak, name)
      ensures leak < 0 && !ok ==> OldNames(old(T()), old(B()), T(), B(), {})
      ensures leak >= 0 ==> !ok && !SlotAvailable(files) && LeftBehind(old(T()), old(B()), leak, name)
      ensures leak >= 0 ==> (Valid() <==> Unnamed(old(T()), old(B()), name))
      ensures ok ==>
                && !store.lost && NewlyOpened(old(T()), old(B()), old(files), old(fds), fd, name)
                && Unnamed(old(T()), old(B()), name) && Made(old(store.Snap()), PageOf(files, fds[fd].file), name)
                && PickedSlot(old(files), fds[fd].file)
                && SlotsBut(old(files), files, fds[fd].file, fds[fd].file, -2)
      ensures ok ==> fds == old(fds)[fd := Desc(0, fds[fd].file, read, write, append)]
      ensures old(RoomFor(PageCount(DYN_SIZE))) ==> (ok <==> SlotAvailable(old(files))) && (leak < 0 <==> ok)
      ensures old(store.Filling()) ==>
                store.Filling() && FillStep(old(store.nextFree), store.nextFree, PageCount(DYN_SIZE), ok || leak >= 0)
    {
      ghost var t, b, fds0 := T(), B(), fds;
      PageCountIs(DYN_SIZE);
      PageCountFits(DYN_SIZE);
      var s;
      s, leak := Reserve(name, PageCount(DYN_SIZE), false);
      ok := s >= 0;
      if ok {
        NewFileFacts(t, b, s, PageCount(DYN_SIZE), name);
        OpenOn(fd, s, read, write, append);
        leak := -1;
      } else if leak < 0 {
        NamesKept(t, b);
      } else {
        NewFileNames(t, b, leak, PageCount(DYN_SIZE), name);
      }
    }

    /** Descriptor fd has been opened on a new, empty file; no other file has changed. */
    ghost predicate NewlyOpened(t: Extents, b: Bytes, files0: seq<File>, fds0: seq<Desc>, fd: int, name: Bytes)
      reads this, store, store.flash
    {
      && 0 <= fd < |fds| && 0 <= fds[fd].file < |files|
      && var s := fds[fd].file;
         && Cached(T(), B(), files, s) && HasName(T(), B(), files[s].page, name) && files[s].end == 0
         && files[s].maxPages > 0 && Blank(s) && s < |files0| && files0[s].references == 0
         && HeaderAt(B(), files[s].page) == NewHeader(name, files[s].maxPages, false)
         && files[s].maxPages == PageCount(DYN_SIZE) && !files[s].modified
         && Others(t, b, T(), B(), {files[s].page as nat}) && !IsActive(t, files[s].page) && SlotsKept(files0, files, s)
    }

    lemma NewFileFacts(t: Extents, b: Bytes, s: int, pages: nat, name: Bytes)
      requires Tiled(t, b) && FilesOk(t, b) && Core() && 0 <= s < |files| && files[s].page >= 0 && pages > 0
      requires NewExtent(t, b, T(), B(), files[s].page, pages, NewHeader(name, pages, false))
      requires files[s].maxPages == pages && files[s].end == 0
      ensures Others(t, b, T(), B(), {files[s].page as nat}) && HasName(T(), B(), files[s].page, name) && Blank(s)
      ensures HeaderAt(B(), files[s].page) == NewHeader(name, pages, false) && OldNames(t, b, T(), B(), {name})
      ensures NamesApart(t, b) && Unnamed(t, b, name) ==> NamesApart(T(), B())
    {
      NewIsBlank(t, b, files[s].page, name, pages);
      OldNamesBut(t, b, T(), B(), files[s].page, {name});
      if NamesApart(t, b) && Unnamed(t, b, name) { NewNameApart(t, b, files[s].page, name); }
    }

    lemma NewNameApart(t: Extents, b: Bytes, q: nat, name: Bytes)
      requires NamesApart(t, b) && Unnamed(t, b, name) && HeaderAt(B(), q).name == name
      requires forall a: nat :: a != q && IsFile(T(), B(), a) ==> IsFile(t, b, a) && HeaderAt(B(), a) == HeaderAt(b, a)
      ensures NamesApart(T(), B())
    {
      forall a: nat, c: nat ensures NameApart(T(), B(), a, c) {
        assert NameApart(t, b, a, c) && !HasName(t, b, a, name) && !HasName(t, b, c, name);
      }
    }

    /** `cfs_open`: a file with the name is opened at its start or at its end; if there is
        none, an empty one is made, unless it is to be read only. A file that is there and
        cannot be cached is taken for missing: an empty one of the name is left behind, and the
        names are different afterwards exactly if there was none before. Whenever there is a
        descriptor, and room for an extent, this happens if and only if the file is not cached
        and has no slot. */
    method CfsOpen(name: Bytes, read: bool, write: bool, append: bool) returns (fd: int, ghost leak: int)
      requires Valid() && !store.lost && |name| == NAME_LENGTH && (read || write || append)
      modifies this, store, store.flash
      ensures Core() && -1 <= fd < |fds| && leak >= -1 && OldNames(old(T()), old(B()), T(), B(), {name})
      ensures fd == -1 ==>
                fds == old(fds) && Others(old(T()), old(B()), T(), B(), {}) && files == old(files)
      ensures fd >= 0 ==>
                !old(fds)[fd].Open() && fds == old(fds)[fd := Desc(fds[fd].offset, fds[fd].file, read, write, append)]
      ensures fd >= 0 ==> Cached(T(), B(), files, fds[fd].file) && HasName(T(), B(), files[fds[fd].file].page, name)
      ensures fd >= 0 ==>
                && fds[fd].offset == (if append then files[fds[fd].file].end else 0)
                && SlotsKept(old(files), files, fds[fd].file)
                && SlotsBut(old(files), files, fds[fd].file, fds[fd].file, -2)
      ensures leak < 0 ==> Valid() && (fd == -1 ==> OldNames(old(T()), old(B()), T(), B(), {}))
      ensures leak >= 0 ==>
                && fd == -1 && files == old(files) && !old(Findable(name)) && !(read && !write)
                && LeftBehind(old(T()), old(B()), leak, name) && (Valid() <==> Unnamed(old(T()), old(B()), name))
      ensures !Unnamed(old(T()), old(B()), name) && (old(Findable(name)) || (read && !write)) ==>
                unchanged(store) && unchanged(store.flash)
      ensures !Unnamed(old(T()), old(B()), name) && old(Findable(name)) && fd == -1 ==> files == old(files) && AllOpen()
      ensures !Unnamed(old(T()), old(B()), name) && fd >= 0 ==>
                old(Findable(name)) && Referenced(old(files), files, fds[fd].file)
      ensures !Unnamed(old(T()), old(B()), name) && fd >= 0 ==> EndFrom(old(EndCached(name)), old(files), fds[fd].file)
      ensures Unnamed(old(T()), old(B()), name) && read && !write ==> fd == -1
      ensures fd == -1 && leak < 0 ==>
                if (read && !write) || old(AllOpen()) then unchanged(store) && unchanged(store.flash)
                else Refused(old(store.Snap()), store.Snap(), PageCount(DYN_SIZE))
      ensures leak >= 0 ==> Made(old(store.Snap()), leak, name)
      ensures Unnamed(old(T()), old(B()), name) && fd >= 0 ==>
                Made(old(store.Snap()), PageOf(files, fds[fd].file), name)
      ensures fd >= 0 ==> forall k :: 0 <= k < fd ==> old(fds)[k].Open()
      ensures fd >= 0 ==> old(InCache(name)) || PickedSlot(old(files), fds[fd].file)
      ensures Unnamed(old(T()), old(B()), name) && fd >= 0 ==>
                NewlyOpened(old(T()), old(B()), old(files), old(fds), fd, name)
      ensures old(RoomFor(PageCount(DYN_SIZE))) && !old(AllOpen()) && !(read && !write) ==>
                (fd >= 0 <==> old(Findable(name))) && (leak >= 0 <==> !old(Findable(name)))
      ensures old(store.Filling()) ==>
                && store.Filling()
                && store.nextFree == old(store.nextFree) +
                       MadePages(leak >= 0 || (fd >= 0 && Unnamed(old(T()), old(B()), name)))
    {
      leak := -1;
      fd := GetAvailableFd();
      OthersNone();
      if fd < 0 {
        return;
      }
      var found := OpenFound(fd, name, read, write, append);
      if !found {
        if read && !write {
          fd := -1;
        } else {
          var ok;
          ok, leak := OpenNew(fd, name, read, write, append);
          if !ok {
            fd := -1;
          }
        }
      }
    }

    /** The pages that opening a file takes. */
    function MadePages(made: bool): nat {
      if made then PageCount(DYN_SIZE) else 0
    }

    lemma NotCached(name: Bytes)
      requires Core()
      ensures Unnamed(T(), B(), name) ==> !InCache(name)
    {
    }

    lemma OthersNone()
      ensures Others(T(), B(), T(), B(), {}) && OldNames(T(), B(), T(), B(), {})
      ensures forall ns: set<Bytes> :: OldNames(T(), B(), T(), B(), ns)
    {
      OldNamesBut(T(), B(), T(), B(), -1, {});
      forall ns: set<Bytes> ensures OldNames(T(), B(), T(), B(), ns) { OldNamesBut(T(), B(), T(), B(), -1, ns); }
      forall a: nat ensures Other(T(), B(), T(), B(), a) { }
    }

    // ----- Writing through the log -----

    /** The file in slot s now has an empty log and holds what it held. */
    lemma LogGiven(t: Extents, b: Bytes, b': Bytes, s: int, q: nat, h: Header)
      requires Tiled(t, b) && FilesOk(t, b) && CacheOk(t, b, files, fds) && Cached(t, b, files, s)
      requires SlotOk(t, b, files[s])
      requires GivenLog(t, b, b', PageOf(files, s), q, h)
      ensures Tiled(t, b') && FilesOk(t, b') && Others(t, b, t, b', {PageOf(files, s)})
      ensures CacheOk(t, b', files[s := files[s].(modified := true)], fds)
      ensures HeaderAt(b', PageOf(files, s)) == h && FirstZero(b', q, 0, Records(h)) == 0
      ensures IsFile(t, b', PageOf(files, s))
      ensures FileSpliced(b, files, s, b', files, s, 0, [])
      ensures forall c: nat :: c in t && c != PageOf(files, s) ==> HeaderAt(b', c) == HeaderAt(b, c)
    {
      var a := PageOf(files, s);
      GivenLogFiles(t, b, b', a, q, h);
      CacheChanged(t, b, t, b', files, fds, s, files[s].(modified := true));
      forall o: nat | o < Capacity(files[s].maxPages)
        ensures Byte(b', a, o) == Byte(b, a, o)
      {
        GivenLogByte(t, b, b', a, q, h, o);
      }
    }

    /** Page q has been allocated for the log of the file at page a. */
    ghost predicate LogAllocated(t: Extents, b: Bytes, a: nat, q: nat, h: Header)
      reads store, store.flash
    {
      && Tiled(t, b) && FilesOk(t, b) && NamesApart(t, b) && IsFile(t, b, a) && h == HeaderAt(b, a) && !h.modified
      && h.Fits()
      && NewExtent(t, b, T(), B(), q, PageCount(LogBytes(h)), NewHeader(h.name, PageCount(LogBytes(h)), true))
    }

    /** What a new log extent needs to be given to file a. */
    lemma LogReserved(t: Extents, b: Bytes, a: nat, q: nat, h: Header)
      requires LogAllocated(t, b, a, q, h) && store.StoreOk()
      ensures q != a && HeaderAt(B(), a) == h && IsFile(T(), B(), a) && T()[a] == t[a] && q < 0x8000
      ensures IsActive(T(), q) && HeaderAt(B(), q).log && LogRoom(h, T()[q].len)
      ensures Zeros(B(), Offset(q) + HEADER_SIZE, Offset(End(T(), q)))
      ensures forall c: nat :: HasLog(T(), B(), c) ==> HeaderAt(B(), c).logPage != q
      ensures forall c: nat :: IsFile(T(), B(), c) ==> IsFile(t, b, c) && HeaderAt(B(), c) == HeaderAt(b, c)
      ensures Others(t, b, T(), B(), {q}) && !IsActive(t, q)
    {
      var pages := PageCount(LogBytes(h));
      var hl := NewHeader(h.name, pages, true);
      NewFiles(t, b, T(), B(), q, pages, hl);
      NewOther(t, b, T(), B(), q, pages, hl, a);
      PageCountIs(LogBytes(h));
      ExtentHeader(T(), B(), q);
    }

    /** An empty log at page q may be given to the file at page a, which has none. */
    ghost predicate LogReady(a: nat, q: nat, h: Header)
      reads store, store.flash
    {
      && IsFile(T(), B(), a) && HeaderAt(B(), a) == h && !h.modified && h.Fits() && a != q && q < 0x8000
      && IsActive(T(), q) && HeaderAt(B(), q).log && LogRoom(h, T()[q].len)
      && Zeros(B(), Offset(q) + HEADER_SIZE, Offset(End(T(), q)))
      && forall c: nat :: HasLog(T(), B(), c) ==> HeaderAt(B(), c).logPage != q
    }

    /** An extent in use that is the log of no file. */
    ghost predicate Orphan(t: Extents, q: nat)
      reads store, store.flash
    {
      && !IsActive(t, q) && IsActive(T(), q) && HeaderAt(B(), q).log
      && forall c: nat :: HasLog(T(), B(), c) ==> HeaderAt(B(), c).logPage != q
    }

    /** The first half of `create_log`: an extent for the log. */
    method ReserveLog(s: int, page: nat, h: Header) returns (l: int, ghost leak: int)
      requires Valid() && !store.lost && Held(T(), B(), files, s) && page == PageOf(files, s)
      requires h == HeaderAt(B(), page) && !h.modified
      modifies this, store, store.flash
      ensures Valid() && fds == old(fds) && Held(T(), B(), files, s) && -1 <= l < |files| && leak >= -1
      ensures OldNames(old(T()), old(B()), T(), B(), {})
      ensures l < 0 ==> Others(old(T()), old(B()), T(), B(), {}) && files == old(files)
      ensures l < 0 ==> if leak < 0 then Refused(old(store.Snap()), store.Snap(), LogPages(h))
                        else !SlotAvailable(files) && Orphan(old(T()), leak)
      ensures l >= 0 || leak >= 0 ==> store.gcWait == old(store.gcWait)
      ensures l >= 0 ==> PickedSlot(old(files), l)
      ensures l >= 0 ==>
                TakenFrom(old(store.Snap()), PageOf(files, l), LogPages(h), NewHeader(h.name, LogPages(h), true))
      ensures l >= 0 ==>
                && leak < 0 && !store.lost && old(files)[l].references == 0
                && files == old(files)[l := files[l]] && files[l].references == 0
      ensures l >= 0 ==> LogReady(page, PageOf(files, l), h) && !IsActive(old(T()), PageOf(files, l))
      ensures l >= 0 ==> Others(old(T()), old(B()), T(), B(), {PageOf(files, l)})
      ensures old(RoomFor(LogPages(h))) ==> (l >= 0 <==> SlotAvailable(old(files))) && (leak < 0 <==> l >= 0)
      ensures old(store.Filling()) ==>
                store.Filling() && FillStep(old(store.nextFree), store.nextFree, LogPages(h), l >= 0 || leak >= 0)
    {
      ghost var t, b := T(), B();
      LogSize(page);
      DecodeFits(B(), Offset(page));
      l, leak := Reserve(h.name, LogPages(h), true);
      if leak < 0 {
        HeldKept(t, b, s, {});
      } else {
        LogReserved(t, b, page, leak, h);
        HeldKept(t, b, s, {leak as nat});
        if l < 0 {
          assert {leak as nat} + {} == {leak as nat};
          OthersNew(t, b, T(), B(), leak, {});
        } else {
          leak := -1;
        }
      }
      NamesKept(t, b);
    }

    /** `create_log`. If there is no slot for the log's extent, that stays behind, the log of no
        file; whenever there is room for it, this happens if and only if there is no slot. */
    method CreateLog(s: int) returns (ok: bool, ghost leak: int)
      requires Valid() && !store.lost && Held(T(), B(), files, s) && !HeaderAt(B(), PageOf(files, s)).modified
      modifies this, store, store.flash
      ensures Valid() && fds == old(fds) && Held(T(), B(), files, s) && SlotsKept(old(files), files, s)
      ensures OldNames(old(T()), old(B()), T(), B(), {})
      ensures PageOf(files, s) == PageOf(old(files), s) && LenOf(files, s) == LenOf(old(files), s)
      ensures SlotAvailable(files) <==> SlotAvailable(old(files))
      ensures !ok ==> Others(old(T()), old(B()), T(), B(), {}) && files == old(files)
      ensures !ok && leak < 0 ==> Refused(old(store.Snap()), store.Snap(), LogPages(HeaderAt(B(), PageOf(files, s))))
      ensures ok || leak >= 0 ==> store.gcWait == old(store.gcWait)
      ensures ok ==>
                var h := HeaderAt(B(), PageOf(files, s));
                && h.logPage >= 0
                && TakenFrom(old(store.Snap()), h.logPage, LogPages(h), NewHeader(h.name, LogPages(h), true))
      ensures ok ==> exists l :: PickedSlot(old(files), l) && SlotsBut(old(files), files, s, l, -2)
      ensures leak >= 0 ==> !ok && !SlotAvailable(files) && Orphan(old(T()), leak)
      ensures ok ==> !store.lost && SlotAvailable(files) && files[s] == old(files)[s].(modified := true)
      ensures ok ==>
                && HasLog(T(), B(), PageOf(files, s)) && LogCount(B(), files, s, 0)
                && SameName(old(B()), PageOf(files, s), B(), PageOf(files, s))
      ensures ok ==> Others(old(T()), old(B()), T(), B(), {PageOf(files, s)})
      ensures ok ==> FileSpliced(old(B()), old(files), s, B(), files, s, 0, [])
      ensures old(RoomFor(LogPages(HeaderAt(B(), PageOf(files, s))))) ==>
                (ok <==> SlotAvailable(old(files))) && (leak < 0 <==> ok)
      ensures LedgerOf(s) == var l := old(LedgerOf(s)); l.(logged := ok, unused := if ok then l.records else 0,
                                                           next := store.nextFree)
      ensures old(store.Filling()) ==>
                && store.Filling()
                && FillStep(old(store.nextFree), store.nextFree, LogPages(HeaderAt(old(B()), PageOf(files, s))),
                            ok || leak >= 0)
    {
      ghost var t, b, v := T(), B(), Now();
      ghost var next: nat := store.nextFree;
      var page := PageOf(files, s);
      var h := store.flash.ReadHeader(page);
      SlotFacts(s);
      var l;
      l, leak := ReserveLog(s, page, h);
      ok := l >= 0;
      if !ok {
        assert Other(t, b, T(), B(), page);
        OtherLedger(v, Now(), s, store.nextFree);
      } else {
        AttachLog(s, l, h, v);
        GivenLedger(b, v.files, B(), files, s, HeaderAt(B(), page), next, store.nextFree);
      }
    }

    /** The second half of `create_log`: the file in slot s gets the log in slot l. */
    method AttachLog(s: int, l: int, h: Header, ghost v: View)
      requires Valid() && Held(T(), B(), files, s) && 0 <= l < |files| == |v.files| && v.files[l].references == 0
      requires files == v.files[l := files[l]] && files[l].references == 0 && OldNames(v.t, v.b, T(), B(), {})
      requires LogReady(PageOf(files, s), PageOf(files, l), h) && Others(v.t, v.b, T(), B(), {PageOf(files, l)})
      requires !IsActive(v.t, PageOf(files, l)) && Held(v.t, v.b, v.files, s) && SlotOk(v.t, v.b, v.files[s])
      requires h == HeaderAt(v.b, PageOf(v.files, s))
      modifies `files, store.flash
      ensures Valid() && Held(T(), B(), files, s) && files[s] == v.files[s].(modified := true)
      ensures SlotsKept(v.files, files, s) && SlotAvailable(files) && OldNames(v.t, v.b, T(), B(), {})
      ensures SlotsBut(v.files, files, s, l, -2)
      ensures HasLog(T(), B(), PageOf(files, s)) && LogCount(B(), files, s, 0)
      ensures HeaderAt(B(), PageOf(files, s)) == h.(modified := true, logPage := PageOf(old(files), l), valid := true)
      ensures Others(v.t, v.b, T(), B(), {PageOf(files, s)}) && FileSpliced(v.b, v.files, s, B(), files, s, 0, [])
    {
      ghost var t1, b1 := T(), B();
      var page, q := PageOf(files, s), PageOf(files, l);
      RewriteHeader(s, page, q, h.(modified := true, logPage := q));
      AttachedFrame(v.t, v.b, t1, b1, page, q, Capacity(LenOf(files, s)));
      OldNamesTwice(v.t, v.b, t1, b1, T(), B());
      SlotsKeptBut(v.files, l, files[l], s, files[s]);
    }

    lemma LogSize(page: nat)
      requires Core() && IsFile(T(), B(), page)
      ensures 0 < PageCount(LogBytes(HeaderAt(B(), page))) <= 0x4000
    {
      FileFacts(page);
      PageCountIs(LogBytes(HeaderAt(B(), page)));
      PageCountFits(LogBytes(HeaderAt(B(), page)));
    }

    /** A file that is not touched stays cached. */
    lemma HeldKept(t: Extents, b: Bytes, s: int, but: set<nat>)
      requires Held(t, b, files, s) && Others(t, b, T(), B(), but) && PageOf(files, s) !in but
      ensures Held(T(), B(), files, s)
    {
      assert Other(t, b, T(), B(), PageOf(files, s));
    }

    /** The header of the file now names its log. */
    method RewriteHeader(s: int, a: nat, q: nat, h: Header)
      requires Valid() && Cached(T(), B(), files, s) && a == PageOf(files, s)
      requires LogReady(a, q, h.(modified := false, logPage := HeaderAt(B(), a).logPage))
      requires h.modified && h.logPage == q
      modifies `files, store.flash
      ensures Valid() && Others(old(T()), old(B()), T(), B(), {a}) && HasLog(T(), B(), a) && LogCount(B(), files, s, 0)
      ensures OldNames(old(T()), old(B()), T(), B(), {})
      ensures files == old(files)[s := old(files)[s].(modified := true)] && Cached(T(), B(), files, s)
      ensures FileSpliced(old(B()), old(files), s, B(), files, s, 0, []) && HeaderAt(B(), a) == h.(valid := true)
    {
      ghost var b := B();
      SlotFacts(s);
      ExtentHeader(T(), B(), a);
      store.flash.WriteHeader(h, a);
      LogGiven(T(), b, B(), s, q, h.(valid := true));
      files := files[s := files[s].(modified := true)];
      NamesKept(T(), b);
    }

    lemma AttachedFrame(t: Extents, b: Bytes, t1: Extents, b1: Bytes, a: nat, q: nat, cap: nat)
      requires Others(t, b, t1, b1, {q}) && Others(t1, b1, T(), B(), {a}) && !IsActive(t, q) && a != q
      requires IsFile(t, b, a) && t[a].len > 0 && cap <= Capacity(t[a].len) && Spliced(b1, a, B(), a, cap, 0, [])
      ensures Others(t, b, T(), B(), {a}) && Spliced(b, a, B(), a, cap, 0, [])
    {
      OthersTransitive(t, b, t1, b1, T(), B(), {q}, {a});
      assert {q} + {a} == {a} + {q};
      OthersNew(t, b, T(), B(), q, {a});
      assert Other(t, b, t1, b1, a);
      OtherSpliced(t, b, t1, b1, a);
      SplicedAfter(b, b1, B(), a, cap, 0, []);
    }

    // ----- Merging a file with its log -----

    /** The data of slot s has been copied to the empty file in slot n. */
    ghost predicate Copying(s: int, n: int, t: Extents, b0: Bytes, files0: seq<File>, done: nat)
      reads this, store, store.flash
    {
      && Core() && T() == t && files == files0 && s != n && Cached(T(), B(), files, s) && Cached(T(), B(), files, n)
      && files[n].maxPages > 0 && files[s].maxPages > 0 && PageOf(files, n) != PageOf(files, s)
      && files[s].end <= Capacity(files[n].maxPages) && done <= files[s].end
      && IsFile(t, b0, PageOf(files, s)) && t[PageOf(files, s)].len == files[s].maxPages
      && !HeaderAt(B(), PageOf(files, n)).modified && HeaderAt(B(), PageOf(files, n)) == HeaderAt(b0, PageOf(files, n))
      && Others(t, b0, t, B(), {PageOf(files, n)})
      && CopiedUpTo(b0, PageOf(files, s), B(), PageOf(files, n), done, Capacity(LenOf(files, n)))
    }

    /** A piece is written to the new file. */
    method CopyPiece(s: int, n: int, buf: Bytes, offset: nat, ghost t: Extents, ghost b0: Bytes,
                     ghost files0: seq<File>)
      requires Copying(s, n, t, b0, files0, offset) && offset + |buf| <= files[s].end
      requires buf == FileBytes(b0, PageOf(files, s), offset, |buf|)
      modifies store.flash
      ensures Copying(s, n, t, b0, files0, offset + |buf|)
    {
      var q := PageOf(files, n);
      ghost var b := B();
      SlotFacts(n);
      PlainPut(t, b, q, offset, buf);
      PlainSplices(t, b, q, offset, buf, Capacity(LenOf(files, n)));
      forall x: nat | x < |buf|
        ensures buf[x] == Byte(b0, PageOf(files, s), offset + x)
      {
        FileByte(b0, PageOf(files, s), offset, |buf|, x);
      }
      CopyMore(b0, PageOf(files, s), b, Put(b, Absolute(q, offset), buf), q, offset, buf, Capacity(LenOf(files, n)));
      store.flash.Write(Absolute(q, offset), buf);
      DataCore(n, b);
      OthersTransitive(t, b0, t, b, t, B(), {q}, {q});
      assert {q} + {q} == {q};
    }

    /** Data written to the extent of a file leaves the cache as it is. */
    lemma DataCore(n: int, b: Bytes)
      requires Tiled(T(), b) && FilesOk(T(), b) && CacheOk(T(), b, files, fds)
      requires (!store.lost ==> Boundary(T(), store.nextFree)) && NoHeadless(T())
      requires Cached(T(), b, files, n) && DataChanged(T(), b, B(), PageOf(files, n))
      ensures Core() && Others(T(), b, T(), B(), {PageOf(files, n)})
      ensures forall c: nat :: c in T() ==> HeaderAt(B(), c) == HeaderAt(b, c)
      ensures forall i :: Cached(T(), b, files, i) ==> Cached(T(), B(), files, i)
    {
      var q := PageOf(files, n);
      DataTiled(T(), b, B(), q);
      DataFiles(T(), b, B(), q);
      assert SlotOk(T(), b, files[n]);
      DataCount(T(), b, B(), q, files[n].recordCount);
      CacheChanged(T(), b, T(), B(), files, fds, n, files[n]);
      assert files[n := files[n]] == files;
    }

    lemma DataCount(t: Extents, b: Bytes, b': Bytes, a: nat, rc: int)
      requires Tiled(t, b) && FilesOk(t, b) && IsFile(t, b, a) && DataChanged(t, b, b', a)
      requires CountOk(b, HeaderAt(b, a), rc)
      ensures CountOk(b', HeaderAt(b, a), rc)
    {
      if rc >= 0 {
        assert FileOk(t, b, a);
        var h := HeaderAt(b, a);
        DataKept(t, b, b', a, h.logPage);
        KeptLog(t, b, t, b', h);
        FirstZeroSame(b, b', h.logPage, 0, Records(h));
      }
    }

    lemma DataLedger(t: Extents, b: Bytes, b': Bytes, s: int, next: nat)
      requires Tiled(t, b) && FilesOk(t, b) && IsFile(t, b, PageOf(files, s)) && DataChanged(t, b, b', PageOf(files, s))
      requires HeaderAt(b', PageOf(files, s)) == HeaderAt(b, PageOf(files, s))
      ensures LedgerAt(b', files, s, next) == LedgerAt(b, files, s, next)
    {
      var h := HeaderAt(b, PageOf(files, s));
      assert FileOk(t, b, PageOf(files, s));
      if h.modified && h.logPage >= 0 {
        DataCount(t, b, b', PageOf(files, s), FirstZero(b, h.logPage, 0, Records(h)));
      }
    }

    /** A piece of the old file is read. */
    method ReadPiece(fd: int, s: int, n: int, offset: nat, ghost t: Extents, ghost b0: Bytes, ghost files0: seq<File>)
      returns (buf: Bytes)
      requires Copying(s, n, t, b0, files0, offset) && FdValid(fd) && fds[fd] == Desc(offset, s, true, false, false)
      modifies `fds
      ensures Copying(s, n, t, b0, files0, offset) && |buf| == Min(PAGE_SIZE, files[s].end - offset)
      ensures fds == old(fds)[fd := Desc(offset + |buf|, s, true, false, false)]
      ensures buf == FileBytes(b0, PageOf(files, s), offset, |buf|)
    {
      var r, hangs;
      r, buf, hangs := CfsRead(fd, PAGE_SIZE);
      PieceRead(s, n, offset, r, t, b0, files0);
    }

    lemma PieceRead(s: int, n: int, offset: nat, r: int, t: Extents, b0: Bytes, files0: seq<File>)
      requires Copying(s, n, t, b0, files0, offset) && 0 <= r <= files[s].end - offset
      ensures Data(s)[offset..offset + r] == FileBytes(b0, PageOf(files, s), offset, r)
    {
      SlotFacts(s);
      DataSlice(B(), PageOf(files, s), files[s].end, offset, r);
      assert Other(t, b0, t, B(), PageOf(files, s));
      OtherBytes(t, b0, t, B(), PageOf(files, s), offset, r);
    }

    /** One round of the copy: a piece is read and written. */
    method CopyRound(fd: int, s: int, n: int, offset: nat, ghost t: Extents, ghost b0: Bytes, ghost files0: seq<File>)
      returns (r: nat)
      requires Copying(s, n, t, b0, files0, offset) && FdValid(fd) && fds[fd] == Desc(offset, s, true, false, false)
      modifies `fds, store.flash
      ensures Copying(s, n, t, b0, files0, offset + r) && fds == old(fds)[fd := Desc(offset + r, s, true, false, false)]
      ensures r == Min(PAGE_SIZE, files[s].end - offset)
    {
      var buf := ReadPiece(fd, s, n, offset, t, b0, files0);
      r := |buf|;
      if r > 0 {
        CopyPiece(s, n, buf, offset, t, b0, files0);
      }
    }

    /** The copy loop of `merge_log`. */
    method CopyData(fd: int, s: int, n: int) returns (offset: nat)
      requires Copying(s, n, T(), B(), files, 0) && FdValid(fd) && fds[fd] == Desc(0, s, true, false, false)
      modifies `fds, store.flash
      ensures Copying(s, n, old(T()), old(B()), old(files), offset) && offset == files[s].end
      ensures fds == old(fds)[fd := Desc(offset, s, true, false, false)]
    {
      ghost var t, b0, files0 := T(), B(), files;
      offset := 0;
      var r := 1;
      while r != 0
        invariant Copying(s, n, t, b0, files0, offset)
        invariant |fds| == |old(fds)| && fds == old(fds)[fd := Desc(offset, s, true, false, false)] && FdValid(fd)
        invariant r == 0 ==> offset == files[s].end
        decreases files[s].end - offset, r
      {
        r := CopyRound(fd, s, n, offset, t, b0, files0);
        offset := offset + r;
      }
    }

    /** The loop of `merge_log` that hands the descriptors over. */
    method RemapDescs(s: int, n: int)
      requires 0 <= s < |files| && 0 <= n < |files| && s != n && files[n].references == 0
      requires forall k :: 0 <= k < |fds| && fds[k].Open() ==> 0 <= fds[k].file < |files|
      requires forall k ::
                 0 <= k < |fds| && fds[k].Open() ==> (files[fds[k].file].page == files[s].page <==> fds[k].file == s)
      modifies `files, `fds
      ensures fds == Remap(old(fds), s, n)
      ensures files == old(files)[n := old(files)[n].(references := RefCount(old(fds), s))]
    {
      var page := files[s].page;
      var i := 0;
      while i < |fds|
        invariant 0 <= i <= |fds| == |old(fds)|
        invariant fds[..i] == Remap(old(fds), s, n)[..i] && fds[i..] == old(fds)[i..]
        invariant files == old(files)[n := old(files)[n].(references := RefCount(old(fds)[..i], s))]
      {
        RefAppend(old(fds)[..i], old(fds)[i], s);
        assert old(fds)[..i + 1] == old(fds)[..i] + [old(fds)[i]];
        assert fds[i] == old(fds)[i];
        if fds[i].Open() && files[fds[i].file].page == page {
          fds := fds[i := fds[i].(file := n)];
          files := files[n := files[n].(references := files[n].references + 1)];
        }
        i := i + 1;
      }
      assert old(fds)[..|old(fds)|] == old(fds);
    }

    /** Before the hand-over: the new file in slot n holds a copy, and nothing refers to it. */
    ghost predicate Copied(s: int, n: int)
      reads this, store, store.flash
    {
      && Core() && s != n && Held(T(), B(), files, s) && Cached(T(), B(), files, n) && files[n].references == 0
      && files[s].maxPages > 0 && files[n].maxPages > 0 && files[s].end <= Capacity(files[n].maxPages)
      && !files[n].modified
    }

    lemma CopiedPages(s: int, n: int)
      requires Copied(s, n)
      ensures PageOf(files, n) != PageOf(files, s) && PageOf(files, n) != LogOf(B(), PageOf(files, s))
      ensures forall k :: 0 <= k < |fds| && fds[k].Open() ==> 0 <= fds[k].file < |files|
      ensures forall k ::
                0 <= k < |fds| && fds[k].Open() ==> (files[fds[k].file].page == files[s].page <==> fds[k].file == s)
      ensures RefCount(fds, s) == files[s].references && !HeaderAt(B(), PageOf(files, n)).modified
      ensures LogOf(B(), PageOf(files, s)) >= 0 ==> !IsFile(T(), B(), LogOf(B(), PageOf(files, s)))
    {
      assert SlotApart(files, s, n) && SlotOk(T(), B(), files[n]) && SlotOk(T(), B(), files[s]);
      FileFacts(PageOf(files, s));
      forall k | 0 <= k < |fds| && fds[k].Open()
        ensures 0 <= fds[k].file < |files| && (files[fds[k].file].page == files[s].page <==> fds[k].file == s)
      {
        assert DescOk(T(), B(), files, fds[k]);
        assert SlotApart(files, fds[k].file, s);
      }
    }

    /** The descriptors go over to the new file; the old one and its log are removed. */
    method HandOver(s: int, n: int, ghost e: int)
      requires Copied(s, n) && e == files[s].end
      modifies this, store, store.flash
      ensures store.StoreOk() && Awoken(old(store.Snap())) && fds == Remap(old(fds), s, n)
      ensures old(store.FreeBehind()) ==> store.FreeBehind()
      ensures Removed(old(T()), old(B()), T(), B(), PageOf(old(files), s)) && FilesOk(T(), B())
      ensures Others(old(T()), old(B()), T(), B(), FilePages(old(B()), PageOf(old(files), s)))
      ensures LogOf(old(B()), PageOf(old(files), s)) >= 0 ==> !IsActive(T(), LogOf(old(B()), PageOf(old(files), s)))
      ensures forall c: nat ::
                IsFile(T(), B(), c) ==>
                  && IsFile(old(T()), old(B()), c) && c != PageOf(old(files), s)
                  && HeaderAt(B(), c) == HeaderAt(old(B()), c)
      ensures 0 <= n < |files|
      ensures files[n := files[n].(modified := false, end := e)] ==
                  MergedSlots(old(files), s, n, PageOf(old(files), s), LogOf(old(B()), PageOf(old(files), s)), e)
      ensures files[n] == old(files)[n].(references := old(files)[s].references)
      ensures CacheOk(T(), B(), files[n := files[n].(modified := false, end := e)], fds)
    {
      ghost var t, b, files0, fds0 := T(), B(), files, fds;
      var page := PageOf(files, s);
      CopiedPages(s, n);
      SlotPages();
      RemapDescs(s, n);
      var _ := RemoveFile(page, false);
      HandedOver(t, b, files0, fds0, s, n, page, e);
    }

    lemma HandedOver(t: Extents, b: Bytes, files0: seq<File>, fds0: seq<Desc>, s: int, n: int, page: nat, e: int)
      requires Tiled(t, b) && FilesOk(t, b) && CacheOk(t, b, files0, fds0) && Cached(t, b, files0, s)
      requires Cached(t, b, files0, n) && s != n
      requires page == PageOf(files0, s) && files0[n].references == 0 && !files0[n].modified
      requires files0[s].end == e <= Capacity(files0[n].maxPages)
      requires PageOf(files0, n) != page && PageOf(files0, n) != LogOf(b, page)
      requires LogOf(b, page) >= 0 ==> !IsFile(t, b, LogOf(b, page))
      requires Removed(t, b, T(), B(), page) && (LogOf(b, page) >= 0 ==> !IsActive(T(), LogOf(b, page)))
      requires files == ClearPage(ClearPage(files0[n := files0[n].(references := files0[s].references)],
                                            LogOf(b, page)), page)
      requires fds == Remap(fds0, s, n)
      ensures 0 <= n < |files|
      ensures files[n := files[n].(modified := false, end := e)] == MergedSlots(files0, s, n, page, LogOf(b, page), e)
      ensures files[n] == files0[n].(references := files0[s].references)
      ensures CacheOk(T(), B(), files[n := files[n].(modified := false, end := e)], fds)
      ensures Others(t, b, T(), B(), FilePages(b, page))
      ensures forall c: nat ::
                IsFile(T(), B(), c) ==> IsFile(t, b, c) && c != page && HeaderAt(B(), c) == HeaderAt(b, c)
    {
      var lp := LogOf(b, page);
      assert FileOk(t, b, page);
      RemovedFiles(t, b, T(), B(), page);
      MergeSteps(files0, s, n, page, lp, e);
      MergedCache(t, b, T(), B(), files0, fds0, s, n, page, lp, e, FilePages(b, page));
    }

    ghost predicate Configured(h: Header, b: Bytes, page: nat) {
      HeaderAt(b, page).logRecords == h.logRecords && HeaderAt(b, page).logRecordSize == h.logRecordSize
    }

    /** The end of `merge_log`: the new file gets the log configuration of the old one. */
    method Reconfigure(n: int, h: Header, e: nat)
      requires store.StoreOk() && FilesOk(T(), B()) && NamesApart(T(), B()) && 0 <= n < |files| && files[n].page >= 0
      requires CacheOk(T(), B(), files[n := files[n].(modified := false, end := e)], fds)
      requires IsFile(T(), B(), files[n].page) && !HeaderAt(B(), files[n].page).modified && ConfigOk(h) && h.Fits()
      requires !files[n].FreeSlot()
      modifies `files, store.flash
      ensures Valid() && files == old(files)[n := old(files)[n].(modified := false, end := e)]
      ensures Cached(T(), B(), files, n)
      ensures unchanged(store) && Configured(h, B(), PageOf(files, n)) && OldNames(T(), old(B()), T(), B(), {})
      ensures Others(old(T()), old(B()), T(), B(), {PageOf(files, n)})
      ensures SameName(old(B()), PageOf(files, n), B(), PageOf(files, n))
      ensures forall o: nat {:trigger Byte(B(), PageOf(files, n), o)} ::
                Byte(B(), PageOf(files, n), o) == Byte(old(B()), PageOf(files, n), o)
    {
      ghost var b := B();
      var q := files[n].page;
      var h2 := store.flash.ReadHeader(q);
      DecodeFits(B(), Offset(q));
      ExtentHeader(T(), B(), q);
      store.flash.WriteHeader(h2.(logRecords := h.logRecords, logRecordSize := h.logRecordSize), q);
      ghost var h3 := h2.(logRecords := h.logRecords, logRecordSize := h.logRecordSize, valid := true);
      files := files[n := files[n].(modified := false, end := e)];
      ReconfiguredFiles(T(), b, B(), q, h3);
      assert SlotOk(T(), b, files[n]);
      CacheChanged(T(), b, T(), B(), files, fds, n, files[n]);
      assert files[n := files[n]] == files;
      forall o: nat ensures Byte(B(), q, o) == Byte(b, q, o) { ReconfiguredByte(T(), b, B(), q, h3, o); }
      NamesKept(T(), b);
    }

    /** The first steps of `merge_log`: the file is opened for reading. The descriptor is on
        the same slot, for there is no other file with the name. */
    method OpenForMerge(s: int, name: Bytes) returns (fd: int)
      requires Valid() && !store.lost && Held(T(), B(), files, s) && |name| == NAME_LENGTH
      requires HasName(T(), B(), PageOf(files, s), name)
      modifies this, store, store.flash
      ensures Valid() && unchanged(store) && unchanged(store.flash) && -1 <= fd < |fds|
      ensures fd == -1 ==> fds == old(fds) && files == old(files) && AllOpen()
      ensures fd >= 0 ==> !old(fds)[fd].Open() && fds == old(fds)[fd := Desc(0, s, true, false, false)]
      ensures fd >= 0 ==> files == old(files)[s := old(files)[s].(references := old(files)[s].references + 1)]
    {
      ghost var files0 := files;
      assert HasName(T(), B(), PageOf(files, s), name);
      assert SlotNamed(s, name);
      ghost var leak;
      fd, leak := CfsOpen(name, true, false, false);
      if fd >= 0 {
        SameSlot(files0, fds[fd].file, s, name);
      }
    }

    lemma SameSlot(files0: seq<File>, s': int, s: int, name: Bytes)
      requires Valid() && SlotsKept(files0, files, s') && 0 <= s < |files0| && files0[s].references > 0
      requires !files0[s].FreeSlot() && files0[s].page >= 0
      requires HasName(T(), B(), files0[s].page, name) && Cached(T(), B(), files, s')
      requires HasName(T(), B(), files[s'].page, name)
      ensures s' == s
    {
      assert NameApart(T(), B(), files0[s].page, files[s'].page);
      assert SlotApart(files, s', s);
    }

    /** Slot n has been given to an empty file of this name, to which the file in slot s can be
        copied. */
    ghost predicate MergeReserved(t: Extents, b: Bytes, files0: seq<File>, s: int, n: int, name: Bytes, len: nat)
      reads this, store, store.flash
    {
      && 0 <= n < |files0| == |files| && files0[n].references == 0
      && files == files0[n := File(0, files[n].page, len, -1, 0, false)]
      && Copying(s, n, T(), B(), files, 0) && !IsActive(t, PageOf(files, n))
      && HeaderAt(B(), PageOf(files, n)).name == name
      && Others(t, b, T(), B(), {PageOf(files, n)})
      && forall c: nat ::
           c != PageOf(files, n) && IsFile(T(), B(), c) ==> IsFile(t, b, c) && HeaderAt(B(), c) == HeaderAt(b, c)
    }

    /** The new extent of `merge_log`: an empty file of the same name. If there is no slot for
        it, it stays behind. */
    method MergeReserve(s: int, name: Bytes, len: nat) returns (n: int, ghost leak: int)
      requires Valid() && !store.lost && Held(T(), B(), files, s) && |name| == NAME_LENGTH
      requires HasName(T(), B(), PageOf(files, s), name)
      requires files[s].maxPages <= len < 0x8000
      modifies this, store, store.flash
      ensures fds == old(fds) && -1 <= n < |files| == |old(files)| && leak >= -1 && Core()
      ensures n < 0 ==>
                && files == old(files) && Others(old(T()), old(B()), T(), B(), {})
                && OldNames(old(T()), old(B()), T(), B(), {})
      ensures n < 0 ==> if leak < 0 then Valid() && Refused(old(store.Snap()), store.Snap(), len)
                        else !Valid() && !SlotAvailable(files) && LeftBehind(old(T()), old(B()), leak, name)
      ensures n >= 0 ==> leak < 0 && SlotAvailable(old(files)) && !store.lost
      ensures n >= 0 ==> TakenFrom(old(store.Snap()), PageOf(files, n), len, NewHeader(name, len, false))
      ensures n >= 0 ==> PickedSlot(old(files), n)
      ensures n >= 0 ==> MergeReserved(old(T()), old(B()), old(files), s, n, name, len)
      ensures old(RoomFor(len)) ==> (n >= 0 <==> SlotAvailable(old(files))) && (leak < 0 <==> n >= 0)
      ensures old(store.Filling()) ==>
                store.Filling() && FillStep(old(store.nextFree), store.nextFree, len, n >= 0 || leak >= 0)
    {
      ghost var t, b, files0 := T(), B(), files;
      SlotFacts(s);
      n, leak := Reserve(name, len, false);
      if leak < 0 {
        NamesKept(t, b);
      } else if n < 0 {
        assert HasName(t, b, PageOf(files, s), name);
        NewFileNames(t, b, leak, len, name);
      } else {
        ReadyToCopy(t, b, files0, s, n, name, len);
        leak := -1;
      }
    }

    lemma ReadyToCopy(t: Extents, b: Bytes, files0: seq<File>, s: int, n: int, name: Bytes, len: nat)
      requires Tiled(t, b) && FilesOk(t, b) && CacheOk(t, b, files0, fds) && Core() && Held(t, b, files0, s)
      requires SlotOk(t, b, files0[s])
      requires 0 <= n < |files0| && files0[n].references == 0
      requires files == files0[n := File(0, files[n].page, len, -1, 0, false)] && files[n].page >= 0
      requires NewExtent(t, b, T(), B(), PageOf(files, n), len, NewHeader(name, len, false))
      requires 0 < files0[s].maxPages <= len
      ensures MergeReserved(t, b, files0, s, n, name, len)
    {
      var q := PageOf(files, n);
      NewIsBlank(t, b, q, name, len);
      assert Other(t, b, T(), B(), PageOf(files, s));
      CapacityMono(files[s].maxPages, len);
      ReadyContent(PageOf(files, s), q, len);
    }

    lemma NewIsBlank(t: Extents, b: Bytes, q: nat, name: Bytes, len: nat)
      requires Tiled(t, b) && FilesOk(t, b) && NewExtent(t, b, T(), B(), q, len, NewHeader(name, len, false)) && len > 0
      ensures Others(t, b, T(), B(), {q}) && !IsActive(t, q) && IsFile(T(), B(), q)
      ensures HeaderAt(B(), q).name == name && !HeaderAt(B(), q).modified && T()[q].len == len
      ensures forall o: nat {:trigger Byte(B(), q, o)} :: o < Capacity(len) ==> Byte(B(), q, o) == 0
      ensures forall c: nat :: c != q && IsFile(T(), B(), c) ==> IsFile(t, b, c) && HeaderAt(B(), c) == HeaderAt(b, c)
    {
      var h := NewHeader(name, len, false);
      DefaultConfig(h);
      NewFiles(t, b, T(), B(), q, len, h);
      forall o: nat | o < Capacity(len) ensures Byte(B(), q, o) == 0 { NewFileZeros(B(), q, len, o); }
    }

    lemma ReadyContent(page: nat, q: nat, len: nat)
      requires forall o: nat {:trigger Byte(B(), q, o)} :: o < Capacity(len) ==> Byte(B(), q, o) == 0
      ensures Others(T(), B(), T(), B(), {q}) && CopiedUpTo(B(), page, B(), q, 0, Capacity(len))
    {
      forall a: nat | a !in {q} ensures Other(T(), B(), T(), B(), a) { }
    }

    /** The names in a store with a second file of the same name, at page q. */
    ghost predicate NamesDoubled(t0: Extents, b0: Bytes, t: Extents, b: Bytes, page: nat, q: nat) {
      && NamesApart(t0, b0) && IsFile(t0, b0, page) && HeaderAt(b, q).name == HeaderAt(b0, page).name
      && forall c: nat :: c != q && IsFile(t, b, c) ==> IsFile(t0, b0, c) && HeaderAt(b, c) == HeaderAt(b0, c)
    }

    /** After the old file is gone, the names are again all different. */
    lemma MergedNames(t: Extents, b: Bytes, t1: Extents, b1: Bytes, page: nat, q: nat)
      requires NamesDoubled(t, b, t1, b1, page, q)
      requires forall c: nat ::
                 IsFile(T(), B(), c) ==> IsFile(t1, b1, c) && c != page && HeaderAt(B(), c) == HeaderAt(b1, c)
      ensures NamesApart(T(), B()) && OldNames(t, b, T(), B(), {})
    {
      forall a: nat, c: nat ensures NameApart(T(), B(), a, c) {
        assert NameApart(t, b, a, c) && NameApart(t, b, a, page) && NameApart(t, b, c, page);
      }
      assert HasName(t, b, page, HeaderAt(b, page).name);
      OldNamesBut(t, b, T(), B(), q, {});
    }

    // ----- The rest of the merge -----

    /** `merge_log` behind the copy. */
    method ReplaceFile(s: int, n: int, h: Header, e: nat, ghost t0: Extents, ghost b0: Bytes)
      requires Copied(s, n) && e == files[s].end && ConfigOk(h) && h.Fits()
      requires NamesDoubled(t0, b0, T(), B(), PageOf(files, s), PageOf(files, n))
      modifies this, store, store.flash
      ensures Valid() && Awoken(old(store.Snap())) && Cached(T(), B(), files, n) && |files| == |old(files)|
      ensures old(store.FreeBehind()) ==> store.FreeBehind()
      ensures Configured(h, B(), PageOf(files, n)) && OldNames(t0, b0, T(), B(), {})
      ensures fds == Remap(old(fds), s, n) && MergedFiles(old(files), s, n, old(B()), e, files)
      ensures Gone(old(B()), PageOf(old(files), s)) && !HeaderAt(B(), PageOf(files, n)).modified
      ensures Others(old(T()), old(B()), T(), B(), FilePages(old(B()), PageOf(old(files), s)) + {PageOf(files, n)})
      ensures Spliced(old(B()), PageOf(files, n), B(), PageOf(files, n), Capacity(LenOf(files, n)), 0, [])
      ensures SameName(old(B()), PageOf(files, n), B(), PageOf(files, n))
    {
      ghost var t, b, files0 := T(), B(), files;
      ghost var page, q := PageOf(files, s), PageOf(files, n);
      CopiedPages(s, n);
      SlotFacts(n);
      HandOver(s, n, e);
      AfterHandOver(t0, b0, t, b, page, q);
      ghost var t2, b2 := T(), B();
      FinishReplace(n, h, e, t, b, page, q);
      OldNamesTwice(t0, b0, t2, b2, T(), B());
      assert files == MergedSlots(files0, s, n, page, LogOf(b, page), e);
    }

    /** The last change to the new file. */
    method FinishReplace(n: int, h: Header, e: nat, ghost t: Extents, ghost b: Bytes, ghost page: nat, ghost q: nat)
      requires store.StoreOk() && FilesOk(T(), B()) && NamesApart(T(), B()) && 0 <= n < |files| && files[n].page == q
      requires !files[n].FreeSlot()
      requires CacheOk(T(), B(), files[n := files[n].(modified := false, end := e)], fds)
      requires IsFile(T(), B(), q) && !HeaderAt(B(), q).modified && ConfigOk(h) && h.Fits()
      requires Others(t, b, T(), B(), FilePages(b, page)) && q !in FilePages(b, page) && IsFile(t, b, q) && t[q].len > 0
      requires LenOf(files, n) == t[q].len
      modifies `files, store.flash
      ensures unchanged(store) && OldNames(T(), old(B()), T(), B(), {})
      ensures Valid() && files == old(files)[n := old(files)[n].(modified := false, end := e)]
      ensures Cached(T(), B(), files, n)
      ensures Others(t, b, T(), B(), FilePages(b, page) + {q})
      ensures Spliced(b, q, B(), q, Capacity(LenOf(files, n)), 0, [])
      ensures !HeaderAt(B(), q).modified && SameName(b, q, B(), q) && Configured(h, B(), q)
    {
      ghost var t2, b2 := T(), B();
      Reconfigure(n, h, e);
      ReplaceFrame(t, b, t2, b2, page, q, Capacity(LenOf(files, n)));
      SlotFacts(n);
    }

    lemma ReplaceFrame(t: Extents, b: Bytes, t2: Extents, b2: Bytes, page: nat, q: nat, cap: nat)
      requires Others(t, b, t2, b2, FilePages(b, page)) && Others(t2, b2, T(), B(), {q}) && q !in FilePages(b, page)
      requires IsFile(t, b, q) && t[q].len > 0 && cap <= Capacity(t[q].len)
      requires forall o: nat {:trigger Byte(B(), q, o)} :: Byte(B(), q, o) == Byte(b2, q, o)
      ensures Others(t, b, T(), B(), FilePages(b, page) + {q}) && Spliced(b, q, B(), q, cap, 0, [])
      ensures SameName(b, q, b2, q)
    {
      OthersTransitive(t, b, t2, b2, T(), B(), FilePages(b, page), {q});
      assert Other(t, b, t2, b2, q);
      forall o: nat | o < cap ensures Byte(B(), q, o) == Byte(b, q, o) { assert Byte(b2, q, o) == Byte(b, q, o); }
    }

    /** `merge_log` from the copy to the new header. */
    method CopyAndReplace(fd: int, s: int, n: int, h: Header, ghost t0: Extents, ghost b0: Bytes) returns (offset: nat)
      requires Copying(s, n, T(), B(), files, 0) && FdValid(fd) && fds[fd] == Desc(0, s, true, false, false)
      requires files[s].references > 0 && files[n].references == 0 && !files[n].modified
      requires h == HeaderAt(B(), PageOf(files, s))
      requires NamesDoubled(t0, b0, T(), B(), PageOf(files, s), PageOf(files, n))
      modifies this, store, store.flash
      ensures Valid() && Awoken(old(store.Snap())) && offset == EndOf(old(files), s) && Cached(T(), B(), files, n)
      ensures |files| == |old(files)|
      ensures old(store.FreeBehind()) ==> store.FreeBehind()
      ensures Configured(h, B(), PageOf(files, n)) && OldNames(t0, b0, T(), B(), {})
      ensures fds == Remap(old(fds)[fd := Desc(offset, s, true, false, false)], s, n)
      ensures MergedFiles(old(files), s, n, old(B()), offset, files)
      ensures CopiedUpTo(old(B()), PageOf(old(files), s), B(), PageOf(files, n), offset, Capacity(LenOf(files, n)))
      ensures SameName(old(B()), PageOf(files, n), B(), PageOf(files, n))
      ensures Gone(old(B()), PageOf(old(files), s)) && !HeaderAt(B(), PageOf(files, n)).modified
      ensures Others(old(T()), old(B()), T(), B(), {PageOf(files, n)} + FilePages(old(B()), PageOf(old(files), s)))
    {
      ghost var t, b := T(), B();
      ghost var page, q := PageOf(files, s), PageOf(files, n);
      SlotFacts(s);
      DecodeFits(B(), Offset(page));
      offset := CopyData(fd, s, n);
      ghost var b1 := B();
      CopyHeaders(t0, b0, t, b, s, n, offset);
      ReplaceFile(s, n, h, offset, t0, b0);
      MergeFrame(t, b, b1, page, q, offset, Capacity(LenOf(files, n)));
    }

    /** The slots after the merge. */
    ghost predicate MergedFiles(files0: seq<File>, s: int, n: int, b: Bytes, e: nat, files': seq<File>) {
      && 0 <= s < |files0| && 0 <= n < |files0|
      && files' == MergedSlots(files0, s, n, PageOf(files0, s), LogOf(b, PageOf(files0, s)), e)
      && files'[n] == files0[n].(references := files0[s].references, end := e)
    }

    /** Copying has changed no header. */
    lemma CopyHeaders(t0: Extents, b0: Bytes, t: Extents, b: Bytes, s: int, n: int, e: nat)
      requires Copying(s, n, t, b, files, e) && NamesDoubled(t0, b0, t, b, PageOf(files, s), PageOf(files, n))
      requires FileOk(t, b, PageOf(files, s)) && IsFile(t, b, PageOf(files, s))
      ensures HeaderAt(B(), PageOf(files, s)) == HeaderAt(b, PageOf(files, s))
      ensures LogOf(B(), PageOf(files, s)) == LogOf(b, PageOf(files, s))
      ensures NamesDoubled(t0, b0, T(), B(), PageOf(files, s), PageOf(files, n))
    {
      var q := PageOf(files, n);
      assert Other(t, b, t, B(), PageOf(files, s));
      forall c: nat | c != q && IsFile(T(), B(), c) ensures IsFile(t0, b0, c) && HeaderAt(B(), c) == HeaderAt(b0, c) {
        assert Other(t, b, t, B(), c);
      }
    }

    lemma AfterHandOver(t0: Extents, b0: Bytes, t1: Extents, b1: Bytes, page: nat, q: nat)
      requires NamesDoubled(t0, b0, t1, b1, page, q) && q != page && q != LogOf(b1, page)
      requires Others(t1, b1, T(), B(), FilePages(b1, page)) && IsFile(t1, b1, q) && !HeaderAt(b1, q).modified
      requires forall c: nat ::
                 IsFile(T(), B(), c) ==> IsFile(t1, b1, c) && c != page && HeaderAt(B(), c) == HeaderAt(b1, c)
      ensures NamesApart(T(), B()) && IsFile(T(), B(), q) && !HeaderAt(B(), q).modified
      ensures OldNames(t0, b0, T(), B(), {})
    {
      MergedNames(t0, b0, t1, b1, page, q);
      assert Other(t1, b1, T(), B(), q);
    }

    lemma MergeFrame(t: Extents, b: Bytes, b1: Bytes, page: nat, q: nat, e: nat, cap: nat)
      requires Others(t, b, t, b1, {q}) && Others(t, b1, T(), B(), FilePages(b, page) + {q})
      requires CopiedUpTo(b, page, b1, q, e, cap) && e <= cap && Spliced(b1, q, B(), q, cap, 0, [])
      ensures Others(t, b, T(), B(), {q} + FilePages(b, page)) && CopiedUpTo(b, page, B(), q, e, cap)
    {
      OthersTransitive(t, b, t, b1, T(), B(), {q}, FilePages(b, page) + {q});
      assert {q} + (FilePages(b, page) + {q}) == {q} + FilePages(b, page);
      CopiedThrough(b, b, page, b1, B(), q, e, cap);
    }

    /** The extents of the file that was at a page are no longer in use. */
    ghost predicate Gone(b: Bytes, page: nat)
      reads store
    {
      !IsActive(T(), page) && (LogOf(b, page) >= 0 ==> !IsActive(T(), LogOf(b, page)))
    }

    /** `merge_log` once the new extent is there. */
    method FinishMerge(fd: int, s: int, n: int, h: Header, ghost t0: Extents, ghost b0: Bytes) returns (e: nat)
      requires Copying(s, n, T(), B(), files, 0) && FdValid(fd) && fds[fd] == Desc(0, s, true, false, false)
      requires files[s].references > 1 && files[n].references == 0 && !files[n].modified
      requires h == HeaderAt(B(), PageOf(files, s))
      requires NamesDoubled(t0, b0, T(), B(), PageOf(files, s), PageOf(files, n))
      modifies this, store, store.flash
      ensures Valid() && Awoken(old(store.Snap())) && e == EndOf(old(files), s) && SlotAvailable(files)
      ensures old(store.FreeBehind()) ==> store.FreeBehind()
      ensures Configured(h, B(), PageOf(files, n)) && OldNames(t0, b0, T(), B(), {})
      ensures |fds| == |old(fds)| && fds == Remap(old(fds)[fd := Desc(e, s, true, false, false)], s, n)[fd := fds[fd]]
      ensures !fds[fd].Open()
      ensures SlotsMerged(old(files), files, s, n, old(files)[n].(references := old(files)[s].references - 1, end := e))
      ensures SlotsBut(old(files), files, s, n, LogOf(old(B()), PageOf(old(files), s)))
      ensures Held(T(), B(), files, n) && !HeaderAt(B(), PageOf(files, n)).modified
      ensures CopiedUpTo(old(B()), PageOf(old(files), s), B(), PageOf(files, n), e, Capacity(LenOf(files, n)))
      ensures SameName(old(B()), PageOf(files, n), B(), PageOf(files, n)) && PageOf(files, n) == PageOf(old(files), n)
      ensures Gone(old(B()), PageOf(old(files), s))
      ensures Others(old(T()), old(B()), T(), B(), {PageOf(files, n)} + FilePages(old(B()), PageOf(old(files), s)))
    {
      ghost var t, b, files1, fds1 := T(), B(), files, fds;
      ghost var page := PageOf(files, s);
      FileFacts(page);
      e := CopyAndReplace(fd, s, n, h, t0, b0);
      MergedKept(t, b, files1, fds1, s, n, page, LogOf(b, page), e);
      CfsClose(fd);
      assert files[s].references == 0;
    }

    /** The state before and after the new extent of a merge was reserved. */
    ghost predicate MergeStarted(t0: Extents, b0: Bytes, files0: seq<File>, t: Extents, b: Bytes, files1: seq<File>,
                                 s: int, n: int, len: nat) {
      && Held(t0, b0, files0, s) && 0 <= n < |files0| && files0[n].references == 0 && files0[s].maxPages > 0
      && t0[PageOf(files0, s)].len == files0[s].maxPages && files0[s].end <= Capacity(files0[s].maxPages)
      && files0[s].maxPages <= len
      && files1 == files0[s := files0[s].(references := files0[s].references + 1)]
                         [n := File(0, PageOf(files1, n), len, -1, 0, false)]
      && Others(t0, b0, t, b, {PageOf(files1, n)}) && !IsActive(t0, PageOf(files1, n))
      && SameName(b0, PageOf(files0, s), b, PageOf(files1, n))
    }

    lemma MergeDone(t0: Extents, b0: Bytes, files0: seq<File>, fds0: seq<Desc>, t: Extents, b: Bytes, files1: seq<File>,
                    s: int, n: int, fd: int, e: nat, len: nat, waiting: bool)
      requires MergeStarted(t0, b0, files0, t, b, files1, s, n, len) && e == EndOf(files0, s)
      requires 0 <= fd < |fds0| == |fds| && !fds0[fd].Open() && !fds[fd].Open()
      requires var fds1 := fds0[fd := Desc(0, s, true, false, false)][fd := Desc(e, s, true, false, false)];
               fds == Remap(fds1, s, n)[fd := fds[fd]]
      requires SlotsMerged(files1, files, s, n, files1[n].(references := files1[s].references - 1, end := e))
      requires Held(T(), B(), files, n) && !HeaderAt(B(), PageOf(files, n)).modified
      requires CopiedUpTo(b, PageOf(files1, s), B(), PageOf(files, n), e, Capacity(LenOf(files, n)))
      requires Gone(b, PageOf(files1, s))
      requires SameLogs(b, PageOf(files1, s), B(), PageOf(files, n)) && OldNames(t0, b0, T(), B(), {})
      requires Others(t, b, T(), B(), {PageOf(files, n)} + FilePages(b, PageOf(files1, s)))
      requires SameName(b, PageOf(files1, n), B(), PageOf(files, n))
      ensures Merged(View(t0, b0, files0, fds0, waiting), Now(), s, n, len)
    {
      var page, q := PageOf(files0, s), PageOf(files1, n);
      assert fds0[fd := Desc(0, s, true, false, false)][fd := Desc(e, s, true, false, false)] ==
          fds0[fd := Desc(e, s, true, false, false)];
      MergedDescs(fds0, fd, s, n, Desc(e, s, true, false, false), fds);
      SlotsMergedFrom(files0, files1, files, s, n, files0[s].(references := files0[s].references + 1), files1[n],
                      files[n]);
      CapacityMono(files0[s].maxPages, len);
      MergeResult(t0, b0, t, b, page, q, e, Capacity(len));
    }

    lemma MergeResult(t0: Extents, b0: Bytes, t: Extents, b: Bytes, page: nat, q: nat, e: nat, cap: nat)
      requires Others(t0, b0, t, b, {q}) && Others(t, b, T(), B(), {q} + FilePages(b, page)) && !IsActive(t0, q)
      requires page != q
      requires IsFile(t0, b0, page) && t0[page].len > 0 && e <= Capacity(t0[page].len) && e <= cap
      requires CopiedUpTo(b, page, B(), q, e, cap) && Gone(b, page)
      ensures Others(t0, b0, T(), B(), FilePages(b0, page)) && CopiedUpTo(b0, page, B(), q, e, cap) && Gone(b0, page)
      ensures LogOf(b, page) == LogOf(b0, page)
      ensures HeaderAt(b, page) == HeaderAt(b0, page)
    {
      assert Other(t0, b0, t, b, page);
      OthersTransitive(t0, b0, t, b, T(), B(), {q}, {q} + FilePages(b, page));
      assert {q} + ({q} + FilePages(b, page)) == {q} + FilePages(b0, page);
      OthersNew(t0, b0, T(), B(), q, FilePages(b0, page));
      CopiedThrough(b0, b, page, B(), B(), q, e, cap);
    }

    /** The first half of `merge_log`. On failure the files are as before, but for what may have
        been left behind. */
    method BeginMerge(s: int, extend: bool, h: Header) returns (fd: int, n: int, ghost leak: int)
      requires Valid() && !store.lost && Held(T(), B(), files, s) && h == HeaderAt(B(), PageOf(files, s))
      modifies this, store, store.flash
      ensures n < 0 ==> MergeFailed(old(Now()), old(store.Snap()), s, MergedLen(old(files), s, extend), leak)
      ensures n >= 0 ==>
                && !store.lost && Copying(s, n, T(), B(), files, 0) && FdValid(fd) && |fds| == |old(fds)|
                && !old(fds)[fd].Open() && SlotAvailable(old(files)) && leak < 0
      ensures n >= 0 ==>
                && fds == old(fds)[fd := Desc(0, s, true, false, false)] && files[s].references > 1
                && files[n].references == 0 && !files[n].modified
      ensures n >= 0 ==>
                && h == HeaderAt(B(), PageOf(files, s)) && PageOf(files, s) == PageOf(old(files), s)
                && EndOf(files, s) == EndOf(old(files), s)
      ensures n >= 0 ==> NamesDoubled(old(T()), old(B()), T(), B(), PageOf(files, s), PageOf(files, n))
      ensures n >= 0 ==> PickedSlot(old(files), n)
      ensures n >= 0 ==>
                var len := MergedLen(old(files), s, extend);
                TakenFrom(old(store.Snap()), PageOf(files, n), len, NewHeader(h.name, len, false))
      ensures n >= 0 ==>
                MergeStarted(old(T()), old(B()), old(files), T(), B(), files, s, n, MergedLen(old(files), s, extend))
      ensures !old(AllOpen()) && old(RoomFor(MergedLen(files, s, extend))) ==>
                (n >= 0 <==> SlotAvailable(old(files))) && (leak < 0 <==> n >= 0)
      ensures old(store.Filling()) && !old(AllOpen()) ==>
                && store.Filling()
                && FillStep(old(store.nextFree), store.nextFree, MergedLen(old(files), s, extend), n >= 0 || leak >= 0)
    {
      n, leak := -1, -1;
      ghost var t0, b0, files0, fds0 := T(), B(), files, fds;
      assert SlotOk(t0, b0, files0[s]) by { SlotFacts(s); }
      PageFits(PageOf(files, s));
      var len := MergedLen(files, s, extend);
      fd := OpenForMerge(s, h.name);
      if fd < 0 {
        OthersNone();
        return;
      }
      ghost var files1 := files;
      SlotsCounted(files0, s, files1[s]);
      n, leak := ReserveOrClose(fd, s, h.name, len, files0, fds0);
      if n >= 0 {
        PickedSame(files0, s, files1[s], n);
        StartMerge(t0, b0, files0, files1, s, n, len);
      }
    }

    /** What a failed merge of the file in slot s leaves: all files as before, and if there was no
        slot for the new extent, that as a second file of the same name. It fails for want of a
        descriptor, of a slot, or of pages. */
    ghost predicate MergeFailed(v: View, w: Space, s: int, len: nat, leak: int)
      reads this, store, store.flash
    {
      && Core() && Untouched(v, Now()) && leak >= -1 && (Valid() <==> leak < 0)
      && (SlotAvailable(files) <==> SlotAvailable(v.files))
      && (leak >= 0 ==> !SlotAvailable(v.files) && LeftBehind(v.t, v.b, leak, HeaderAt(v.b, PageOf(v.files, s)).name))
      && if NoneFree(v.fds) then leak < 0 && store.Snap() == w else leak >= 0 || Refused(w, store.Snap(), len)
    }

    /** The new extent is reserved, or else the descriptor is closed again. */
    method ReserveOrClose(fd: int, s: int, name: Bytes, len: nat, ghost files0: seq<File>, ghost fds0: seq<Desc>)
      returns (n: int, ghost leak: int)
      requires Valid() && !store.lost && Held(T(), B(), files, s) && |name| == NAME_LENGTH
      requires HasName(T(), B(), PageOf(files, s), name)
      requires files[s].maxPages <= len < 0x8000 && FdValid(fd) && fds[fd] == Desc(0, s, true, false, false)
      requires 0 <= s < |files0| && files == files0[s := files0[s].(references := files0[s].references + 1)]
      requires |fds0| == |fds| && !fds0[fd].Open() && fds == fds0[fd := fds[fd]]
      modifies this, store, store.flash
      ensures -1 <= n < |files| == |old(files)| && leak >= -1 && Core()
      ensures n < 0 ==>
                && files == files0 && SameOpen(fds0, fds)
                && Others(old(T()), old(B()), T(), B(), {}) && OldNames(old(T()), old(B()), T(), B(), {})
      ensures n < 0 ==> if leak < 0 then Valid() && Refused(old(store.Snap()), store.Snap(), len)
                        else !Valid() && !SlotAvailable(old(files)) && LeftBehind(old(T()), old(B()), leak, name)
      ensures n >= 0 ==> fds == old(fds) && !store.lost && SlotAvailable(old(files)) && leak < 0
      ensures n >= 0 ==> TakenFrom(old(store.Snap()), PageOf(files, n), len, NewHeader(name, len, false))
      ensures n >= 0 ==> PickedSlot(old(files), n)
      ensures n >= 0 ==> MergeReserved(old(T()), old(B()), old(files), s, n, name, len)
      ensures old(RoomFor(len)) ==> (n >= 0 <==> SlotAvailable(old(files))) && (leak < 0 <==> n >= 0)
      ensures old(store.Filling()) ==>
                store.Filling() && FillStep(old(store.nextFree), store.nextFree, len, n >= 0 || leak >= 0)
    {
      ghost var files1, d := files, fds[fd];
      n, leak := MergeReserve(s, name, len);
      if n < 0 {
        CfsClose(fd);
        ReopenedDescs(fds0, fd, d, fds[fd]);
        CountedBack(files0, files1, files, s);
      }
    }

    lemma StartMerge(t0: Extents, b0: Bytes, files0: seq<File>, files1: seq<File>, s: int, n: int, len: nat)
      requires NamesApart(t0, b0) && Held(t0, b0, files0, s) && SlotOk(t0, b0, files0[s]) && files0[s].maxPages <= len
      requires files1 == files0[s := files0[s].(references := files0[s].references + 1)]
      requires MergeReserved(t0, b0, files1, s, n, HeaderAt(b0, PageOf(files0, s)).name, len)
      ensures files[s].references > 1 && files[n].references == 0 && !files[n].modified
      ensures HeaderAt(B(), PageOf(files, s)) == HeaderAt(b0, PageOf(files0, s))
      ensures PageOf(files, s) == PageOf(files0, s) && EndOf(files, s) == EndOf(files0, s)
      ensures NamesDoubled(t0, b0, T(), B(), PageOf(files, s), PageOf(files, n))
      ensures MergeStarted(t0, b0, files0, T(), B(), files, s, n, len)
    {
      assert Other(t0, b0, T(), B(), PageOf(files0, s));
    }

    /** Pages of the new extent. */
    function MergedLen(files0: seq<File>, s: int, extend: bool): nat {
      if extend then 2 * LenOf(files0, s) else LenOf(files0, s)
    }

    lemma PageFits(page: nat)
      requires Core() && IsActive(T(), page)
      ensures 0 < T()[page].len < 0x4000 && page < PAGE_COUNT && |HeaderAt(B(), page).name| == NAME_LENGTH
    {
      assert ExtentOk(T(), B(), page);
      PagesBound();
      DecodeFits(B(), Offset(page));
    }

    /** `merge_log`. On failure the files are as before; otherwise slot n holds the file. If
        there is no slot for the new extent, a failed merge leaves a second file of the same
        name; whenever there is a descriptor, and room for the extent, this happens if and only
        if there is no slot. */
    method MergeLog(s: int, extend: bool) returns (r: int, ghost n: int, ghost leak: int)
      requires Valid() && !store.lost && Held(T(), B(), files, s)
      modifies this, store, store.flash
      ensures r == -1 || r == 0
      ensures r == -1 ==> MergeFailed(old(Now()), old(store.Snap()), s, MergedLen(old(files), s, extend), leak)
      ensures r == 0 ==>
                PickedSlot(old(files), n) && SlotsBut(old(files), files, s, n, LogOf(old(B()), PageOf(old(files), s)))
      ensures r == 0 ==>
                var len := MergedLen(old(files), s, extend);
                && !store.gcWait
                && TakenFrom(old(store.Snap()), PageOf(files, n), len,
                             NewHeader(HeaderAt(old(B()), PageOf(old(files), s)).name, len, false))
      ensures r == 0 ==>
                && Valid() && !store.lost && SlotAvailable(old(files)) && SlotAvailable(files) && leak < 0
                && Merged(old(Now()), Now(), s, n, MergedLen(old(files), s, extend))
                && DataOf(Now(), n) == DataOf(old(Now()), s)
      ensures !old(AllOpen()) && old(RoomFor(MergedLen(files, s, extend))) ==>
                (r == 0 <==> SlotAvailable(old(files))) && (leak < 0 <==> r == 0)
      ensures old(store.Filling()) && !old(AllOpen()) ==>
                && store.Filling()
                && FillStep(old(store.nextFree), store.nextFree, MergedLen(old(files), s, extend), r == 0 || leak >= 0)
    {
      ghost var v0 := Now();
      var h := store.flash.ReadHeader(files[s].page);
      var fd, m;
      fd, m, leak := BeginMerge(s, extend, h);
      r, n := -1, m;
      if m >= 0 {
        CompleteMerge(fd, s, m, h, v0, MergedLen(v0.files, s, extend));
        r := 0;
      }
    }

    /** The second half of `merge_log`. */
    method CompleteMerge(fd: int, s: int, n: int, h: Header, ghost v0: View, ghost len: nat)
      requires Copying(s, n, T(), B(), files, 0) && FdValid(fd) && |fds| == |v0.fds| && !v0.fds[fd].Open()
      requires fds == v0.fds[fd := Desc(0, s, true, false, false)] && files[s].references > 1
      requires files[n].references == 0 && !files[n].modified
      requires h == HeaderAt(B(), PageOf(files, s)) == HeaderAt(v0.b, PageOf(v0.files, s))
      requires PageOf(files, s) == PageOf(v0.files, s) && EndOf(files, s) == EndOf(v0.files, s)
      requires NamesDoubled(v0.t, v0.b, T(), B(), PageOf(files, s), PageOf(files, n))
      requires MergeStarted(v0.t, v0.b, v0.files, T(), B(), files, s, n, len) && ViewOk(v0)
      modifies this, store, store.flash
      ensures Valid() && Awoken(old(store.Snap())) && SlotAvailable(files) && PageOf(files, n) == PageOf(old(files), n)
      ensures Merged(v0, Now(), s, n, len) && DataOf(Now(), n) == DataOf(v0, s)
      ensures SlotsBut(v0.files, files, s, n, LogOf(v0.b, PageOf(v0.files, s)))
      ensures old(store.FreeBehind()) && SECTOR_COUNT == 1 && !old(store.lost) ==> store.Filling()
    {
      ghost var t, b, files1 := T(), B(), files;
      var e := FinishMerge(fd, s, n, h, v0.t, v0.b);
      if store.FreeBehind() && SECTOR_COUNT == 1 { OneStanding(T(), B(), PageOf(files, n)); }
      MergeDone(v0.t, v0.b, v0.files, v0.fds, t, b, files1, s, n, fd, e, len, v0.waiting);
      MergedData(v0, Now(), s, n, len);
      SlotsButFrom(v0.files, files1, files, s, n, files1[s], files1[n], LogOf(b, PageOf(files1, s)));
    }

    // ----- Writing a record -----

    lemma RecordAdded(t: Extents, b: Bytes, s: int, h: Header, n: nat, offset: nat, d: Bytes, copy: Bytes)
      requires Tiled(t, b) && FilesOk(t, b) && CacheOk(t, b, files, fds) && Cached(t, b, files, s) && T() == t
      requires h == HeaderAt(b, PageOf(files, s)) && RecordSize(h) > 0
      requires Logged(t, b, B(), PageOf(files, s), n, Region(h, offset), copy)
      requires RegionOffset(h, offset) + |d| <= RecordSize(h)
      requires RegionCopy(b, PageOf(files, s), h, Region(h, offset), RegionOffset(h, offset), d, copy)
      ensures Tiled(T(), B()) && FilesOk(T(), B()) && Others(t, b, T(), B(), {PageOf(files, s)})
      ensures CacheOk(T(), B(), files[s := files[s].(recordCount := n + 1)], fds)
      ensures FileSpliced(b, files, s, B(), files, s, offset, d) && HeaderAt(B(), PageOf(files, s)) == h
      ensures LogCount(B(), files, s, n + 1)
      ensures forall c: nat :: c in t ==> HeaderAt(B(), c) == HeaderAt(b, c)
      ensures forall x: nat {:trigger HasRecord(B(), PageOf(files, s), x)} ::
                offset <= x < offset + |d| ==> HasRecord(B(), PageOf(files, s), x)
    {
      var a := PageOf(files, s);
      var region := Region(h, offset);
      assert SlotOk(t, b, files[s]);
      LoggedFiles(t, b, B(), a, n, region, copy);
      LoggedData(t, b, B(), a, n, region, copy);
      DataTiled(t, b, B(), h.logPage);
      RecordSplices(t, b, B(), a, h, n, offset, d, copy);
      LoggedTable(t, b, B(), a, n, region, copy);
      CacheChanged(t, b, T(), B(), files, fds, s, files[s].(recordCount := n + 1));
      RecordsFound(t, b, B(), a, h, n, offset, |d|, copy);
    }

    /** The log of the file in slot s has a free record n, and d fits in a region. */
    ghost predicate CanLog(s: int, h: Header, n: nat, offset: nat, d: Bytes)
      reads this, store, store.flash
    {
      && Valid() && Held(T(), B(), files, s) && h == HeaderAt(B(), PageOf(files, s)) && LogCount(B(), files, s, n)
      && n < Records(h)
      && RecordSize(h) > 0 && RegionOffset(h, offset) + |d| <= RecordSize(h) && offset < Capacity(files[s].maxPages)
    }

    lemma CanLogFacts(s: int, h: Header, n: nat, offset: nat, d: Bytes)
      requires CanLog(s, h, n, offset, d)
      ensures h.logPage >= 0 && Readable(B(), PageOf(files, s), n) && Region(h, offset) < 0xFFFF
      ensures HasLog(T(), B(), PageOf(files, s))
      ensures FileOk(T(), B(), PageOf(files, s)) && SlotOk(T(), B(), files[s])
    {
      SlotFacts(s);
      var a := PageOf(files, s);
      ExtentHeader(T(), B(), a);
      LogInside(T(), B(), a);
      CapacityIs(files[s].maxPages);
      OffsetAdd(a, files[s].maxPages);
      RegionFits(h, offset);
    }

    /** The end of `write_log_page`: the copy of the region goes to record n, after its number
        has gone to the table. */
    method AddRecord(s: int, h: Header, n: nat, offset: nat, d: Bytes)
      requires CanLog(s, h, n, offset, d)
      modifies `files, store.flash
      ensures Valid() && files == old(files)[s := old(files)[s].(recordCount := n + 1)] && Held(T(), B(), files, s)
      ensures Others(old(T()), old(B()), T(), B(), {PageOf(files, s)})
      ensures FileSpliced(old(B()), old(files), s, B(), files, s, offset, d)
      ensures HeaderAt(B(), PageOf(files, s)) == h && LogCount(B(), files, s, n + 1)
      ensures forall x: nat {:trigger HasRecord(B(), PageOf(files, s), x)} ::
                offset <= x < offset + |d| ==> HasRecord(B(), PageOf(files, s), x)
      ensures OldNames(old(T()), old(B()), T(), B(), {})
    {
      ghost var b := B();
      var page := files[s].page;
      CanLogFacts(s, h, n, offset, d);
      var region := Region(h, offset);
      var copy := BuildRecord(store.flash, page, h, n, region, RegionOffset(h, offset), d);
      store.flash.Write(EntryAt(h.logPage, n), Bytes16(region + 1));
      store.flash.Write(RecordAt(h, h.logPage, n), copy);
      RecordAdded(T(), b, s, h, n, offset, d, copy);
      files := files[s := files[s].(recordCount := n + 1)];
      NamesKept(T(), b);
    }

    /** `find_next_record` for a file with a log: the first unused record, since the table
        fits one batch. */
    method NextRecord(s: int, h: Header) returns (record: nat)
      requires Valid() && Held(T(), B(), files, s) && h == HeaderAt(B(), PageOf(files, s)) && h.modified
      ensures h.logPage >= 0 && LogCount(B(), files, s, record) && record <= Records(h) && Records(h) > 0
    {
      SlotFacts(s);
      FileFacts(PageOf(files, s));
      SearchForwardRight(B(), h.logPage, Records(h));
      record := FindNextRecord(store.flash, files[s].recordCount, h.logPage, Records(h));
    }

    /** Records stand for n bytes of the file in slot s. */
    ghost predicate Recorded(s: int, offset: nat, n: nat)
      reads this, store, store.flash
    {
      && 0 <= s < |files| && files[s].modified
      && forall x: nat {:trigger HasRecord(B(), PageOf(files, s), x)} ::
           offset <= x < offset + n ==> HasRecord(B(), PageOf(files, s), x)
    }

    /** A record is added to the log that is there. If no data is given, it is a copy. */
    method WriteRecord(s: int, h: Header, record: nat, offset: nat, data: Bytes) returns (i: nat)
      requires Valid() && Held(T(), B(), files, s) && h == HeaderAt(B(), PageOf(files, s)) && h.modified
      requires RecordSize(h) > 0
      requires LogCount(B(), files, s, record) && record < Records(h)
      requires offset < Capacity(LenOf(files, s)) && offset + |data| <= Capacity(LenOf(files, s))
      modifies `files, store.flash
      ensures Valid() && i == PieceSize(PositiveSize(h), offset, |data|) && (i == 0 <==> data == [])
      ensures SlotAvailable(files) <==> SlotAvailable(old(files))
      ensures Wrote(old(Now()), Now(), s, offset, data[..i]) && Recorded(s, offset, i)
      ensures HeaderAt(B(), PageOf(files, s)) == h && LogCount(B(), files, s, record + 1)
      ensures RoundIs(old(LedgerOf(s)), LedgerOf(s), i, false, PieceSize(PositiveSize(h), offset, |data|))
    {
      RegionOffsetBound(h, offset);
      SlotFacts(s);
      ghost var files0 := files;
      i := PieceSize(PositiveSize(h), offset, |data|);
      AddRecord(s, h, record, offset, data[..i]);
      SlotsCounted(files0, s, files[s]);
    }

    /** A log is made first. */
    method WriteFirstRecord(s: int, offset: nat, data: Bytes) returns (i: int)
      requires Valid() && !store.lost && Held(T(), B(), files, s) && !HeaderAt(B(), PageOf(files, s)).modified
      requires offset < Capacity(LenOf(files, s)) && offset + |data| <= Capacity(LenOf(files, s))
      modifies this, store, store.flash
      ensures Valid() && fds == old(fds) && -1 <= i <= |data| && (i >= 0 ==> !store.lost && (i == 0 <==> data == []))
      ensures SlotAvailable(files) <==> SlotAvailable(old(files))
      ensures i == -1 ==> files == old(files) && Others(old(T()), old(B()), T(), B(), {})
      ensures i == -1 ==> OldNames(old(T()), old(B()), T(), B(), {})
      ensures i == -1 ==>
                && !LedgerOf(s).logged
                && (!SlotAvailable(files) || Refused(old(store.Snap()), store.Snap(), LedgerOf(s).logPages))
      ensures i >= 0 ==> Wrote(old(Now()), Now(), s, offset, data[..i]) && Recorded(s, offset, i)
      ensures i >= 0 ==>
                store.gcWait == old(store.gcWait) && i == PieceSize(old(LedgerOf(s)).size, offset, |data|)
      ensures old(Predictable()) ==>
                && Predictable()
                && RoundIs(old(LedgerOf(s)), LedgerOf(s), i, false, PieceSize(old(LedgerOf(s)).size, offset, |data|))
    {
      ghost var t, b, files0, l, waiting := T(), B(), files, LedgerOf(s), store.gcWait;
      ghost var orphan;
      var ok;
      ok, orphan := CreateLog(s);
      if !ok {
        return -1;
      }
      ghost var t1, b1, files1 := T(), B(), files;
      ghost var l1 := LedgerOf(s);
      var h := store.flash.ReadHeader(files[s].page);
      FileFacts(PageOf(files, s));
      i := WriteRecord(s, h, 0, offset, data);
      if l1.next == l.next + l.logPages < PAGE_COUNT {
        FirstRound(l, l1, LedgerOf(s), i, PieceSize(l.size, offset, |data|));
      }
      FirstRecordDone(t, b, files0, t1, b1, files1, s, offset, data[..i], waiting);
    }

    lemma FirstRecordDone(t: Extents, b: Bytes, files0: seq<File>, t1: Extents, b1: Bytes, files1: seq<File>, s: int,
                          offset: nat, d: Bytes, waiting: bool)
      requires Wrote(View(t1, b1, files1, fds, waiting), Now(), s, offset, d) && SlotsKept(files0, files1, s)
      requires 0 <= s < |files0|
      requires OldNames(t, b, t1, b1, {})
      requires files1[s] == files0[s].(modified := true) && s < |files1|
      requires Others(t, b, t1, b1, {PageOf(files1, s)}) && FileSpliced(b, files0, s, b1, files1, s, 0, [])
      requires SameName(b, PageOf(files1, s), b1, PageOf(files1, s))
      ensures Wrote(View(t, b, files0, fds, waiting), Now(), s, offset, d)
    {
      var a := PageOf(files1, s);
      SlotsKeptTwice(files0, files1, files, s);
      OldNamesTwice(t, b, t1, b1, T(), B());
      OthersTransitive(t, b, t1, b1, T(), B(), {a}, {a});
      assert {a} + {a} == {a};
      SplicedAfter(b, b1, B(), a, Capacity(LenOf(files, s)), offset, d);
    }

    /** The numbers of the file in slot s. */
    ghost function LedgerOf(s: int): Ledger
      reads this, store, store.flash
    {
      LedgerAt(B(), files, s, store.nextFree)
    }

    lemma UntouchedLedger(v: View, s: int)
      requires Held(v.t, v.b, v.files, s) && SlotOk(v.t, v.b, v.files[s]) && Untouched(v, Now()) && |v.fds| == |fds|
      ensures LedgerOf(s) == LedgerAt(v.b, v.files, s, store.nextFree) && (AllOpen() <==> NoneFree(v.fds))
    {
      assert Other(v.t, v.b, T(), B(), PageOf(v.files, s));
      OtherLedger(v, Now(), s, store.nextFree);
    }

    /** The device has one sector and fills from the front; there are a slot and a descriptor. */
    ghost predicate Predictable()
      reads this, store
    {
      store.Filling() && SlotAvailable(files) && !AllOpen()
    }

    /** What `write_log_page` leaves when it fails: the log is full and cannot be merged, or there is
        none and none can be made. */
    ghost predicate LogFailed(v: View, w: Space, s: int, leak: int)
      reads this, store, store.flash
    {
      && Core() && Untouched(v, Now()) && leak >= -1 && (Valid() <==> leak < 0)
      && (SlotAvailable(files) <==> SlotAvailable(v.files)) && (leak >= 0 ==> !SlotAvailable(v.files))
      && (AllOpen() <==> NoneFree(v.fds))
      && var l := LedgerOf(s);
         if l.logged then l.unused == 0 && (AllOpen() || leak >= 0 || Refused(w, store.Snap(), l.len))
         else leak < 0 && (!SlotAvailable(files) || Refused(w, store.Snap(), l.logPages))
    }

    /** A file is merged with its full log. */
    method MergeFull(s: int) returns (i: int, ghost n: int, ghost leak: int)
      requires Valid() && !store.lost && Held(T(), B(), files, s) && LedgerOf(s).logged && LedgerOf(s).unused == 0
      modifies this, store, store.flash
      ensures i == -1 || i == 0
      ensures i == -1 ==> LogFailed(old(Now()), old(store.Snap()), s, leak)
      ensures i == 0 ==> Valid() && !store.lost && leak < 0 && SlotAvailable(files) && !store.gcWait
      ensures i == 0 ==> Merged(old(Now()), Now(), s, n, LenOf(old(files), s))
      ensures old(Predictable()) ==>
                Predictable() && RoundIs(old(LedgerOf(s)), LedgerOf(if i == 0 then n else s), i, i == 0, 0)
    {
      ghost var v := Now();
      SlotFacts(s);
      i, n, leak := MergeLog(s, false);
      if i == 0 {
        MergedLedger(v, Now(), s, n, LenOf(v.files, s), store.nextFree);
      } else {
        UntouchedLedger(v, s);
      }
    }

    /** `write_log_page`: -1 if there is no room; 0 if the file was merged with its full log;
        otherwise the number of bytes written to a record, which is 0 if there were none. */
    method WriteLogPage(s: int, offset: nat, data: Bytes) returns (i: int, merged: bool, ghost n: int, ghost leak: int)
      requires Valid() && !store.lost && Held(T(), B(), files, s)
      requires offset < Capacity(LenOf(files, s)) && offset + |data| <= Capacity(LenOf(files, s))
      modifies this, store, store.flash
      ensures -1 <= i <= |data|
      ensures i == -1 ==> LogFailed(old(Now()), old(store.Snap()), s, leak) && !merged
      ensures i >= 0 ==>
                && Valid() && !store.lost && leak < 0 && (i == 0 <==> merged || data == [])
                && (SlotAvailable(old(files)) ==> SlotAvailable(files)) && (store.gcWait ==> old(store.gcWait))
      ensures i >= 0 ==> (merged <==> old(files)[s].modified && old(LedgerOf(s)).unused == 0)
      ensures i >= 0 && !merged ==> i == PieceSize(old(LedgerOf(s)).size, offset, |data|)
      ensures merged ==> Merged(old(Now()), Now(), s, n, LenOf(old(files), s))
      ensures i >= 0 && !merged ==> Wrote(old(Now()), Now(), s, offset, data[..i]) && Recorded(s, offset, i)
      ensures old(Predictable() || LedgerOf(s).unused > 0) ==>
                RoundIs(old(LedgerOf(s)), LedgerOf(if merged then n else s), i, merged,
                        PieceSize(old(LedgerOf(s)).size, offset, |data|))
      ensures old(Predictable()) ==> Predictable()
    {
      n, leak, merged := s, -1, false;
      var h := store.flash.ReadHeader(files[s].page);
      SlotFacts(s);
      if h.modified {
        i, merged, n, leak := WriteNextRecord(s, h, offset, data);
      } else {
        i := WriteFirstRecord(s, offset, data);
      }
    }

    /** A further record, or the merge of the file with a log that has none left. */
    method WriteNextRecord(s: int, h: Header, offset: nat, data: Bytes)
      returns (i: int, merged: bool, ghost n: int, ghost leak: int)
      requires Valid() && !store.lost && Held(T(), B(), files, s) && h == HeaderAt(B(), PageOf(files, s)) && h.modified
      requires offset < Capacity(LenOf(files, s)) && offset + |data| <= Capacity(LenOf(files, s))
      modifies this, store, store.flash
      ensures -1 <= i <= |data|
      ensures i == -1 ==> LogFailed(old(Now()), old(store.Snap()), s, leak) && !merged
      ensures i >= 0 ==>
                && Valid() && !store.lost && leak < 0 && (i == 0 <==> merged || data == [])
                && (SlotAvailable(old(files)) ==> SlotAvailable(files)) && (store.gcWait ==> old(store.gcWait))
      ensures i >= 0 ==> (merged <==> old(LedgerOf(s)).unused == 0)
      ensures i >= 0 && !merged ==> i == PieceSize(old(LedgerOf(s)).size, offset, |data|)
      ensures merged ==> Merged(old(Now()), Now(), s, n, LenOf(old(files), s))
      ensures i >= 0 && !merged ==> Wrote(old(Now()), Now(), s, offset, data[..i]) && Recorded(s, offset, i)
      ensures old(Predictable() || LedgerOf(s).unused > 0) ==>
                RoundIs(old(LedgerOf(s)), LedgerOf(if merged then n else s), i, merged,
                        PieceSize(old(LedgerOf(s)).size, offset, |data|))
      ensures old(Predictable()) ==> Predictable()
    {
      n, leak, merged := s, -1, false;
      SlotFacts(s);
      var record := NextRecord(s, h);
      if record >= Records(h) {
        i, n, leak := MergeFull(s);
        merged := i == 0;
      } else {
        i := WriteRecord(s, h, record, offset, data);
      }
    }

    // ----- Writing -----

    /** A write through descriptor fd is under way; d has been written. */
    ghost predicate Writing(v0: View, fd: int, d: Bytes)
      reads this, store, store.flash
    {
      && Core() && ViewOk(v0) && Written(v0, Now(), fd, d) && (SlotAvailable(v0.files) ==> SlotAvailable(files))
      && OldNames(v0.t, v0.b, T(), B(), {})
    }

    /** The write may go on. It waits for a removal only if it did from the start. */
    ghost predicate Ready(v0: View)
      reads this, store, store.flash
    {
      Valid() && !store.lost && (store.gcWait ==> v0.waiting)
    }

    lemma WritingFacts(v0: View, fd: int, d: Bytes)
      requires Writing(v0, fd, d)
      ensures FdValid(fd) && Held(T(), B(), files, fds[fd].file) && fds[fd].offset <= EndOf(files, fds[fd].file)
      ensures 0 < LenOf(files, fds[fd].file) < 0x4000
      ensures EndOf(files, fds[fd].file) <= Capacity(LenOf(files, fds[fd].file))
    {
      DescFacts(fd);
      PageFits(PageOf(files, fds[fd].file));
    }

    /** The descriptor goes on, and with it, if necessary, the end of the file. */
    method Advance(fd: int, n: nat)
      requires Valid() && FdValid(fd) && 0 <= fds[fd].file < |files|
      requires fds[fd].offset + n <= Capacity(LenOf(files, fds[fd].file))
      modifies `files, `fds
      ensures unchanged(store) && unchanged(store.flash) && Valid() && Now() == Advanced(old(Now()), fd, n)
      ensures SlotAvailable(files) <==> SlotAvailable(old(files))
    {
      DescFacts(fd);
      SeekWithin(fd, fds[fd].offset + n);
      var s, o := fds[fd].file, fds[fd].offset + n;
      RefNone(fds, s);
      assert fds[fd].On(s);
      SlotsCounted(files, s, EndAtLeast(files[s], o));
      if o > files[s].end {
        files := files[s := files[s].(end := o)];
      }
      fds := fds[fd := fds[fd].(offset := o)];
    }

    /** The same after a piece has been written. */
    method GoOn(fd: int, ghost n: nat, ghost v0: View, ghost v1: View, ghost d: Bytes, e: Bytes)
      requires Valid() && ViewOk(v0) && Written(v0, v1, fd, d) && FdValid(fd) && |d| + |e| <= n
      requires OldNames(v0.t, v0.b, v1.t, v1.b, {})
      requires SlotAvailable(v0.files) ==> SlotAvailable(files)
      requires fds[fd].file == SlotOf(v1, fd) && fds[fd].offset == OffsetOf(v1, fd)
      requires RoomMade(v0, v1, fd, n) && Wrote(v1, Now(), fds[fd].file, fds[fd].offset, e)
      modifies `files, `fds
      ensures unchanged(store) && unchanged(store.flash) && Valid() && Going(v0, fd, d + e, n)
      ensures |e| > 0 && old(Recorded(fds[fd].file, fds[fd].offset, |e|)) ==> LastRecorded(Now(), fd)
      ensures fds[fd].file == old(fds)[fd].file && PageOf(files, fds[fd].file) == PageOf(old(files), old(fds)[fd].file)
      ensures fds[fd].offset == old(fds)[fd].offset + |e|
      ensures LedgerOf(fds[fd].file) == old(LedgerOf(fds[fd].file)) && (old(Predictable()) ==> Predictable())
      ensures 0 <= fds[fd].file < |files| == |old(files)|
      ensures files[fds[fd].file].modified == old(files)[fds[fd].file].modified
    {
      WrittenBounds(v0, v1, fd, d);
      OldNamesTwice(v0.t, v0.b, v1.t, v1.b, T(), B());
      PieceStep(v0, v1, Now(), fd, d, e);
      Advance(fd, |e|);
    }

    lemma WrittenBounds(v0: View, v1: View, fd: int, d: Bytes)
      requires Written(v0, v1, fd, d)
      ensures 0 <= SlotOf(v1, fd) < |v1.files| && OffsetOf(v1, fd) == OffsetOf(v0, fd) + |d|
    {
    }

    /** The call cannot go on; if names are no longer different, there was no slot to begin with. */
    ghost predicate Stopped(v0: View, fd: int, leak: int)
      reads this, store, store.flash
    {
      0 <= fd < |fds| && leak >= -1 && (Valid() <==> leak < 0) && (leak >= 0 ==> !SlotAvailable(v0.files))
    }

    /** There is no room for an extent: nothing fits, and there was nothing to be collected, or a
        removal is waited for from the start. */
    ghost predicate Jammed(v0: View, pages: nat)
      reads store
    {
      RefusedBefore(T(), store.nextFree, store.gcWait, store.lost, v0.waiting, pages)
    }

    /** A merge was refused: there was no descriptor, no slot or no room for the new extent. */
    ghost predicate MergeStuck(v0: View, pages: nat, leak: int)
      reads this, store, store.flash
    {
      AllOpen() || leak >= 0 || Jammed(v0, pages)
    }

    /** Why nothing more goes to the log: it is full and cannot be merged, or there is none and none
        can be made. */
    ghost predicate LogStuck(v0: View, s: int, leak: int)
      reads this, store, store.flash
    {
      var l := LedgerOf(s);
      if l.logged then l.unused == 0 && MergeStuck(v0, l.len, leak)
      else leak < 0 && (!SlotAvailable(files) || Jammed(v0, l.logPages))
    }

    /** The file is merged with its log, into an extent of double the size. */
    method MergeTwice(fd: int, ghost v0: View, ghost d: Bytes) returns (ok: bool, len: nat, ghost leak: int)
      requires Ready(v0) && Writing(v0, fd, d)
      modifies this, store, store.flash
      ensures Writing(v0, fd, d) && (ok ==> Ready(v0) && leak < 0)
      ensures ok ==>
                && 0 <= fds[fd].file < |files| && !files[fds[fd].file].modified
                && len == LenOf(files, fds[fd].file) == 2 * LenOf(old(files), old(fds)[fd].file) && 0 < len < 0x4000
      ensures !ok ==>
                && Stopped(v0, fd, leak) && LenOf(files, fds[fd].file) == LenOf(old(files), old(fds)[fd].file)
                && MergeStuck(v0, 2 * LenOf(files, fds[fd].file), leak)
                && if old(AllOpen()) then AllOpen() && store.Snap() == old(store.Snap())
                   else leak >= 0 || Refused(old(store.Snap()), store.Snap(), 2 * LenOf(files, fds[fd].file))
    {
      ghost var v1, w := Now(), store.Snap();
      WritingFacts(v0, fd, d);
      var r;
      ghost var n;
      r, n, leak := MergeLog(fds[fd].file, true);
      ok, len := r == 0, 0;
      OldNamesTwice(v0.t, v0.b, v1.t, v1.b, T(), B());
      if ok {
        MergeStep(v0, v1, Now(), fd, d, n, MergedLen(v1.files, SlotOf(v1, fd), true));
        WritingFacts(v0, fd, d);
        len := files[fds[fd].file].maxPages;
      } else {
        UntouchedStep(v0, v1, Now(), fd, d);
        MergeJam(v0, v1, w, SlotOf(v1, fd), MergedLen(v1.files, SlotOf(v1, fd), true), leak);
      }
    }

    lemma MergeJam(v0: View, v1: View, w: Space, s: int, len: nat, leak: int)
      requires MergeFailed(v1, w, s, len, leak) && (w.waiting ==> v0.waiting)
      ensures MergeStuck(v0, len, leak) && (AllOpen() <==> NoneFree(v1.fds))
    {
      if Refused(w, store.Snap(), len) { Refusal(w, store.Snap(), v0.waiting, len); }
    }

    /** The data fits, and the extent has not been doubled more often than that takes. */
    ghost predicate Fitted(v0: View, fd: int, n: nat)
      reads this
    {
      && 0 <= fd < |fds| && OffsetOf(v0, fd) + n <= Capacity(LenOf(files, fds[fd].file))
      && Stretched(v0, fd, n)
    }

    /** The extent cannot be doubled. If that was to be the first time, it is this call that was
        refused the pages. */
    ghost predicate Outgrown(v0: View, w: Space, fd: int, leak: int)
      reads this, store, store.flash
    {
      && 0 <= fd < |fds|
      && var len := LenOf(files, fds[fd].file);
         && MergeStuck(v0, 2 * len, leak)
         && (len == LenOf(v0.files, SlotOf(v0, fd)) ==> AllOpen() || leak >= 0 || Refused(w, store.Snap(), 2 * len))
    }

    /** The extent is too small for n bytes behind the offset. */
    ghost predicate TooSmall(v0: View, fd: int, n: nat)
      reads this
    {
      0 <= fd < |fds| && OffsetOf(v0, fd) + n > Capacity(LenOf(files, fds[fd].file))
    }

    /** The pages of the extent, as often doubled as n bytes behind the offset need at most. */
    ghost predicate Stretched(v0: View, fd: int, n: nat)
      reads this
    {
      && 0 <= fd < |fds|
      && DoubledTo(LenOf(v0.files, SlotOf(v0, fd)), LenOf(files, fds[fd].file), OffsetOf(v0, fd) + n)
    }

    /** One round of the loop that extends the file. */
    method ExtendOnce(fd: int, size: nat, len0: nat, ghost v0: View, ghost w: Space)
      returns (ok: bool, len: nat, ghost leak: int)
      requires Ready(v0) && Writing(v0, fd, []) && Stretched(v0, fd, size)
      requires 0 <= fd < |fds| && len0 == LenOf(files, fds[fd].file) && 0 < len0 < 0x4000
      requires size + fds[fd].offset + HEADER_SIZE > Offset(len0)
      requires len0 == LenOf(v0.files, SlotOf(v0, fd)) ==> w == store.Snap()
      modifies this, store, store.flash
      ensures Writing(v0, fd, []) && Stretched(v0, fd, size)
      ensures ok ==>
                && Ready(v0) && leak < 0 && 0 <= fds[fd].file < |files| && !files[fds[fd].file].modified
                && len == LenOf(files, fds[fd].file) == 2 * len0 && len < 0x4000
      ensures !ok ==> Stopped(v0, fd, leak) && Outgrown(v0, w, fd, leak) && TooSmall(v0, fd, size)
    {
      WritingFacts(v0, fd, []);
      WrittenBounds(v0, Now(), fd, []);
      CapacityIs(len0);
      ok, len, leak := MergeTwice(fd, v0, []);
      if ok {
        DoubledOnce(LenOf(v0.files, SlotOf(v0, fd)), len0, len, OffsetOf(v0, fd) + size);
      }
    }

    /** The extent is doubled until the data fits, and no more often. */
    method Extend(fd: int, size: nat, ghost v0: View) returns (ok: bool, ghost leak: int)
      requires Ready(v0) && Writing(v0, fd, []) && v0 == Now()
      modifies this, store, store.flash
      ensures Writing(v0, fd, []) && Stretched(v0, fd, size)
      ensures ok ==> Ready(v0) && leak < 0 && Going(v0, fd, [], size)
      ensures !ok ==> Stopped(v0, fd, leak) && Outgrown(v0, old(store.Snap()), fd, leak) && TooSmall(v0, fd, size)
      ensures old(Contained(fd, size)) ==> ok && unchanged(this) && unchanged(store) && unchanged(store.flash)
      ensures ok && !old(Contained(fd, size)) ==> !files[fds[fd].file].modified
    {
      leak := -1;
      ghost var w := store.Snap();
      var len := ExtentLen(fd, v0);
      ghost var len0 := len;
      CapacityIs(len);
      while size + fds[fd].offset + HEADER_SIZE > Offset(len)
        invariant Ready(v0) && Writing(v0, fd, []) && leak < 0 && Stretched(v0, fd, size)
        invariant 0 <= fd < |fds| && 0 <= fds[fd].file < |files| && len == LenOf(files, fds[fd].file)
        invariant len0 <= len < 0x4000 && len0 > 0
        invariant len == len0 ==> unchanged(this) && unchanged(store) && unchanged(store.flash)
        invariant len > len0 ==> !old(Contained(fd, size)) && !files[fds[fd].file].modified
        decreases 0x8000 - len
      {
        ok, len, leak := ExtendOnce(fd, size, len, v0, w);
        if !ok {
          return;
        }
      }
      WritingFacts(v0, fd, []);
      CapacityIs(len);
      ok := true;
    }

    /** The data fits in the extent that the file has. */
    ghost predicate Contained(fd: int, size: nat)
      reads this
    {
      0 <= fd < |fds| && fds[fd].offset + size <= Capacity(LenOf(files, fds[fd].file))
    }

    /** The pages of the extent of the file. */
    method ExtentLen(fd: int, ghost v0: View) returns (len: nat)
      requires Writing(v0, fd, [])
      ensures 0 <= fd < |fds| && 0 <= fds[fd].file < |files| && len == LenOf(files, fds[fd].file) && 0 < len < 0x4000
    {
      WritingFacts(v0, fd, []);
      len := files[fds[fd].file].maxPages;
    }

    /** And there is room for n bytes in all. */
    ghost predicate Going(v0: View, fd: int, d: Bytes, n: nat)
      reads this, store, store.flash
    {
      Writing(v0, fd, d) && FdValid(fd) && 0 <= fds[fd].file < |files| && RoomMade(v0, Now(), fd, n)
    }

    /** The rounds that n bytes behind the descriptor's offset take. */
    ghost function RoundsOf(fd: int, n: nat): int
      requires 0 <= fd < |fds|
      reads this, store, store.flash
    {
      Pieces(LedgerOf(fds[fd].file).size, fds[fd].offset, n)
    }

    /** What will be left of n bytes behind the descriptor's offset can be foretold. */
    ghost predicate Foreseeable(fd: int, n: nat)
      reads this, store, store.flash
    {
      0 <= fd < |fds| && (Predictable() || Enough(LedgerOf(fds[fd].file), RoundsOf(fd, n)))
    }

    /** The end of a write of n bytes through the log, by the numbers. */
    ghost function Fate(fd: int, n: nat): Forecast
      requires 0 <= fd < |fds|
      reads this, store, store.flash
    {
      var l := LedgerOf(fds[fd].file);
      if n == 0 then
        Known(0, l)
      else
        NextPieces(l.size, fds[fd].offset, n);
        var r := Foretell(RoundsOf(fd, n), l);
        Known(r.0, r.1)
    }

    ghost predicate Fated(fd: int, n: nat, f: Forecast)
      reads this, store, store.flash
    {
      f.Known? ==>
        && 0 <= fd < |fds|
        && var l := LedgerOf(fds[fd].file);
           Foreseen(l, Pieces(l.size, fds[fd].offset, n), Predictable(), (f.missing, f.ledger))
    }

    /** The loop is over, with n bytes not written. */
    ghost predicate Over(fd: int, n: nat, f: Forecast)
      reads this, store, store.flash
    {
      f.Known? ==> 0 <= fd < |fds| && f.ledger == LedgerOf(fds[fd].file) && f.missing == RoundsOf(fd, n)
    }

    lemma FateKnown(fd: int, n: nat)
      requires Foreseeable(fd, n)
      ensures Fated(fd, n, Fate(fd, n))
    {
      if n > 0 { NextPieces(LedgerOf(fds[fd].file).size, fds[fd].offset, n); }
    }

    /** When nothing has happened to the files, what is written stays so. */
    lemma StillGoing(v0: View, v1: View, fd: int, d: Bytes, n: nat)
      requires ViewOk(v0) && ViewOk(v1) && Core() && Written(v0, v1, fd, d) && OldNames(v0.t, v0.b, v1.t, v1.b, {})
      requires Untouched(v1, Now()) && (SlotAvailable(v0.files) ==> SlotAvailable(files))
      requires RoomMade(v0, v1, fd, n)
      ensures Going(v0, fd, d, n) && (LastRecorded(Now(), fd) <==> LastRecorded(v1, fd)) && fds[fd] == v1.fds[fd]
      ensures |files| == |v1.files| && files[fds[fd].file] == v1.files[fds[fd].file]
    {
      OldNamesTwice(v0.t, v0.b, v1.t, v1.b, T(), B());
      UntouchedStep(v0, v1, Now(), fd, d);
      RecordedStill(v1, Now(), fd);
      WritingFacts(v0, fd, d);
    }

    /** Or when the file has been merged. */
    lemma MergedGoing(v0: View, v1: View, fd: int, d: Bytes, m: int, n: nat)
      requires ViewOk(v0) && ViewOk(v1) && Core() && Written(v0, v1, fd, d) && OldNames(v0.t, v0.b, v1.t, v1.b, {})
      requires Merged(v1, Now(), SlotOf(v1, fd), m, LenOf(v1.files, SlotOf(v1, fd)))
      requires SlotAvailable(v0.files) ==> SlotAvailable(files)
      requires RoomMade(v0, v1, fd, n)
      ensures Going(v0, fd, d, n) && fds[fd].file == m && fds[fd].offset == OffsetOf(v1, fd) && !files[m].modified
    {
      OldNamesTwice(v0.t, v0.b, v1.t, v1.b, T(), B());
      MergeStep(v0, v1, Now(), fd, d, m, LenOf(v1.files, SlotOf(v1, fd)));
      WritingFacts(v0, fd, d);
    }

    /** The call of `write_log_page` in the log loop. */
    method LogPiece(fd: int, data: Bytes, n: nat, ghost v0: View, ghost d: Bytes, ghost left: nat)
      returns (i: int, merged: bool, ghost leak: int)
      requires Ready(v0) && Going(v0, fd, d, n) && |d| < n && |d| + |data| <= n && left == |data|
      modifies this, store, store.flash
      ensures -1 <= i <= |data| && FdValid(fd) && 0 <= fds[fd].file < |files|
      ensures i >= 0 ==> Ready(v0) && leak < 0 && (SlotAvailable(v0.files) ==> SlotAvailable(files))
      ensures i >= 0 ==> (i == 0 <==> merged || data == [])
      ensures i < 0 || merged ==> Going(v0, fd, d, n)
      ensures i == -1 ==>
                && Stopped(v0, fd, leak) && LogStuck(v0, fds[fd].file, leak)
                && (LastRecorded(old(Now()), fd) ==> LastRecorded(Now(), fd))
                && 0 <= old(fds)[fd].file < |old(files)|
                && files[fds[fd].file].modified == old(files)[old(fds)[fd].file].modified
      ensures i >= 0 && merged ==>
                && 0 <= old(fds)[fd].file < |old(files)| && old(files)[old(fds)[fd].file].modified
                && !files[fds[fd].file].modified
      ensures i >= 0 && !merged ==>
                && Wrote(old(Now()), Now(), fds[fd].file, fds[fd].offset, data[..i])
                && Recorded(fds[fd].file, fds[fd].offset, i)
      ensures old(Predictable() || LedgerOf(fds[fd].file).unused > 0) ==>
                RoundIs(old(LedgerOf(fds[fd].file)), LedgerOf(fds[fd].file), i, merged,
                        PieceSize(old(LedgerOf(fds[fd].file)).size, old(fds)[fd].offset, left))
      ensures fds[fd].offset == old(fds)[fd].offset && (old(Predictable()) ==> Predictable())
    {
      ghost var v1, w := Now(), store.Snap();
      WritingFacts(v0, fd, d);
      ghost var m;
      i, merged, m, leak := WriteLogPage(fds[fd].file, fds[fd].offset, data);
      if i < 0 {
        StillGoing(v0, v1, fd, d, n);
        StuckSince(v0, v1, w, fds[fd].file, leak);
      } else if merged {
        MergedGoing(v0, v1, fd, d, m, n);
      }
    }

    lemma StuckSince(v0: View, v1: View, w: Space, s: int, leak: int)
      requires LogFailed(v1, w, s, leak) && (w.waiting ==> v0.waiting)
      ensures LogStuck(v0, s, leak)
    {
      var l := LedgerOf(s);
      var pages := if l.logged then l.len else l.logPages;
      if Refused(w, store.Snap(), pages) { Refusal(w, store.Snap(), v0.waiting, pages); }
    }

    /** After a round with i bytes. */
    ghost predicate Onward(fd: int, left: nat, i: int, f: Forecast)
      reads this, store, store.flash
    {
      f.Known? ==>
        i <= left && if i < 0 then Over(fd, left, f) else if i == 0 then Fated(fd, left, f) else Fated(fd, left - i, f)
    }

    lemma OnwardNext(fd: int, left: nat, left': nat, i: int, f: Forecast)
      requires Onward(fd, left, i, f) && left' == if i > 0 && i <= left then left - i else left
      ensures if i < 0 then Over(fd, left', f) else Fated(fd, left', f)
    {
    }

    lemma RoundFated(fd: int, l: Ledger, o: nat, left: nat, i: int, merged: bool, sure: bool, f: Forecast)
      requires f.Known? && left > 0 && 0 <= fd < |fds| && (sure ==> Predictable())
      requires Foreseen(l, Pieces(l.size, o, left), sure, (f.missing, f.ledger))
      requires RoundIs(l, LedgerOf(fds[fd].file), i, merged, PieceSize(l.size, o, left)) && -1 <= i
      requires merged ==> i == 0
      requires fds[fd].offset == o + if i > 0 then i else 0
      ensures Onward(fd, left, i, f)
    {
      RoundForeseen(l, LedgerOf(fds[fd].file), o, left, i, merged, sure, Predictable(), (f.missing, f.ledger));
    }

    /** One round of the log loop: a piece goes to a record, or the full log is merged. */
    method WriteRound(fd: int, data: Bytes, n: nat, ghost v0: View, ghost d: Bytes,
                      ghost left: nat, ghost f: Forecast)
      returns (i: int, merged: bool, ghost d': Bytes, ghost leak: int)
      requires Ready(v0) && Going(v0, fd, d, n) && |d| < n && |d| + |data| <= n && left == |data|
      requires Fated(fd, left, f) && (f.Known? ==> left > 0)
      modifies this, store, store.flash
      ensures -1 <= i <= |data| && (i >= 0 ==> Ready(v0) && leak < 0) && Going(v0, fd, d', n)
      ensures NextPiece(d, data, i, d') && (i >= 0 ==> (i == 0 <==> merged || data == []))
      ensures i == -1 ==>
                && Stopped(v0, fd, leak) && LogStuck(v0, fds[fd].file, leak)
                && (LastRecorded(old(Now()), fd) ==> LastRecorded(Now(), fd))
                && 0 <= old(fds)[fd].file < |old(files)|
                && files[fds[fd].file].modified == old(files)[old(fds)[fd].file].modified
      ensures i >= 0 && merged ==>
                && 0 <= old(fds)[fd].file < |old(files)| && old(files)[old(fds)[fd].file].modified
                && !files[fds[fd].file].modified
      ensures i > 0 ==> LastRecorded(Now(), fd)
      ensures Onward(fd, left, i, f)
    {
      ghost var v1 := Now();
      ghost var l, o, sure := LedgerOf(fds[fd].file), fds[fd].offset, Predictable();
      if f.Known? { NextPieces(l.size, o, left); }
      i, merged, leak := LogPiece(fd, data, n, v0, d, left);
      d' := d;
      if i >= 0 && !merged {
        d' := d + data[..i];
        assert i == 0 ==> d' == d;
        GoOn(fd, n, v0, v1, d, data[..i]);
      }
      assert fds[fd].offset == o + if i > 0 then i else 0;
      if f.Known? { RoundFated(fd, l, o, left, i, merged, sure, f); }
    }

    lemma NamesSame(t: Extents, b: Bytes)
      requires T() == t && forall c: nat :: c in t ==> HeaderAt(B(), c) == HeaderAt(b, c)
      ensures (NamesApart(T(), B()) <==> NamesApart(t, b)) && OldNames(t, b, T(), B(), {})
    {
      OldNamesBut(t, b, T(), B(), -1, {});
      if NamesApart(t, b) {
        forall a: nat, c: nat ensures NameApart(T(), B(), a, c) { assert NameApart(t, b, a, c); }
      }
      if NamesApart(T(), B()) {
        forall a: nat, c: nat ensures NameApart(t, b, a, c) { assert NameApart(T(), B(), a, c); }
      }
    }

    /** Data is written to the extent of a file, log or no log. */
    method PutPlain(s: int, offset: nat, data: Bytes)
      requires Core() && Held(T(), B(), files, s) && 0 < LenOf(files, s) && offset + |data| <= Capacity(LenOf(files, s))
      modifies store.flash
      ensures Core() && (Valid() <==> old(Valid())) && OldNames(T(), old(B()), T(), B(), {})
      ensures B() == Put(old(B()), Absolute(PageOf(files, s), offset), data)
      ensures DataChanged(T(), old(B()), B(), PageOf(files, s))
      ensures Held(T(), B(), files, s) && Others(T(), old(B()), T(), B(), {PageOf(files, s)})
      ensures HeaderAt(B(), PageOf(files, s)) == HeaderAt(old(B()), PageOf(files, s))
      ensures LedgerOf(s) == old(LedgerOf(s))
    {
      ghost var b := B();
      SlotFacts(s);
      PlainPut(T(), B(), PageOf(files, s), offset, data);
      store.flash.Write(Absolute(files[s].page, offset), data);
      DataCore(s, b);
      NamesSame(T(), b);
      DataLedger(T(), b, B(), s, store.nextFree);
    }

    /** The byte before the descriptor's offset is not zero in the extent itself. */
    ghost predicate EndMarked(fd: int)
      reads this, store, store.flash
    {
      && 0 <= fd < |fds| && fds[fd].offset > 0
      && At(B(), Absolute(PageOf(files, fds[fd].file), fds[fd].offset - 1)) == DUMMY
    }

    /** If it is the last byte of the file, and zeros follow in the extent, the end is found
        again on the device. */
    lemma MarkedEnd(fd: int)
      requires Core() && FdValid(fd) && EndMarked(fd) && 0 <= fds[fd].file < |files|
      requires fds[fd].offset == files[fds[fd].file].end
      requires var page, len := PageOf(files, fds[fd].file), LenOf(files, fds[fd].file);
               forall o: nat :: fds[fd].offset <= o < Capacity(len) ==> At(B(), Absolute(page, o)) == 0
      ensures EndOnDevice(fds[fd].file)
    {
      DescFacts(fd);
    }

    /** The byte that marks the end in the extent when data has gone to the log behind it. */
    method WriteDummy(fd: int, ghost v0: View, ghost d: Bytes) returns (ghost d': Bytes)
      requires Writing(v0, fd, d) && |d| > 0
      modifies store.flash
      ensures unchanged(this) && unchanged(store) && Writing(v0, fd, d') && LastMayDiffer(d, d')
      ensures d' == if LastRecorded(old(Now()), fd) then d else d[..|d| - 1] + [DUMMY]
      ensures LedgerOf(fds[fd].file) == old(LedgerOf(fds[fd].file))
      ensures (Valid() <==> old(Valid())) && EndMarked(fd)
    {
      ghost var v1 := Now();
      BeforeDummy(v0, fd, d);
      var o := fds[fd].offset - 1;
      PutPlain(fds[fd].file, o, [DUMMY]);
      OldNamesTwice(v0.t, v0.b, v1.t, v1.b, T(), B());
      DummyMarks(fd, o, v1.b);
      d' := DummyStep(v0, v1, Now(), fd, d);
    }

    /** The dummy byte is written if the end has moved. */
    method MarkEnd(fd: int, dummy: bool, ghost v0: View, ghost d: Bytes) returns (ghost d': Bytes)
      requires Writing(v0, fd, d) && (dummy ==> |d| > 0)
      modifies store.flash
      ensures unchanged(this) && unchanged(store) && Writing(v0, fd, d') && (d' == d || LastMayDiffer(d, d'))
      ensures d' == if dummy && !LastRecorded(old(Now()), fd) then d[..|d| - 1] + [DUMMY] else d
      ensures LedgerOf(fds[fd].file) == old(LedgerOf(fds[fd].file)) && (Valid() <==> old(Valid()))
      ensures dummy ==> EndMarked(fd)
    {
      WritingFacts(v0, fd, d);
      d' := d;
      if dummy {
        d' := WriteDummy(fd, v0, d);
      }
    }

    lemma BeforeDummy(v0: View, fd: int, d: Bytes)
      requires Writing(v0, fd, d) && |d| > 0
      ensures FdValid(fd) && Held(T(), B(), files, fds[fd].file)
      ensures 0 < fds[fd].offset <= Capacity(LenOf(files, fds[fd].file))
      ensures 0 < LenOf(files, fds[fd].file) && Absolute(PageOf(files, fds[fd].file), fds[fd].offset - 1) < |B()|
    {
      WritingFacts(v0, fd, d);
      DummyInside(v0, Now(), fd, d, fds[fd].offset - 1);
    }

    lemma DummyMarks(fd: int, o: nat, b: Bytes)
      requires 0 <= fd < |fds| && fds[fd].offset == o + 1 && Absolute(PageOf(files, fds[fd].file), o) < |b|
      requires B() == Put(b, Absolute(PageOf(files, fds[fd].file), o), [DUMMY])
      ensures EndMarked(fd)
    {
      DummyAt(b, PageOf(files, fds[fd].file), o, o);
    }

    /** Between the rounds of the log loop: k bytes have been written, and the dummy byte will
        be, if the end has moved. A record stands for the last of them, unless the file has just
        been merged, or rounds have been idle. */
    ghost predicate LogLoop(v0: View, fd: int, buf: Bytes, k: nat, dummy: bool, d: Bytes)
      reads this, store, store.flash
    {
      && Front(d, buf, k) && Going(v0, fd, d, |buf|)
      && (dummy <==> EndOf(v0.files, SlotOf(v0, fd)) < OffsetOf(v0, fd) + k)
      && (|buf| >= 0x1_0000 ==> k <= SizeField(|buf|))
      && (SizeField(|buf| - k) != 0 || k == |buf| ==> k > 0 && files[fds[fd].file].modified ==> LastRecorded(Now(), fd))
      && (k == |buf| && k > 0 ==> LastRecorded(Now(), fd))
    }

    lemma BeforeRound(v0: View, fd: int, buf: Bytes, k: nat, dummy: bool, d: Bytes)
      requires LogLoop(v0, fd, buf, k, dummy, d) && k < |buf|
      ensures var size := SizeField(|buf| - k); size <= |buf| - k && (|buf| < 0x1_0000 ==> size == |buf| - k)
      ensures |buf| >= 0x1_0000 ==> k <= SizeField(|buf|)
      ensures fds[fd].offset == OffsetOf(v0, fd) + k && |d| == k
      ensures EndOf(files, fds[fd].file) == if dummy then fds[fd].offset else EndOf(v0.files, SlotOf(v0, fd))
    {
      SizeFieldBound(|buf|, k);
    }

    lemma IdleAt(v0: View, fd: int, buf: Bytes, k: nat, dummy: bool, d: Bytes)
      requires LogLoop(v0, fd, buf, k, dummy, d) && k < |buf| && SizeField(|buf| - k) == 0
      ensures |buf| >= 0x1_0000 && k == SizeField(|buf|)
    {
      SizeFieldBound(|buf|, k);
    }

    /** The bookkeeping of a round, in which i bytes of the data went to a record. */
    lemma RoundDone(v0: View, fd: int, buf: Bytes, k: nat, size: nat, i: int, d0: Bytes, d: Bytes, end0: int,
                    offset: nat)
      requires k < |buf| && size == SizeField(|buf| - k) && (|buf| >= 0x1_0000 ==> k <= SizeField(|buf|))
      requires k + size <= |buf| && Front(d0, buf, k) && NextPiece(d0, buf[k..k + size], i, d)
      requires Going(v0, fd, d, |buf|)
      requires offset == OffsetOf(v0, fd) + k
      requires end0 == if EndOf(v0.files, SlotOf(v0, fd)) < offset then offset else EndOf(v0.files, SlotOf(v0, fd))
      requires i > 0 ==> LastRecorded(Now(), fd)
      requires size != 0 && i <= 0 && k > 0 && files[fds[fd].file].modified ==> LastRecorded(Now(), fd)
      ensures var k' := if i > 0 then k + i else k;
              LogLoop(v0, fd, buf, k', EndOf(v0.files, SlotOf(v0, fd)) < offset || (i > 0 && fds[fd].offset > end0), d)
    {
      FrontPiece(d0, buf, k, size, i, d);
      SizeFieldBound(|buf|, k);
      SizeFieldBound(|buf|, if i > 0 then k + i else k);
    }

    /** A round, and the bookkeeping after it. */
    method NextRound(fd: int, buf: Bytes, k: nat, dummy0: bool, ghost v0: View, ghost d0: Bytes, ghost left: nat,
                     ghost f: Forecast)
      returns (i: int, k': nat, dummy: bool, ghost d: Bytes, ghost leak: int, ghost left': nat)
      requires Ready(v0) && LogLoop(v0, fd, buf, k, dummy0, d0) && k < |buf| && left == |buf| - k
      requires Fated(fd, left, f) && (f.Known? ==> |buf| < 0x1_0000)
      modifies this, store, store.flash
      ensures -1 <= i <= |buf| - k && k' == (if i > 0 then k + i else k) && left' == |buf| - k'
      ensures i >= 0 ==> Ready(v0) && leak < 0
      ensures LogLoop(v0, fd, buf, k', dummy, d) && if i < 0 then Over(fd, left', f) else Fated(fd, left', f)
      ensures i == -1 ==> Stopped(v0, fd, leak) && LogStuck(v0, fds[fd].file, leak)
      ensures i == 0 && SizeField(|buf| - k) != 0 ==>
                && 0 <= old(fds)[fd].file < |old(files)| && old(files)[old(fds)[fd].file].modified
                && !files[fds[fd].file].modified
    {
      var end0 := files[fds[fd].file].end;
      ghost var offset := fds[fd].offset;
      var size := SizeField(|buf| - k);
      BeforeRound(v0, fd, buf, k, dummy0, d0);
      var merged;
      i, merged, d, leak := WriteRound(fd, buf[k..k + size], |buf|, v0, d0, if f.Known? then left else size, f);
      RoundDone(v0, fd, buf, k, size, i, d0, d, end0, offset);
      k' := if i > 0 then k + i else k;
      left' := if i > 0 && i <= left then left - i else left;
      OnwardNext(fd, left, left', i, f);
      dummy := dummy0 || (i > 0 && fds[fd].offset > end0);
    }

    /** The log loop: k bytes are written when it ends. If no more of the data shows in the size
        field, rounds are idle; the model follows so many of them, and says whether the loop is
        done. */
    method WriteRounds(fd: int, buf: Bytes, rounds: nat, ghost v0: View, ghost f: Forecast)
      returns (k: nat, dummy: bool, done: bool, ghost d: Bytes, ghost leak: int, ghost left: nat)
      requires Ready(v0) && Going(v0, fd, [], |buf|)
      requires OffsetOf(v0, fd) <= EndOf(v0.files, SlotOf(v0, fd)) && Fated(fd, |buf|, f)
      requires f.Known? ==> |buf| < 0x1_0000
      modifies this, store, store.flash
      ensures LogLoop(v0, fd, buf, k, dummy, d)
      ensures done && k < |buf| ==> Stopped(v0, fd, leak) && LogStuck(v0, fds[fd].file, leak)
      ensures !done || k == |buf| ==> Valid() && leak < 0
      ensures !done ==> |buf| >= 0x1_0000 && k == SizeField(|buf|)
      ensures left == |buf| - k && (done ==> Over(fd, left, f))
    {
      k, dummy, done, d, leak, left := 0, false, true, [], -1, |buf|;
      var idle := rounds;
      while k < |buf|
        invariant Ready(v0) && LogLoop(v0, fd, buf, k, dummy, d) && leak < 0
        invariant left == |buf| - k && Fated(fd, left, f)
        decreases idle, |buf| - k, if files[fds[fd].file].modified then 1 else 0
      {
        if SizeField(|buf| - k) == 0 {
          if idle == 0 {
            IdleAt(v0, fd, buf, k, dummy, d);
            done := false;
            return;
          }
          idle := idle - 1;
        }
        var i;
        i, k, dummy, d, leak, left := NextRound(fd, buf, k, dummy, v0, d, left, f);
        if i < 0 {
          return;
        }
      }
    }

    /** What was foretold of a write of which k bytes are done: so many rounds are missing, and
        none if that is all; whether the file has a log, and where allocation goes on. */
    ghost predicate Foretold(f: Forecast, fd: int, buf: Bytes, k: nat)
      reads this, store
    {
      && f.Known? && 0 <= fd < |fds| && 0 <= fds[fd].file < |files| && k <= |buf| && k <= fds[fd].offset
      && f.missing == Pieces(f.ledger.size, fds[fd].offset, |buf| - k) && (k == |buf| <==> f.missing == 0)
      && files[fds[fd].file].modified == f.ledger.logged && store.nextFree == f.ledger.next
    }

    /** How a write through the log ends early: so much is written; if the end has moved, and the
        file has no log when the call returns, the dummy byte has replaced the last byte. */
    ghost predicate CutShort(v0: View, fd: int, buf: Bytes, d: Bytes)
      reads this
    {
      && 0 < |d| < |buf| && 0 <= fd < |fds| && 0 <= fds[fd].file < |files|
      && var lost := EndOf(v0.files, SlotOf(v0, fd)) < OffsetOf(v0, fd) + |d| && !files[fds[fd].file].modified;
         d == if lost then buf[..|d| - 1] + [DUMMY] else buf[..|d|]
    }

    lemma LoopRecorded(v0: View, fd: int, buf: Bytes, k: nat, dummy: bool, d: Bytes)
      requires LogLoop(v0, fd, buf, k, dummy, d) && 0 < k && |buf| < 0x1_0000
      ensures 0 <= fd < |fds| && 0 <= fds[fd].file < |files|
      ensures LastRecorded(Now(), fd) <==> files[fds[fd].file].modified
      ensures k == |buf| ==> LastRecorded(Now(), fd)
    {
      SizeFieldBound(|buf|, k);
      WritingFacts(v0, fd, d);
      SlotFacts(fds[fd].file);
    }

    lemma LoopFated(v0: View, fd: int, buf: Bytes, k: nat, dummy: bool, d: Bytes, left: nat, f: Forecast)
      requires LogLoop(v0, fd, buf, k, dummy, d) && left == |buf| - k && Over(fd, left, f) && f.Known?
      ensures |d| == k && Foretold(f, fd, buf, k)
    {
      WritingFacts(v0, fd, d);
      SlotFacts(fds[fd].file);
      if k < |buf| { NextPieces(f.ledger.size, fds[fd].offset, left); }
    }

    /** What the call has written, with or without the dummy byte. */
    lemma CallEnds(v0: View, fd: int, buf: Bytes, k: nat, dummy: bool, recorded: bool, d0: Bytes, d: Bytes)
      requires Front(d0, buf, k) && k > 0 && 0 <= fd < |fds| && 0 <= fds[fd].file < |files|
      requires dummy <==> EndOf(v0.files, SlotOf(v0, fd)) < OffsetOf(v0, fd) + k
      requires recorded <==> files[fds[fd].file].modified
      requires (k == |buf| ==> recorded) && d == if dummy && !recorded then d0[..|d0| - 1] + [DUMMY] else d0
      ensures d != buf ==> CutShort(v0, fd, buf, d)
    {
      assert |d0| == k == |d| && d0[..|d0| - 1] == buf[..|d| - 1];
    }

    /** What will have been written when the dummy byte is. */
    lemma LoopEnds(v0: View, fd: int, buf: Bytes, k: nat, dummy: bool, d: Bytes) returns (d': Bytes)
      requires LogLoop(v0, fd, buf, k, dummy, d) && OffsetOf(v0, fd) <= EndOf(v0.files, SlotOf(v0, fd))
      ensures Fitted(v0, fd, |buf|) && Writing(v0, fd, d) && |d'| == k && (dummy ==> k > 0)
      ensures d' == if dummy && !LastRecorded(Now(), fd) then d[..|d| - 1] + [DUMMY] else d
      ensures (k == |buf| ==> d' == buf) && Portion(d', buf)
      ensures |buf| < 0x1_0000 && k > 0 && d' != buf ==> CutShort(v0, fd, buf, d')
    {
      var recorded := LastRecorded(Now(), fd);
      d' := if dummy && !recorded then d[..|d| - 1] + [DUMMY] else d;
      FrontEnd(d, buf, k, dummy && !recorded, d');
      if |buf| < 0x1_0000 && k > 0 {
        LoopRecorded(v0, fd, buf, k, dummy, d);
        CallEnds(v0, fd, buf, k, dummy, recorded, d, d');
      }
    }

    /** The end of `cfs_write` behind the log loop. */
    method EndWrite(fd: int, buf: Bytes, k: nat, dummy: bool, ghost v0: View, ghost d0: Bytes) returns (ghost d: Bytes)
      requires LogLoop(v0, fd, buf, k, dummy, d0) && OffsetOf(v0, fd) <= EndOf(v0.files, SlotOf(v0, fd))
      modifies store.flash
      ensures unchanged(this) && unchanged(store) && Writing(v0, fd, d) && |d| == k
      ensures LedgerOf(fds[fd].file) == old(LedgerOf(fds[fd].file)) && (Valid() <==> old(Valid()))
      ensures Fitted(v0, fd, |buf|)
      ensures (k == |buf| ==> d == buf) && Portion(d, buf)
      ensures dummy ==> EndMarked(fd)
      ensures |buf| < 0x1_0000 && k > 0 && d != buf ==> CutShort(v0, fd, buf, d)
    {
      ghost var d1 := LoopEnds(v0, fd, buf, k, dummy, d0);
      d := MarkEnd(fd, dummy, v0, d0);
    }

    /** The log loop, with what was foretold of it. */
    method LogRounds(fd: int, buf: Bytes, rounds: nat, ghost v0: View)
      returns (k: nat, dummy: bool, done: bool, ghost d: Bytes, ghost leak: int)
      requires Ready(v0) && Going(v0, fd, [], |buf|)
      requires OffsetOf(v0, fd) <= EndOf(v0.files, SlotOf(v0, fd))
      modifies this, store, store.flash
      ensures LogLoop(v0, fd, buf, k, dummy, d)
      ensures done && k < |buf| ==> Stopped(v0, fd, leak) && LogStuck(v0, fds[fd].file, leak)
      ensures !done || k == |buf| ==> Valid() && leak < 0
      ensures !done ==> |buf| >= 0x1_0000 && k == SizeField(|buf|)
      ensures |buf| < 0x1_0000 && old(Foreseeable(fd, |buf|)) ==> Foretold(old(Fate(fd, |buf|)), fd, buf, k)
    {
      ghost var f, left := Unknown, 0;
      if |buf| < 0x1_0000 && Foreseeable(fd, |buf|) {
        FateKnown(fd, |buf|);
        f := Fate(fd, |buf|);
      }
      k, dummy, done, d, leak, left := WriteRounds(fd, buf, rounds, v0, f);
      if f.Known? { LoopFated(v0, fd, buf, k, dummy, d, left, f); }
    }

    /** `cfs_write` on a file with a log, or before the end of one without. */
    method WriteThroughLog(fd: int, buf: Bytes, rounds: nat, ghost v0: View)
      returns (r: int, done: bool, ghost d: Bytes, ghost leak: int)
      requires Ready(v0) && Going(v0, fd, [], |buf|)
      requires OffsetOf(v0, fd) <= EndOf(v0.files, SlotOf(v0, fd))
      modifies this, store, store.flash
      ensures Writing(v0, fd, d) && (r == -1 || r == |buf|) && Fitted(v0, fd, |buf|)
      ensures done ==> (r == -1 <==> |d| == 0 < |buf|) && Portion(d, buf)
      ensures done && d != buf ==> Stopped(v0, fd, leak) && LogStuck(v0, fds[fd].file, leak)
      ensures !done || d == buf ==> Valid() && leak < 0
      ensures !done ==> |buf| >= 0x1_0000 && d == buf[..SizeField(|buf|)]
      ensures |buf| >= 0x1_0000 ==> d != buf
      ensures |buf| < 0x1_0000 && old(Foreseeable(fd, |buf|)) ==>
                Foretold(old(Fate(fd, |buf|)), fd, buf, |d|) && (|d| == |buf| ==> d == buf)
      ensures |buf| < 0x1_0000 && d != buf && d != [] ==> CutShort(v0, fd, buf, d)
      ensures done && EndOf(v0.files, SlotOf(v0, fd)) < OffsetOf(v0, fd) + |d| ==> EndMarked(fd)
    {
      var k, dummy;
      k, dummy, done, d, leak := LogRounds(fd, buf, rounds, v0);
      r := if k == 0 && |buf| > 0 then -1 else |buf|;
      if done {
        d := EndWrite(fd, buf, k, dummy, v0, d);
      }
    }

    /** `cfs_write` at the end of a file without a log. */
    method WriteDirect(fd: int, buf: Bytes, ghost v0: View)
      requires Valid() && Going(v0, fd, [], |buf|) && !files[fds[fd].file].modified
      modifies `files, `fds, store.flash
      ensures Valid() && Writing(v0, fd, buf) && 0 <= fds[fd].file < |files| && Fitted(v0, fd, |buf|)
      ensures LedgerOf(fds[fd].file) == old(LedgerOf(fds[fd].file))
    {
      ghost var v1 := Now();
      WritingFacts(v0, fd, []);
      var s := fds[fd].file;
      SlotFacts(s);
      PlainSplices(T(), B(), PageOf(files, s), fds[fd].offset, buf, Capacity(LenOf(files, s)));
      PutPlain(s, fds[fd].offset, buf);
      assert [] + buf == buf;
      GoOn(fd, |buf|, v0, v1, [], buf);
    }

    /** The data goes through the log: the offset is before the end, or the file has a log and
        need not be extended, for which it would be merged. */
    ghost predicate Logging(fd: int, n: nat)
      reads this
    {
      && 0 <= fd < |fds| && 0 <= fds[fd].file < |files|
      && (fds[fd].offset < files[fds[fd].file].end || (files[fds[fd].file].modified && Contained(fd, n)))
    }

    /** The file has a log, or the offset is before its end. */
    ghost predicate LogNeeded(fd: int)
      reads this
    {
      && 0 <= fd < |fds| && 0 <= fds[fd].file < |files|
      && (files[fds[fd].file].modified || fds[fd].offset < files[fds[fd].file].end)
    }

    /** `cfs_write` once there is room in the extent. */
    method WriteWithin(fd: int, buf: Bytes, rounds: nat, ghost v0: View)
      returns (r: int, done: bool, ghost d: Bytes, ghost leak: int)
      requires Ready(v0) && Going(v0, fd, [], |buf|) && OffsetOf(v0, fd) <= EndOf(v0.files, SlotOf(v0, fd))
      modifies this, store, store.flash
      ensures Writing(v0, fd, d) && (r == -1 || r == |buf|) && Fitted(v0, fd, |buf|)
      ensures done ==> (r == -1 <==> |d| == 0 < |buf|) && Portion(d, buf)
      ensures done && d != buf ==>
                Stopped(v0, fd, leak) && LogStuck(v0, fds[fd].file, leak) && old(LogNeeded(fd))
      ensures !done || d == buf ==> Valid() && leak < 0
      ensures !done ==> |buf| >= 0x1_0000 && old(LogNeeded(fd)) && d == buf[..SizeField(|buf|)]
      ensures |buf| >= 0x1_0000 && old(LogNeeded(fd)) ==> d != buf
      ensures !old(LogNeeded(fd)) ==>
                d == buf && unchanged(store) && FdValid(fd) && LedgerOf(fds[fd].file) == old(LedgerOf(fds[fd].file))
      ensures |buf| < 0x1_0000 && old(LogNeeded(fd)) && old(Foreseeable(fd, |buf|)) ==>
                Foretold(old(Fate(fd, |buf|)), fd, buf, |d|) && (|d| == |buf| ==> d == buf)
      ensures |buf| < 0x1_0000 && d != buf && d != [] ==> CutShort(v0, fd, buf, d)
      ensures done && old(LogNeeded(fd)) && EndOf(v0.files, SlotOf(v0, fd)) < OffsetOf(v0, fd) + |d| ==> EndMarked(fd)
    {
      if files[fds[fd].file].modified || fds[fd].offset < files[fds[fd].file].end {
        r, done, d, leak := WriteThroughLog(fd, buf, rounds, v0);
      } else {
        WriteDirect(fd, buf, v0);
        r, done, d, leak := |buf|, true, buf, -1;
      }
    }

    /** The data fits in the extent, and goes through the log. */
    ghost predicate LogWrite(fd: int, n: nat)
      reads this
    {
      Contained(fd, n) && Logging(fd, n)
    }

    /** Why not everything has been written: the extent is too small and cannot be doubled, or the
        log takes no more. */
    ghost predicate WriteStuck(v0: View, w: Space, fd: int, n: nat, leak: int)
      reads this, store, store.flash
    {
      && 0 <= fd < |fds|
      && if TooSmall(v0, fd, n) then Outgrown(v0, w, fd, leak) else LogStuck(v0, fds[fd].file, leak)
    }

    ghost predicate Writable(fd: int)
      reads this
    {
      FdValid(fd) && fds[fd].write
    }

    /** `cfs_write` on a descriptor that is open for writing. */
    method WriteOpen(fd: int, buf: Bytes, rounds: nat, ghost v0: View)
      returns (r: int, done: bool, ghost d: Bytes, ghost leak: int)
      requires Ready(v0) && Writing(v0, fd, []) && v0 == Now()
      modifies this, store, store.flash
      ensures Writing(v0, fd, d) && (r == -1 || r == |buf|) && Stretched(v0, fd, |buf|)
      ensures done ==> (r == -1 <==> |d| == 0 < |buf|) && Portion(d, buf)
      ensures done && d != buf ==> Stopped(v0, fd, leak) && WriteStuck(v0, old(store.Snap()), fd, |buf|, leak)
      ensures TooSmall(v0, fd, |buf|) ==> done && |d| == 0
      ensures done && d != buf && !TooSmall(v0, fd, |buf|) ==> old(Logging(fd, |buf|))
      ensures !done || d == buf ==> Valid() && leak < 0
      ensures !done ==> |buf| >= 0x1_0000 && old(Logging(fd, |buf|)) && d == buf[..SizeField(|buf|)]
      ensures |buf| >= 0x1_0000 && old(Logging(fd, |buf|)) ==> d != buf
      ensures old(Contained(fd, |buf|)) && !old(Logging(fd, |buf|)) ==>
                d == buf && unchanged(store) && FdValid(fd) && LedgerOf(fds[fd].file) == old(LedgerOf(fds[fd].file))
      ensures |buf| < 0x1_0000 && old(LogWrite(fd, |buf|)) && old(Foreseeable(fd, |buf|)) ==>
                Foretold(old(Fate(fd, |buf|)), fd, buf, |d|) && (|d| == |buf| ==> d == buf)
      ensures |buf| < 0x1_0000 && d != buf && d != [] ==> CutShort(v0, fd, buf, d)
      ensures done && old(LogWrite(fd, |buf|)) && EndOf(v0.files, SlotOf(v0, fd)) < OffsetOf(v0, fd) + |d| ==>
                EndMarked(fd)
    {
      done, d := true, [];
      WritingFacts(v0, fd, []);
      var ok;
      ok, leak := Extend(fd, |buf|, v0);
      if !ok {
        r := -1;
        return;
      }
      WritingFacts(v0, fd, []);
      r, done, d, leak := WriteWithin(fd, buf, rounds, v0);
    }

    /** `cfs_write`: the data goes to the file at the descriptor's offset, and the offset and,
        if necessary, the end of the file are moved behind it. Nothing is written on failure.
        If there is no more room for log records half-way, a part is written, the last byte of
        which may be the dummy, and yet the full size is returned. 2^16 bytes and more never go
        through the log: the call goes round until some merge or some new log fails, however
        long it is followed. Names stay different unless there was no slot to begin with. */
    method CfsWrite(fd: int, buf: Bytes, rounds: nat) returns (r: int, done: bool, ghost d: Bytes, ghost leak: int)
      requires Valid() && !store.lost
      modifies this, store, store.flash
      ensures Core() && |fds| == |old(fds)| && (Valid() <==> leak < 0) && OldNames(old(T()), old(B()), T(), B(), {})
      ensures SlotAvailable(old(files)) ==> leak < 0 && SlotAvailable(files)
      ensures !old(Writable(fd)) ==>
                r == -1 && done && d == [] && unchanged(this) && unchanged(store) && unchanged(store.flash)
      ensures old(Writable(fd)) ==>
                && Written(old(Now()), Now(), fd, d) && (r == -1 || r == |buf|)
                && OffsetOf(old(Now()), fd) <= EndOf(old(files), old(fds)[fd].file)
                && DataOf(Now(), fds[fd].file) ==
                       Splice(DataOf(old(Now()), old(fds)[fd].file), OffsetOf(old(Now()), fd), d)
      ensures old(Writable(fd)) ==> Stretched(old(Now()), fd, |buf|)
      ensures old(Writable(fd)) && TooSmall(old(Now()), fd, |buf|) ==> done && |d| == 0
      ensures old(Writable(fd)) && done ==>
                && (r == -1 <==> |d| == 0 < |buf|) && Portion(d, buf)
                && if d == buf then leak < 0
                   else
                     && WriteStuck(old(Now()), old(store.Snap()), fd, |buf|, leak)
                     && (TooSmall(old(Now()), fd, |buf|) || old(Logging(fd, |buf|)))
      ensures old(Writable(fd)) && !done ==>
                |buf| >= 0x1_0000 && old(Logging(fd, |buf|)) && d == buf[..SizeField(|buf|)] && leak < 0
      ensures old(Writable(fd)) && |buf| >= 0x1_0000 && old(Logging(fd, |buf|)) ==> d != buf
      ensures old(Writable(fd)) && old(Contained(fd, |buf|)) && !old(Logging(fd, |buf|)) ==>
                d == buf && unchanged(store) && FdValid(fd) && LedgerOf(fds[fd].file) == old(LedgerOf(fds[fd].file))
      ensures old(Writable(fd)) && |buf| < 0x1_0000 && old(LogWrite(fd, |buf|)) && old(Foreseeable(fd, |buf|)) ==>
                Foretold(old(Fate(fd, |buf|)), fd, buf, |d|) && (|d| == |buf| ==> d == buf)
      ensures old(Writable(fd)) && |buf| < 0x1_0000 && d != buf && d != [] ==>
                CutShort(old(Now()), fd, buf, d)
      ensures old(Writable(fd)) && done && old(LogWrite(fd, |buf|)) ==>
                EndOf(old(files), old(fds)[fd].file) < OffsetOf(old(Now()), fd) + |d| ==> EndMarked(fd)
    {
      done, d, leak := true, [], -1;
      OthersNone();
      if !(FdValid(fd) && fds[fd].write) {
        r := -1;
        return;
      }
      ghost var v0 := Now();
      NothingWritten(v0, fd);
      DescFacts(fd);
      r, done, d, leak := WriteOpen(fd, buf, rounds, v0);
      WrittenData(v0, Now(), fd, d);
    }
  }
}
