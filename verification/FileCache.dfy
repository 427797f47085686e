/** The cached files and the open descriptors, and what ties them to the device. */
module FileCache {
  import opened Words
  import opened CoffeeConfig
  import opened FlashBytes
  import opened Extents
  import opened Collector
  import opened MicroLog
  import opened FileContent
  import opened FileSystem

  /** `struct file`. An end of -1 and a record count of -1 are unknown; a slot with no pages
      is free. */
  datatype File = File(end: int, page: int, maxPages: int, recordCount: int, references: int, modified: bool)
  {
    predicate FreeSlot() {
      maxPages == 0
    }
  }

  const NO_FILE := File(0, 0, 0, 0, 0, false)

  /** `struct file_desc`; `file` is a slot number, or -1. */
  datatype Desc = Desc(offset: nat, file: int, read: bool, write: bool, append: bool)
  {
    predicate Open() {
      read || write || append
    }

    /** The descriptor is open on slot i. */
    predicate On(i: int) {
      Open() && file == i
    }
  }

  const NO_DESC := Desc(0, -1, false, false, false)

  // ----- Counting references -----

  function RefCount(fds: seq<Desc>, i: int): nat {
    if fds == [] then 0 else (if fds[0].On(i) then 1 else 0) + RefCount(fds[1..], i)
  }

  lemma {:induction false} RefUpdate(fds: seq<Desc>, k: nat, d: Desc, i: int)
    requires k < |fds|
    ensures RefCount(fds[k := d], i) == RefCount(fds, i) - (if fds[k].On(i) then 1 else 0) + (if d.On(i) then 1 else 0)
  {
    var fds' := fds[k := d];
    if k == 0 {
      assert fds'[1..] == fds[1..];
    } else {
      assert fds'[1..] == fds[1..][k - 1 := d];
      RefUpdate(fds[1..], k - 1, d, i);
    }
  }

  lemma {:induction false} RefNone(fds: seq<Desc>, i: int)
    ensures RefCount(fds, i) == 0 <==> forall k :: 0 <= k < |fds| ==> !fds[k].On(i)
  {
    if fds != [] {
      RefNone(fds[1..], i);
      assert forall k :: 0 <= k < |fds| - 1 ==> fds[1..][k] == fds[k + 1];
      if RefCount(fds, i) == 0 {
        forall k | 0 <= k < |fds| ensures !fds[k].On(i) {
          if k > 0 { assert !fds[1..][k - 1].On(i); }
        }
      }
    }
  }

  // ----- The cache and the device -----

  ghost predicate SlotOk(t: Extents, b: Bytes, f: File) {
    && f.page >= -1
    && (!f.FreeSlot() ==>
          && f.page >= 0 && f.maxPages > 0 && IsActive(t, f.page) && t[f.page].len == f.maxPages && f.end >= -1
          && (IsFile(t, b, f.page) ==> f.end <= Capacity(f.maxPages))
          && (f.modified <==> HeaderAt(b, f.page).modified)
          && (if HeaderAt(b, f.page).log then f.recordCount < 0 else CountOk(b, HeaderAt(b, f.page), f.recordCount)))
  }

  /** No two slots hold the same extent. */
  ghost predicate SlotApart(files: seq<File>, i: nat, j: nat)
    requires i < |files| && j < |files|
  {
    i != j && !files[i].FreeSlot() && !files[j].FreeSlot() ==> files[i].page != files[j].page
  }

  /** An open descriptor refers to a cached file, at an offset within it. */
  ghost predicate DescOk(t: Extents, b: Bytes, files: seq<File>, d: Desc) {
    d.Open() ==>
      && 0 <= d.file < |files| && !files[d.file].FreeSlot() && files[d.file].page >= 0
      && IsFile(t, b, files[d.file].page) && d.offset <= files[d.file].end
  }

  ghost predicate CacheOk(t: Extents, b: Bytes, files: seq<File>, fds: seq<Desc>) {
    && |files| == MAX_OPEN_FILES && |fds| == FD_SET_SIZE
    && (forall i {:trigger SlotOk(t, b, files[i])} :: 0 <= i < |files| ==> SlotOk(t, b, files[i]))
    && (forall i, j {:trigger SlotApart(files, i, j)} ::
          0 <= i < |files| && 0 <= j < |files| ==> SlotApart(files, i, j))
    && (forall k {:trigger DescOk(t, b, files, fds[k])} :: 0 <= k < |fds| ==> DescOk(t, b, files, fds[k]))
    && (forall i :: 0 <= i < |files| ==> files[i].references == RefCount(fds, i))
  }

  /** The cached file in slot s. */
  ghost predicate Cached(t: Extents, b: Bytes, files: seq<File>, s: int) {
    0 <= s < |files| && !files[s].FreeSlot() && files[s].page >= 0 && IsFile(t, b, files[s].page) && files[s].end >= 0
  }

  ghost predicate HasFreeSlot(files: seq<File>) {
    exists i :: 0 <= i < |files| && files[i].FreeSlot()
  }

  /** The slot that a file is given: the first free one if there is any, and otherwise the last that no
      descriptor refers to. */
  ghost predicate PickedSlot(files: seq<File>, s: int) {
    && 0 <= s < |files|
    && if HasFreeSlot(files) then files[s].FreeSlot() && forall j :: 0 <= j < s ==> !files[j].FreeSlot()
       else files[s].references == 0 && forall j :: s < j < |files| ==> files[j].references != 0
  }

  /** Some slot can be given to another file. */
  ghost predicate SlotAvailable(files: seq<File>) {
    exists i :: 0 <= i < |files| && files[i].references == 0
  }

  lemma SlotActive(t: Extents, b: Bytes, f: File)
    requires Tiled(t, b) && SlotOk(t, b, f) && !f.FreeSlot()
    ensures HeaderAt(b, f.page).Active() && HeaderAt(b, f.page).maxPages == f.maxPages && f.page < PAGE_COUNT
  {
    assert ExtentOk(t, b, f.page);
  }

  lemma SlotKept(t: Extents, b: Bytes, t': Extents, b': Bytes, f: File)
    requires SlotOk(t, b, f) && (f.FreeSlot() || (f.page >= 0 && Other(t, b, t', b', f.page)))
    ensures SlotOk(t', b', f)
    ensures !f.FreeSlot() ==> (IsFile(t', b', f.page) <==> IsFile(t, b, f.page))
  {
    if !f.FreeSlot() && IsFile(t, b, f.page) {
      assert CountOk(b', HeaderAt(b, f.page), f.recordCount);
    }
  }

  // ----- Changes -----

  /** The device changes away from all cached extents. */
  lemma CacheKept(t: Extents, b: Bytes, t': Extents, b': Bytes, files: seq<File>, fds: seq<Desc>, but: set<nat>)
    requires CacheOk(t, b, files, fds) && Others(t, b, t', b', but)
    requires forall i :: 0 <= i < |files| && !files[i].FreeSlot() && files[i].page >= 0 ==> files[i].page !in but
    ensures CacheOk(t', b', files, fds)
    ensures forall i :: Cached(t, b, files, i) ==> Cached(t', b', files, i)
  {
    forall i | 0 <= i < |files|
      ensures SlotOk(t', b', files[i])
      ensures !files[i].FreeSlot() ==> (IsFile(t', b', files[i].page) <==> IsFile(t, b, files[i].page))
    {
      assert SlotOk(t, b, files[i]);
      if !files[i].FreeSlot() { assert Other(t, b, t', b', files[i].page); }
      SlotKept(t, b, t', b', files[i]);
    }
    forall k | 0 <= k < |fds| ensures DescOk(t', b', files, fds[k]) { assert DescOk(t, b, files, fds[k]); }
  }

  /** The extent of the file in slot s changes, and with it the slot. */
  lemma CacheChanged(t: Extents, b: Bytes, t': Extents, b': Bytes, files: seq<File>, fds: seq<Desc>, s: int, f: File)
    requires CacheOk(t, b, files, fds) && 0 <= s < |files| && !files[s].FreeSlot() && files[s].page >= 0
    requires Others(t, b, t', b', {files[s].page as nat})
    requires SlotOk(t', b', f) && f.page == files[s].page && f.maxPages == files[s].maxPages && f.end >= files[s].end
    requires f.references == files[s].references
    requires IsFile(t', b', f.page)
    ensures CacheOk(t', b', files[s := f], fds)
    ensures forall i :: i != s && Cached(t, b, files, i) ==> Cached(t', b', files[s := f], i)
  {
    var files' := files[s := f];
    forall i | 0 <= i < |files| && i != s
      ensures SlotOk(t', b', files[i])
      ensures !files[i].FreeSlot() ==> (IsFile(t', b', files[i].page) <==> IsFile(t, b, files[i].page))
    {
      assert SlotOk(t, b, files[i]) && SlotApart(files, i, s);
      if !files[i].FreeSlot() { assert Other(t, b, t', b', files[i].page); }
      SlotKept(t, b, t', b', files[i]);
    }
    forall i | 0 <= i < |files'| ensures SlotOk(t', b', files'[i]) { }
    forall i, j | 0 <= i < |files'| && 0 <= j < |files'|
      ensures SlotApart(files', i, j)
    {
      assert SlotApart(files, i, j);
    }
    forall k | 0 <= k < |fds| ensures DescOk(t', b', files', fds[k]) { assert DescOk(t, b, files, fds[k]); }
  }

  /** A slot that no descriptor refers to is given to another extent. */
  lemma CacheLoaded(t: Extents, b: Bytes, files: seq<File>, fds: seq<Desc>, s: int, f: File)
    requires CacheOk(t, b, files, fds) && 0 <= s < |files| && files[s].references == 0
    requires SlotOk(t, b, f) && f.references == 0
    requires forall i :: 0 <= i < |files| && i != s && !files[i].FreeSlot() && !f.FreeSlot() ==> files[i].page != f.page
    ensures CacheOk(t, b, files[s := f], fds)
  {
    var files' := files[s := f];
    RefNone(fds, s);
    forall i | 0 <= i < |files'| ensures SlotOk(t, b, files'[i]) { assert SlotOk(t, b, files[i]); }
    forall i, j | 0 <= i < |files'| && 0 <= j < |files'|
      ensures SlotApart(files', i, j)
    {
      assert SlotApart(files, i, j);
    }
    forall k | 0 <= k < |fds| ensures DescOk(t, b, files', fds[k]) { assert DescOk(t, b, files, fds[k]); }
  }

  /** Only the facts in a slot that descriptors do not depend on change. */
  lemma SlotUpdated(t: Extents, b: Bytes, files: seq<File>, fds: seq<Desc>, s: int, f: File)
    requires CacheOk(t, b, files, fds) && 0 <= s < |files| && SlotOk(t, b, f)
    requires f.page == files[s].page && f.maxPages == files[s].maxPages && f.end >= files[s].end
    requires f.references == files[s].references
    ensures CacheOk(t, b, files[s := f], fds)
  {
    var files' := files[s := f];
    forall i | 0 <= i < |files'| ensures SlotOk(t, b, files'[i]) { assert SlotOk(t, b, files[i]); }
    forall i, j | 0 <= i < |files'| && 0 <= j < |files'|
      ensures SlotApart(files', i, j)
    {
      assert SlotApart(files, i, j);
    }
    forall k | 0 <= k < |fds| ensures DescOk(t, b, files', fds[k]) { assert DescOk(t, b, files, fds[k]); }
  }

  /** A descriptor moves within its file. */
  lemma DescMoved(t: Extents, b: Bytes, files: seq<File>, fds: seq<Desc>, k: int, d: Desc)
    requires CacheOk(t, b, files, fds) && 0 <= k < |fds| && DescOk(t, b, files, d)
    requires forall i :: d.On(i) == fds[k].On(i)
    ensures CacheOk(t, b, files, fds[k := d])
  {
    var fds' := fds[k := d];
    forall i | 0 <= i < |files| ensures files[i].references == RefCount(fds', i) { RefUpdate(fds, k, d, i); }
    forall j | 0 <= j < |fds'| ensures DescOk(t, b, files, fds'[j]) { assert DescOk(t, b, files, fds[j]); }
  }

  /** A free descriptor is opened on a cached file. */
  lemma DescOpened(t: Extents, b: Bytes, files: seq<File>, fds: seq<Desc>, k: int, d: Desc)
    requires CacheOk(t, b, files, fds) && 0 <= k < |fds| && !fds[k].Open() && d.Open() && DescOk(t, b, files, d)
    ensures CacheOk(t, b, files[d.file := files[d.file].(references := files[d.file].references + 1)], fds[k := d])
  {
    var s := d.file;
    var f := files[s].(references := files[s].references + 1);
    var files', fds' := files[s := f], fds[k := d];
    forall i | 0 <= i < |files| ensures files'[i].references == RefCount(fds', i) { RefUpdate(fds, k, d, i); }
    forall i | 0 <= i < |files'| ensures SlotOk(t, b, files'[i]) { assert SlotOk(t, b, files[i]); }
    forall i, j | 0 <= i < |files'| && 0 <= j < |files'|
      ensures SlotApart(files', i, j)
    {
      assert SlotApart(files, i, j);
    }
    forall j | 0 <= j < |fds'| ensures DescOk(t, b, files', fds'[j]) { assert DescOk(t, b, files, fds[j]); }
  }

  /** An open descriptor is closed. */
  lemma DescClosed(t: Extents, b: Bytes, files: seq<File>, fds: seq<Desc>, k: int, d: Desc)
    requires CacheOk(t, b, files, fds) && 0 <= k < |fds| && fds[k].Open() && !d.Open()
    ensures DescOk(t, b, files, fds[k]) && files[fds[k].file].references > 0
    ensures var s := fds[k].file;
            CacheOk(t, b, files[s := files[s].(references := files[s].references - 1)], fds[k := d])
  {
    assert DescOk(t, b, files, fds[k]);
    var s := fds[k].file;
    var f := files[s].(references := files[s].references - 1);
    var files', fds' := files[s := f], fds[k := d];
    RefNone(fds, s);
    assert fds[k].On(s);
    forall i | 0 <= i < |files| ensures files'[i].references == RefCount(fds', i) { RefUpdate(fds, k, d, i); }
    forall i | 0 <= i < |files'| ensures SlotOk(t, b, files'[i]) { assert SlotOk(t, b, files[i]); }
    forall i, j | 0 <= i < |files'| && 0 <= j < |files'|
      ensures SlotApart(files', i, j)
    {
      assert SlotApart(files, i, j);
    }
    forall j | 0 <= j < |fds'| ensures DescOk(t, b, files', fds'[j]) { assert DescOk(t, b, files, fds[j]); }
  }

  // ----- Removal -----

  function Cleared(f: File): File {
    f.(page := -1, references := 0, maxPages := 0)
  }

  /** The slots that hold an extent are freed. */
  function ClearPage(files: seq<File>, page: int): (r: seq<File>)
    ensures |r| == |files|
  {
    seq(|files|, i requires 0 <= i < |files| => if files[i].page == page then Cleared(files[i]) else files[i])
  }

  function Shut(d: Desc): Desc {
    d.(read := false, write := false, append := false)
  }

  /** The descriptors on an extent are closed. */
  function ClosePage(fds: seq<Desc>, files: seq<File>, page: int): (r: seq<Desc>)
    ensures |r| == |fds|
  {
    seq(|fds|, k requires 0 <= k < |fds| =>
          if 0 <= fds[k].file < |files| && files[fds[k].file].page == page then Shut(fds[k]) else fds[k])
  }

  /** No descriptor is open on the slot of a log. */
  lemma LogUnreferenced(t: Extents, b: Bytes, files: seq<File>, fds: seq<Desc>, i: int)
    requires CacheOk(t, b, files, fds) && 0 <= i < |files|
    requires files[i].FreeSlot() || files[i].page < 0 || !IsFile(t, b, files[i].page)
    ensures files[i].references == 0
  {
    RefNone(fds, i);
    forall k | 0 <= k < |fds| ensures !fds[k].On(i) { assert DescOk(t, b, files, fds[k]); }
  }

  /** A file and its log have been removed from the device; the cache forgets them and its
      descriptors are closed. */
  lemma RemovedCache(t: Extents, b: Bytes, t': Extents, b': Bytes, files: seq<File>, fds: seq<Desc>, page: nat, lp: int,
                     but: set<nat>)
    requires CacheOk(t, b, files, fds) && Others(t, b, t', b', but) && page in but && (lp >= 0 ==> lp in but)
    requires forall x: nat :: x in but ==> x == page || x == lp
    requires lp >= 0 ==> !IsFile(t, b, lp)
    requires lp < 0 ==> lp == -2
    ensures var files1 := ClearPage(files, lp); CacheOk(t', b', ClearPage(files1, page), ClosePage(fds, files1, page))
  {
    var files1 := ClearPage(files, lp);
    var files', fds' := ClearPage(files1, page), ClosePage(fds, files1, page);
    forall i | 0 <= i < |files|
      ensures files'[i] == if files[i].page == lp || files[i].page == page then Cleared(files[i]) else files[i]
    {
    }
    forall i | 0 <= i < |files'|
      ensures SlotOk(t', b', files'[i])
      ensures !files'[i].FreeSlot() ==> (IsFile(t', b', files[i].page) <==> IsFile(t, b, files[i].page))
    {
      assert SlotOk(t, b, files[i]);
      if !files'[i].FreeSlot() { assert Other(t, b, t', b', files[i].page); }
      SlotKept(t, b, t', b', if files'[i].FreeSlot() then Cleared(files[i]) else files[i]);
    }
    forall i, j | 0 <= i < |files'| && 0 <= j < |files'|
      ensures SlotApart(files', i, j)
    {
      assert SlotApart(files, i, j);
    }
    ClosedDescs(t, b, files, fds, page, lp, files1, fds');
    forall k | 0 <= k < |fds'| ensures DescOk(t', b', files', fds'[k]) { assert DescOk(t, b, files, fds[k]); }
    forall i | 0 <= i < |files'| ensures files'[i].references == RefCount(fds', i) {
      ClosedCount(t, b, files, fds, page, lp, files1, fds', i);
    }
  }

  /** The descriptors closed are those on a slot with the page. */
  lemma ClosedDescs(t: Extents, b: Bytes, files: seq<File>, fds: seq<Desc>, page: nat, lp: int, files1: seq<File>,
                    fds': seq<Desc>)
    requires CacheOk(t, b, files, fds) && (lp >= 0 ==> !IsFile(t, b, lp)) && (lp < 0 ==> lp == -2)
    requires files1 == ClearPage(files, lp) && fds' == ClosePage(fds, files1, page)
    ensures forall k :: 0 <= k < |fds| && fds[k].Open() ==>
              && 0 <= fds[k].file < |files| && files[fds[k].file].page != lp
              && (fds'[k].Open() <==> files[fds[k].file].page != page)
    ensures forall k :: 0 <= k < |fds| && fds'[k].Open() ==> fds'[k] == fds[k]
  {
    forall k | 0 <= k < |fds| && fds[k].Open()
      ensures 0 <= fds[k].file < |files| && files[fds[k].file].page != lp
      ensures fds'[k].Open() <==> files[fds[k].file].page != page
    {
      assert DescOk(t, b, files, fds[k]);
    }
  }

  lemma ClosedCount(t: Extents, b: Bytes, files: seq<File>, fds: seq<Desc>, page: nat, lp: int, files1: seq<File>,
                    fds': seq<Desc>, i: int)
    requires CacheOk(t, b, files, fds) && (lp >= 0 ==> !IsFile(t, b, lp)) && (lp < 0 ==> lp == -2) && 0 <= i < |files|
    requires files1 == ClearPage(files, lp) && fds' == ClosePage(fds, files1, page)
    ensures RefCount(fds', i) == if files[i].page == lp || files[i].page == page then 0 else files[i].references
  {
    ClosedDescs(t, b, files, fds, page, lp, files1, fds');
    if files[i].page == lp || files[i].page == page {
      RefNone(fds', i);
    } else {
      SameCount(fds, fds', i);
    }
  }

  /** The descriptors on a removed extent are closed; all others, and their slots, are as
      before. */
  ghost predicate DescsClosed(files: seq<File>, fds: seq<Desc>, page: nat, files': seq<File>, fds': seq<Desc>) {
    && |fds'| == |fds| && |files'| == |files|
    && (forall k ::
          0 <= k < |fds| ==>
            && (fds'[k].Open() <==> fds[k].Open() && PageOf(files, fds[k].file) != page)
            && (fds'[k].Open() ==> fds'[k] == fds[k]))
    && (forall i :: 0 <= i < |files| && files[i].references > 0 && files[i].page != page ==> files'[i] == files[i])
  }

  /** The removal, after a file may have been loaded into a free slot s. */
  lemma RemovedDescs(t: Extents, b: Bytes, files0: seq<File>, files: seq<File>, fds: seq<Desc>, s: int, page: nat,
                     lp: int)
    requires CacheOk(t, b, files0, fds) && CacheOk(t, b, files, fds) && (lp >= 0 ==> !IsFile(t, b, lp))
    requires lp < 0 ==> lp == -2
    requires files == files0 || (0 <= s < |files0| && files0[s].references == 0 && files == files0[s := files[s]])
    ensures var files1 := ClearPage(files, lp);
            DescsClosed(files0, fds, page, ClearPage(files1, page), ClosePage(fds, files1, page))
  {
    var files1 := ClearPage(files, lp);
    ClosedDescs(t, b, files, fds, page, lp, files1, ClosePage(fds, files1, page));
    forall k | 0 <= k < |fds| && fds[k].Open() ensures PageOf(files0, fds[k].file) == files[fds[k].file].page {
      assert DescOk(t, b, files0, fds[k]);
      RefNone(fds, fds[k].file);
      assert fds[k].On(fds[k].file);
    }
    forall i | 0 <= i < |files0| && files0[i].references > 0 && files0[i].page != page
      ensures ClearPage(files1, page)[i] == files0[i]
    {
      if files[i].page == lp { LogUnreferenced(t, b, files, fds, i); }
    }
  }

  lemma {:induction false} SameCount(fds: seq<Desc>, fds': seq<Desc>, i: int)
    requires |fds'| == |fds| && forall k :: 0 <= k < |fds| ==> fds'[k].On(i) == fds[k].On(i)
    ensures RefCount(fds', i) == RefCount(fds, i)
  {
    if fds != [] { SameCount(fds[1..], fds'[1..], i); }
  }

  // ----- Moving descriptors to another slot -----

  function Moved(d: Desc, s: int, n: int): Desc {
    if d.On(s) then d.(file := n) else d
  }

  /** The descriptors open on slot s refer to slot n instead, at the same offsets. */
  function Remap(fds: seq<Desc>, s: int, n: int): (r: seq<Desc>)
    ensures |r| == |fds|
  {
    seq(|fds|, k requires 0 <= k < |fds| => Moved(fds[k], s, n))
  }

  lemma {:induction false} RemapCount(fds: seq<Desc>, s: int, n: int, i: int)
    requires s != n
    ensures RefCount(Remap(fds, s, n), i) ==
              if i == s then 0 else if i == n then RefCount(fds, n) + RefCount(fds, s) else RefCount(fds, i)
  {
    if fds != [] {
      RemapCount(fds[1..], s, n, i);
      assert Remap(fds, s, n)[1..] == Remap(fds[1..], s, n);
    }
  }

  lemma {:induction false} RefAppend(fds: seq<Desc>, d: Desc, i: int)
    ensures RefCount(fds + [d], i) == RefCount(fds, i) + if d.On(i) then 1 else 0
  {
    if fds == [] {
      assert [d][1..] == [];
    } else {
      assert (fds + [d])[1..] == fds[1..] + [d];
      RefAppend(fds[1..], d, i);
    }
  }

  /** Slots that descriptors refer to are as before, but for slot s. */
  ghost predicate SlotsKept(files: seq<File>, files': seq<File>, s: int) {
    |files'| == |files| && forall i :: 0 <= i < |files| && i != s && files[i].references > 0 ==> files'[i] == files[i]
  }

  /** If slot s was in use with a known end, it has one more reference, and nothing else has
      changed. */
  ghost predicate Referenced(files: seq<File>, files': seq<File>, s: int) {
    && 0 <= s < |files|
    && (files[s].references > 0 && files[s].end >= 0 ==>
          files' == files[s := files[s].(references := files[s].references + 1)])
  }

  function PageOf(files: seq<File>, s: int): nat {
    if 0 <= s < |files| && files[s].page >= 0 then files[s].page else 0
  }

  function LenOf(files: seq<File>, s: int): nat {
    if 0 <= s < |files| && files[s].maxPages >= 0 then files[s].maxPages else 0
  }

  function EndOf(files: seq<File>, s: int): nat {
    if 0 <= s < |files| && files[s].end >= 0 then files[s].end else 0
  }

  /** The cached file in slot s, which some descriptor is open on. */
  ghost predicate Held(t: Extents, b: Bytes, files: seq<File>, s: int) {
    Cached(t, b, files, s) && files[s].references > 0
  }

  /** The file in slot s' holds what the one in slot s held, with d spliced in. */
  ghost predicate FileSpliced(b: Bytes, files: seq<File>, s: int, b': Bytes, files': seq<File>, s': int, offset: nat,
                              d: Bytes) {
    Spliced(b, PageOf(files, s), b', PageOf(files', s'), Capacity(LenOf(files', s')), offset, d)
  }

  /** The file in slot s has n log records. */
  ghost predicate LogCount(b: Bytes, files: seq<File>, s: int, n: nat) {
    var h := HeaderAt(b, PageOf(files, s));
    h.modified && h.logPage >= 0 && FirstZero(b, h.logPage, 0, Records(h)) == n
  }

  /** Slot n takes over the references of slot s, and has a new end. */
  function MovedSlots(files: seq<File>, s: int, n: int, e: int): seq<File>
    requires 0 <= s < |files| && 0 <= n < |files|
  {
    files[s := files[s].(references := 0)][n := files[n].(references := files[s].references, end := e)]
  }

  lemma MovedCache(t: Extents, b: Bytes, files: seq<File>, fds: seq<Desc>, s: int, n: int, e: int)
    requires CacheOk(t, b, files, fds) && Cached(t, b, files, s) && s != n && 0 <= n < |files|
    requires !files[n].FreeSlot() && files[n].page >= 0 && IsFile(t, b, files[n].page) && files[n].references == 0
    requires files[s].end <= e <= Capacity(files[n].maxPages)
    ensures CacheOk(t, b, MovedSlots(files, s, n, e), Remap(fds, s, n))
  {
    var files', fds' := MovedSlots(files, s, n, e), Remap(fds, s, n);
    assert SlotOk(t, b, files[n]) && SlotOk(t, b, files[s]);
    forall i | 0 <= i < |files'| ensures SlotOk(t, b, files'[i]) { assert SlotOk(t, b, files[i]); }
    forall i, j | 0 <= i < |files'| && 0 <= j < |files'|
      ensures SlotApart(files', i, j)
    {
      assert SlotApart(files, i, j);
    }
    RefNone(fds, n);
    forall k | 0 <= k < |fds'| ensures DescOk(t, b, files', fds'[k]) { assert DescOk(t, b, files, fds[k]); }
    forall i | 0 <= i < |files'| ensures files'[i].references == RefCount(fds', i) { RemapCount(fds, s, n, i); }
  }

  /** When no descriptor is open on a slot with the page, none is closed. */
  lemma NoneToClose(fds: seq<Desc>, files: seq<File>, page: int)
    requires forall k ::
               0 <= k < |fds| && fds[k].Open() && 0 <= fds[k].file < |files| ==> files[fds[k].file].page != page
    ensures ClosePage(fds, files, page) == fds
  {
    forall k | 0 <= k < |fds| ensures ClosePage(fds, files, page)[k] == fds[k] {
    }
  }

  /** After the descriptors of slot s have been moved, none is open on its page. */
  lemma NoneOnPage(t: Extents, b: Bytes, files: seq<File>, fds: seq<Desc>, s: int)
    requires CacheOk(t, b, files, fds) && 0 <= s < |files| && files[s].references == 0 && !files[s].FreeSlot()
    requires files[s].page >= 0
    ensures forall k ::
              0 <= k < |fds| && fds[k].Open() ==> 0 <= fds[k].file < |files| && files[fds[k].file].page != files[s].page
  {
    RefNone(fds, s);
    forall k | 0 <= k < |fds| && fds[k].Open()
      ensures 0 <= fds[k].file < |files| && files[fds[k].file].page != files[s].page
    {
      assert DescOk(t, b, files, fds[k]);
      assert !fds[k].On(s);
      assert SlotApart(files, fds[k].file, s);
    }
  }

  /** The open descriptors are the same. */
  ghost predicate SameOpen(fds: seq<Desc>, fds': seq<Desc>) {
    && |fds'| == |fds|
    && forall k :: 0 <= k < |fds| ==> (fds'[k].Open() <==> fds[k].Open()) && (fds[k].Open() ==> fds'[k] == fds[k])
  }

  /** No descriptor is free. */
  predicate NoneFree(fds: seq<Desc>) {
    forall k :: 0 <= k < |fds| ==> fds[k].Open()
  }

  lemma RemapOpen(fds: seq<Desc>, s: int, n: int, fds': seq<Desc>)
    requires SameOpen(Remap(fds, s, n), fds')
    ensures NoneFree(fds') <==> NoneFree(fds)
  {
    forall k | 0 <= k < |fds| ensures fds'[k].Open() <==> fds[k].Open() { }
  }

  /** What `merge_log` leaves in the cache: slot n has taken over from slot s, which is free,
      as is the slot of the old log. */
  function MergedSlots(files: seq<File>, s: int, n: int, page: int, lp: int, e: int): seq<File>
    requires 0 <= s < |files| && 0 <= n < |files|
  {
    ClearPage(ClearPage(MovedSlots(files, s, n, e), lp), page)
  }

  /** The steps of the code come to the same. */
  lemma MergeSteps(files: seq<File>, s: int, n: int, page: int, lp: int, e: int)
    requires 0 <= s < |files| && 0 <= n < |files| && s != n && files[s].page == page && files[n].page != page
    requires files[n].page != lp && !files[n].modified
    ensures var f := files[n].(references := files[s].references);
            ClearPage(ClearPage(files[n := f], lp), page)[n := f.(modified := false, end := e)] ==
                MergedSlots(files, s, n, page, lp, e)
  {
    var f := files[n].(references := files[s].references);
    var l := ClearPage(ClearPage(files[n := f], lp), page)[n := f.(modified := false, end := e)];
    var r := MergedSlots(files, s, n, page, lp, e);
    forall i | 0 <= i < |files| ensures l[i] == r[i] { }
  }

  lemma MergedCache(t: Extents, b: Bytes, t': Extents, b': Bytes, files: seq<File>, fds: seq<Desc>, s: int, n: int,
                    page: nat, lp: int, e: int, but: set<nat>)
    requires CacheOk(t, b, files, fds) && Cached(t, b, files, s) && s != n && 0 <= n < |files| && files[s].page == page
    requires !files[n].FreeSlot() && files[n].page >= 0 && IsFile(t, b, files[n].page) && files[n].references == 0
    requires files[s].end <= e <= Capacity(files[n].maxPages)
    requires Others(t, b, t', b', but) && page in but && (lp >= 0 ==> lp in but)
    requires forall x: nat :: x in but ==> x == page || x == lp
    requires (lp >= 0 ==> !IsFile(t, b, lp)) && (lp < 0 ==> lp == -2)
    ensures CacheOk(t', b', MergedSlots(files, s, n, page, lp, e), Remap(fds, s, n))
  {
    var files1, fds1 := MovedSlots(files, s, n, e), Remap(fds, s, n);
    MovedCache(t, b, files, fds, s, n, e);
    assert SlotApart(files, s, n) && SlotOk(t, b, files[s]);
    RemovedCache(t, b, t', b', files1, fds1, page, lp, but);
    NoneOnPage(t, b, files1, fds1, s);
    ClearedPages(files1, lp, page);
    NoneToClose(fds1, ClearPage(files1, lp), page);
  }

  lemma ClearedPages(files: seq<File>, lp: int, page: nat)
    ensures forall i :: 0 <= i < |files| && ClearPage(files, lp)[i].page == page ==> files[i].page == page
  {
  }

  /** Slots that descriptors refer to survive the merge. */
  lemma MergedKept(t: Extents, b: Bytes, files: seq<File>, fds: seq<Desc>, s: int, n: int, page: nat, lp: int, e: int)
    requires CacheOk(t, b, files, fds) && Cached(t, b, files, s) && 0 <= n < |files| && s != n && files[s].page == page
    requires lp >= 0 ==> !IsFile(t, b, lp)
    requires lp < 0 ==> lp == -2
    ensures forall i ::
              0 <= i < |files| && i != s && i != n && files[i].references > 0 ==>
                MergedSlots(files, s, n, page, lp, e)[i] == files[i]
    ensures SlotsBut(files, MergedSlots(files, s, n, page, lp, e), s, n, lp)
    ensures |MergedSlots(files, s, n, page, lp, e)| == |files|
  {
    forall i | 0 <= i < |files| && i != s && i != n && files[i].references > 0
      ensures MergedSlots(files, s, n, page, lp, e)[i] == files[i]
    {
      assert SlotApart(files, i, s) && SlotOk(t, b, files[i]);
      if files[i].FreeSlot() || !IsFile(t, b, files[i].page) { LogUnreferenced(t, b, files, fds, i); }
    }
    forall i | 0 <= i < |files| && i != s && i != n && !files[i].FreeSlot() && files[i].page != lp
      ensures MergedSlots(files, s, n, page, lp, e)[i] == files[i]
    {
      assert SlotApart(files, i, s);
    }
  }

  /** Of slots other than these two, the free ones are still free, and all others as before, but for one
      with an extent at lp. */
  ghost predicate SlotsBut(files: seq<File>, files': seq<File>, s: int, n: int, lp: int) {
    && |files'| == |files|
    && forall i :: 0 <= i < |files| && i != s && i != n ==>
         && (files[i].FreeSlot() ==> files'[i].FreeSlot())
         && (!files[i].FreeSlot() && files[i].page != lp ==> files'[i] == files[i])
  }

  lemma ClearedBut(t: Extents, b: Bytes, files: seq<File>, files1: seq<File>, fds: seq<Desc>, s: int, page: int,
                   lp: int)
    requires 0 <= s < |files1| == |files| && files1 == files[s := files1[s]] && CacheOk(t, b, files1, fds)
    requires files1[s].page == page && !files1[s].FreeSlot()
    ensures SlotsBut(files, ClearPage(ClearPage(files1, lp), page), s, s, lp)
  {
    var files2 := ClearPage(ClearPage(files1, lp), page);
    forall i | 0 <= i < |files| && i != s
      ensures files[i].FreeSlot() ==> files2[i].FreeSlot()
      ensures !files[i].FreeSlot() && files[i].page != lp ==> files2[i] == files[i]
    {
      assert files1[i] == files[i] && SlotApart(files1, i, s);
    }
  }

  lemma PickedSame(files: seq<File>, s: int, f: File, n: int)
    requires 0 <= s < |files| && files[s].references > 0 && f.references > 0 && !files[s].FreeSlot() && !f.FreeSlot()
    requires PickedSlot(files[s := f], n)
    ensures PickedSlot(files, n)
  {
    var files1 := files[s := f];
    assert HasFreeSlot(files) <==> HasFreeSlot(files1) by {
      if i :| 0 <= i < |files| && files[i].FreeSlot() { assert files1[i].FreeSlot(); }
      if i :| 0 <= i < |files1| && files1[i].FreeSlot() { assert files[i].FreeSlot(); }
    }
    forall j | 0 <= j < |files| ensures j != s ==> files[j] == files1[j] { }
  }

  /** The descriptors after a merge, whose own descriptor fd was opened and closed again. */
  lemma MergedDescs(fds0: seq<Desc>, fd: int, s: int, n: int, d: Desc, fds': seq<Desc>)
    requires 0 <= fd < |fds0| && !fds0[fd].Open() && |fds'| == |fds0|
    requires fds' == Remap(fds0[fd := d], s, n)[fd := fds'[fd]] && !fds'[fd].Open()
    ensures SameOpen(Remap(fds0, s, n), fds')
  {
    forall k | 0 <= k < |fds0|
      ensures fds'[k].Open() <==> Remap(fds0, s, n)[k].Open()
      ensures (Remap(fds0, s, n)[k].Open() ==> fds'[k] == Remap(fds0, s, n)[k]) { }
  }

  lemma ReopenedDescs(fds0: seq<Desc>, fd: int, d: Desc, d': Desc)
    requires 0 <= fd < |fds0| && !fds0[fd].Open() && !d'.Open()
    ensures SameOpen(fds0, fds0[fd := d][fd := d'])
  {
  }

  lemma StillAvailable(files: seq<File>, s: int, f: File)
    requires SlotAvailable(files) && 0 <= s < |files| && files[s].references > 0
    ensures SlotAvailable(files[s := f])
  {
    var i :| 0 <= i < |files| && files[i].references == 0;
    assert files[s := f][i].references == 0;
  }

  lemma CountedBack(files0: seq<File>, files1: seq<File>, files2: seq<File>, s: int)
    requires 0 <= s < |files0| && files1 == files0[s := files0[s].(references := files0[s].references + 1)]
    requires files2 == files1[s := files1[s].(references := files1[s].references - 1)]
    ensures files2 == files0
  {
  }

  /** One reference more or less on a slot in use does not make it free. */
  lemma SlotsCounted(files: seq<File>, s: int, f: File)
    requires 0 <= s < |files| && files[s].references > 0 && f.references > 0
    ensures SlotAvailable(files[s := f]) <==> SlotAvailable(files)
  {
    if SlotAvailable(files) { StillAvailable(files, s, f); }
    if SlotAvailable(files[s := f]) {
      var i :| 0 <= i < |files[s := f]| && files[s := f][i].references == 0;
      assert files[i].references == 0;
    }
  }

  /** The slots after a merge, seen from before it: slot s has given way to slot n. */
  ghost predicate SlotsMerged(files: seq<File>, files': seq<File>, s: int, n: int, f: File) {
    && |files'| == |files| && 0 <= n < |files| && s != n && files'[n] == f
    && forall i :: 0 <= i < |files| && i != s && i != n && files[i].references > 0 ==> files'[i] == files[i]
  }

  /** Before the new slot was taken and slot s was opened once more. */
  lemma SlotsMergedFrom(files0: seq<File>, files1: seq<File>, files': seq<File>, s: int, n: int, f0: File, f1: File,
                        f: File)
    requires 0 <= s < |files0| && 0 <= n < |files0| && files0[n].references == 0 && files1 == files0[s := f0][n := f1]
    requires SlotsMerged(files1, files', s, n, f)
    ensures SlotsKept(files0, files', s)
  {
  }

  lemma SlotsButTwice(files0: seq<File>, files1: seq<File>, files2: seq<File>, s: int)
    requires 0 <= s < |files0| == |files1| && files1 == files0[s := files1[s]] && SlotsBut(files1, files2, s, s, -2)
    ensures SlotsBut(files0, files2, s, s, -2)
  {
    forall i | 0 <= i < |files0| && i != s ensures files1[i] == files0[i] { }
  }

  lemma SlotsButFrom(files0: seq<File>, files1: seq<File>, files': seq<File>, s: int, n: int, f0: File, f1: File,
                     lp: int)
    requires 0 <= s < |files0| && 0 <= n < |files0| && files1 == files0[s := f0][n := f1]
    requires SlotsBut(files1, files', s, n, lp)
    ensures SlotsBut(files0, files', s, n, lp)
  {
    forall i | 0 <= i < |files0| && i != s && i != n ensures files1[i] == files0[i] { }
  }

  lemma SlotsKeptBut(files: seq<File>, l: int, f: File, s: int, g: File)
    requires 0 <= l < |files| && files[l].references == 0 && 0 <= s < |files| && s != l
    ensures SlotsKept(files, files[l := f][s := g], s) && files[l := f][s := g][l] == f
    ensures SlotsBut(files, files[l := f][s := g], s, l, -2)
  {
  }

  lemma SlotsKeptTwice(files: seq<File>, files1: seq<File>, files2: seq<File>, s: int)
    requires SlotsKept(files, files1, s) && SlotsKept(files1, files2, s)
    ensures SlotsKept(files, files2, s)
  {
  }
}
