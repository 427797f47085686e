/**
 How the pages of the device are taken up: every page belongs to one extent, whose first
 page alone says how far it reaches. The header walk goes from extent to extent.
 */
module Extents {
  import opened Words
  import opened CoffeeConfig
  import opened FlashBytes

  /** A file or a log in use; one that was removed; a page set aside by the collector; the
      free rest of a sector. Headless is what the collector leaves, for a while, of an extent
      whose first sector it has erased. */
  datatype Kind = Active | Obsolete | Isolated | Free | Headless

  datatype Extent = Extent(len: nat, kind: Kind)

  type Extents = map<nat, Extent>

  function End(t: Extents, a: nat): nat
    requires a in t
  {
    a + t[a].len
  }

  /** The end of an extent is the start of the next, or the end of the device. */
  ghost predicate Boundary(t: Extents, p: nat) {
    p in t || p == PAGE_COUNT
  }

  /** The header of the extent's first page. */
  ghost predicate HeaderOk(t: Extents, b: Bytes, a: nat)
    requires a in t
  {
    var h := HeaderAt(b, a);
    match t[a].kind
    case Active => h.Active() && h.maxPages == t[a].len
    case Obsolete => h.inUse && h.obsolete && !h.isolated && h.maxPages == t[a].len
    case Isolated => h.inUse && h.isolated && t[a].len == 1
    case Free => End(t, a) == SectorStart(SectorOf(a) + 1) && Zeros(b, Offset(a), Offset(End(t, a)))
    case Headless => true
  }

  ghost predicate ExtentOk(t: Extents, b: Bytes, a: nat)
    requires a in t
  {
    t[a].len > 0 && End(t, a) <= PAGE_COUNT && Boundary(t, End(t, a)) && HeaderOk(t, b, a)
  }

  ghost predicate Apart(t: Extents, a: nat, c: nat)
    requires a in t && c in t
  {
    a < c ==> End(t, a) <= c
  }

  ghost predicate NoOverlap(t: Extents) {
    forall a, c {:trigger Apart(t, a, c)} :: a in t && c in t ==> Apart(t, a, c)
  }

  /** The extents take up all pages. */
  ghost predicate Tiled(t: Extents, b: Bytes) {
    && |b| == FLASH_SIZE && Boundary(t, 0)
    && (forall a {:trigger ExtentOk(t, b, a)} :: a in t ==> ExtentOk(t, b, a))
    && NoOverlap(t)
  }

  ghost predicate NoHeadless(t: Extents) {
    forall a :: a in t ==> t[a].kind != Headless
  }

  // ----- The header walk -----

  /** `next_file` */
  function NextFile(page: nat, h: Header): int
    requires page < PAGE_COUNT
  {
    if h.Free() then NextSector(page) else if h.isolated then page + 1 else page + h.maxPages
  }

  /** The walk that starts at p comes to q. */
  ghost predicate Reaches(b: Bytes, p: nat, q: nat)
    decreases PAGE_COUNT - p
  {
    p == q || (p < PAGE_COUNT && p < NextFile(p, HeaderAt(b, p)) && Reaches(b, NextFile(p, HeaderAt(b, p)), q))
  }

  /** From an extent the walk goes to its end. */
  lemma NextFileIs(t: Extents, b: Bytes, a: nat)
    requires Tiled(t, b) && a in t && t[a].kind != Headless
    ensures a < PAGE_COUNT && NextFile(a, HeaderAt(b, a)) == End(t, a) > a
    ensures HeaderAt(b, a).Free() <==> t[a].kind == Free
    ensures HeaderAt(b, a).Active() <==> t[a].kind == Active
  {
    assert ExtentOk(t, b, a);
    if t[a].kind == Free {
      OffsetMono(a, End(t, a));
      DecodeZeros(b, Offset(a));
      NextSectorIs(a);
    }
  }

  /** The walk from an extent comes exactly to the extents from there on. */
  lemma {:induction false} WalkFrom(t: Extents, b: Bytes, p: nat, q: nat)
    requires Tiled(t, b) && NoHeadless(t) && Boundary(t, p) && q < PAGE_COUNT
    ensures Reaches(b, p, q) <==> q in t && p <= q
    decreases PAGE_COUNT - p
  {
    if p in t && p != q {
      NextFileIs(t, b, p);
      assert ExtentOk(t, b, p);
      WalkFrom(t, b, End(t, p), q);
      assert q in t ==> Apart(t, p, q);
    }
  }

  /** The walk from the first page finds exactly the extents. */
  lemma WalkFindsAll(t: Extents, b: Bytes, q: nat)
    requires Tiled(t, b) && NoHeadless(t) && q < PAGE_COUNT
    ensures Reaches(b, 0, q) <==> q in t
  {
    WalkFrom(t, b, 0, q);
  }

  /** Every page is in an extent. */
  lemma {:induction false} SomeExtent(t: Extents, b: Bytes, p: nat, from: nat) returns (a: nat)
    requires Tiled(t, b) && from <= p < PAGE_COUNT && Boundary(t, from)
    ensures a in t && a <= p < End(t, a)
    decreases PAGE_COUNT - from
  {
    assert ExtentOk(t, b, from);
    if p < End(t, from) {
      a := from;
    } else {
      a := SomeExtent(t, b, p, End(t, from));
    }
  }

  /** And in no other. */
  lemma OneExtent(t: Extents, b: Bytes, p: nat, a: nat, c: nat)
    requires Tiled(t, b) && a in t && c in t && a <= p < End(t, a) && c <= p < End(t, c)
    ensures a == c
  {
    assert Apart(t, a, c) && Apart(t, c, a);
  }

  /** Free extents do not leave their sector. */
  lemma FreeInSector(t: Extents, b: Bytes, a: nat)
    requires Tiled(t, b) && a in t && t[a].kind == Free
    ensures End(t, a) == SectorStart(SectorOf(a) + 1) && SectorStart(SectorOf(a)) <= a
    ensures SectorOf(a) < SECTOR_COUNT
  {
    assert ExtentOk(t, b, a);
    SectorOfPage(a);
  }

  // ----- Pages by use -----

  /** What a page counts as: in use by a file, to be reclaimed, or free. */
  datatype Use = InUse | Garbage | Spare

  function UseOf(k: Kind): Use {
    if k == Active then InUse else if k == Free then Spare else Garbage
  }

  ghost predicate Page(t: Extents, p: nat, u: Use) {
    exists a :: a in t && a <= p < End(t, a) && UseOf(t[a].kind) == u
  }

  /** The pages in [lo, hi) of a given use. */
  ghost function Count(t: Extents, lo: nat, hi: nat, u: Use): nat
    decreases hi - lo
  {
    if lo >= hi then 0 else (if Page(t, lo, u) then 1 else 0) + Count(t, lo + 1, hi, u)
  }

  lemma {:induction false} CountSplit(t: Extents, lo: nat, mid: nat, hi: nat, u: Use)
    requires lo <= mid <= hi
    ensures Count(t, lo, hi, u) == Count(t, lo, mid, u) + Count(t, mid, hi, u)
    decreases mid - lo
  {
    if lo < mid { CountSplit(t, lo + 1, mid, hi, u); }
  }

  lemma {:induction false} CountNone(t: Extents, lo: nat, hi: nat, u: Use)
    requires forall p: nat :: lo <= p < hi ==> !Page(t, p, u)
    ensures Count(t, lo, hi, u) == 0
    decreases hi - lo
  {
    if lo < hi { CountNone(t, lo + 1, hi, u); }
  }

  lemma {:induction false} CountAll(t: Extents, lo: nat, hi: nat, u: Use)
    requires lo <= hi
    requires forall p: nat :: lo <= p < hi ==> Page(t, p, u)
    ensures Count(t, lo, hi, u) == hi - lo
    decreases hi - lo
  {
    if lo < hi { CountAll(t, lo + 1, hi, u); }
  }

  lemma {:induction false} CountZero(t: Extents, lo: nat, hi: nat, u: Use, p: nat)
    requires Count(t, lo, hi, u) == 0 && lo <= p < hi
    ensures !Page(t, p, u)
    decreases p - lo
  {
    if lo < p { CountZero(t, lo + 1, hi, u, p); }
  }

  /** A page has one use. */
  lemma OneUse(t: Extents, b: Bytes, p: nat, u: Use, v: Use)
    requires Tiled(t, b) && Page(t, p, u)
    ensures Page(t, p, v) <==> u == v
  {
    var a :| a in t && a <= p < End(t, a) && UseOf(t[a].kind) == u;
    if Page(t, p, v) {
      var c :| c in t && c <= p < End(t, c) && UseOf(t[c].kind) == v;
      OneExtent(t, b, p, a, c);
    }
  }

  /** Pages that all have one use count for it and for nothing else. */
  lemma CountRun(t: Extents, b: Bytes, lo: nat, hi: nat, u: Use, v: Use)
    requires Tiled(t, b) && lo <= hi
    requires forall p: nat :: lo <= p < hi ==> Page(t, p, u)
    ensures Count(t, lo, hi, v) == if u == v then hi - lo else 0
  {
    if u == v {
      CountAll(t, lo, hi, u);
    } else {
      forall p: nat | lo <= p < hi ensures !Page(t, p, v) { OneUse(t, b, p, u, v); }
      CountNone(t, lo, hi, v);
    }
  }

  lemma ExtentPages(t: Extents, a: nat)
    requires a in t
    ensures forall p: nat :: a <= p < End(t, a) ==> Page(t, p, UseOf(t[a].kind))
  {
  }

  lemma {:induction false} CountSome(t: Extents, lo: nat, hi: nat, u: Use, p: nat)
    requires lo <= p < hi && Page(t, p, u)
    ensures Count(t, lo, hi, u) > 0
    decreases p - lo
  {
    if lo < p { CountSome(t, lo + 1, hi, u, p); }
  }

  /** No extent starts inside another. */
  lemma NoneInside(t: Extents, b: Bytes, a: nat, q: nat)
    requires Tiled(t, b) && a in t && a < q < End(t, a)
    ensures !Boundary(t, q)
  {
    assert ExtentOk(t, b, a);
    assert q in t ==> Apart(t, a, q);
  }

  /** The walk skips nothing: between an extent and the next there is none. */
  lemma NothingSkipped(t: Extents, b: Bytes, page: nat)
    requires Tiled(t, b) && NoHeadless(t) && page in t
    ensures page < PAGE_COUNT && page < NextFile(page, HeaderAt(b, page)) <= PAGE_COUNT
    ensures Boundary(t, NextFile(page, HeaderAt(b, page)))
    ensures forall a: nat :: a in t && page < a ==> NextFile(page, HeaderAt(b, page)) <= a
  {
    NextFileIs(t, b, page);
    assert ExtentOk(t, b, page);
    forall a: nat | a in t && page < a ensures End(t, page) <= a { assert Apart(t, page, a); }
  }

  lemma ExtentHeader(t: Extents, b: Bytes, a: nat)
    requires Tiled(t, b) && a in t
    ensures a < PAGE_COUNT && (t[a].kind == Active ==> HeaderAt(b, a).Active() && HeaderAt(b, a).maxPages == t[a].len)
  {
    assert ExtentOk(t, b, a);
  }
}
