/** Finding free pages and turning them into an extent. */
module Allocation {
  import opened Words
  import opened CoffeeConfig
  import opened FlashBytes
  import opened FlashDevice
  import opened Extents
  import opened Collector

  /** Free pages for an extent that starts at q. The last page of the device is never
      given out. */
  ghost predicate Fits(t: Extents, q: nat, amount: nat) {
    q in t && q + amount < PAGE_COUNT && forall p: nat :: q <= p < q + amount ==> Page(t, p, Spare)
  }

  /** The state of the search at `page`: all that fits before it lies in the free run from
      `start` on, and that run is still too short. */
  ghost predicate Searched(t: Extents, from: nat, page: nat, start: int, amount: nat) {
    && from <= page <= PAGE_COUNT && Boundary(t, page)
    && (start >= 0 ==> from <= start < page && start in t && start + amount < PAGE_COUNT && page < start + amount
                       && forall p: nat :: start <= p < page ==> Page(t, p, Spare))
    && (forall q: nat {:trigger Fits(t, q, amount)} :: from <= q < page && Fits(t, q, amount) ==> 0 <= start <= q)
  }

  /** Nothing fits from `from` on. */
  ghost predicate NoneFits(t: Extents, from: nat, amount: nat) {
    forall q: nat {:trigger Fits(t, q, amount)} :: from <= q ==> !Fits(t, q, amount)
  }

  /** q is the first place that fits. */
  ghost predicate FirstFit(t: Extents, from: nat, q: nat, amount: nat) {
    && from <= q && Fits(t, q, amount)
    && forall x: nat {:trigger Fits(t, x, amount)} :: from <= x < q ==> !Fits(t, x, amount)
  }

  lemma SearchTaken(t: Extents, b: Bytes, from: nat, page: nat, start: int, amount: nat)
    requires Tiled(t, b) && Searched(t, from, page, start, amount) && page in t && t[page].kind != Free && amount > 0
    ensures Searched(t, from, End(t, page), -1, amount)
  {
    var e := End(t, page);
    assert ExtentOk(t, b, page);
    forall q: nat | from <= q < e && Fits(t, q, amount) ensures false {
      if q <= page {
        assert Page(t, page, Spare);
        assert Page(t, page, UseOf(t[page].kind));
        OneUse(t, b, page, Spare, UseOf(t[page].kind));
      } else {
        NoneInside(t, b, page, q);
      }
    }
  }

  /** The free extent at `page` joins the run. */
  lemma SearchFree(t: Extents, b: Bytes, from: nat, page: nat, start: int, start': nat, amount: nat)
    requires Tiled(t, b) && Searched(t, from, page, start, amount) && page in t && t[page].kind == Free && amount > 0
    requires start' == if start < 0 then page else start
    requires start' + amount < PAGE_COUNT
    ensures End(t, page) < start' + amount ==> Searched(t, from, End(t, page), start', amount)
    ensures start' + amount <= End(t, page) ==> FirstFit(t, from, start', amount)
  {
    var e := End(t, page);
    assert ExtentOk(t, b, page);
    ExtentPages(t, page);
    forall q: nat | from <= q < e && Fits(t, q, amount) ensures start' <= q {
      if q > page { NoneInside(t, b, page, q); }
    }
  }

  lemma SearchEnds(t: Extents, from: nat, page: nat, start: int, amount: nat)
    requires Searched(t, from, page, start, amount) && amount > 0
    requires page == PAGE_COUNT || (start < 0 && page + amount >= PAGE_COUNT)
    ensures NoneFits(t, from, amount)
  {
    forall q: nat | from <= q ensures !Fits(t, q, amount) {
    }
  }

  // ----- A new extent -----

  /** The pages from q on become an extent; what is left of a free one stays free. */
  function Taken(t: Extents, q: nat, amount: nat): Extents {
    var e := q + amount;
    var t1 := (map a | a in t && !(q <= a < e) :: t[a])[q := Extent(amount, Active)];
    if e in t || e == PAGE_COUNT || SectorStart(SectorOf(e) + 1) < e then t1
    else t1[e := Extent(SectorStart(SectorOf(e) + 1) - e, Free)]
  }

  /** The extent over the end of the new one is free. */
  lemma LastTaken(t: Extents, b: Bytes, q: nat, amount: nat) returns (f: nat)
    requires Tiled(t, b) && Fits(t, q, amount) && amount > 0
    ensures f in t && q <= f < q + amount <= End(t, f) && t[f].kind == Free
    ensures End(t, f) == SectorStart(SectorOf(f) + 1) && Zeros(b, Offset(f), Offset(End(t, f)))
  {
    var p: nat := q + amount - 1;
    assert Page(t, p, Spare);
    f :| f in t && f <= p < End(t, f) && UseOf(t[f].kind) == Spare;
    assert ExtentOk(t, b, f);
    if f < q { NoneInside(t, b, f, q); }
  }

  /** Every extent that starts inside the new one is free and ends by `e`, where the last
      of them ends. */
  lemma InsideTaken(t: Extents, b: Bytes, q: nat, amount: nat, a: nat)
    requires Tiled(t, b) && Fits(t, q, amount) && a in t && q <= a < q + amount
    ensures t[a].kind == Free && Zeros(b, Offset(a), Offset(End(t, a)))
  {
    assert ExtentOk(t, b, a);
    assert Page(t, a, Spare);
    assert Page(t, a, UseOf(t[a].kind));
    OneUse(t, b, a, Spare, UseOf(t[a].kind));
  }

  /** The pages that become an extent hold zeros. */
  lemma {:induction false} TakenZeros(t: Extents, b: Bytes, q: nat, amount: nat, p: nat)
    requires Tiled(t, b) && Fits(t, q, amount) && q <= p <= q + amount
    ensures Zeros(b, Offset(q), Offset(p))
    decreases p
  {
    if q < p {
      TakenZeros(t, b, q, amount, p - 1);
      assert Page(t, p - 1, Spare);
      var a :| a in t && a <= p - 1 < End(t, a) && UseOf(t[a].kind) == Spare;
      assert ExtentOk(t, b, a);
      OffsetMono(a, p - 1);
      OffsetMono(p, End(t, a));
    }
  }

  /** What is left of the last free extent. */
  lemma RestOfFree(t: Extents, b: Bytes, q: nat, amount: nat)
    requires Tiled(t, b) && Fits(t, q, amount) && amount > 0 && !Boundary(t, q + amount)
    ensures var e := q + amount; var r := SectorStart(SectorOf(e) + 1);
            e < r <= PAGE_COUNT && Boundary(t, r) && r !in Range(q, e) && Zeros(b, Offset(e), Offset(r))
    ensures forall c :: c in t && q + amount < c ==> SectorStart(SectorOf(q + amount) + 1) <= c
  {
    var e := q + amount;
    var f := LastTaken(t, b, q, amount);
    assert ExtentOk(t, b, f);
    SectorOfPage(f);
    SectorStep(SectorOf(f));
    SectorUnique(e, SectorOf(f));
    OffsetMono(f, e);
    forall c | c in t && e < c ensures End(t, f) <= c { assert Apart(t, f, c); }
  }

  lemma TakenApart(t: Extents, b: Bytes, q: nat, amount: nat)
    requires Tiled(t, b) && Fits(t, q, amount) && amount > 0
    ensures NoOverlap(Taken(t, q, amount))
  {
    var t', e := Taken(t, q, amount), q + amount;
    if !Boundary(t, e) { RestOfFree(t, b, q, amount); }
    forall a, c | a in t' && c in t' ensures Apart(t', a, c) {
      assert a in t && c in t ==> Apart(t, a, c);
      assert a in t ==> Apart(t, a, q);
    }
  }

  /** Starts of extents outside the new one are as before, and it ends at one. */
  lemma TakenBoundaries(t: Extents, b: Bytes, q: nat, amount: nat)
    requires Tiled(t, b) && Fits(t, q, amount) && amount > 0
    ensures Boundary(Taken(t, q, amount), q + amount)
    ensures forall p: nat :: Boundary(t, p) && (p <= q || q + amount <= p) ==> Boundary(Taken(t, q, amount), p)
  {
    if !Boundary(t, q + amount) { RestOfFree(t, b, q, amount); }
  }

  lemma TakenOld(t: Extents, b: Bytes, q: nat, amount: nat, b': Bytes, a: nat)
    requires Tiled(t, b) && Fits(t, q, amount) && amount > 0 && SameOutside(b, b', q, q + 1)
    requires a in t && (a < q || q + amount <= a)
    ensures a in Taken(t, q, amount) && ExtentOk(Taken(t, q, amount), b', a)
  {
    var t' := Taken(t, q, amount);
    assert ExtentOk(t, b, a) && Apart(t, a, q);
    TakenBoundaries(t, b, q, amount);
    assert Boundary(t', End(t, a));
    ExtentSame(t, b, t', b', q, q + 1, a);
  }

  lemma TakenRest(t: Extents, b: Bytes, q: nat, amount: nat, b': Bytes)
    requires Tiled(t, b) && Fits(t, q, amount) && amount > 0 && SameOutside(b, b', q, q + 1) && !Boundary(t, q + amount)
    ensures var t', e := Taken(t, q, amount), q + amount; e in t' && t'[e].kind == Free && ExtentOk(t', b', e)
  {
    var t', e := Taken(t, q, amount), q + amount;
    RestOfFree(t, b, q, amount);
    TakenBoundaries(t, b, q, amount);
    OffsetMono(q + 1, e);
  }

  lemma TakenExtent(t: Extents, b: Bytes, b': Bytes, q: nat, amount: nat, h: Header, a: nat)
    requires Tiled(t, b) && Fits(t, q, amount) && amount > 0 && HeaderWritten(b, b', q, h) && h.Active()
    requires h.maxPages == amount
    requires a in Taken(t, q, amount)
    ensures ExtentOk(Taken(t, q, amount), b', a)
  {
    var t', e := Taken(t, q, amount), q + amount;
    HeaderOnly(b, b', q, h);
    TakenBoundaries(t, b, q, amount);
    if a == e && !Boundary(t, e) {
      TakenRest(t, b, q, amount, b');
    } else if a != q {
      TakenOld(t, b, q, amount, b', a);
    }
  }

  lemma TakenTiled(t: Extents, b: Bytes, b': Bytes, q: nat, amount: nat, h: Header)
    requires Tiled(t, b) && NoHeadless(t) && Fits(t, q, amount) && amount > 0
    requires HeaderWritten(b, b', q, h) && h.Active() && h.maxPages == amount
    ensures Tiled(Taken(t, q, amount), b') && NoHeadless(Taken(t, q, amount))
  {
    var t' := Taken(t, q, amount);
    TakenBoundaries(t, b, q, amount);
    forall a | a in t' ensures ExtentOk(t', b', a) { TakenExtent(t, b, b', q, amount, h, a); }
    TakenApart(t, b, q, amount);
    TakenHeaded(t, q, amount);
  }

  lemma TakenHeaded(t: Extents, q: nat, amount: nat)
    requires NoHeadless(t)
    ensures NoHeadless(Taken(t, q, amount))
  {
  }

  /** The extents in use before are still there, with the same bytes, and one more: it holds
      zeros behind its header. */
  lemma TakenKept(t: Extents, b: Bytes, b': Bytes, q: nat, amount: nat, h: Header)
    requires Tiled(t, b) && Fits(t, q, amount) && amount > 0 && HeaderWritten(b, b', q, h) && h.Active()
    requires h.maxPages == amount
    ensures NewExtent(t, b, Taken(t, q, amount), b', q, amount, h)
  {
    var t', e := Taken(t, q, amount), q + amount;
    HeaderOnly(b, b', q, h);
    InsideTaken(t, b, q, amount, q);
    TakenZeros(t, b, q, amount, e);
    forall a: nat | a != q ensures Kept(t, b, t', b', a) {
      TakenKeepsOne(t, b, q, amount, b', a);
    }
  }

  lemma TakenKeepsOne(t: Extents, b: Bytes, q: nat, amount: nat, b': Bytes, a: nat)
    requires Tiled(t, b) && Fits(t, q, amount) && amount > 0 && SameOutside(b, b', q, q + 1) && a != q
    ensures Kept(t, b, Taken(t, q, amount), b', a)
  {
    if IsActive(t, a) {
      if q <= a < q + amount { InsideTaken(t, b, q, amount, a); }
      assert ExtentOk(t, b, a) && Apart(t, a, q) && Apart(t, q, a);
      BytesKept(t, b, b', a, q, q + 1);
    }
  }

  /** b' is b with one more extent in use: it starts at page q with header h and holds zeros;
      every extent in use before keeps its place and its bytes. */
  ghost predicate NewExtent(t: Extents, b: Bytes, t': Extents, b': Bytes, q: nat, amount: nat, h: Header) {
    && !IsActive(t, q) && IsActive(t', q) && t'[q].len == amount
    && (forall a: nat {:trigger Kept(t, b, t', b', a)} :: a != q ==> Kept(t, b, t', b', a))
    && HeaderAt(b', q) == h
    && Zeros(b', Offset(q) + HEADER_SIZE, Offset(q + amount))
  }

  lemma NewAfterKept(t: Extents, b: Bytes, t1: Extents, b1: Bytes, t2: Extents, b2: Bytes, q: nat, amount: nat,
                     h: Header)
    requires ActiveKept(t, b, t1, b1) && NewExtent(t1, b1, t2, b2, q, amount, h)
    ensures NewExtent(t, b, t2, b2, q, amount, h)
  {
    assert Kept(t, b, t1, b1, q);
    forall a: nat | a != q ensures Kept(t, b, t2, b2, a) {
      assert Kept(t, b, t1, b1, a) && Kept(t1, b1, t2, b2, a);
    }
  }

  // ----- A device that fills from the front -----

  /** No sector can be erased. */
  ghost predicate Standing(t: Extents) {
    forall s: nat {:trigger Erasable(t, s, Greedy)} :: s < SECTOR_COUNT ==> !Erasable(t, s, Greedy)
  }

  /** All pages from p on are free. */
  ghost predicate FreeFrom(t: Extents, p: nat) {
    Boundary(t, p) && forall x: nat {:trigger Page(t, x, Spare)} :: p <= x < PAGE_COUNT ==> Page(t, x, Spare)
  }

  /** Allocation from the front. */
  predicate FillStep(next: nat, next': nat, amount: nat, found: bool) {
    (found <==> next + amount < PAGE_COUNT) && next' == if found then next + amount else next
  }

  /** What is found then: the place itself, if it is not too close to the end of the device. */
  lemma FreeFits(t: Extents, p: nat, amount: nat)
    requires FreeFrom(t, p) && amount > 0
    ensures NoneFits(t, p, amount) <==> p + amount >= PAGE_COUNT
    ensures forall q: nat :: FirstFit(t, p, q, amount) ==> q == p
  {
    if p + amount < PAGE_COUNT { assert Fits(t, p, amount); }
  }

  lemma FreeTaken(t: Extents, b: Bytes, p: nat, amount: nat)
    requires Tiled(t, b) && FreeFrom(t, p) && Fits(t, p, amount) && amount > 0
    ensures FreeFrom(Taken(t, p, amount), p + amount)
  {
    var t', e := Taken(t, p, amount), p + amount;
    TakenBoundaries(t, b, p, amount);
    if !Boundary(t, e) { RestOfFree(t, b, p, amount); }
    var f := LastTaken(t, b, p, amount);
    forall x: nat | e <= x < PAGE_COUNT ensures Page(t', x, Spare) {
      assert Page(t, x, Spare);
      var a :| a in t && a <= x < End(t, a) && UseOf(t[a].kind) == Spare;
      if a < e {
        if a < e < End(t, a) { NoneInside(t, b, a, e); }
        assert ExtentOk(t, b, f);
        OneExtent(t, b, e, a, f);
        RestInLast(t, b, p, amount, f);
        assert t'[e].kind == Free;
        assert e in t' && e <= x < End(t', e);
      } else {
        assert a in t' && t'[a] == t[a];
      }
    }
  }

  /** An extent that is in use keeps a single sector from being erased. */
  lemma OneStanding(t: Extents, b: Bytes, a: nat)
    requires SECTOR_COUNT == 1 && Tiled(t, b) && IsActive(t, a)
    ensures Standing(t)
  {
    assert ExtentOk(t, b, a);
    SectorStep(0);
    assert Page(t, a, InUse);
    CountSome(t, 0, PAGES_PER_SECTOR, InUse, a);
  }

  /** What is left over is part of the last extent taken. */
  lemma RestInLast(t: Extents, b: Bytes, q: nat, amount: nat, f: nat)
    requires Tiled(t, b) && f in t && f < q + amount < End(t, f) && End(t, f) == SectorStart(SectorOf(f) + 1)
    ensures SectorStart(SectorOf(q + amount) + 1) == End(t, f)
  {
    SectorOfPage(f);
    SectorStep(SectorOf(f));
    SectorUnique(q + amount, SectorOf(f));
  }

  /** A file put where the walk does not go is not found by it. */
  lemma OffWalkIsLost(t: Extents, b: Bytes, q: nat)
    requires Tiled(t, b) && NoHeadless(t) && q < PAGE_COUNT && !Boundary(t, q)
    ensures !Reaches(b, 0, q)
  {
    WalkFindsAll(t, b, q);
  }

  /** The search of `find_contiguous_pages`, wherever it starts. */
  function SearchFrom(b: Bytes, page: nat, start: int, amount: nat): int
    decreases PAGE_COUNT - page
  {
    if page >= PAGE_COUNT then -1
    else
      var h := HeaderAt(b, page);
      var next, s := NextFile(page, h), if start < 0 then page else start;
      if h.Free() && start < 0 && page + amount >= PAGE_COUNT then -1
      else if h.Free() && s + amount <= next then s
      else if next <= page then -1
      else SearchFrom(b, next, if h.Free() then s else -1, amount)
  }

  /** A header at the start of a blank sector that an extent from before covers: the search
      finds the place, and the walk does not come to it, before or after. */
  lemma BlindAllocation(t: Extents, b: Bytes, sector: nat, amount: nat, h: Header, b': Bytes)
    requires Tiled(t, b) && NoHeadless(t) && sector < SECTOR_COUNT && SectorStart(sector) !in t
    requires Zeros(b, Offset(SectorStart(sector)), Offset(SectorStart(sector) + PAGES_PER_SECTOR))
    requires 0 < amount <= PAGES_PER_SECTOR && SectorStart(sector) + amount < PAGE_COUNT
    requires HeaderWritten(b, b', SectorStart(sector), h)
    ensures SearchFrom(b, SectorStart(sector), -1, amount) == SectorStart(sector)
    ensures !Reaches(b', 0, SectorStart(sector))
  {
    var q := SectorStart(sector);
    SectorsInside(sector);
    SectorStep(sector);
    SectorUnique(q, sector);
    NextSectorIs(q);
    OffsetMono(q, q + PAGES_PER_SECTOR);
    DecodeZeros(b, Offset(q));
    HeaderOnly(b, b', q, h);
    forall a | a in t ensures ExtentOk(t, b', a) {
      assert ExtentOk(t, b, a);
      SectorOfPage(a);
      if a < q && SectorOf(a) >= sector && SectorOf(a) > sector { SectorMono(sector, SectorOf(a)); }
      if SectorOf(a) + 1 < sector { SectorMono(SectorOf(a) + 1, sector); }
      ExtentSame(t, b, t, b', q, q + 1, a);
    }
    OffWalkIsLost(t, b', q);
  }

  /** When collection takes the place where allocation goes on off the walk, the next extent
      of up to a sector lands there, where no search by name will ever find it. */
  lemma CollectionStrands(t0: Extents, t: Extents, b: Bytes, n0: nat, n: nat, mode: Mode, amount: nat, h: Header,
                          b': Bytes)
    requires Boundary(t0, n0) && !KeepsWalk(t0, n0, mode) && Lowered(t0, t, n0, n, mode)
    requires Tiled(t, b) && NoHeadless(t) && BlankThere(b, n0, n)
    requires 0 < amount <= PAGES_PER_SECTOR && n + amount < PAGE_COUNT && HeaderWritten(b, b', n, h)
    ensures SearchFrom(b, n, -1, amount) == n && !Reaches(b', 0, n)
  {
    LoweredOnWalk(t0, t, n0, n, mode);
    assert exists s: nat :: FirstErasable(t0, s, mode);
    var s: nat :| FirstErasable(t0, s, mode) && n == (if SectorStart(s) < n0 then SectorStart(s) else n0)
        && SameBelow(t0, t, SectorStart(s));
    var s1: nat :| FirstErasable(t0, s1, mode) && !(n0 <= SectorStart(s1) || SectorStart(s1) in t0);
    OneFirst(t0, s, s1, mode);
    BlindAllocation(t, b, s, amount, h, b');
  }

  lemma AllKept(t: Extents, b: Bytes)
    ensures ActiveKept(t, b, t, b)
  {
    forall a: nat ensures Kept(t, b, t, b, a) { }
  }

  // ----- A formatted device -----

  /** The first n sectors, all free. */
  ghost function FreeSectors(n: nat): Extents {
    if n == 0 then map[] else FreeSectors(n - 1)[SectorStart(n - 1) := Extent(PAGES_PER_SECTOR, Free)]
  }

  lemma {:induction false} FreeSectorsAt(n: nat, a: nat)
    ensures a in FreeSectors(n) <==> SectorStart(SectorOf(a)) == a && SectorOf(a) < n
    ensures a in FreeSectors(n) ==> FreeSectors(n)[a] == Extent(PAGES_PER_SECTOR, Free)
  {
    if n > 0 {
      FreeSectorsAt(n - 1, a);
      SectorStep(n - 1);
      SectorUnique(SectorStart(n - 1), n - 1);
      SectorOfPage(a);
    }
  }

  lemma FormattedTiled()
    ensures var b := seq<byte>(FLASH_SIZE, _ => 0);
            Tiled(FreeSectors(SECTOR_COUNT), b) && NoHeadless(FreeSectors(SECTOR_COUNT))
    ensures Boundary(FreeSectors(SECTOR_COUNT), 0)
    ensures forall a :: a in FreeSectors(SECTOR_COUNT) ==> FreeSectors(SECTOR_COUNT)[a].kind == Free
  {
    var t, b := FreeSectors(SECTOR_COUNT), seq<byte>(FLASH_SIZE, _ => 0);
    forall a | a in t ensures ExtentOk(t, b, a) && t[a].kind == Free && a < PAGE_COUNT { FormattedExtent(b, a); }
    SectorStep(0);
    PagesBound();
    SectorUnique(0, 0);
    FreeSectorsAt(SECTOR_COUNT, 0);
    forall a, c | a in t && c in t ensures Apart(t, a, c) {
      FreeSectorsAt(SECTOR_COUNT, a);
      FreeSectorsAt(SECTOR_COUNT, c);
      SectorsApart(a, c);
    }
  }

  lemma FormattedFills()
    ensures FreeFrom(FreeSectors(SECTOR_COUNT), 0) && Standing(FreeSectors(SECTOR_COUNT))
  {
    var t, b := FreeSectors(SECTOR_COUNT), seq<byte>(FLASH_SIZE, _ => 0);
    FormattedTiled();
    forall x: nat | x < PAGE_COUNT ensures Page(t, x, Spare) {
      SectorOfPage(x);
      SectorUnique(SectorStart(SectorOf(x)), SectorOf(x));
      SectorStep(SectorOf(x));
      FreeSectorsAt(SECTOR_COUNT, SectorStart(SectorOf(x)));
    }
    forall s: nat | s < SECTOR_COUNT ensures !Erasable(t, s, Greedy) {
      SectorsInside(s);
      SectorStep(s);
      CountRun(t, b, SectorStart(s), SectorStart(s) + PAGES_PER_SECTOR, Spare, Garbage);
    }
  }

  lemma SectorsApart(a: nat, c: nat)
    requires SectorStart(SectorOf(a)) == a && SectorStart(SectorOf(c)) == c
    ensures a < c ==> a + PAGES_PER_SECTOR <= c
  {
    if SectorOf(a) < SectorOf(c) {
      SectorMono(SectorOf(a), SectorOf(c));
    } else if SectorOf(c) < SectorOf(a) {
      SectorMono(SectorOf(c), SectorOf(a));
    }
  }

  lemma FormattedExtent(b: Bytes, a: nat)
    requires b == seq<byte>(FLASH_SIZE, _ => 0) && a in FreeSectors(SECTOR_COUNT)
    ensures ExtentOk(FreeSectors(SECTOR_COUNT), b, a) && FreeSectors(SECTOR_COUNT)[a] == Extent(PAGES_PER_SECTOR, Free)
    ensures a < PAGE_COUNT
  {
    FreeSectorsAt(SECTOR_COUNT, a);
    var s := SectorOf(a);
    SectorStep(s);
    SectorsInside(s);
    var e := a + PAGES_PER_SECTOR;
    if s + 1 < SECTOR_COUNT {
      SectorStep(s + 1);
      SectorUnique(e, s + 1);
      FreeSectorsAt(SECTOR_COUNT, e);
    } else {
      SectorStep(SECTOR_COUNT);
    }
  }
}
