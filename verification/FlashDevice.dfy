/** The storage device: reads, writes, and erasing a sector to zeros. */
module FlashDevice {
  import opened CoffeeConfig
  import opened FlashBytes

  /** `COFFEE_ERASE` */
  function Erased(b: Bytes, sector: nat): Bytes {
    Put(b, Offset(SectorStart(sector)), seq<byte>(Offset(PAGES_PER_SECTOR), _ => 0))
  }

  /** b' is b with header h written at a page. */
  ghost predicate HeaderWritten(b: Bytes, b': Bytes, page: nat, h: Header) {
    && |b'| == |b| && HeaderAt(b', page) == h
    && forall x: int :: !(Offset(page) <= x < Offset(page) + HEADER_SIZE) ==> At(b', x) == At(b, x)
  }

  lemma PutHeader(b: Bytes, page: nat, h: Header)
    requires h.Fits() && |b| == FLASH_SIZE && page < PAGE_COUNT
    ensures HeaderWritten(b, Put(b, Offset(page), Encode(h)), page, h)
  {
    OffsetMono(page, PAGE_COUNT);
    EncodeDecode(b, Offset(page), h);
    var b' := Put(b, Offset(page), Encode(h));
    forall x: int | !(Offset(page) <= x < Offset(page) + HEADER_SIZE) ensures At(b', x) == At(b, x) {
      PutAt(b, Offset(page), Encode(h), x);
    }
  }

  lemma ErasedAt(b: Bytes, sector: nat, x: int)
    requires |b| == FLASH_SIZE
    ensures At(Erased(b, sector), x) ==
              if Offset(SectorStart(sector)) <= x < Offset(SectorStart(sector) + PAGES_PER_SECTOR) then 0 else At(b, x)
  {
    OffsetAdd(SectorStart(sector), PAGES_PER_SECTOR);
    PutAt(b, Offset(SectorStart(sector)), seq<byte>(Offset(PAGES_PER_SECTOR), _ => 0), x);
  }

  class Flash {
    var bytes: Bytes

    constructor ()
      ensures bytes == seq<byte>(FLASH_SIZE, _ => 0)
    {
      bytes := seq<byte>(FLASH_SIZE, _ => 0);
    }

    method Read(a: nat, n: nat) returns (d: Bytes)
      ensures d == Slice(bytes, a, n)
    {
      d := Slice(bytes, a, n);
    }

    method Write(a: nat, d: Bytes)
      modifies this
      ensures bytes == Put(old(bytes), a, d)
    {
      bytes := Put(bytes, a, d);
    }

    /** `read_header` */
    method ReadHeader(page: nat) returns (h: Header)
      ensures h == HeaderAt(bytes, page)
    {
      h := HeaderAt(bytes, page);
    }

    /** `write_header` */
    method WriteHeader(h: Header, page: nat)
      requires h.Fits() && |bytes| == FLASH_SIZE && page < PAGE_COUNT
      modifies this
      ensures HeaderWritten(old(bytes), bytes, page, h.(valid := true))
    {
      PutHeader(bytes, page, h.(valid := true));
      bytes := Put(bytes, Offset(page), Encode(h.(valid := true)));
    }

    method Erase(sector: nat)
      modifies this
      ensures bytes == Erased(old(bytes), sector)
    {
      bytes := Erased(bytes, sector);
    }
  }
}
