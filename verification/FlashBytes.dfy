/** The bytes of the storage device and the file headers stored in them. */
module FlashBytes {
  import opened Words
  import opened CoffeeConfig

  type byte = b: int | 0 <= b < 256

  type Bytes = seq<byte>

  /** A byte outside the device reads as 0. */
  function At(b: Bytes, a: int): byte {
    if 0 <= a < |b| then b[a] else 0
  }

  /** `COFFEE_READ` */
  function Slice(b: Bytes, a: nat, n: nat): (r: Bytes)
    ensures |r| == n
  {
    seq<byte>(n, i => At(b, a + i))
  }

  /** `COFFEE_WRITE` */
  function Put(b: Bytes, a: nat, d: Bytes): (r: Bytes)
    ensures |r| == |b|
  {
    seq<byte>(|b|, i requires 0 <= i < |b| => if a <= i < a + |d| then d[i - a] else b[i])
  }

  /** Writing bytes changes those and no others. */
  lemma PutAt(b: Bytes, a: nat, d: Bytes, x: int)
    ensures At(Put(b, a, d), x) == if a <= x < a + |d| && x < |b| then d[x - a] else At(b, x)
  {
  }

  lemma SliceSame(b: Bytes, b': Bytes, a: nat, n: nat)
    requires forall x :: a <= x < a + n ==> At(b', x) == At(b, x)
    ensures Slice(b', a, n) == Slice(b, a, n)
  {
  }

  ghost predicate Zeros(b: Bytes, lo: int, hi: int) {
    forall x :: lo <= x < hi ==> At(b, x) == 0
  }

  /** The little-endian word of two bytes. */
  function Pair(lo: byte, hi: byte): nat {
    (lo as int) + 256 * (hi as int)
  }

  /** A 16-bit word, low byte first. */
  function Word16(b: Bytes, a: nat): nat {
    Pair(At(b, a), At(b, a + 1))
  }

  function Bytes16(x: nat): Bytes
    requires x < 0x1_0000
  {
    [x % 256, x / 256]
  }

  // ----- Headers -----

  /** `struct file_header`. Page numbers are signed. */
  datatype Header = Header(
    logPage: int, logRecords: nat, logRecordSize: nat, maxPages: int, hint: nat,
    valid: bool, inUse: bool, obsolete: bool, modified: bool, log: bool, isolated: bool,
    name: Bytes)
  {
    predicate Free() {
      !inUse
    }

    predicate Active() {
      inUse && !obsolete && !isolated
    }

    predicate Fits() {
      && -0x8000 <= logPage < 0x8000 && logRecords < 0x1_0000 && logRecordSize < 0x1_0000
      && -0x8000 <= maxPages < 0x8000 && hint < 256 && |name| == NAME_LENGTH
    }
  }

  function ZeroName(): Bytes {
    seq<byte>(NAME_LENGTH, _ => 0)
  }

  /** The header of a page of zeros. */
  function ZeroHeader(): Header {
    Header(0, 0, 0, 0, 0, false, false, false, false, false, false, ZeroName())
  }

  function Signed(x: nat): int
    requires x < 0x1_0000
  {
    if x < 0x8000 then x else x - 0x1_0000
  }

  function Unsigned(x: int): nat
    requires -0x8000 <= x < 0x8000
  {
    if x >= 0 then x else x + 0x1_0000
  }

  function Flag(on: bool, value: nat): nat {
    if on then value else 0
  }

  function FlagByte(h: Header): (f: nat)
    ensures f < 64
  {
    Flag(h.valid, 1) + Flag(h.inUse, 2) + Flag(h.obsolete, 4) + Flag(h.modified, 8) + Flag(h.log, 16) +
        Flag(h.isolated, 32)
  }

  function Encode(h: Header): (r: Bytes)
    requires h.Fits()
    ensures |r| == HEADER_SIZE
  {
    Bytes16(Unsigned(h.logPage)) + Bytes16(h.logRecords) + Bytes16(h.logRecordSize) + Bytes16(Unsigned(h.maxPages))
    + [h.hint, FlagByte(h)] + h.name
  }

  /** The header at byte a: its fields, once all of its name has been read. */
  function DecodeFrom(b: Bytes, a: nat, name: Bytes): Header
    decreases NAME_LENGTH - |name|
  {
    if |name| < NAME_LENGTH then DecodeFrom(b, a, name + [At(b, a + 10 + |name|)])
    else
      var f := At(b, a + 9);
      Header(Signed(Word16(b, a)), Word16(b, a + 2), Word16(b, a + 4), Signed(Word16(b, a + 6)), At(b, a + 8),
             f % 2 == 1, f / 2 % 2 == 1, f / 4 % 2 == 1, f / 8 % 2 == 1, f / 16 % 2 == 1, f / 32 % 2 == 1, name)
  }

  /** `read_header`, at byte a. */
  function Decode(b: Bytes, a: nat): Header {
    DecodeFrom(b, a, [])
  }

  lemma {:induction false} DecodeFromIs(b: Bytes, a: nat, name: Bytes)
    requires |name| <= NAME_LENGTH && name == Slice(b, a + 10, |name|)
    ensures DecodeFrom(b, a, name) == DecodeFrom(b, a, Slice(b, a + 10, NAME_LENGTH))
    decreases NAME_LENGTH - |name|
  {
    if |name| < NAME_LENGTH {
      var name' := name + [At(b, a + 10 + |name|)];
      assert name' == Slice(b, a + 10, |name'|);
      DecodeFromIs(b, a, name');
    }
  }

  /** The fields of a header, each at its place. */
  lemma DecodeIs(b: Bytes, a: nat)
    ensures var f := At(b, a + 9);
            Decode(b, a) == Header(Signed(Word16(b, a)), Word16(b, a + 2), Word16(b, a + 4), Signed(Word16(b, a + 6)),
                                   At(b, a + 8),
                                   f % 2 == 1, f / 2 % 2 == 1, f / 4 % 2 == 1, f / 8 % 2 == 1, f / 16 % 2 == 1,
                                       f / 32 % 2 == 1,
                                   Slice(b, a + 10, NAME_LENGTH))
  {
    assert [] == Slice(b, a + 10, 0);
    DecodeFromIs(b, a, []);
  }

  lemma FlagBits(v: bool, a: bool, o: bool, m: bool, l: bool, i: bool)
    ensures var f := Flag(v, 1) + Flag(a, 2) + Flag(o, 4) + Flag(m, 8) + Flag(l, 16) + Flag(i, 32);
            && (f % 2 == 1) == v && (f / 2 % 2 == 1) == a && (f / 4 % 2 == 1) == o
            && (f / 8 % 2 == 1) == m && (f / 16 % 2 == 1) == l && (f / 32 % 2 == 1) == i
  {
  }

  lemma EncodedWords(h: Header)
    requires h.Fits()
    ensures var e := Encode(h);
            && Pair(e[0], e[1]) == Unsigned(h.logPage) && Pair(e[2], e[3]) == h.logRecords
            && Pair(e[4], e[5]) == h.logRecordSize && Pair(e[6], e[7]) == Unsigned(h.maxPages)
            && e[8] == h.hint && e[9] == FlagByte(h) && e[10..] == h.name
  {
  }

  lemma SignedBack(x: int)
    requires -0x8000 <= x < 0x8000
    ensures Signed(Unsigned(x)) == x
  {
  }

  /** What is written as a header is read back as that header. */
  lemma EncodeDecode(b: Bytes, a: nat, h: Header)
    requires h.Fits() && a + HEADER_SIZE <= |b|
    ensures Decode(Put(b, a, Encode(h)), a) == h
  {
    var e, b' := Encode(h), Put(b, a, Encode(h));
    DecodeIs(b', a);
    EncodedWords(h);
    SignedBack(h.logPage);
    SignedBack(h.maxPages);
    FlagBits(h.valid, h.inUse, h.obsolete, h.modified, h.log, h.isolated);
    NameBack(b, a, e, h.name);
    WordBack(b, a, e, 0);
    WordBack(b, a, e, 2);
    WordBack(b, a, e, 4);
    WordBack(b, a, e, 6);
    PutAt(b, a, e, a + 8);
    PutAt(b, a, e, a + 9);
  }

  lemma WordBack(b: Bytes, a: nat, e: Bytes, k: nat)
    requires k + 1 < |e| && a + |e| <= |b|
    ensures Word16(Put(b, a, e), a + k) == Pair(e[k], e[k + 1])
  {
    PutAt(b, a, e, a + k);
    PutAt(b, a, e, a + k + 1);
  }

  lemma NameBack(b: Bytes, a: nat, e: Bytes, name: Bytes)
    requires |e| == HEADER_SIZE && |name| == NAME_LENGTH && e[10..] == name && a + |e| <= |b|
    ensures Slice(Put(b, a, e), a + 10, NAME_LENGTH) == name
  {
    forall i | 0 <= i < NAME_LENGTH ensures Slice(Put(b, a, e), a + 10, NAME_LENGTH)[i] == name[i] {
      PutAt(b, a, e, a + 10 + i);
      assert e[10..][i] == e[10 + i];
    }
  }

  /** A header depends only on its own bytes. */
  lemma DecodeSame(b: Bytes, b': Bytes, a: nat)
    requires forall x :: a <= x < a + HEADER_SIZE ==> At(b', x) == At(b, x)
    ensures Decode(b', a) == Decode(b, a)
  {
    DecodeIs(b, a);
    DecodeIs(b', a);
    SliceSame(b, b', a + 10, NAME_LENGTH);
  }

  lemma DecodeZeros(b: Bytes, a: nat)
    requires Zeros(b, a, a + HEADER_SIZE)
    ensures Decode(b, a) == ZeroHeader()
  {
    DecodeIs(b, a);
    assert Slice(b, a + 10, NAME_LENGTH) == ZeroName();
  }

  lemma DecodeFits(b: Bytes, a: nat)
    ensures Decode(b, a).Fits()
  {
    DecodeIs(b, a);
  }

  /** The header at a page. */
  function HeaderAt(b: Bytes, page: nat): Header {
    Decode(b, Offset(page))
  }
}
