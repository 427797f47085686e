/**
 Chunk sizes and bin indices: request padding, the two families of bins, and the
 branch-free `compute_tree_index`, in the 32-bit configuration with 8-byte alignment.
 */
module BinIndex {
  import opened Words

  const MIN_CHUNK_SIZE: nat := 16
  const CHUNK_OVERHEAD: nat := 4
  const MIN_REQUEST: nat := 11
  const MAX_REQUEST: nat := WORD - 64
  const MAX_SIZE_T: nat := WORD - 1
  const NSMALLBINS: nat := 32
  const NTREEBINS: nat := 32
  const MIN_LARGE_SIZE: nat := 256
  const MAX_SMALL_REQUEST: nat := 244

  /** `(req + CHUNK_OVERHEAD + CHUNK_ALIGN_MASK) & ~CHUNK_ALIGN_MASK`, in 32 bits. */
  function PadRequest(req: nat): nat {
    (req + 11) % WORD / 8 * 8
  }

  function Request2Size(req: nat): nat {
    if req < MIN_REQUEST then MIN_CHUNK_SIZE else PadRequest(req)
  }

  predicate IsSmall(s: nat) {
    s / 8 < NSMALLBINS
  }

  function SmallIndex(s: nat): nat {
    s / 8
  }

  /** Below the bound that `dlmalloc` tests, padding gives the least multiple of 8 that
      is a legal chunk size and still leaves `req` usable bytes. */
  lemma Request2SizeIsLeast(req: nat)
    requires req < MAX_REQUEST
    ensures Request2Size(req) % 8 == 0 && MIN_CHUNK_SIZE <= Request2Size(req) < WORD
    ensures req + CHUNK_OVERHEAD <= Request2Size(req)
    ensures forall s ::
              0 <= s && s % 8 == 0 && MIN_CHUNK_SIZE <= s && req + CHUNK_OVERHEAD <= s ==> Request2Size(req) <= s
    ensures req <= MAX_SMALL_REQUEST <==> IsSmall(Request2Size(req))
  {
    assert (req + 11) % WORD == req + 11;
  }

  lemma Request2SizeRoom(req: nat)
    requires req < MAX_REQUEST
    ensures req + CHUNK_OVERHEAD <= Request2Size(req)
  {
    Request2SizeIsLeast(req);
  }

  /** 32-bit `y - t`. */
  function Wrap(y: nat, t: nat): nat
    requires t < WORD
  {
    (y + WORD - t) % WORD
  }

  /** `((y - t) >> 16) & m`: the mask m when the subtraction borrows. */
  function Borrow(y: nat, t: nat, m: nat): nat
    requires t < WORD
  {
    And(Shr(Wrap(y, t), 16), m)
  }

  /** The size of the smallest chunk held in tree bin `i`. */
  function MinSize(i: nat): nat {
    Pow2(i / 2 + 8) + (i % 2) * Pow2(i / 2 + 7)
  }

  /** The bin of size `s`: two bins to each doubling of the size, and one last bin. */
  function TreeIndex(s: nat): nat {
    if s < 384 then 0
    else if s < 512 then 1
    else if TreeIndex(s / 2) + 2 < NTREEBINS then TreeIndex(s / 2) + 2
    else NTREEBINS - 1
  }

  lemma BorrowTest(y: nat, t: nat, b: nat)
    requires y < 0x1_0000 && t <= 0x1_0000 && b < 16
    ensures Borrow(y, t, Pow2(b)) == if y < t then Pow2(b) else 0
  {
    var w := Wrap(y, t);
    ShrDiv(w, 16);
    Pow2Values();
    if y < t {
      assert w == WORD - (t - y);
      assert w / 0x1_0000 == 0xFFFF;
      BitNegPow2(0, 16, b);
    } else {
      assert w == y - t;
      BitZero(b);
    }
    AndPow2(Shr(w, 16), b);
  }

  lemma ShlStep(y: nat)
    requires y < WORD
    ensures y % WORD == y
  {
  }

  lemma {:induction false} ShlMul(x: nat, n: nat)
    requires x * Pow2(n) < WORD && x < WORD
    ensures Shl(x, n) == x * Pow2(n)
    decreases n
  {
    if n > 0 {
      var p := Pow2(n - 1);
      DoubleMul(x, p);
      assert Pow2(n) == 2 * p;
      assert x * Pow2(n) == (2 * x) * p;
      ShlStep(2 * x);
      ShlMul(2 * x, n - 1);
    }
  }

  /** A step shifts left by h = 2^b exactly when the word is below `t`. */
  lemma NormalStep(x: nat, n: nat, y: nat, t: nat, h: nat, b: nat)
    requires y == x * Pow2(n) && y < 0x1_0000 && t <= 0x1_0000 && h == Pow2(b) && b < 16
    requires t * Pow2(h) <= 0x1_0000
    ensures Borrow(y, t, h) == if y < t then h else 0
    ensures Shl(y, Borrow(y, t, h)) == if y < t then y * Pow2(h) else y
    ensures y < t ==> y * Pow2(h) < 0x1_0000
    ensures Shl(y, Borrow(y, t, h)) == x * Pow2(n + Borrow(y, t, h))
  {
    BorrowTest(y, t, b);
    if y < t {
      MulMono(y, t, Pow2(h));
      ShlMul(y, h);
      Pow2Add(n, h);
      MulAssoc(x, Pow2(n), Pow2(h));
    }
  }

  lemma MulMono(a: nat, b: nat, m: nat)
    requires a < b && m > 0
    ensures a * m < b * m
  {
    MulGap(a, b, m);
  }

  lemma MulAssoc(a: nat, b: nat, c: nat)
    ensures a * b * c == a * (b * c)
  {
  }

  /** Dividing the normalised word back: if 2^(e) <= x * 2^n < 2^(e+1), then x is between
      2^(e-n) and 2^(e-n+1). */
  lemma Denormalise(x: nat, n: nat, e: nat)
    requires n <= e && Pow2(e) <= x * Pow2(n) < Pow2(e + 1)
    ensures Pow2(e - n) <= x < Pow2(e - n + 1)
  {
    Pow2Add(e - n, n);
    Pow2Add(e - n + 1, n);
    if x < Pow2(e - n) { MulMono(x, Pow2(e - n), Pow2(n)); }
    if x >= Pow2(e - n + 1) {
      if x > Pow2(e - n + 1) { MulMono(Pow2(e - n + 1), x, Pow2(n)); }
    }
  }

  lemma TopBitOfNormal(x: nat, n: nat, y: nat)
    returns (k: nat)
    requires n <= 14 && y == x * Pow2(n) && 0x4000 <= y < 0x1_0000
    ensures k < 16 && Pow2(k) <= x < Pow2(k + 1)
    ensures k == 14 - n + Shr(y, 15)
  {
    var e := if y < 0x8000 then 14 else 15;
    assert Pow2(e) <= y < Pow2(e + 1) && Shr(y, 15) == e - 14 by {
      ShrDiv(y, 15);
      assert Pow2(14) == 0x4000;
    }
    Denormalise(x, n, e);
    k := e - n;
  }

  lemma HalfBin(s: nat, k: nat)
    requires Pow2(k) <= s / 256 < Pow2(k + 1)
    ensures And(Shr(s, k + 7), 1) <= 1
    ensures And(Shr(s, k + 7), 1) == if s < 3 * Pow2(k + 7) then 0 else 1
    ensures 2 * Pow2(k + 7) <= s < 4 * Pow2(k + 7)
  {
    var p := Pow2(k + 7);
    Pow2Add(k, 7);
    Pow2Add(k + 1, 7);
    assert Pow2(7) == 128;
    assert p == 128 * Pow2(k);
    ShrDiv(s, k + 7);
    AndPow2(Shr(s, k + 7), 0);
    if s < 3 * p { DivModUnique(s, p, 2, s - 2 * p); } else { DivModUnique(s, p, 3, s - 3 * p); }
  }

  /** One step `N += K = ((Y - t) >> 16) & h; Y <<= K`, with h = 2^b. */
  method ShiftBelow(ghost x: nat, n: nat, y: nat, t: nat, h: nat, ghost b: nat) returns (n': nat, y': nat)
    requires y == x * Pow2(n) && y < 0x1_0000 && t <= 0x1_0000 && h == Pow2(b) && b < 16
    requires t * Pow2(h) <= 0x1_0000
    ensures n' == if y < t then n + h else n
    ensures y' == if y < t then y * Pow2(h) else y
    ensures y' == x * Pow2(n') && y' < 0x1_0000
  {
    NormalStep(x, n, y, t, h, b);
    var k := Borrow(y, t, h);
    y' := Shl(y, k);
    n' := n + k;
  }

  /** The shift-and-borrow part of `compute_tree_index`: K is the position of the highest
      bit of X. */
  method HighestBit(x: nat) returns (k: nat)
    requires 0 < x <= 0xFFFF
    ensures k < 16 && Pow2(k) <= x < Pow2(k + 1)
  {
    assert Pow2(8) == 256 && Pow2(4) == 16 && Pow2(2) == 4 && Pow2(3) == 8 && Pow2(1) == 2;
    var n, y := ShiftBelow(x, 0, x, 0x100, 8, 3);
    n, y := ShiftBelow(x, n, y, 0x1000, 4, 2);
    n, y := ShiftBelow(x, n, y, 0x4000, 2, 1);
    ghost var highest := TopBitOfNormal(x, n, y);
    k := 14 - n + Shr(y, 15);
  }

  /** `compute_tree_index` is exact on every 32-bit size. */
  method ComputeTreeIndex(s: nat) returns (i: nat)
    requires s < WORD
    ensures i == TreeIndex(s)
  {
    ShrDiv(s, 8);
    assert Pow2(8) == 256;
    var x := Shr(s, 8);
    if x == 0 {
      i := 0;
    } else if x > 0xFFFF {
      i := NTREEBINS - 1;
      MinSizeLast();
      TreeIndexUnique(s, i);
    } else {
      var k := HighestBit(x);
      HalfBin(s, k);
      i := 2 * k + And(Shr(s, k + 7), 1);
      HalfBinIndex(s, k, i);
      TreeIndexUnique(s, i);
    }
  }

  lemma TreeIndexUnique(s: nat, i: nat)
    requires MIN_LARGE_SIZE <= s
    requires i < NTREEBINS && MinSize(i) <= s && (i < NTREEBINS - 1 ==> s < MinSize(i + 1))
    ensures TreeIndex(s) == i
  {
    TreeIndexExact(s);
    var j := TreeIndex(s);
    if j < i && j + 1 < i { MinSizeMono(j + 1, i); }
    if i < j && i + 1 < j { MinSizeMono(i + 1, j); }
  }

  lemma MinSizeDoubles(i: nat)
    ensures MinSize(i + 2) == 2 * MinSize(i)
  {
    var e := i / 2;
    assert (i + 2) / 2 == e + 1;
    assert Pow2(e + 9) == 2 * Pow2(e + 8);
    assert Pow2(e + 8) == 2 * Pow2(e + 7);
  }

  /** Bin i holds the sizes from MinSize(i) up to, and not including, MinSize(i + 1); the
      last bin holds everything above. */
  lemma {:induction false} TreeIndexExact(s: nat)
    requires MIN_LARGE_SIZE <= s
    ensures TreeIndex(s) < NTREEBINS && MinSize(TreeIndex(s)) <= s
    ensures TreeIndex(s) < NTREEBINS - 1 ==> s < MinSize(TreeIndex(s) + 1)
  {
    if s < 512 {
      assert MinSize(0) == 256 && MinSize(1) == 384 && MinSize(2) == 512;
    } else {
      TreeIndexExact(s / 2);
      var i := TreeIndex(s / 2);
      MinSizeDoubles(i);
      MinSizeDoubles(i + 1);
      if i == NTREEBINS - 1 {
        MinSizeStep(i);
        MinSizeStep(i + 1);
      } else if i == NTREEBINS - 2 {
        MinSizeStep(i + 1);
      }
    }
  }

  lemma HalfBinIndex(s: nat, k: nat, i: nat)
    requires 2 * Pow2(k + 7) <= s < 4 * Pow2(k + 7)
    requires i == 2 * k + if s < 3 * Pow2(k + 7) then 0 else 1
    ensures MinSize(i) <= s < MinSize(i + 1)
  {
    assert i / 2 == k;
    assert Pow2(k + 8) == 2 * Pow2(k + 7);
    if i % 2 == 1 {
      assert (i + 1) / 2 == k + 1;
      assert Pow2(k + 9) == 2 * Pow2(k + 8);
    }
  }

  lemma MinSizeLast()
    ensures MinSize(31) == 0xC0_0000
  {
    assert Pow2(12) == 0x1000;
    assert Pow2(23) == 0x80_0000 by { Pow2Add(12, 11); assert Pow2(11) == 0x800; }
  }

  lemma {:induction false} MinSizeMono(i: nat, j: nat)
    requires i < j
    ensures MinSize(i) < MinSize(j)
    decreases j
  {
    MinSizeStep(j - 1);
    if i < j - 1 {
      MinSizeMono(i, j - 1);
    }
  }

  lemma MinSizeStep(i: nat)
    ensures MinSize(i) < MinSize(i + 1)
  {
    assert Pow2(i / 2 + 8) == 2 * Pow2(i / 2 + 7);
    if i % 2 == 1 {
      assert (i + 1) / 2 == i / 2 + 1;
    }
  }

  /** Smaller bins hold smaller sizes. */
  lemma BinsOrdered(s: nat, t: nat)
    requires MIN_LARGE_SIZE <= s && MIN_LARGE_SIZE <= t
    requires TreeIndex(s) < TreeIndex(t)
    ensures s < t
  {
    TreeIndexExact(s);
    TreeIndexExact(t);
    if TreeIndex(s) + 1 < TreeIndex(t) {
      MinSizeMono(TreeIndex(s) + 1, TreeIndex(t));
    }
  }

  // ----- The size that `dlcalloc` asks for -----

  /** The exact product, or a size that cannot be served. */
  function CallocSize(count: nat, size: nat): nat {
    if count * size < WORD then count * size else MAX_SIZE_T
  }

  /** The test of `dlcalloc`: both factors below 2^16 need no division. */
  predicate Suspect(count: nat, size: nat) {
    And(Or(count, size), Not(0xFFFF)) != 0
  }

  lemma SmallFactors(count: nat, size: nat)
    requires count < WORD && size < WORD && !Suspect(count, size)
    ensures count < 0x1_0000 && size < 0x1_0000
  {
    Pow2Values();
    OrBound(count, size, 32);
    AndHigh(Or(count, size), 16, 32);
    assert WORD - 0x1_0000 == Not(0xFFFF);
    var x := Or(count, size);
    assert x < 0x1_0000;
    OrAtLeast(count, size);
  }

  lemma {:induction false} OrAtLeast(x: nat, y: nat)
    ensures x <= Or(x, y) && y <= Or(x, y)
  {
    if x != 0 && y != 0 {
      OrAtLeast(x / 2, y / 2);
    }
  }

  lemma SmallProduct(a: nat, b: nat)
    requires a < 0x1_0000 && b < 0x1_0000
    ensures a * b < WORD
  {
    if a > 0 { MulMono(b, 0x1_0000, a); }
  }

  /** Division undoes the 32-bit product exactly when it did not overflow. */
  lemma ProductTest(count: nat, size: nat)
    requires 0 < count < WORD && size < WORD
    ensures (count * size) % WORD / count == size <==> count * size < WORD
  {
    var p := count * size;
    if p >= WORD {
      assert p % WORD <= p - WORD;
    } else {
      DivModUnique(p, count, size, 0);
    }
  }

  lemma CallocSizeFacts(count: nat, size: nat)
    ensures CallocSize(count, size) < WORD
    ensures if count * size < MAX_REQUEST then CallocSize(count, size) == count * size
            else CallocSize(count, size) >= MAX_REQUEST
  {
  }

  /** The request of `dlcalloc`, computed in 32 bits. */
  method CallocRequest(count: nat, size: nat) returns (req: nat)
    requires count < WORD && size < WORD
    ensures req == CallocSize(count, size)
  {
    req := 0;
    if count != 0 {
      ProductTest(count, size);
      req := (count * size) % WORD;
      if Suspect(count, size) {
        if req / count != size {
          req := MAX_SIZE_T;
        }
      } else {
        SmallFactors(count, size);
        SmallProduct(count, size);
      }
    }
  }
}
