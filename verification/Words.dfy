/**
 Machine words of the allocator: `size_t` and `binmap_t` are 32-bit unsigned
 integers, held here as naturals below 2^32 with every wrap-around written out.
 A word is understood through its bits; each operator is characterised by what it
 does to a bit.
 */
module Words {

  const WORD: nat := 0x1_0000_0000

  function Pow2(n: nat): (r: nat)
    ensures r > 0
  {
    if n == 0 then 1 else 2 * Pow2(n - 1)
  }

  /** Bit `i` of `x`. */
  predicate Bit(x: nat, i: nat) {
    if i == 0 then x % 2 == 1 else Bit(x / 2, i - 1)
  }

  function And(x: nat, y: nat): nat {
    if x == 0 || y == 0 then 0
    else (if x % 2 == 1 && y % 2 == 1 then 1 else 0) + 2 * And(x / 2, y / 2)
  }

  function Or(x: nat, y: nat): nat {
    if x == 0 then y else if y == 0 then x
    else (if x % 2 == 1 || y % 2 == 1 then 1 else 0) + 2 * Or(x / 2, y / 2)
  }

  function Not(x: nat): nat
    requires x < WORD
  {
    WORD - 1 - x
  }

  /** Two's complement negation. */
  function Neg(x: nat): nat
    requires x < WORD
  {
    if x == 0 then 0 else WORD - x
  }

  function Shr(x: nat, n: nat): nat {
    if n == 0 then x else Shr(x / 2, n - 1)
  }

  function Shl(x: nat, n: nat): nat
    requires x < WORD
    decreases n
  {
    if n == 0 then x else Shl((2 * x) % WORD, n - 1)
  }

  lemma Pow2Values()
    ensures Pow2(1) == 2 && Pow2(2) == 4 && Pow2(3) == 8 && Pow2(4) == 16
    ensures Pow2(7) == 128 && Pow2(8) == 256 && Pow2(16) == 0x1_0000 && Pow2(31) == 0x8000_0000 && Pow2(32) == WORD
  {
    assert Pow2(4) == 16;
    assert Pow2(8) == 256 by { assert Pow2(6) == 64; }
    assert Pow2(12) == 0x1000 by { assert Pow2(10) == 0x400; }
    assert Pow2(16) == 0x1_0000 by { assert Pow2(14) == 0x4000; }
    assert Pow2(20) == 0x10_0000 by { assert Pow2(18) == 0x4_0000; }
    assert Pow2(24) == 0x100_0000 by { assert Pow2(22) == 0x40_0000; }
    assert Pow2(28) == 0x1000_0000 by { assert Pow2(26) == 0x400_0000; }
    assert Pow2(32) == WORD by { assert Pow2(30) == 0x4000_0000; }
  }

  lemma {:induction false} Pow2Mono(a: nat, b: nat)
    requires a <= b
    ensures Pow2(a) <= Pow2(b)
    ensures a < b ==> 2 * Pow2(a) <= Pow2(b)
    decreases b
  {
    if a < b {
      Pow2Mono(a, b - 1);
    }
  }

  lemma {:induction false} Pow2Add(a: nat, b: nat)
    ensures Pow2(a + b) == Pow2(a) * Pow2(b)
  {
    if a > 0 {
      Pow2Add(a - 1, b);
      assert Pow2(a + b) == 2 * Pow2(a - 1 + b);
    }
  }

  // ----- What each operator does to a bit -----

  lemma {:induction false} BitZero(i: nat)
    ensures !Bit(0, i)
  {
    if i > 0 { BitZero(i - 1); }
  }

  lemma {:induction false} BitPow2(k: nat, i: nat)
    ensures Bit(Pow2(k), i) <==> i == k
  {
    if i == 0 {
    } else if k == 0 {
      BitZero(i - 1);
    } else {
      BitPow2(k - 1, i - 1);
    }
  }

  lemma {:induction false} BitAnd(x: nat, y: nat, i: nat)
    ensures Bit(And(x, y), i) <==> Bit(x, i) && Bit(y, i)
  {
    if x == 0 || y == 0 {
      BitZero(i);
    } else if i > 0 {
      BitAnd(x / 2, y / 2, i - 1);
    }
  }

  lemma {:induction false} BitOr(x: nat, y: nat, i: nat)
    ensures Bit(Or(x, y), i) <==> Bit(x, i) || Bit(y, i)
  {
    if x == 0 || y == 0 {
      BitZero(i);
    } else if i > 0 {
      BitOr(x / 2, y / 2, i - 1);
    }
  }

  lemma {:induction false} BitShr(x: nat, n: nat, i: nat)
    ensures Bit(Shr(x, n), i) <==> Bit(x, i + n)
  {
    if n > 0 {
      BitShr(x / 2, n - 1, i);
    }
  }

  /** A number below 2^w has no bit at or above w. */
  lemma {:induction false} BitBound(x: nat, w: nat, i: nat)
    requires x < Pow2(w) && w <= i
    ensures !Bit(x, i)
  {
    if w == 0 {
      BitZero(i);
    } else {
      BitBound(x / 2, w - 1, i - 1);
    }
  }

  /** The complement within w bits flips each of them. */
  lemma {:induction false} BitComplement(x: nat, w: nat, i: nat)
    requires x < Pow2(w) && i < w
    ensures Bit(Pow2(w) - 1 - x, i) <==> !Bit(x, i)
  {
    if i > 0 {
      assert (Pow2(w) - 1 - x) / 2 == Pow2(w - 1) - 1 - x / 2;
      BitComplement(x / 2, w - 1, i - 1);
    }
  }

  lemma {:induction false} BitModPow2(x: nat, w: nat, i: nat)
    ensures Bit(x % Pow2(w), i) <==> i < w && Bit(x, i)
  {
    if w == 0 {
      BitZero(i);
    } else {
      HalfMod(x, w);
      if i > 0 {
        BitModPow2(x / 2, w - 1, i - 1);
      }
    }
  }

  lemma HalfMod(x: nat, w: nat)
    requires w > 0
    ensures x % Pow2(w) % 2 == x % 2
    ensures x % Pow2(w) / 2 == (x / 2) % Pow2(w - 1)
  {
    HalfModDiv(x, Pow2(w), Pow2(w - 1));
  }

  lemma HalfModDiv(x: nat, d: nat, p: nat)
    requires p > 0 && d == 2 * p
    ensures x % d % 2 == x % 2 && x % d / 2 == (x / 2) % p
  {
    var q, s := x / 2 / p, x / 2 % p;
    DivModDef(x / 2, p);
    DoubleMul(q, p);
    MulEq(q, d, 2 * p);
    DivModUnique(x, d, q, 2 * s + x % 2);
  }

  lemma DivModDef(x: nat, d: nat)
    requires d > 0
    ensures x == (x / d) * d + x % d && x % d < d
  {
  }

  lemma MulEq(a: nat, b: nat, c: nat)
    requires b == c
    ensures a * b == a * c
  {
  }

  lemma DoubleMul(x: nat, p: nat)
    ensures x * (2 * p) == 2 * (x * p)
    ensures x * (2 * p) == (2 * x) * p
    ensures p > 0 ==> 2 * x <= (2 * x) * p
  {
    if p > 0 { MulAtLeast(2 * x, p); }
  }

  lemma MulAtLeast(x: nat, p: nat)
    requires p > 0
    ensures x <= x * p
  {
    assert x * p == x + x * (p - 1);
    assert x * (p - 1) >= 0;
  }

  lemma DivModUnique(x: nat, m: nat, q: nat, r: nat)
    requires m > 0 && x == q * m + r && r < m
    ensures x / m == q && x % m == r
  {
    var q' := x / m;
    if q' < q {
      MulGap(q', q, m);
    } else if q < q' {
      MulGap(q, q', m);
    }
  }

  lemma MulGap(a: nat, b: nat, m: nat)
    requires a < b
    ensures a * m + m <= b * m
  {
    assert (b - a - 1) * m >= 0;
    assert b * m == a * m + m + (b - a - 1) * m;
  }

  lemma {:induction false} BitShl(x: nat, n: nat, i: nat)
    requires x < WORD
    ensures Bit(Shl(x, n), i) <==> i < 32 && n <= i && Bit(x, i - n)
    decreases n
  {
    Pow2Values();
    if n == 0 {
      if i >= 32 { BitBound(x, 32, i); }
    } else {
      var y := (2 * x) % WORD;
      BitShl(y, n - 1, i);
      if n <= i {
        BitModPow2(2 * x, 32, i - n + 1);
      } else if n == i + 1 {
        BitModPow2(2 * x, 32, 0);
      }
    }
  }

  lemma BitNot(x: nat, i: nat)
    requires x < WORD && i < 32
    ensures Bit(Not(x), i) <==> !Bit(x, i)
  {
    Pow2Values();
    BitComplement(x, 32, i);
  }

  lemma {:induction false} AndBound(x: nat, y: nat)
    ensures And(x, y) <= x && And(x, y) <= y
  {
    if x != 0 && y != 0 { AndBound(x / 2, y / 2); }
  }

  lemma {:induction false} OrBound(x: nat, y: nat, w: nat)
    requires x < Pow2(w) && y < Pow2(w)
    ensures Or(x, y) < Pow2(w)
  {
    if x != 0 && y != 0 { OrBound(x / 2, y / 2, w - 1); }
  }

  /** `x & (1 << b)` is that bit or nothing. */
  lemma {:induction false} AndPow2(x: nat, b: nat)
    ensures And(x, Pow2(b)) == if Bit(x, b) then Pow2(b) else 0
  {
    if x == 0 {
      BitZero(b);
    } else if b > 0 {
      AndPow2(x / 2, b - 1);
    } else {
      assert And(x / 2, 0) == 0;
    }
  }

  lemma {:induction false} ShrDiv(x: nat, n: nat)
    ensures Shr(x, n) == x / Pow2(n)
  {
    if n > 0 {
      ShrDiv(x / 2, n - 1);
      DivDiv(x, Pow2(n - 1));
    }
  }

  lemma DivDiv(x: nat, p: nat)
    requires p > 0
    ensures x / 2 / p == x / (2 * p)
  {
    var q, r := x / 2 / p, x / 2 % p;
    assert x / 2 == q * p + r;
    assert x == q * (2 * p) + (2 * r + x % 2);
    DivModUnique(x, 2 * p, q, 2 * r + x % 2);
  }

  lemma {:induction false} ShlOne(n: nat)
    requires n < 32
    ensures Shl(1, n) == Pow2(n) < WORD
  {
    Pow2Values();
    ShlPow2(0, n);
    Pow2Mono(n, 31);
  }

  lemma ShlDoubles(x: nat, n: nat)
    requires n > 0 && 2 * x < WORD
    ensures Shl(x, n) == Shl(2 * x, n - 1)
  {
    assert (2 * x) % WORD == 2 * x;
  }

  lemma {:induction false} ShlPow2(k: nat, n: nat)
    requires k + n < 32 && Pow2(k) < WORD
    ensures Shl(Pow2(k), n) == Pow2(k + n)
    decreases n
  {
    if n > 0 {
      assert Pow2(k + 1) == 2 * Pow2(k);
      assert 2 * Pow2(k) < WORD by {
        Pow2Values();
        Pow2Mono(k + 1, 31);
      }
      ShlDoubles(Pow2(k), n);
      ShlPow2(k + 1, n - 1);
    }
  }

  // ----- Bitmaps: marking, clearing, and finding the next marked index -----

  function Idx2Bit(i: nat): nat {
    Shl(1, i)
  }

  function Mark(m: nat, i: nat): nat {
    Or(m, Idx2Bit(i))
  }

  function Clear(m: nat, i: nat): nat
    requires i < 32
  {
    ShlOne(i);
    And(m, Not(Idx2Bit(i)))
  }

  predicate IsMarked(m: nat, i: nat) {
    And(m, Idx2Bit(i)) != 0
  }

  function LeastBit(x: nat): (r: nat)
    requires x < WORD
    ensures r < WORD && (x > 0 ==> r > 0)
  {
    LeastBitIsPow2(x);
    And(x, Neg(x))
  }

  function LeftBits(x: nat): nat
    requires x < WORD
  {
    ShlBound(x, 1);
    Or(Shl(x, 1), Neg(Shl(x, 1)))
  }

  /** The running state of `compute_bit2idx`: the index found so far and the word left. */
  datatype Narrowing = Narrowing(n: nat, y: nat)

  /** One step `N += K = Y >> (h - lg) & h; Y >>= K`. */
  function Narrow(s: Narrowing, h: nat, lg: nat): Narrowing
    requires lg <= h
  {
    var k := And(Shr(s.y, h - lg), h);
    Narrowing(s.n + k, Shr(s.y, k))
  }

  /** The steps for h, h/2, ..., 1. */
  function NarrowAll(s: Narrowing, h: nat, lg: nat): Narrowing
    requires h == Pow2(lg)
    decreases lg, s
  {
    LgBound(lg);
    if lg == 0 then Narrow(s, 1, 0) else NarrowAll(Narrow(s, h, lg), h / 2, lg - 1)
  }

  /** The branch-free `compute_bit2idx`: five steps from 16 down to 1. */
  function Bit2Idx(x: nat): nat
    requires x > 0
  {
    var s := NarrowAll(Narrowing(0, x - 1), 16, 4);
    s.n + s.y
  }

  /** Index of the lowest set bit. */
  ghost function Lowest(x: nat): nat
    requires x > 0
  {
    if x % 2 == 1 then 0 else 1 + Lowest(x / 2)
  }

  lemma {:induction false} ShlBound(x: nat, n: nat)
    requires x < WORD
    ensures Shl(x, n) < WORD
    decreases n
  {
    if n > 0 { ShlBound((2 * x) % WORD, n - 1); }
  }

  lemma {:induction false} LowestIsLeast(x: nat)
    requires x > 0
    ensures Bit(x, Lowest(x))
    ensures forall i :: 0 <= i < Lowest(x) ==> !Bit(x, i)
  {
    if x % 2 == 0 {
      LowestIsLeast(x / 2);
      forall i | 0 <= i < Lowest(x) ensures !Bit(x, i) {
        if i > 0 { assert !Bit(x / 2, i - 1); }
      }
    }
  }

  lemma {:induction false} AndComplement(x: nat, w: nat)
    requires x < Pow2(w)
    ensures And(x, Pow2(w) - 1 - x) == 0
  {
    if w > 0 {
      assert (Pow2(w) - 1 - x) / 2 == Pow2(w - 1) - 1 - x / 2;
      AndComplement(x / 2, w - 1);
    }
  }

  lemma {:induction false} AndNeg(x: nat, w: nat)
    requires 0 < x < Pow2(w)
    ensures And(x, Pow2(w) - x) == Pow2(Lowest(x))
  {
    var y := Pow2(w) - x;
    if x % 2 == 1 {
      assert y / 2 == Pow2(w - 1) - 1 - x / 2;
      AndComplement(x / 2, w - 1);
    } else {
      assert y / 2 == Pow2(w - 1) - x / 2;
      AndNeg(x / 2, w - 1);
    }
  }

  lemma {:induction false} BitNegPow2(m: nat, w: nat, i: nat)
    requires m <= w
    ensures Pow2(m) <= Pow2(w)
    ensures Bit(Pow2(w) - Pow2(m), i) <==> m <= i < w
  {
    Pow2Mono(m, w);
    if m == 0 {
      if i < w {
        BitZero(i);
        BitComplement(0, w, i);
      } else {
        BitBound(Pow2(w) - 1, w, i);
      }
    } else if i > 0 {
      BitNegPow2(m - 1, w - 1, i - 1);
      assert (Pow2(w) - Pow2(m)) / 2 == Pow2(w - 1) - Pow2(m - 1);
    }
  }

  /** `left_bits(1 << k)` has exactly the bits above k. */
  lemma LeftBitsOfIdx(k: nat, i: nat)
    requires k < 32
    ensures Idx2Bit(k) < WORD
    ensures LeftBits(Idx2Bit(k)) < WORD
    ensures Bit(LeftBits(Idx2Bit(k)), i) <==> k < i < 32
  {
    Pow2Values();
    ShlOne(k);
    var s := Shl(Pow2(k), 1);
    ShlBound(Pow2(k), 1);
    if k == 31 {
      assert s == Shl(0, 0) == 0;
      BitZero(i);
    } else {
      Pow2Mono(k + 1, 31);
      assert s == Pow2(k + 1);
      BitNegPow2(k + 1, 32, i);
      BitPow2(k + 1, i);
    }
    BitOr(s, Neg(s), i);
    OrBound(s, Neg(s), 32);
  }

  /** One halving step of `compute_bit2idx` on a run of ones. */
  lemma RunOfOnes(j: nat, h: nat, lg: nat)
    requires h == Pow2(lg)
    ensures h >= lg
    ensures And(Shr(Pow2(j) - 1, h - lg), h) == if j > h then h else 0
    ensures j > h ==> Shr(Pow2(j) - 1, h) == Pow2(j - h) - 1
  {
    LgBound(lg);
    AndPow2(Shr(Pow2(j) - 1, h - lg), lg);
    BitShr(Pow2(j) - 1, h - lg, lg);
    BitNegPow2(0, j, h);
    if j > h { ShiftOnes(j, h); }
  }

  lemma ShiftOnes(j: nat, h: nat)
    requires j > h
    ensures Shr(Pow2(j) - 1, h) == Pow2(j - h) - 1
  {
    var a, b := Pow2(j - h), Pow2(h);
    ShrDiv(Pow2(j) - 1, h);
    Pow2Add(j - h, h);
    assert a * b == (a - 1) * b + b;
    DivModUnique(Pow2(j) - 1, b, a - 1, b - 1);
  }

  lemma {:induction false} LgBound(lg: nat)
    ensures Pow2(lg) > lg
  {
    if lg > 0 { LgBound(lg - 1); }
  }

  lemma LeastBitIsPow2(x: nat)
    requires x < WORD
    ensures And(x, Neg(x)) < WORD
    ensures x > 0 ==> And(x, Neg(x)) == Pow2(Lowest(x)) && Lowest(x) < 32
  {
    Pow2Values();
    AndBound(x, Neg(x));
    if x > 0 {
      AndNeg(x, 32);
      LowestIsLeast(x);
      if Lowest(x) >= 32 { BitBound(x, 32, Lowest(x)); }
    }
  }

  lemma NarrowOnes(n: nat, j: nat, h: nat, lg: nat)
    requires h == Pow2(lg) && lg <= h
    ensures Narrow(Narrowing(n, Pow2(j) - 1), h, lg)
         == if j > h then Narrowing(n + h, Pow2(j - h) - 1) else Narrowing(n, Pow2(j) - 1)
  {
    RunOfOnes(j, h, lg);
  }

  lemma {:induction false} NarrowAllOnes(n: nat, j: nat, h: nat, lg: nat)
    requires h == Pow2(lg) && j <= 2 * h
    ensures NarrowAll(Narrowing(n, Pow2(j) - 1), h, lg).n + NarrowAll(Narrowing(n, Pow2(j) - 1), h, lg).y == n + j
    decreases lg
  {
    LgBound(lg);
    NarrowOnes(n, j, h, lg);
    if lg > 0 {
      if j > h { NarrowAllOnes(n + h, j - h, h / 2, lg - 1); } else { NarrowAllOnes(n, j, h / 2, lg - 1); }
    }
  }

  lemma Bit2IdxOfPow2(k: nat)
    requires k < 32
    ensures Bit2Idx(Pow2(k)) == k
  {
    assert Pow2(4) == 16;
    var h, lg := 16, 4;
    Bit2IdxSteps(k, h, lg);
  }

  lemma Bit2IdxSteps(k: nat, h: nat, lg: nat)
    requires h == Pow2(lg) && k <= 2 * h
    ensures var s := NarrowAll(Narrowing(0, Pow2(k) - 1), h, lg); s.n + s.y == k
  {
    NarrowAllOnes(0, k, h, lg);
  }

  /** `compute_bit2idx(least_bit(x))` is the index of the lowest marked bit. */
  lemma FirstMarked(x: nat)
    requires 0 < x < WORD
    ensures var i := Bit2Idx(LeastBit(x)); i < 32 && Bit(x, i) && forall j :: 0 <= j < i ==> !Bit(x, j)
  {
    LeastBitIsPow2(x);
    LowestIsLeast(x);
    Bit2IdxOfPow2(Lowest(x));
  }

  lemma MarkBits(m: nat, i: nat)
    requires m < WORD && i < 32
    ensures Mark(m, i) < WORD
    ensures forall j :: 0 <= j ==> (Bit(Mark(m, i), j) <==> Bit(m, j) || j == i)
  {
    Pow2Values();
    ShlOne(i);
    OrBound(m, Pow2(i), 32);
    forall j | 0 <= j ensures Bit(Mark(m, i), j) <==> Bit(m, j) || j == i {
      BitOr(m, Pow2(i), j);
      BitPow2(i, j);
    }
  }

  lemma ClearBits(m: nat, i: nat)
    requires m < WORD && i < 32
    ensures Clear(m, i) < WORD
    ensures forall j :: 0 <= j < 32 ==> (Bit(Clear(m, i), j) <==> Bit(m, j) && j != i)
  {
    ShlOne(i);
    AndBound(m, Not(Pow2(i)));
    forall j | 0 <= j < 32 ensures Bit(Clear(m, i), j) <==> Bit(m, j) && j != i {
      BitAnd(m, Not(Pow2(i)), j);
      BitNot(Pow2(i), j);
      BitPow2(i, j);
    }
  }

  lemma IsMarkedBit(m: nat, i: nat)
    requires i < 32
    ensures IsMarked(m, i) <==> Bit(m, i)
  {
    ShlOne(i);
    AndPow2(m, i);
  }

  /** `x` holds the marks of `m` above `k`, so its first bit is the next mark of `m`. */
  ghost predicate FindsNext(m: nat, k: nat, x: nat)
    requires x < WORD
  {
    && (x == 0 ==> forall j :: k < j < 32 ==> !Bit(m, j))
    && (x != 0 ==> k < Bit2Idx(LeastBit(x)) < 32 && Bit(m, Bit2Idx(LeastBit(x))))
    && (x != 0 ==> forall j :: k < j < Bit2Idx(LeastBit(x)) ==> !Bit(m, j))
  }

  lemma MarksAbove(m: nat, k: nat, x: nat)
    requires x < WORD
    requires forall j :: 0 <= j ==> (Bit(x, j) <==> k < j < 32 && Bit(m, j))
    ensures FindsNext(m, k, x)
  {
    if x == 0 {
      forall j | k < j < 32 ensures !Bit(m, j) {
        BitZero(j);
        assert Bit(x, j) <==> Bit(m, j);
      }
    } else {
      FirstMarked(x);
      assert Bit(x, Bit2Idx(LeastBit(x)));
      forall j | k < j < Bit2Idx(LeastBit(x)) ensures !Bit(m, j) {
        assert !Bit(x, j);
      }
    }
  }

  /** Masking a map with `left_bits(1 << k)` and taking the first bit left gives the
      least marked index above k; an empty mask means there is none. */
  lemma NextMarked(m: nat, k: nat)
    requires m < WORD && k < 32
    ensures Idx2Bit(k) < WORD
    ensures And(LeftBits(Idx2Bit(k)), m) < WORD
    ensures FindsNext(m, k, And(LeftBits(Idx2Bit(k)), m))
  {
    LeftBitsOfIdx(k, 0);
    var l := LeftBits(Idx2Bit(k));
    AndBound(l, m);
    forall j | 0 <= j ensures Bit(And(l, m), j) <==> k < j < 32 && Bit(m, j) {
      LeftBitsOfIdx(k, j);
      BitAnd(l, m, j);
    }
    MarksAbove(m, k, And(l, m));
  }

  lemma ShiftedBit(m: nat, k: nat, j: nat)
    requires m < WORD && k < 32
    ensures Shr(m, k) < WORD
    ensures k <= j < 32 ==> (Bit(Shl(Shr(m, k), k), j) <==> Bit(m, j))
  {
    ShrBound(m, k);
    BitShl(Shr(m, k), k, j);
    if k <= j { BitShr(m, k, j - k); }
  }

  /** The same for the small-request path, which first drops the bits below k. */
  lemma NextMarkedShifted(m: nat, k: nat)
    requires m < WORD && k < 32
    ensures Shr(m, k) < WORD && Idx2Bit(k) < WORD
    ensures And(Shl(Shr(m, k), k), LeftBits(Idx2Bit(k))) < WORD
    ensures FindsNext(m, k, And(Shl(Shr(m, k), k), LeftBits(Idx2Bit(k))))
  {
    ShrBound(m, k);
    LeftBitsOfIdx(k, 0);
    var l, s := LeftBits(Idx2Bit(k)), Shl(Shr(m, k), k);
    AndBound(s, l);
    var x := And(s, l);
    forall j | 0 <= j ensures Bit(x, j) <==> k < j < 32 && Bit(m, j) {
      LeftBitsOfIdx(k, j);
      BitAnd(s, l, j);
      ShiftedBit(m, k, j);
    }
    MarksAbove(m, k, x);
  }

  lemma {:induction false} ShrBound(m: nat, k: nat)
    ensures Shr(m, k) <= m
  {
    if k > 0 { ShrBound(m / 2, k - 1); }
  }

  /** The tests of the small-request path on the map shifted down by k. */
  lemma ShiftedTests(m: nat, k: nat)
    requires m < WORD && k < 32
    ensures Shr(m, k) < WORD
    ensures And(Shr(m, k), 3) != 0 <==> Bit(m, k) || Bit(m, k + 1)
    ensures And(Not(Shr(m, k)), 1) == if Bit(m, k) then 0 else 1
  {
    ShrBound(m, k);
    BitShr(m, k, 0);
    BitShr(m, k, 1);
    LowBits(Shr(m, k));
  }

  lemma LowBits(s: nat)
    requires s < WORD
    ensures And(s, 3) != 0 <==> Bit(s, 0) || Bit(s, 1)
    ensures And(Not(s), 1) == if Bit(s, 0) then 0 else 1
  {
    assert Bit(s, 1) == Bit(s / 2, 0);
    assert And(s, 3) == (if s % 2 == 1 then 1 else 0) + 2 * And(s / 2, 1);
    assert And(s / 2, 1) == if s / 2 % 2 == 1 then 1 else 0;
    assert Not(s) % 2 == 1 - s % 2;
  }

  lemma ShiftedZero(m: nat, k: nat)
    requires m < WORD && k < 32 && Shr(m, k) == 0
    ensures forall j :: k <= j < 32 ==> !Bit(m, j)
  {
    forall j | k <= j < 32 ensures !Bit(m, j) {
      BitShr(m, k, j - k);
      BitZero(j - k);
    }
  }

  lemma ShiftedNonZero(m: nat, k: nat) returns (j: nat)
    requires m < WORD && k < 32 && Shr(m, k) != 0
    ensures k <= j < 32 && Bit(m, j)
  {
    var i := SomeBit(Shr(m, k));
    ShiftedUp(m, k, i);
    j := k + i;
  }

  lemma {:induction false} SomeBit(x: nat) returns (i: nat)
    requires x > 0
    ensures Bit(x, i)
  {
    if x % 2 == 1 {
      i := 0;
    } else {
      i := SomeBit(x / 2);
      i := i + 1;
    }
  }

  lemma ShiftedUp(m: nat, k: nat, i: nat)
    requires m < WORD && Bit(Shr(m, k), i)
    ensures var j := k + i; j < 32 && Bit(m, j)
  {
    BitShr(m, k, i);
    Pow2Values();
    if k + i >= 32 { BitBound(m, 32, k + i); }
  }

  /** `idx += ~smallbits & 1` finds the marked one of two neighbours. */
  lemma NearMarked(m: nat, k: nat)
    requires m < WORD && k < 32 && And(Shr(m, k), 3) != 0
    ensures Shr(m, k) < WORD
    ensures var i := k + And(Not(Shr(m, k)), 1); k <= i < 32 && i <= k + 1 && Bit(m, i) && (i > k ==> !Bit(m, k))
  {
    ShiftedTests(m, k);
    if k == 31 {
      Pow2Values();
      BitBound(m, 32, 32);
    }
  }

  /** When neither neighbour is marked but something higher is, the next mark is at least
      two places up. */
  lemma FarMarked(m: nat, k: nat, x: nat)
    requires m < WORD && k < 32 && And(Shr(m, k), 3) == 0 && Shr(m, k) != 0
    requires Shr(m, k) < WORD && Idx2Bit(k) < WORD && x == And(Shl(Shr(m, k), k), LeftBits(Idx2Bit(k)))
    ensures 0 < x < WORD
    ensures var i := Bit2Idx(LeastBit(x)); k + 2 <= i < 32 && Bit(m, i) && forall j :: k <= j < i ==> !Bit(m, j)
  {
    assert !Bit(m, k) && !Bit(m, k + 1) by { ShiftedTests(m, k); }
    var j := ShiftedNonZero(m, k);
    NextMarkedShifted(m, k);
    FarStep(m, k, x, j);
  }

  lemma FarStep(m: nat, k: nat, x: nat, j: nat)
    requires x < WORD && FindsNext(m, k, x) && !Bit(m, k) && !Bit(m, k + 1) && k <= j < 32 && Bit(m, j)
    ensures x > 0
    ensures var i := Bit2Idx(LeastBit(x)); k + 2 <= i < 32 && Bit(m, i) && forall j :: k <= j < i ==> !Bit(m, j)
  {
    assert k < j;
  }

  /** A mask of ones keeps a word that fits in it. */
  lemma {:induction false} AndOnes(x: nat, n: nat)
    requires x < Pow2(n)
    ensures And(x, Pow2(n) - 1) == x
  {
    if n > 0 {
      AndOnes(x / 2, n - 1);
      assert (Pow2(n) - 1) / 2 == Pow2(n - 1) - 1;
    }
  }

  /** A mask of ones from bit n on clears what is below. */
  lemma {:induction false} AndHigh(x: nat, n: nat, w: nat)
    requires x < Pow2(w) && n <= w
    ensures Pow2(n) <= Pow2(w) && And(x, Pow2(w) - Pow2(n)) == x / Pow2(n) * Pow2(n)
  {
    if n == 0 {
      AndOnes(x, w);
    } else {
      AndHigh(x / 2, n - 1, w - 1);
      assert Pow2(w) - Pow2(n) == 2 * (Pow2(w - 1) - Pow2(n - 1));
      HalfHigh(x, Pow2(n - 1));
      AndTwice(x, Pow2(w - 1) - Pow2(n - 1));
    }
  }

  lemma AndTwice(x: nat, m: nat)
    ensures And(x, 2 * m) == 2 * And(x / 2, m)
  {
  }

  lemma HalfHigh(x: nat, p: nat)
    requires p > 0
    ensures x / (2 * p) * (2 * p) == 2 * (x / 2 / p * p)
  {
    DivDiv(x, p);
  }

  // ----- Products and quotients of unknowns, in steps -----

  /** n * size. */
  function Times(n: nat, size: nat): nat {
    if n == 0 then 0 else Times(n - 1, size) + size
  }

  lemma {:induction false} TimesIs(n: nat, size: nat)
    ensures Times(n, size) == n * size
  {
    if n > 0 { TimesIs(n - 1, size); }
  }

  lemma {:induction false} TimesAdd(m: nat, n: nat, size: nat)
    ensures Times(m + n, size) == Times(m, size) + Times(n, size)
  {
    if n > 0 { TimesAdd(m, n - 1, size); }
  }

  lemma {:induction false} TimesMono(m: nat, n: nat, size: nat)
    requires m <= n
    ensures Times(m, size) <= Times(n, size)
    ensures m < n ==> Times(m, size) + size <= Times(n, size)
  {
    if m < n { TimesMono(m, n - 1, size); }
  }

  /** x / n. */
  function Quotient(x: nat, n: nat): nat
    requires n > 0
  {
    if x < n then 0 else 1 + Quotient(x - n, n)
  }

  /** x % n. */
  function Rest(x: nat, n: nat): (r: nat)
    requires n > 0
    ensures r < n
  {
    if x < n then x else Rest(x - n, n)
  }

  lemma {:induction false} QuotientParts(x: nat, n: nat)
    requires n > 0
    ensures x == Times(Quotient(x, n), n) + Rest(x, n)
  {
    if x >= n {
      QuotientParts(x - n, n);
    }
  }

  lemma QuotientUnique(x: nat, n: nat, q: nat, r: nat)
    requires n > 0 && x == Times(q, n) + r && r < n
    ensures Quotient(x, n) == q && Rest(x, n) == r
  {
    QuotientParts(x, n);
    if Quotient(x, n) < q { TimesMono(Quotient(x, n), q, n); }
    if q < Quotient(x, n) { TimesMono(q, Quotient(x, n), n); }
  }

  /** They are what C computes with `/` and `%`. */
  lemma QuotientIs(x: nat, n: nat)
    requires n > 0
    ensures Quotient(x, n) == x / n && Rest(x, n) == x % n
  {
    QuotientParts(x, n);
    TimesIs(Quotient(x, n), n);
    DivModUnique(x, n, Quotient(x, n), Rest(x, n));
  }
}
