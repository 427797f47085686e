/**
 The shape of the bitwise tries that hold the large free chunks. A node of the trie of
 bin `i` has a position number n: the root is 1 and the children of n are 2n and 2n+1.
 Position n stands for an interval of sizes whose width halves at each level.
 */
module Trie {
  import opened Words
  import opened BinIndex

  datatype Pos = Pos(bin: nat, n: nat)

  /** The trie of bin i covers the 2^TopExp(i) sizes from BaseLo(i). */
  function TopExp(i: nat): nat {
    if i == NTREEBINS - 1 then 32 else i / 2 + 7
  }

  function BaseLo(i: nat): nat {
    if i == NTREEBINS - 1 then 0 else MinSize(i)
  }

  /** Shift placing the bit that selects a child of the root as the sign bit. */
  function LeftShift(i: nat): nat
    requires i < NTREEBINS
  {
    if i == NTREEBINS - 1 then 0 else 31 - (i / 2 + 8 - 2)
  }

  ghost function Exp(i: nat, n: nat): int
    requires n >= 1
  {
    if n == 1 then TopExp(i) else Exp(i, n / 2) - 1
  }

  ghost function Lo(i: nat, n: nat): nat
    requires n >= 1
  {
    if n == 1 then BaseLo(i)
    else Lo(i, n / 2) + if n % 2 == 1 && Exp(i, n) >= 0 then Pow2(Exp(i, n)) else 0
  }

  ghost function Hi(i: nat, n: nat): nat
    requires n >= 1
  {
    Lo(i, n) + if Exp(i, n) >= 0 then Pow2(Exp(i, n)) else 0
  }

  /** Size `s` belongs below position n of bin i. */
  ghost predicate Covers(i: nat, n: nat, s: nat)
    requires n >= 1
  {
    Exp(i, n) >= 0 && Lo(i, n) <= s < Hi(i, n)
  }

  /** m is n or a descendant of n. */
  ghost predicate Below(n: nat, m: nat) {
    m == n || (m > n && Below(n, m / 2))
  }

  lemma RootCovers(s: nat)
    requires MIN_LARGE_SIZE <= s < WORD
    ensures TreeIndex(s) < NTREEBINS && Covers(TreeIndex(s), 1, s)
  {
    var i := TreeIndex(s);
    TreeIndexExact(s);
    if i == NTREEBINS - 1 {
      assert Pow2(32) == WORD by { Pow2Values(); }
    } else {
      BinWidth(i);
    }
  }

  lemma BinWidth(i: nat)
    ensures MinSize(i + 1) == MinSize(i) + Pow2(i / 2 + 7)
  {
    assert Pow2(i / 2 + 8) == 2 * Pow2(i / 2 + 7);
    if i % 2 == 1 { assert (i + 1) / 2 == i / 2 + 1; }
  }

  lemma Halves(i: nat, n: nat)
    requires n >= 1 && Exp(i, n) >= 1
    ensures Lo(i, 2 * n) == Lo(i, n) && Hi(i, 2 * n) == Lo(i, 2 * n + 1) && Hi(i, 2 * n + 1) == Hi(i, n)
    ensures Exp(i, 2 * n) == Exp(i, 2 * n + 1) == Exp(i, n) - 1
    ensures Lo(i, 2 * n + 1) == Lo(i, n) + Pow2(Exp(i, n) - 1)
  {
    assert (2 * n) / 2 == n && (2 * n + 1) / 2 == n;
  }

  lemma ChildExp(i: nat, n: nat, b: nat)
    requires n >= 1 && b < 2
    ensures Exp(i, 2 * n + b) == Exp(i, n) - 1
  {
    assert (2 * n + b) / 2 == n;
  }

  lemma RightEnd(i: nat, n: nat)
    requires n >= 1 && Exp(i, n) >= 1
    ensures Hi(i, 2 * n + 1) == Hi(i, n)
  {
    Halves(i, n);
  }

  lemma LowEnd(i: nat, n: nat, m: nat, s: nat)
    requires n >= 1 && m >= 1 && Covers(i, m, s) && (Below(n, m) || Hi(i, n) <= s)
    ensures Lo(i, n) <= s
  {
    if Below(n, m) { BelowCovers(i, n, m, s); }
  }

  /** Two sizes below one position leave room for children. */
  lemma TwoSizes(i: nat, n: nat, s: nat, t: nat)
    requires n >= 1 && Covers(i, n, s) && Covers(i, n, t) && s != t
    ensures Exp(i, n) >= 1
  {
    assert Pow2(0) == 1;
  }

  lemma {:induction false} BelowChild(n: nat, m: nat)
    requires n >= 1 && Below(n, m) && m != n
    ensures Below(2 * n, m) || Below(2 * n + 1, m)
  {
    if m / 2 == n {
      assert m == 2 * n || m == 2 * n + 1;
    } else {
      BelowChild(n, m / 2);
      BelowLe(2 * n, m / 2);
      BelowLe(2 * n + 1, m / 2);
    }
  }

  lemma {:induction false} BelowLe(n: nat, m: nat)
    ensures Below(n, m) ==> n <= m
  {
  }

  lemma {:induction false} BelowParent(n: nat, m: nat, b: nat)
    requires n >= 1 && b < 2 && Below(2 * n + b, m)
    ensures Below(n, m) && m != n
  {
    if m == 2 * n + b {
      assert m / 2 == n;
    } else {
      BelowParent(n, m / 2, b);
    }
  }

  lemma {:induction false} BelowLonger(n: nat, m: nat, b: nat)
    requires m >= 1 && b < 2 && Below(n, m)
    ensures Below(n, 2 * m + b) && 2 * m + b != n
  {
    BelowLe(n, m);
    assert (2 * m + b) / 2 == m;
  }

  lemma CoversParent(i: nat, m: nat, s: nat)
    requires m > 1 && Covers(i, m, s)
    ensures Covers(i, m / 2, s)
  {
    Halves(i, m / 2);
    assert m == 2 * (m / 2) || m == 2 * (m / 2) + 1;
  }

  lemma {:induction false} BelowCovers(i: nat, n: nat, m: nat, s: nat)
    requires n >= 1 && m >= 1 && Below(n, m) && Covers(i, m, s)
    ensures Covers(i, n, s)
    decreases m
  {
    if m != n {
      CoversParent(i, m, s);
      BelowCovers(i, n, m / 2, s);
    }
  }

  /** Of the two children of n, the one that covers `s` is the one above m. */
  lemma ChildSide(i: nat, n: nat, m: nat, s: nat, b: nat)
    requires n >= 1 && m >= 1 && Below(n, m) && m != n && Exp(i, n) >= 1 && b < 2
    requires Covers(i, m, s) && Covers(i, 2 * n + b, s)
    ensures Below(2 * n + b, m)
  {
    BelowChild(n, m);
    var left, right := 2 * n, 2 * n + 1;
    Halves(i, n);
    if Below(left, m) {
      BelowCovers(i, left, m, s);
    } else {
      BelowCovers(i, right, m, s);
    }
  }

  lemma {:induction false} HiBelowRoot(i: nat, n: nat)
    requires n >= 1 && Exp(i, n) >= 0
    ensures Hi(i, n) <= Hi(i, 1)
    decreases n
  {
    if n > 1 {
      Halves(i, n / 2);
      HiBelowRoot(i, n / 2);
      assert n == 2 * (n / 2) || n == 2 * (n / 2) + 1;
    }
  }

  lemma HiRoot(i: nat)
    requires i < NTREEBINS - 1
    ensures Hi(i, 1) == MinSize(i + 1)
  {
    BinWidth(i);
  }

  // ----- Reading a size bit by bit -----

  /** The value of the search word (`sizebits`) at position n: what is left of `s` above
      the interval's start, scaled so that the next branch bit is the sign bit. */
  ghost predicate BitsAt(i: nat, n: nat, s: nat, k: nat)
    requires n >= 1
  {
    Covers(i, n, s) && Exp(i, n) <= 32 && k == (s - Lo(i, n)) * Pow2(32 - Exp(i, n))
  }

  lemma InitialBits(s: nat)
    requires MIN_LARGE_SIZE <= s < WORD
    ensures TreeIndex(s) < NTREEBINS
    ensures BitsAt(TreeIndex(s), 1, s, Shl(s, LeftShift(TreeIndex(s))))
  {
    RootCovers(s);
    var i := TreeIndex(s);
    if i < NTREEBINS - 1 {
      ScaledSize(s, i);
      assert LeftShift(i) == 25 - i / 2;
      assert Exp(i, 1) == i / 2 + 7 && Lo(i, 1) == MinSize(i);
    } else {
      assert LeftShift(i) == 0 && Pow2(0) == 1 && Exp(i, 1) == 32 && Lo(i, 1) == 0;
    }
  }

  lemma PowWord(a: nat, b: nat)
    ensures a + b == 32 ==> Pow2(a) * Pow2(b) == WORD
    ensures a + b == 31 ==> Pow2(a) * Pow2(b) == 0x8000_0000
  {
    Pow2Add(a, b);
    Pow2Values();
  }

  lemma ScaledSize(s: nat, i: nat)
    requires i < NTREEBINS - 1 && MinSize(i) <= s < MinSize(i) + Pow2(i / 2 + 7) && s < WORD
    ensures Shl(s, 25 - i / 2) == (s - MinSize(i)) * Pow2(25 - i / 2)
  {
    var e := i / 2;
    var w, m := Pow2(e + 7), Pow2(25 - e);
    PowWord(e + 7, 25 - e);
    ShlMod(s, 25 - e);
    assert Pow2(e + 8) == 2 * w;
    ScaledFrom(s, w, m, i % 2, MinSize(i));
  }

  lemma ScaledFrom(s: nat, w: nat, m: nat, b: nat, lo: nat)
    requires w > 0 && m > 0 && w * m == WORD && b < 2 && lo == 2 * w + b * w && lo <= s < lo + w
    ensures (s * m) % WORD == (s - lo) * m
  {
    if b == 0 {
      ScaledLow(s, w, m, 2);
    } else {
      ScaledLow(s, w, m, 3);
    }
  }

  /** Scaling drops a whole multiple c*w of the interval width. */
  lemma ScaledLow(s: nat, w: nat, m: nat, c: nat)
    requires w > 0 && m > 0 && w * m == WORD && c * w <= s < c * w + w
    ensures (s * m) % WORD == (s - c * w) * m
  {
    var d := s - c * w;
    Distribute(c * w, d, m);
    MulAssoc(c, w, m);
    MulLess(d, w, m);
    DivModUnique(s * m, WORD, c, d * m);
  }

  lemma Distribute(a: nat, b: nat, m: nat)
    ensures (a + b) * m == a * m + b * m
  {
  }

  lemma ModMulLeft(a: nat, p: nat, w: nat)
    requires w > 0
    ensures ((a % w) * p) % w == (a * p) % w
  {
    var q, r := a / w, a % w;
    DivModDef(a, w);
    DivModDef(r * p, w);
    ModMulParts(a, p, w, q, r, (r * p) / w, (r * p) % w);
  }

  lemma ModMulParts(a: nat, p: nat, w: nat, q: nat, r: nat, q': nat, r': nat)
    requires a == q * w + r && r * p == q' * w + r' && r' < w
    ensures (a * p) % w == r'
  {
    Distribute(q * w, r, p);
    MulSwap(q, w, p);
    Distribute(q * p, q', w);
    DivModUnique(a * p, w, q * p + q', r');
  }

  lemma MulSwap(a: nat, b: nat, c: nat)
    ensures a * b * c == a * c * b
  {
  }

  lemma MulLess(a: nat, b: nat, m: nat)
    requires a < b && m > 0
    ensures a * m < b * m
  {
    MulGap(a, b, m);
  }

  lemma {:induction false} ShlMod(x: nat, n: nat)
    requires x < WORD
    ensures Shl(x, n) == (x * Pow2(n)) % WORD
    decreases n
  {
    if n > 0 {
      ShlMod((2 * x) % WORD, n - 1);
      ModMulLeft(2 * x, Pow2(n - 1), WORD);
      DoubleMul(x, Pow2(n - 1));
    }
  }

  lemma HalfStep(d: nat, half: nat, m: nat)
    requires half * m == 0x8000_0000 && d < 2 * half && m > 0
    ensures d * m < WORD
    ensures d < half ==> d * m < 0x8000_0000 && (2 * (d * m)) % WORD == d * (2 * m)
    ensures d >= half ==> d * m >= 0x8000_0000 && (2 * (d * m)) % WORD == (d - half) * (2 * m)
  {
    DoubleMul(d, m);
    assert 2 * (d * m) == (2 * d) * m by { MulAssoc(2, d, m); }
    Distribute(half, half, m);
    MulLess(d, 2 * half, m);
    if d < half {
      MulLess(d, half, m);
    } else {
      var r := d - half;
      Distribute(r, half, m);
      DoubleMul(r, m);
      MulAssoc(2, r, m);
    }
  }

  /** The sign bit of the search word selects the child whose interval holds `s`, and
      shifting left by one gives the search word there. */
  lemma BitsStep(i: nat, n: nat, s: nat, k: nat)
    requires n >= 1 && BitsAt(i, n, s, k) && Exp(i, n) >= 1
    ensures k < WORD
    ensures k < 0x8000_0000 ==> s < Lo(i, 2 * n + 1) && BitsAt(i, 2 * n, s, (2 * k) % WORD)
    ensures k >= 0x8000_0000 ==> s >= Lo(i, 2 * n + 1) && BitsAt(i, 2 * n + 1, s, (2 * k) % WORD)
  {
    Halves(i, n);
    var e := Exp(i, n);
    var half, m, d := Pow2(e - 1), Pow2(32 - e), s - Lo(i, n);
    PowWord(e - 1, 32 - e);
    HalfStep(d, half, m);
    assert Pow2(e) == 2 * half;
    assert Pow2(33 - e) == 2 * m;
    if d < half {
      assert Covers(i, 2 * n, s);
    } else {
      assert Covers(i, 2 * n + 1, s);
    }
  }

  // ----- Which sizes sit at which positions -----

  type Sites = map<Pos, nat>
  type Homes = map<nat, Pos>

  ghost predicate Placed(at: Sites, home: Homes, p: Pos)
    requires p in at
  {
    && p.bin < NTREEBINS && p.n >= 1
    && MIN_LARGE_SIZE <= at[p] < WORD && TreeIndex(at[p]) == p.bin
    && Covers(p.bin, p.n, at[p])
    && at[p] in home && home[at[p]] == p
    && (p.n > 1 ==> Pos(p.bin, p.n / 2) in at)
  }

  ghost predicate Housed(at: Sites, home: Homes, s: nat)
    requires s in home
  {
    home[s] in at && at[home[s]] == s
  }

  /** The tries: each size at one position, below which it belongs, under an occupied
      parent. */
  ghost predicate Shape(at: Sites, home: Homes) {
    && (forall p {:trigger Placed(at, home, p)} :: p in at ==> Placed(at, home, p))
    && (forall s {:trigger Housed(at, home, s)} :: s in home ==> Housed(at, home, s))
  }

  ghost predicate IsLeaf(at: Sites, p: Pos) {
    Pos(p.bin, 2 * p.n) !in at && Pos(p.bin, 2 * p.n + 1) !in at
  }

  lemma {:induction false} Occupied(at: Sites, home: Homes, i: nat, n: nat, m: nat)
    requires Shape(at, home) && n >= 1 && Below(n, m) && Pos(i, m) in at
    ensures Pos(i, n) in at
    decreases m
  {
    if m != n {
      assert Placed(at, home, Pos(i, m));
      Occupied(at, home, i, n, m / 2);
    }
  }

  lemma ShapeAdd(at: Sites, home: Homes, p: Pos, s: nat)
    requires Shape(at, home) && p !in at && s !in home
    requires p.bin < NTREEBINS && p.n >= 1 && MIN_LARGE_SIZE <= s < WORD && TreeIndex(s) == p.bin
    requires Covers(p.bin, p.n, s)
    requires p.n > 1 ==> Pos(p.bin, p.n / 2) in at
    ensures Shape(at[p := s], home[s := p])
  {
    var at', home' := at[p := s], home[s := p];
    forall q | q in at' ensures Placed(at', home', q) {
      if q != p { assert Placed(at, home, q); }
    }
    forall t | t in home' ensures Housed(at', home', t) {
      if t != s { assert Housed(at, home, t); }
    }
  }

  function DropSite(at: Sites, p: Pos): Sites {
    map q | q in at && q != p :: at[q]
  }

  function DropHome(home: Homes, s: nat): Homes {
    map t | t in home && t != s :: home[t]
  }

  lemma ChildOf(n: nat)
    requires n > 1
    ensures n == 2 * (n / 2) || n == 2 * (n / 2) + 1
  {
  }

  lemma ShapeDrop(at: Sites, home: Homes, p: Pos)
    requires Shape(at, home) && p in at && IsLeaf(at, p)
    ensures Shape(DropSite(at, p), DropHome(home, at[p]))
  {
    var at', home' := DropSite(at, p), DropHome(home, at[p]);
    assert Placed(at, home, p);
    forall q | q in at' ensures Placed(at', home', q) {
      assert Placed(at, home, q);
      if q.n > 1 { ChildOf(q.n); }
    }
    forall t | t in home' ensures Housed(at', home', t) {
      assert Housed(at, home, t);
    }
  }

  /** Moving a leaf up to the place of an ancestor whose size leaves. */
  function MoveSite(at: Sites, p: Pos, m: Pos): Sites
    requires m in at
  {
    DropSite(at, m)[p := at[m]]
  }

  function MoveHome(home: Homes, s: nat, r: nat, p: Pos): Homes {
    DropHome(home, s)[r := p]
  }

  lemma MovePlaced(at: Sites, home: Homes, p: Pos, m: Pos, q: Pos)
    requires Shape(at, home) && p in at && m in at && p != m
    requires m.bin == p.bin && Below(p.n, m.n) && IsLeaf(at, m)
    requires q in MoveSite(at, p, m)
    ensures Placed(MoveSite(at, p, m), MoveHome(home, at[p], at[m], p), q)
  {
    assert Placed(at, home, p) && Placed(at, home, m);
    if q == p {
      BelowCovers(p.bin, p.n, m.n, at[m]);
      BelowLe(p.n, m.n);
      assert p.n / 2 <= p.n < m.n;
    } else {
      assert Placed(at, home, q);
      if q.n > 1 { ChildOf(q.n); }
    }
  }

  lemma ShapeMove(at: Sites, home: Homes, p: Pos, m: Pos)
    requires Shape(at, home) && p in at && m in at && p != m
    requires m.bin == p.bin && Below(p.n, m.n) && IsLeaf(at, m)
    ensures Shape(MoveSite(at, p, m), MoveHome(home, at[p], at[m], p))
  {
    var at', home' := MoveSite(at, p, m), MoveHome(home, at[p], at[m], p);
    forall q | q in at' ensures Placed(at', home', q) {
      MovePlaced(at, home, p, m, q);
    }
    forall t | t in home' ensures Housed(at', home', t) {
      assert Placed(at, home, m) && Placed(at, home, p);
      if t != at[m] { assert Housed(at, home, t); }
    }
  }

  /** A position below n but not below its child that covers nb is below the other child,
      and its sizes are on that child's side of nb. */
  lemma OtherChild(i: nat, n: nat, b: nat, m: nat, nb: nat, t: nat)
    requires n >= 1 && m >= 1 && b < 2 && Exp(i, n) >= 1 && Covers(i, 2 * n + b, nb)
    requires Below(n, m) && m != n && !Below(2 * n + b, m) && Covers(i, m, t)
    ensures b == 1 ==> t < nb
    ensures b == 0 ==> Below(2 * n + 1, m)
  {
    BelowChild(n, m);
    if b == 1 {
      LeftOf(i, n, m, nb, t);
    }
  }

  /** Sizes below the left child are less than those that the right child covers. */
  lemma LeftOf(i: nat, n: nat, m: nat, nb: nat, t: nat)
    requires n >= 1 && m >= 1 && Exp(i, n) >= 1 && Lo(i, 2 * n + 1) <= nb && Below(2 * n, m) && Covers(i, m, t)
    ensures t < nb
  {
    BelowCovers(i, 2 * n, m, t);
    Halves(i, n);
  }
}
