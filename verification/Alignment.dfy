/** The arithmetic of `memalign`: rounding the alignment up to a power of two and finding an
 aligned spot inside a chunk. */
module Alignment {
  import opened Words
  import opened BinIndex

  /** The largest alignment that can be rounded: beyond it the doubling loop reaches 0. */
  const MAX_ALIGNMENT: nat := 0x8000_0000

  ghost predicate IsPow2(a: nat) {
    exists k: nat :: a == Pow2(k)
  }

  /** The least power of two that is at least `alignment` and MIN_CHUNK_SIZE. */
  ghost predicate Rounds(alignment: nat, a: nat) {
    && IsPow2(a) && alignment <= a && MIN_CHUNK_SIZE <= a
    && forall b: nat :: IsPow2(b) && alignment <= b && MIN_CHUNK_SIZE <= b ==> a <= b
  }

  lemma {:induction false} AndSelf(x: nat)
    ensures And(x, x) == x
  {
    if x > 0 { AndSelf(x / 2); }
  }

  /** `x & (x - 1)` is 0 exactly for the powers of two. */
  lemma {:induction false} Pow2Test(x: nat)
    requires x > 0
    ensures And(x, x - 1) == 0 <==> IsPow2(x)
  {
    if x == 1 {
      assert Pow2(0) == 1;
    } else if x % 2 == 0 {
      Pow2Test(x / 2);
      assert (x - 1) / 2 == x / 2 - 1;
      HalfPow2(x);
    } else {
      AndSelf(x / 2);
      assert (x - 1) / 2 == x / 2;
      forall k: nat ensures x != Pow2(k) {
        assert k > 0 ==> Pow2(k) == 2 * Pow2(k - 1);
      }
    }
  }

  lemma HalfPow2(x: nat)
    requires x > 1 && x % 2 == 0
    ensures IsPow2(x) <==> IsPow2(x / 2)
  {
    if k: nat :| x == Pow2(k) {
      assert x / 2 == Pow2(k - 1);
    }
    if k: nat :| x / 2 == Pow2(k) {
      assert x == Pow2(k + 1);
    }
  }

  /** Between a power of two and its double there is no other. */
  lemma NextPow2(a: nat, b: nat)
    requires IsPow2(a) && IsPow2(b) && a < b
    ensures 2 * a <= b
  {
    var k: nat :| a == Pow2(k);
    var l: nat :| b == Pow2(l);
    if l <= k { Pow2Mono(l, k); }
    Pow2Mono(k + 1, l);
  }

  lemma Pow2Known()
    ensures IsPow2(16) && IsPow2(0x8000_0000)
  {
    Pow2Values();
    assert Pow2(4) == 16 && Pow2(31) == 0x8000_0000;
  }

  /** The least power of two from a on that is at least `alignment`. */
  function PowerFrom(a: nat, alignment: nat): nat
    decreases alignment - a
  {
    if alignment <= a || a == 0 then a else PowerFrom(2 * a, alignment)
  }

  /** What `memalign` aligns to: any chunk is aligned to 8. */
  function RoundedAlignment(alignment: nat): nat {
    if alignment <= 8 then 8 else PowerFrom(16, alignment)
  }

  lemma {:induction false} PowerFromRounds(a: nat, alignment: nat)
    requires IsPow2(a) && a >= 16 && (a == 16 || a / 2 < alignment)
    ensures Rounds(alignment, PowerFrom(a, alignment))
    decreases alignment - a
  {
    if alignment <= a {
      forall b: nat | IsPow2(b) && alignment <= b && MIN_CHUNK_SIZE <= b ensures a <= b {
        if b < a { NextPow2(b, a); }
      }
    } else {
      HalfPow2(2 * a);
      PowerFromRounds(2 * a, alignment);
    }
  }

  /** The alignment is rounded to the least power of two that is large enough. */
  lemma RoundedIsLeast(alignment: nat)
    requires alignment > 8
    ensures Rounds(alignment, RoundedAlignment(alignment))
  {
    Pow2Known();
    PowerFromRounds(16, alignment);
  }

  /** The rounding of `internal_memalign`. */
  method RoundAlignment(alignment0: nat) returns (alignment: nat)
    requires 8 < alignment0 <= MAX_ALIGNMENT
    ensures alignment == RoundedAlignment(alignment0) && Rounds(alignment0, alignment) && alignment <= MAX_ALIGNMENT
  {
    alignment := alignment0;
    Pow2Known();
    if alignment < MIN_CHUNK_SIZE {
      alignment := MIN_CHUNK_SIZE;
    }
    Pow2Test(alignment);
    if And(alignment, alignment - 1) != 0 {
      var a := 16;
      while a < alignment
        invariant IsPow2(a) && 16 <= a <= MAX_ALIGNMENT
        invariant a > 16 ==> a / 2 < alignment
      {
        DoublePow2(a);
        a := (2 * a) % WORD;
      }
      forall b: nat | IsPow2(b) && alignment <= b ensures a <= b {
        if b < a { NextPow2(b, a); }
      }
      alignment := a;
    }
    RoundedIsLeast(alignment0);
  }

  /** Doubling a power of two below another stays within it. */
  lemma DoublePow2(a: nat)
    requires IsPow2(a) && a < MAX_ALIGNMENT
    ensures IsPow2(2 * a) && 2 * a <= MAX_ALIGNMENT
  {
    Pow2Known();
    NextPow2(a, MAX_ALIGNMENT);
    HalfPow2(2 * a);
  }

  /** `x & -a` rounds x down to a multiple of the power of two a. */
  lemma MaskDown(x: nat, a: nat)
    requires x < WORD && IsPow2(a) && a <= MAX_ALIGNMENT
    ensures And(x, Neg(a)) == x / a * a
  {
    var k: nat :| a == Pow2(k);
    Pow2Values();
    if k > 31 { Pow2Mono(32, k); }
    AndHigh(x, k, 32);
  }

  /** `((mem + alignment - 1) & -alignment)`: the first aligned address from mem on. */
  function RoundUp(mem: nat, a: nat): nat
    requires a > 0
  {
    (mem + a - 1) / a * a
  }

  /** A multiple of 16 or more is a multiple of 8. */
  lemma Pow2Multiple(a: nat)
    requires IsPow2(a) && a >= 16
    ensures a % 16 == 0
  {
    var k: nat :| a == Pow2(k);
    Pow2Values();
    if k < 4 { Pow2Mono(k, 3); }
    Pow2Add(k - 4, 4);
    Pow2Values();
  }

  lemma ModMul(q: nat, a: nat, m: nat)
    requires m > 0 && a % m == 0
    ensures q * a % m == 0
  {
    DivModDef(a, m);
    var d := a / m;
    assert q * a == q * (d * m) == (q * d) * m;
    DivModUnique(q * a, m, q * d, 0);
  }

  lemma RoundUpFacts(mem: nat, a: nat)
    requires a > 0
    ensures var r := RoundUp(mem, a); mem <= r < mem + a && r % a == 0
  {
    var q := (mem + a - 1) / a;
    DivModDef(mem + a - 1, a);
    DivModUnique(q * a, a, q, 0);
  }

  predicate Aligned(mem: nat, a: nat) {
    a > 0 && mem % a == 0
  }

  /** Where the aligned chunk starts inside chunk p: at the first aligned spot that leaves
      nothing or at least MIN_CHUNK_SIZE bytes before it. */
  function AlignedChunk(p: nat, a: nat): nat
    requires a >= 16
  {
    if Aligned(p + 8, a) then p
    else
      var r := RoundUp(p + 8, a);
      if r >= p + 8 + MIN_CHUNK_SIZE then r - 8 else r + a - 8
  }

  /** There is always room: with MIN_CHUNK_SIZE and the alignment added to the request, what
      is left behind the aligned spot holds nb bytes. */
  lemma AlignedRoom(p: nat, a: nat, nb: nat, size: nat)
    requires IsPow2(a) && a >= 16 && p % 8 == 0 && nb % 8 == 0 && nb >= 16 && size >= nb + a + 16
    ensures var c := AlignedChunk(p, a);
            && Aligned(c + 8, a) && c % 8 == 0 && (if Aligned(p + 8, a) then c == p else c >= p + 16)
            && c + nb + 8 <= p + size
  {
    RoundedSpot(p + 8, a);
    var r := RoundUp(p + 8, a);
    RoomBehind(p, a, r, nb, size);
  }

  lemma RoundedSpot(mem: nat, a: nat)
    requires IsPow2(a) && a >= 16
    ensures var r := RoundUp(mem, a);
            mem <= r < mem + a && Aligned(r, a) && Aligned(r + a, a) && r % 8 == 0 && a % 8 == 0
  {
    RoundUpFacts(mem, a);
    Pow2Multiple(a);
    ModMul((mem + a - 1) / a, a, 8);
    AddMultiple(RoundUp(mem, a), a);
  }

  /** The computation of the aligned spot in a chunk p of `size` bytes. */
  method AlignedSpot(p: nat, a: nat, ghost nb: nat, ghost size: nat) returns (pos: nat)
    requires IsPow2(a) && 16 <= a <= MAX_ALIGNMENT && p % 8 == 0 && p + size <= WORD
    requires nb % 8 == 0 && nb >= 16 && size >= nb + a + 16
    ensures pos == AlignedChunk(p, a) && pos % 8 == 0 && (pos == p || pos >= p + 16) && pos + nb + 8 <= p + size
  {
    SpotFits(p, a, nb, size);
    var mem := p + 8;
    pos := p;
    if mem % a != 0 {
      MaskDown(mem + a - 1, a);
      RoundUpFacts(mem, a);
      var br := And(mem + a - 1, Neg(a)) - 8;
      pos := if br - p >= MIN_CHUNK_SIZE then br else br + a;
    }
  }

  lemma SpotFits(p: nat, a: nat, nb: nat, size: nat)
    requires IsPow2(a) && a >= 16 && p % 8 == 0 && nb % 8 == 0 && nb >= 16 && size >= nb + a + 16
    ensures var q := AlignedChunk(p, a); q % 8 == 0 && (q == p || q >= p + 16) && q + nb + 8 <= p + size
  {
    AlignedRoom(p, a, nb, size);
  }

  /** What is kept of a chunk of n bytes: what is behind the first nb is cut off if it is more
      than a chunk. */
  function Trimmed(n: int, nb: nat): int {
    if n > nb + MIN_CHUNK_SIZE then nb else n
  }

  /** The size of the aligned chunk in a chunk p. */
  function AlignedSize(p: nat, a: nat, nb: nat, size: nat): int
    requires a >= 16
  {
    Trimmed(size - (AlignedChunk(p, a) - p), nb)
  }

  /** 8 or 16 bytes more than needed, or none. */
  predicate SlackIs(n: int, nb: nat, some: bool) {
    if some then n == nb + 8 || n == nb + 16 else n == nb
  }

  /** The size is not exact only if the spot 16 bytes into the chunk is aligned; so the block
      is 16 bytes larger than needed exactly if that is so and the chunk is the larger of the
      two sizes that may be handed out. */
  lemma AlignedSizeIs(p: nat, a: nat, nb: nat, size: nat)
    requires IsPow2(a) && a >= 16 && p % 8 == 0 && nb % 8 == 0 && nb >= 16 && size % 8 == 0
    requires nb + a + 16 <= size < nb + a + 32
    ensures AlignedSize(p, a, nb, size) == if Aligned(p + 16, a) then size - a - 8 else nb
    ensures AlignedSize(p, a, nb, size) == nb + 16 <==> size == nb + a + 24 && Aligned(p + 16, a)
    ensures SlackIs(AlignedSize(p, a, nb, size), nb, Aligned(p + 16, a))
  {
    LeaderIs(p, a);
    SizeCases(a, nb, size, AlignedChunk(p, a) - p, Aligned(p + 16, a));
  }

  lemma SizeCases(a: nat, nb: nat, size: nat, lead: int, far: bool)
    requires a % 8 == 0 && nb % 8 == 0 && size % 8 == 0 && nb + a + 16 <= size < nb + a + 32
    requires if far then lead == a + 8 else 0 <= lead <= a - 8
    ensures var rest := size - lead; var r := if rest > nb + 16 then nb else rest;
            && r == (if far then size - a - 8 else nb) && (r == nb + 16 <==> size == nb + a + 24 && far)
            && SlackIs(r, nb, far)
  {
  }

  /** What is before the aligned chunk. */
  lemma LeaderIs(p: nat, a: nat)
    requires IsPow2(a) && a >= 16 && p % 8 == 0
    ensures a % 8 == 0
    ensures if Aligned(p + 16, a) then AlignedChunk(p, a) == p + a + 8 else p <= AlignedChunk(p, a) <= p + a - 8
  {
    var r := RoundUp(p + 8, a);
    RoundedSpot(p + 8, a);
    if Aligned(p + 8, a) && Aligned(p + 16, a) { NextAligned(p + 8, a, 8); }
    if Aligned(p + 16, a) { OneRoundUp(p + 8, a, p + 16); }
    LeadCases(p, a, r, Aligned(p + 8, a), Aligned(p + 16, a), Aligned(r, a));
  }

  lemma LeadCases(p: nat, a: nat, r: nat, near: bool, far: bool, here: bool)
    requires a >= 16 && a % 8 == 0 && r % 8 == 0 && p % 8 == 0 && p + 8 <= r < p + 8 + a && here && !(near && far)
    requires (r == p + 8 ==> near == here) && (r == p + 16 ==> far == here) && (far ==> r == p + 16)
    ensures var c := if near then p else if r >= p + 8 + MIN_CHUNK_SIZE then r - 8 else r + a - 8;
            if far then c == p + a + 8 else p <= c <= p + a - 8
  {
  }

  lemma NextAligned(x: nat, a: nat, d: nat)
    requires Aligned(x, a) && Aligned(x + d, a) && d < a
    ensures d == 0
  {
    DivModDef(x, a);
    DivModUnique(x + d, a, x / a, d);
  }

  /** The first aligned address is the only one within a bytes. */
  lemma OneRoundUp(mem: nat, a: nat, x: nat)
    requires a > 0 && mem <= x < mem + a && Aligned(x, a)
    ensures RoundUp(mem, a) == x
  {
    RoundUpFacts(mem, a);
    var r := RoundUp(mem, a);
    if r < x { NextAligned(r, a, x - r); }
    if x < r { NextAligned(x, a, r - x); }
  }

  lemma RoomBehind(p: nat, a: nat, r: nat, nb: nat, size: nat)
    requires a >= 16 && a % 8 == 0 && r % 8 == 0 && p % 8 == 0 && p + 8 <= r < p + 8 + a
    requires Aligned(p + 8, a) || r != p + 8
    requires size >= nb + a + 16 && nb % 8 == 0
    ensures var c := if Aligned(p + 8, a) then p else if r >= p + 8 + MIN_CHUNK_SIZE then r - 8 else r + a - 8;
            c % 8 == 0 && (Aligned(p + 8, a) || c >= p + 16) && c + nb + 8 <= p + size
  {
  }

  lemma AddMultiple(r: nat, a: nat)
    requires a > 0 && r % a == 0
    ensures (r + a) % a == 0
  {
    DivModDef(r, a);
    DivModUnique(r + a, a, r / a + 1, 0);
  }
}
