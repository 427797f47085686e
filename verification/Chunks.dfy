/** Chunk head words and the contents of bins. */
module Chunks {
  import opened Words

  /** The fields packed into a head word; see PackedHead. */
  datatype Head = Head(size: nat, cinuse: bool, pinuse: bool)

  type Heads = map<nat, Head>

  /** The head word at chunk address `a`; memory never written reads as 0. */
  function HeadAt(head: Heads, a: nat): Head {
    if a in head then head[a] else Head(0, false, false)
  }

  /** `chunksize`: the head word without its three flag bits. */
  function ChunkSize(head: Heads, a: nat): nat {
    HeadAt(head, a).size / 8 * 8
  }

  /** The word itself: PINUSE_BIT is bit 0, CINUSE_BIT is bit 1; the flag in bit 2 is set
      in the size-4 head of a fencepost and wherever a top ends in half a chunk unit. */
  function Pack(h: Head): nat {
    h.size + (if h.cinuse then 2 else 0) + (if h.pinuse then 1 else 0)
  }

  /** The flag macros recover the fields from the word. */
  lemma PackedHead(h: Head)
    requires h.size % 4 == 0 && h.size < WORD
    ensures Pack(h) < WORD
    ensures Bit(Pack(h), 0) <==> h.pinuse
    ensures Bit(Pack(h), 1) <==> h.cinuse
    ensures And(Pack(h), Not(7)) == h.size / 8 * 8
  {
    PackBits(h);
    DropLow(Pack(h));
  }

  lemma PackBits(h: Head)
    requires h.size % 4 == 0 && h.size < WORD
    ensures Pack(h) < WORD && Pack(h) / 8 == h.size / 8
    ensures Bit(Pack(h), 0) <==> h.pinuse
    ensures Bit(Pack(h), 1) <==> h.cinuse
  {
    var c, p := if h.cinuse then 1 else 0, if h.pinuse then 1 else 0;
    Digits(h.size / 4, c, p);
    assert h.size == 4 * (h.size / 4);
    assert Bit(Pack(h), 1) == Bit(Pack(h) / 2, 0);
  }

  lemma Digits(k: nat, c: nat, p: nat)
    requires c < 2 && p < 2
    ensures var w := 4 * k + 2 * c + p; w % 2 == p && w / 2 % 2 == c && w / 8 == k / 2
    ensures (4 * k) / 8 == k / 2
  {
    var w := 4 * k + 2 * c + p;
    assert w / 2 == 2 * k + c;
  }

  lemma DropLow(w: nat)
    requires w < WORD
    ensures And(w, Not(7)) == w / 8 * 8
  {
    Pow2Values();
    AndHigh(w, 3, 32);
  }

  /** The chunks in a family of bins, with their sizes. */
  type Content = map<nat, nat>

  function Without(content: Content, x: nat): Content {
    map a | a in content && a != x :: content[a]
  }

  /** v is a least chunk of at least nb bytes. */
  ghost predicate Least(content: Content, nb: nat, v: nat) {
    v in content && nb <= content[v] && forall a :: a in content && nb <= content[a] ==> content[v] <= content[a]
  }

  ghost predicate NoneFits(content: Content, nb: nat) {
    forall a :: a in content ==> content[a] < nb
  }
}
