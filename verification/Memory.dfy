/** The bytes that clients store in their blocks. */
module Memory {
  class Memory {
    var bytes: map<nat, nat>

    constructor ()
      ensures bytes == map[]
    {
      bytes := map[];
    }

    /** A byte never written reads as 0. */
    function At(a: nat): nat
      reads this
    {
      if a in bytes then bytes[a] else 0
    }

    /** The n bytes from src on are now also at dst; all else is as before. */
    twostate predicate Copied(dst: nat, src: nat, n: nat)
      reads this
    {
      forall a: nat :: At(a) == if dst <= a < dst + n then old(At(src + (a - dst))) else old(At(a))
    }

    /** The n bytes from dst on are those that were at src. */
    twostate predicate Kept(dst: nat, src: nat, n: nat)
      reads this
    {
      forall a: nat :: dst <= a < dst + n ==> At(a) == old(At(src + (a - dst)))
    }

    /** Nothing but the n bytes from dst on has changed. */
    twostate predicate SameOutside(dst: nat, n: nat)
      reads this
    {
      forall a: nat :: !(dst <= a < dst + n) ==> At(a) == old(At(a))
    }

    /** `memcpy`, whose blocks must not overlap. */
    method Copy(dst: nat, src: nat, n: nat)
      requires dst + n <= src || src + n <= dst
      modifies this
      ensures Copied(dst, src, n) && Kept(dst, src, n)
      ensures forall m: nat :: n <= m ==> SameOutside(dst, m)
    {
      for i := 0 to n
        invariant Copied(dst, src, i)
      {
        ghost var bytes0 := bytes;
        var b := At(src + i);
        assert b == old(At(src + i));
        bytes := bytes[dst + i := b];
        forall a: nat ensures At(a) == if dst <= a < dst + i + 1 then old(At(src + (a - dst))) else old(At(a)) {
          if a == dst + i {
            assert src + (a - dst) == src + i;
          } else {
            assert At(a) == if a in bytes0 then bytes0[a] else 0;
          }
        }
      }
    }

    /** `memset` with zeros. */
    method Clear(dst: nat, n: nat)
      modifies this
      ensures forall a: nat :: At(a) == if dst <= a < dst + n then 0 else old(At(a))
    {
      for i := 0 to n
        invariant forall a: nat :: At(a) == if dst <= a < dst + i then 0 else old(At(a))
      {
        bytes := bytes[dst + i := 0];
      }
    }
  }
}
