/**
 Circular doubly-linked lists in memory: `next` and `prev` are the link words of the
 nodes, and a ring is described by the sequence of its nodes in `next` order.
 */
module Rings {

  type Links = map<nat, nat>

  /** The word that `m` holds at address `a`; memory never written reads as 0. */
  function Get(m: Links, a: nat): nat {
    if a in m then m[a] else 0
  }

  ghost predicate NoDup(r: seq<nat>) {
    forall i, j :: 0 <= i < j < |r| ==> r[i] != r[j]
  }

  function After(r: seq<nat>, k: nat): nat
    requires k < |r|
  {
    r[if k + 1 == |r| then 0 else k + 1]
  }

  function Before(r: seq<nat>, k: nat): nat
    requires k < |r|
  {
    r[if k == 0 then |r| - 1 else k - 1]
  }

  ghost predicate Linked(next: Links, prev: Links, r: seq<nat>, k: nat)
    requires k < |r|
  {
    && Get(next, r[k]) == After(r, k)
    && Get(prev, r[k]) == Before(r, k)
  }

  ghost predicate Ring(next: Links, prev: Links, r: seq<nat>) {
    && |r| > 0
    && NoDup(r)
    && forall k {:trigger Linked(next, prev, r, k)} :: 0 <= k < |r| ==> Linked(next, prev, r, k)
  }

  function Insert(r: seq<nat>, k: nat, x: nat): seq<nat>
    requires k <= |r|
  {
    r[..k] + [x] + r[k..]
  }

  function Remove(r: seq<nat>, k: nat): seq<nat>
    requires k < |r|
  {
    r[..k] + r[k + 1..]
  }

  /** Rings that share no node with the changed words are unaffected. */
  lemma RingFrame(next: Links, prev: Links, next': Links, prev': Links, r: seq<nat>)
    requires Ring(next, prev, r)
    requires forall x :: x in r ==> Get(next', x) == Get(next, x) && Get(prev', x) == Get(prev, x)
    ensures Ring(next', prev', r)
  {
    forall k | 0 <= k < |r| ensures Linked(next', prev', r, k) {
      assert Linked(next, prev, r, k);
    }
  }

  /** Linking `x` between two neighbours a and b inserts it there. */
  lemma RingInsert(next: Links, prev: Links, r: seq<nat>, k: nat, x: nat)
    requires Ring(next, prev, r) && x !in r && 1 <= k <= |r|
    ensures var a, b := r[k - 1], After(r, k - 1);
            Ring(next[a := x][x := b], prev[b := x][x := a], Insert(r, k, x))
  {
    var a, b := r[k - 1], After(r, k - 1);
    var next', prev' := next[a := x][x := b], prev[b := x][x := a];
    var s := Insert(r, k, x);
    forall i | 0 <= i < |s| ensures Linked(next', prev', s, i) {
      if i < k {
        assert s[i] == r[i];
        assert Linked(next, prev, r, i);
      } else if i > k {
        assert s[i] == r[i - 1];
        assert Linked(next, prev, r, i - 1);
      }
    }
  }

  /** Linking the neighbours of a node to each other removes it. */
  lemma RingRemove(next: Links, prev: Links, r: seq<nat>, k: nat)
    requires Ring(next, prev, r) && k < |r| && |r| > 1
    ensures var a, b := Before(r, k), After(r, k);
            Ring(next[a := b], prev[b := a], Remove(r, k))
  {
    var a, b := Before(r, k), After(r, k);
    var next', prev' := next[a := b], prev[b := a];
    var s := Remove(r, k);
    forall i | 0 <= i < |s| ensures Linked(next', prev', s, i) {
      if i < k {
        assert s[i] == r[i];
        assert Linked(next, prev, r, i);
      } else {
        assert s[i] == r[i + 1];
        assert Linked(next, prev, r, i + 1);
      }
    }
  }

  lemma RingSingle(next: Links, prev: Links, x: nat)
    requires Get(next, x) == x && Get(prev, x) == x
    ensures Ring(next, prev, [x])
  {
  }

  /** A node is alone exactly when it is its own neighbour, and its two neighbours are
      the same node exactly when the ring has at most two nodes. */
  lemma RingNeighbours(next: Links, prev: Links, r: seq<nat>, k: nat)
    requires Ring(next, prev, r) && k < |r|
    ensures Get(next, r[k]) == r[k] <==> |r| == 1
    ensures Get(next, r[k]) == Get(prev, r[k]) <==> |r| <= 2
  {
    assert Linked(next, prev, r, k);
  }

  lemma InRemove(q: seq<nat>, k: nat)
    requires k < |q| && NoDup(q)
    ensures forall a :: a in Remove(q, k) <==> a in q && a != q[k]
  {
    forall a | a in q && a != q[k] ensures a in Remove(q, k) {
      var i :| 0 <= i < |q| && q[i] == a;
      assert Remove(q, k)[if i < k then i else i - 1] == a;
    }
    forall a | a in Remove(q, k) ensures a in q && a != q[k] {
      var i :| 0 <= i < |Remove(q, k)| && Remove(q, k)[i] == a;
      assert q[if i < k then i else i + 1] == a;
    }
  }
}
