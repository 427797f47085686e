/**
 The pointer structure of the tries. `node` gives the address of the chunk at each
 occupied position; the child and parent words of that chunk must name the chunks at the
 neighbouring positions. Each change the allocator makes to the words is matched by a
 change of `node`.
 */
module Forest {
  import opened Words
  import opened BinIndex
  import opened Rings
  import opened Trie

  type Nodes = map<Pos, nat>

  /** The parent word of a root is the address of its bin header, which is no chunk's. */
  function RootRef(i: nat): nat {
    8 * i + 4
  }

  function NodeAt(node: Nodes, p: Pos): nat {
    if p in node then node[p] else 0
  }

  function Child(p: Pos, b: nat): Pos {
    Pos(p.bin, 2 * p.n + b)
  }

  function Parent(p: Pos): Pos {
    Pos(p.bin, p.n / 2)
  }

  function ParentRef(node: Nodes, p: Pos): nat {
    if p.n == 1 then RootRef(p.bin) else NodeAt(node, Parent(p))
  }

  datatype TreeLinks = TreeLinks(child0: Links, child1: Links, parent: Links)

  function GetChild(t: TreeLinks, x: nat, b: nat): nat {
    if b == 0 then Get(t.child0, x) else Get(t.child1, x)
  }

  function SetChild(t: TreeLinks, x: nat, b: nat, y: nat): TreeLinks {
    if b == 0 then t.(child0 := t.child0[x := y]) else t.(child1 := t.child1[x := y])
  }

  function SetParent(t: TreeLinks, x: nat, y: nat): TreeLinks {
    t.(parent := t.parent[x := y])
  }

  ghost predicate NodeOk(node: Nodes, t: TreeLinks, p: Pos)
    requires p in node
  {
    && p.bin < NTREEBINS && p.n >= 1 && node[p] != 0
    && (p.n > 1 ==> Parent(p) in node)
    && GetChild(t, node[p], 0) == NodeAt(node, Child(p, 0))
    && GetChild(t, node[p], 1) == NodeAt(node, Child(p, 1))
    && Get(t.parent, node[p]) == ParentRef(node, p)
  }

  ghost predicate Injective(node: Nodes) {
    forall p, q :: p in node && q in node && node[p] == node[q] ==> p == q
  }

  ghost predicate ForestOk(node: Nodes, t: TreeLinks) {
    && Injective(node)
    && forall p {:trigger NodeOk(node, t, p)} :: p in node ==> NodeOk(node, t, p)
  }

  ghost predicate RootOk(node: Nodes, roots: seq<nat>, treemap: nat, i: nat)
    requires i < |roots|
  {
    roots[i] == NodeAt(node, Pos(i, 1)) && (Bit(treemap, i) <==> Pos(i, 1) in node)
  }

  ghost predicate RootsOk(node: Nodes, roots: seq<nat>, treemap: nat) {
    && |roots| == NTREEBINS && treemap < WORD
    && forall i {:trigger RootOk(node, roots, treemap, i)} :: 0 <= i < NTREEBINS ==> RootOk(node, roots, treemap, i)
  }

  ghost predicate Fresh(node: Nodes, x: nat) {
    x != 0 && forall p :: p in node ==> node[p] != x
  }

  function Drop(node: Nodes, p: Pos): Nodes {
    map q | q in node && q != p :: node[q]
  }

  // ----- Adding a leaf -----

  lemma AddLeafOther(node: Nodes, t: TreeLinks, p: Pos, b: nat, x: nat, q: Pos)
    requires ForestOk(node, t) && Fresh(node, x) && p in node && b < 2
    requires Child(p, b) !in node && q in node
    ensures NodeOk(node[Child(p, b) := x], SetParent(SetChild(t, node[p], b, x), x, node[p]), q)
  {
    assert NodeOk(node, t, q) && NodeOk(node, t, p);
    ChildOnce(q, p, b);
    assert q.n > 1 ==> Parent(q) != Child(p, b);
  }

  /** Hanging a childless chunk below an occupied position. */
  lemma AddLeaf(node: Nodes, t: TreeLinks, p: Pos, b: nat, x: nat)
    requires ForestOk(node, t) && Fresh(node, x) && p in node && b < 2
    requires Child(p, b) !in node && GetChild(t, x, 0) == 0 && GetChild(t, x, 1) == 0
    ensures ForestOk(node[Child(p, b) := x], SetParent(SetChild(t, node[p], b, x), x, node[p]))
  {
    var c := Child(p, b);
    var node', t' := node[c := x], SetParent(SetChild(t, node[p], b, x), x, node[p]);
    forall q | q in node' ensures NodeOk(node', t', q) {
      if q == c {
        assert Parent(c) == p;
        assert NodeOk(node, t, p);
        NoOrphans(node, t, c, 0);
        NoOrphans(node, t, c, 1);
      } else {
        AddLeafOther(node, t, p, b, x, q);
      }
    }
  }

  lemma AddRoot(node: Nodes, t: TreeLinks, i: nat, x: nat)
    requires ForestOk(node, t) && Fresh(node, x) && i < NTREEBINS
    requires Pos(i, 1) !in node && GetChild(t, x, 0) == 0 && GetChild(t, x, 1) == 0
    ensures ForestOk(node[Pos(i, 1) := x], SetParent(t, x, RootRef(i)))
  {
    var c := Pos(i, 1);
    var node', t' := node[c := x], SetParent(t, x, RootRef(i));
    forall q | q in node' ensures NodeOk(node', t', q) {
      if q == c {
        NoOrphans(node, t, c, 0);
        NoOrphans(node, t, c, 1);
      } else {
        assert NodeOk(node, t, q);
      }
    }
  }

  /** An unoccupied position has no occupied child. */
  lemma NoOrphans(node: Nodes, t: TreeLinks, c: Pos, b: nat)
    requires ForestOk(node, t) && c !in node && c.n >= 1 && b < 2
    ensures Child(c, b) !in node
  {
    assert Parent(Child(c, b)) == c;
    assert Child(c, b) in node ==> NodeOk(node, t, Child(c, b));
  }

  lemma ChildOnce(q: Pos, p: Pos, b: nat)
    requires b < 2
    ensures Child(q, 0) == Child(p, b) <==> q == p && b == 0
    ensures Child(q, 1) == Child(p, b) <==> q == p && b == 1
    ensures q.n > 1 && Parent(q) == p ==> q == Child(p, 0) || q == Child(p, 1)
  {
  }

  function ClearChildren(t: TreeLinks, x: nat): TreeLinks {
    SetChild(SetChild(t, x, 0, 0), x, 1, 0)
  }

  lemma ClearFresh(node: Nodes, t: TreeLinks, x: nat)
    requires ForestOk(node, t) && Fresh(node, x)
    ensures ForestOk(node, ClearChildren(t, x))
  {
    forall q | q in node ensures NodeOk(node, ClearChildren(t, x), q) {
      assert NodeOk(node, t, q);
    }
  }

  // ----- Dropping a leaf -----

  /** Clearing the parent's word that names a leaf. */
  lemma DropLeaf(node: Nodes, t: TreeLinks, p: Pos)
    requires ForestOk(node, t) && p in node && p.n > 1
    requires Child(p, 0) !in node && Child(p, 1) !in node
    ensures Parent(p) in node
    ensures ForestOk(Drop(node, p), SetChild(t, node[Parent(p)], p.n % 2, 0))
  {
    assert NodeOk(node, t, p);
    var h := Parent(p);
    var node', t' := Drop(node, p), SetChild(t, node[h], p.n % 2, 0);
    assert Child(h, p.n % 2) == p;
    assert NodeOk(node, t, h);
    forall q | q in node' ensures NodeOk(node', t', q) {
      assert NodeOk(node, t, q);
      ChildOnce(q, h, p.n % 2);
      ChildOnce(q, p, 0);
    }
  }

  lemma DropRoot(node: Nodes, t: TreeLinks, i: nat)
    requires ForestOk(node, t) && Pos(i, 1) in node
    requires Child(Pos(i, 1), 0) !in node && Child(Pos(i, 1), 1) !in node
    ensures ForestOk(Drop(node, Pos(i, 1)), t)
  {
    var node' := Drop(node, Pos(i, 1));
    forall q | q in node' ensures NodeOk(node', t, q) {
      assert NodeOk(node, t, q);
      ChildOnce(q, Pos(i, 1), 0);
    }
  }

  // ----- Replacing the chunk at a position -----

  /** `R->child[b] = C; C->parent = R`, unless there is no such child. */
  function Adopt(t: TreeLinks, x: nat, r: nat, b: nat): TreeLinks {
    var c := GetChild(t, x, b);
    if c == 0 then t else SetParent(SetChild(t, r, b, c), c, r)
  }

  /** The words after `r` has taken over the parent link and the children of `x`. */
  function TakeOver(t: TreeLinks, x: nat, r: nat, xp: nat): TreeLinks {
    Adopt(Adopt(SetParent(t, r, xp), x, r, 0), x, r, 1)
  }

  lemma TakeOverWords(t: TreeLinks, x: nat, r: nat, xp: nat, c0: nat, c1: nat, y: nat)
    requires c0 == GetChild(t, x, 0) && c1 == GetChild(t, x, 1)
    requires x != r && GetChild(t, r, 0) == 0 && GetChild(t, r, 1) == 0 && c0 != r && c1 != r
    requires c0 == 0 || c0 != c1
    ensures var t' := TakeOver(t, x, r, xp);
            && GetChild(t', y, 0) == (if y == r then c0 else GetChild(t, y, 0))
            && GetChild(t', y, 1) == (if y == r then c1 else GetChild(t, y, 1))
            && Get(t'.parent, y) ==
               (if y == r then xp else if y != 0 && (y == c0 || y == c1) then r else Get(t.parent, y))
  {
  }

  /** The words after `r` has taken the whole place of `x` at position p. */
  function Replaced(node: Nodes, t: TreeLinks, p: Pos, r: nat): TreeLinks
    requires p in node
  {
    var t1 := if p.n == 1 then t else SetChild(t, NodeAt(node, Parent(p)), p.n % 2, r);
    TakeOver(t1, node[p], r, ParentRef(node, p))
  }

  lemma ReplacedWords(node: Nodes, t: TreeLinks, p: Pos, r: nat, y: nat)
    requires ForestOk(node, t) && p in node && Fresh(node, r)
    requires GetChild(t, r, 0) == 0 && GetChild(t, r, 1) == 0
    ensures var t', x, xp := Replaced(node, t, p, r), node[p], ParentRef(node, p);
            && GetChild(t', y, 0) ==
               (if y == r then GetChild(t, x, 0)
                else if p.n > 1 && y == xp && p.n % 2 == 0 then r else GetChild(t, y, 0))
            && GetChild(t', y, 1) ==
               (if y == r then GetChild(t, x, 1)
                else if p.n > 1 && y == xp && p.n % 2 == 1 then r else GetChild(t, y, 1))
            && Get(t'.parent, y) ==
               (if y == r then xp
                else if y != 0 && (y == GetChild(t, x, 0) || y == GetChild(t, x, 1)) then r else Get(t.parent, y))
  {
    var x, xp := node[p], ParentRef(node, p);
    assert NodeOk(node, t, p);
    var c0, c1 := GetChild(t, x, 0), GetChild(t, x, 1);
    ChildOnce(p, p, 0);
    assert p.n > 1 ==> xp != x && xp != r && xp in node.Values by {
      if p.n > 1 { assert NodeOk(node, t, Parent(p)); assert Parent(p) != p; }
    }
    var t1 := if p.n == 1 then t else SetChild(t, xp, p.n % 2, r);
    TakeOverWords(t1, x, r, xp, c0, c1, y);
  }

  lemma Replace(node: Nodes, t: TreeLinks, p: Pos, r: nat)
    requires ForestOk(node, t) && p in node && Fresh(node, r)
    requires GetChild(t, r, 0) == 0 && GetChild(t, r, 1) == 0
    ensures ForestOk(node[p := r], Replaced(node, t, p, r))
  {
    var node', t' := node[p := r], Replaced(node, t, p, r);
    assert NodeOk(node, t, p);
    forall q | q in node' ensures NodeOk(node', t', q) {
      ReplacedWords(node, t, p, r, node'[q]);
      if q != p { ReplaceOther(node, t, p, r, q); } else { ChildOnce(p, p, 0); }
    }
  }

  lemma ReplaceOther(node: Nodes, t: TreeLinks, p: Pos, r: nat, q: Pos)
    requires ForestOk(node, t) && p in node && Fresh(node, r) && q in node && q != p
    requires GetChild(t, r, 0) == 0 && GetChild(t, r, 1) == 0
    ensures NodeOk(node[p := r], Replaced(node, t, p, r), q)
  {
    var node', t' := node[p := r], Replaced(node, t, p, r);
    assert NodeOk(node, t, p) && NodeOk(node, t, q);
    ReplacedWords(node, t, p, r, node[q]);
    ChildOnce(q, p, 0);
    ChildOnce(p, q, 0);
    ChildOnce(p, q, 1);
    assert GetChild(t', node[q], 0) == NodeAt(node', Child(q, 0))
           && GetChild(t', node[q], 1) == NodeAt(node', Child(q, 1)) by {
      if p.n > 1 { assert NodeOk(node, t, Parent(p)); }
    }
    assert Get(t'.parent, node[q]) == ParentRef(node', q) by {
      ChildOnce(q, p, 1);
    }
  }

  // ----- The bin headers -----

  lemma RootsAdd(node: Nodes, roots: seq<nat>, treemap: nat, i: nat, x: nat)
    requires RootsOk(node, roots, treemap) && i < NTREEBINS
    ensures RootsOk(node[Pos(i, 1) := x], roots[i := x], Mark(treemap, i))
  {
    MarkBits(treemap, i);
    var node', roots', treemap' := node[Pos(i, 1) := x], roots[i := x], Mark(treemap, i);
    forall j | 0 <= j < NTREEBINS ensures RootOk(node', roots', treemap', j) {
      assert RootOk(node, roots, treemap, j);
    }
  }

  lemma RootsDrop(node: Nodes, roots: seq<nat>, treemap: nat, i: nat)
    requires RootsOk(node, roots, treemap) && i < NTREEBINS
    ensures RootsOk(Drop(node, Pos(i, 1)), roots[i := 0], Clear(treemap, i))
  {
    ClearBits(treemap, i);
    var node', roots', treemap' := Drop(node, Pos(i, 1)), roots[i := 0], Clear(treemap, i);
    forall j | 0 <= j < NTREEBINS ensures RootOk(node', roots', treemap', j) {
      assert RootOk(node, roots, treemap, j);
    }
  }

  lemma RootsReplace(node: Nodes, roots: seq<nat>, treemap: nat, i: nat, x: nat)
    requires RootsOk(node, roots, treemap) && i < NTREEBINS && Pos(i, 1) in node
    ensures RootsOk(node[Pos(i, 1) := x], roots[i := x], treemap)
  {
    var node', roots', treemap' := node[Pos(i, 1) := x], roots[i := x], treemap;
    forall j | 0 <= j < NTREEBINS ensures RootOk(node', roots', treemap', j) {
      assert RootOk(node, roots, treemap, j);
    }
  }

  /** Changes away from the roots leave the headers right. */
  lemma RootsFrame(node: Nodes, node': Nodes, roots: seq<nat>, treemap: nat)
    requires RootsOk(node, roots, treemap)
    requires forall i {:trigger Pos(i, 1)} :: 0 <= i < NTREEBINS ==> (Pos(i, 1) in node <==> Pos(i, 1) in node')
    requires forall i {:trigger Pos(i, 1)} ::
               0 <= i < NTREEBINS && Pos(i, 1) in node ==> node'[Pos(i, 1)] == node[Pos(i, 1)]
    ensures RootsOk(node', roots, treemap)
  {
    forall j | 0 <= j < NTREEBINS ensures RootOk(node', roots, treemap, j) {
      assert RootOk(node, roots, treemap, j);
    }
  }
}
