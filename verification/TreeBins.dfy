/**
 The tree bins: every large free chunk hangs in the trie of its bin, chunks of one size in
 a FIFO queue of which only the oldest is a trie node.
 */
module TreeBins {
  import opened Words
  import opened BinIndex
  import opened Rings
  import opened Trie
  import opened Forest
  import opened Chunks

  /** The chunks of each size, oldest first. */
  type Queues = map<nat, seq<nat>>

  function First(queue: Queues, s: nat): nat {
    if s in queue && |queue[s]| > 0 then queue[s][0] else 0
  }

  /** The chunk at each position is the oldest of its size. */
  ghost function Oldest(at: Sites, queue: Queues): Nodes {
    map p | p in at :: First(queue, at[p])
  }

  ghost predicate QueueOk(content: Content, home: Homes, queue: Queues, fd: Links, bk: Links, s: nat)
    requires s in queue
  {
    && s in home
    && Ring(bk, fd, queue[s])
    && forall a :: a in queue[s] ==> a != 0 && a in content && content[a] == s
  }

  /** Every chunk is in exactly one queue, that of its size. */
  ghost predicate QueuesOk(content: Content, home: Homes, queue: Queues, fd: Links, bk: Links) {
    && (forall s {:trigger QueueOk(content, home, queue, fd, bk, s)} ::
          s in queue ==> QueueOk(content, home, queue, fd, bk, s))
    && (forall s :: s in home ==> s in queue)
    && (forall a :: a in content ==> content[a] in queue && a in queue[content[a]])
  }

  /** A chunk that is not the oldest of its size has no place in the trie. */
  ghost predicate TailOk(queue: Queues, t: TreeLinks, s: nat)
    requires s in queue
  {
    forall k {:trigger queue[s][k]} :: 1 <= k < |queue[s]| ==>
      && Get(t.parent, queue[s][k]) == 0
      && GetChild(t, queue[s][k], 0) == 0 && GetChild(t, queue[s][k], 1) == 0
  }

  ghost predicate TailsOk(queue: Queues, t: TreeLinks) {
    forall s {:trigger TailOk(queue, t, s)} :: s in queue ==> TailOk(queue, t, s)
  }

  ghost predicate IndicesOk(content: Content, index: Links) {
    forall a :: a in content ==> Get(index, a) == TreeIndex(content[a])
  }

  /** The head words agree with the sizes of the chunks held. */
  ghost predicate Sized(head: Heads, content: Content) {
    forall a :: a in content ==> ChunkSize(head, a) == content[a]
  }

  function PushLast(queue: Queues, s: nat, x: nat): Queues {
    queue[s := if s in queue then queue[s] + [x] else [x]]
  }

  function DropSize(queue: Queues, s: nat): Queues {
    map u | u in queue && u != s :: queue[u]
  }

  function RemoveAt(queue: Queues, s: nat, k: nat): Queues
    requires s in queue && k < |queue[s]|
  {
    if |queue[s]| == 1 then DropSize(queue, s) else queue[s := Remove(queue[s], k)]
  }

  // ----- Queues under insertion and removal -----

  lemma PushNew(content: Content, home: Homes, queue: Queues, fd: Links, bk: Links, s: nat, p: Pos, x: nat)
    requires QueuesOk(content, home, queue, fd, bk) && s !in queue && x !in content && x != 0
    ensures QueuesOk(content[x := s], home[s := p], queue[s := [x]], fd[x := x], bk[x := x])
  {
    var content', home', queue', fd', bk' := content[x := s], home[s := p], queue[s := [x]], fd[x := x], bk[x := x];
    RingSingle(bk', fd', x);
    forall u | u in queue' ensures QueueOk(content', home', queue', fd', bk', u) {
      if u != s {
        assert QueueOk(content, home, queue, fd, bk, u);
        RingFrame(bk, fd, bk', fd', queue[u]);
      }
    }
  }

  /** `T->fd = F->bk = X; X->fd = F; X->bk = T` puts X behind the newest of its size. */
  lemma PushOld(content: Content, home: Homes, queue: Queues, fd: Links, bk: Links, s: nat, x: nat)
    requires QueuesOk(content, home, queue, fd, bk) && s in queue && x !in content && x != 0
    ensures |queue[s]| > 0
    ensures var t := queue[s][0]; var f := Get(fd, t);
            QueuesOk(content[x := s], home, queue[s := queue[s] + [x]], fd[t := x][x := f], bk[f := x][x := t])
  {
    assert QueueOk(content, home, queue, fd, bk, s);
    var q := queue[s];
    var t, f := q[0], Get(fd, q[0]);
    assert Linked(bk, fd, q, 0);
    assert f == q[|q| - 1] && t == After(q, |q| - 1);
    RingInsert(bk, fd, q, |q|, x);
    assert Insert(q, |q|, x) == q + [x];
    var content', queue', fd', bk' := content[x := s], queue[s := q + [x]], fd[t := x][x := f], bk[f := x][x := t];
    forall u | u in queue' ensures QueueOk(content', home, queue', fd', bk', u) {
      assert QueueOk(content, home, queue, fd, bk, u);
      if u != s {
        RingFrame(bk, fd, bk', fd', queue[u]);
      }
    }
  }

  /** `F->bk = R; R->fd = F` takes X out of its queue. */
  lemma TakeOut(content: Content, home: Homes, queue: Queues, fd: Links, bk: Links, s: nat, k: nat)
    requires QueuesOk(content, home, queue, fd, bk) && s in queue && k < |queue[s]| && |queue[s]| > 1
    ensures var x := queue[s][k]; var f, r := Get(fd, x), Get(bk, x);
            QueuesOk(Without(content, x), home, queue[s := Remove(queue[s], k)], fd[r := f], bk[f := r])
  {
    assert QueueOk(content, home, queue, fd, bk, s);
    var q := queue[s];
    var x := q[k];
    var f, r := Get(fd, x), Get(bk, x);
    assert Linked(bk, fd, q, k);
    RingRemove(bk, fd, q, k);
    var content', queue', fd', bk' := Without(content, x), queue[s := Remove(q, k)], fd[r := f], bk[f := r];
    forall u | u in queue' ensures QueueOk(content', home, queue', fd', bk', u) {
      assert QueueOk(content, home, queue, fd, bk, u);
      if u != s {
        RingFrame(bk, fd, bk', fd', queue[u]);
      } else {
        InRemove(q, k);
      }
    }
    forall a | a in content' ensures content'[a] in queue' && a in queue'[content'[a]] {
      assert a in content;
      InRemove(q, k);
    }
  }

  /** The last chunk of a size leaves with its queue. */
  lemma TakeLast(content: Content, home: Homes, home': Homes, queue: Queues, fd: Links, bk: Links, s: nat)
    requires QueuesOk(content, home, queue, fd, bk) && s in queue && |queue[s]| == 1
    requires forall u :: u in home' <==> u in home && u != s
    ensures QueuesOk(Without(content, queue[s][0]), home', DropSize(queue, s), fd, bk)
  {
    var content', queue' := Without(content, queue[s][0]), DropSize(queue, s);
    assert QueueOk(content, home, queue, fd, bk, s);
    forall u | u in queue' ensures QueueOk(content', home', queue', fd, bk, u) {
      assert QueueOk(content, home, queue, fd, bk, u);
    }
  }

  // ----- The trie nodes under insertion and removal -----

  lemma OldestFresh(content: Content, at: Sites, home: Homes, queue: Queues, fd: Links, bk: Links, x: nat)
    requires QueuesOk(content, home, queue, fd, bk) && Shape(at, home)
    requires x != 0 && (x !in content || (content[x] in queue && |queue[content[x]]| > 0 && queue[content[x]][0] != x))
    ensures Fresh(Oldest(at, queue), x)
  {
    forall p | p in at ensures Oldest(at, queue)[p] != x {
      assert Placed(at, home, p);
      assert QueueOk(content, home, queue, fd, bk, at[p]);
    }
  }

  lemma OldestAdd(at: Sites, home: Homes, queue: Queues, p: Pos, s: nat, x: nat)
    requires Shape(at, home) && p !in at && s !in home
    ensures Oldest(at[p := s], queue[s := [x]]) == Oldest(at, queue)[p := x]
  {
    forall q | q in at ensures at[q] != s {
      assert Placed(at, home, q);
    }
  }

  ghost predicate SameWords(t: TreeLinks, t': TreeLinks, a: nat) {
    && Get(t'.parent, a) == Get(t.parent, a) && GetChild(t', a, 0) == GetChild(t, a, 0)
    && GetChild(t', a, 1) == GetChild(t, a, 1)
  }

  ghost predicate NotTail(queue: Queues, a: nat) {
    forall s, k :: s in queue && 1 <= k < |queue[s]| ==> queue[s][k] != a
  }

  lemma OldestNotTail(content: Content, home: Homes, queue: Queues, fd: Links, bk: Links, a: nat)
    requires QueuesOk(content, home, queue, fd, bk)
    requires a == 0 || a !in content || a == First(queue, content[a])
    ensures NotTail(queue, a)
  {
    forall s, k | s in queue && 1 <= k < |queue[s]| ensures queue[s][k] != a {
      assert QueueOk(content, home, queue, fd, bk, s);
      assert queue[s][k] in queue[s];
    }
  }

  /** Writing the tree words of chunks that are in no tail leaves the tails right. */
  lemma TailsFrame(queue: Queues, t: TreeLinks, t': TreeLinks, changed: set<nat>)
    requires TailsOk(queue, t)
    requires forall a :: a in changed ==> NotTail(queue, a)
    requires forall a :: a !in changed ==> SameWords(t, t', a)
    ensures TailsOk(queue, t')
  {
    forall s | s in queue ensures TailOk(queue, t', s) {
      assert TailOk(queue, t, s);
      forall k | 1 <= k < |queue[s]| ensures SameWords(t, t', queue[s][k]) {
        assert queue[s][k] !in changed;
      }
    }
  }

  // ----- Searching a trie -----

  /** A size kept strictly below p is kept below the child of p that covers it. */
  lemma TargetChild(at: Sites, home: Homes, p: Pos, s: nat, b: nat)
    requires Shape(at, home) && p.n >= 1 && Exp(p.bin, p.n) >= 1 && b < 2
    requires s in home && home[s].bin == p.bin && Below(p.n, home[s].n) && home[s] != p
    requires Covers(p.bin, 2 * p.n + b, s)
    ensures Child(p, b) in at && Below(2 * p.n + b, home[s].n)
  {
    assert Housed(at, home, s) && Placed(at, home, home[s]);
    var m, c := home[s].n, 2 * p.n + b;
    ChildSide(p.bin, p.n, m, s, b);
    Occupied(at, home, p.bin, c, m);
  }

  lemma NextBits(p: Pos, s: nat, t: nat, k: nat)
    requires p.n >= 1 && BitsAt(p.bin, p.n, s, k) && Covers(p.bin, p.n, t) && s != t
    ensures Exp(p.bin, p.n) >= 1 && k < WORD && k / 0x8000_0000 < 2
    ensures BitsAt(p.bin, 2 * p.n + k / 0x8000_0000, s, (2 * k) % WORD)
  {
    TwoSizes(p.bin, p.n, s, t);
    BitsStep(p.bin, p.n, s, k);
  }

  /** One step of the search for size `s` from position p: if `s` has a node, it is below
      the child chosen by the sign bit of the search word. */
  lemma DescendStep(at: Sites, home: Homes, p: Pos, s: nat, k: nat, b: nat)
    requires Shape(at, home) && p in at && at[p] != s && p.n >= 1 && BitsAt(p.bin, p.n, s, k)
    requires s in home ==> home[s].bin == p.bin && Below(p.n, home[s].n)
    requires b == k / 0x8000_0000
    ensures Exp(p.bin, p.n) >= 1 && b < 2 && BitsAt(p.bin, 2 * p.n + b, s, (2 * k) % WORD)
    ensures s in home ==> Child(p, b) in at && Below(2 * p.n + b, home[s].n)
  {
    assert Placed(at, home, p);
    NextBits(p, s, at[p], k);
    if s in home {
      assert Housed(at, home, s);
      TargetChild(at, home, p, s, b);
    }
  }

  lemma {:induction false} BelowRoot(m: nat)
    requires m >= 1
    ensures Below(1, m)
  {
    if m > 1 { BelowRoot(m / 2); }
  }

  lemma TailsAddSingle(queue: Queues, t: TreeLinks, s: nat, x: nat)
    requires TailsOk(queue, t)
    ensures TailsOk(queue[s := [x]], t)
  {
    var queue' := queue[s := [x]];
    forall u | u in queue' ensures TailOk(queue', t, u) {
      if u != s { assert TailOk(queue, t, u); }
    }
  }

  lemma TailsAddLast(queue: Queues, t: TreeLinks, s: nat, x: nat)
    requires TailsOk(queue, t) && s in queue
    requires Get(t.parent, x) == 0 && GetChild(t, x, 0) == 0 && GetChild(t, x, 1) == 0
    ensures TailsOk(queue[s := queue[s] + [x]], t)
  {
    var queue' := queue[s := queue[s] + [x]];
    forall u | u in queue' ensures TailOk(queue', t, u) {
      assert TailOk(queue, t, u);
      forall k | 1 <= k < |queue'[u]|
        ensures Get(t.parent, queue'[u][k]) == 0 && GetChild(t, queue'[u][k], 0) == 0
        ensures GetChild(t, queue'[u][k], 1) == 0
      {
        if u == s && k < |queue[s]| { assert queue'[u][k] == queue[s][k]; }
      }
    }
  }

  lemma TailsDropSize(queue: Queues, t: TreeLinks, s: nat)
    requires TailsOk(queue, t)
    ensures TailsOk(DropSize(queue, s), t)
  {
    var queue' := DropSize(queue, s);
    forall u | u in queue' ensures TailOk(queue', t, u) {
      assert TailOk(queue, t, u);
    }
  }

  lemma TailsRemove(queue: Queues, t: TreeLinks, s: nat, k: nat)
    requires TailsOk(queue, t) && s in queue && k < |queue[s]|
    ensures TailsOk(queue[s := Remove(queue[s], k)], t)
  {
    var queue' := queue[s := Remove(queue[s], k)];
    forall u | u in queue' ensures TailOk(queue', t, u) {
      assert TailOk(queue, t, u);
      forall j | 1 <= j < |queue'[u]|
        ensures Get(t.parent, queue'[u][j]) == 0 && GetChild(t, queue'[u][j], 0) == 0
        ensures GetChild(t, queue'[u][j], 1) == 0
      {
        if u == s { assert queue'[u][j] == queue[s][if j < k then j else j + 1]; }
      }
    }
  }

  lemma ParentFresh(node: Nodes, t: TreeLinks, x: nat)
    requires ForestOk(node, t) && Fresh(node, x)
    ensures ForestOk(node, SetParent(t, x, 0))
  {
    forall q | q in node ensures NodeOk(node, SetParent(t, x, 0), q) {
      assert NodeOk(node, t, q);
    }
  }

  /** Taking over a node writes only the words of nodes, never those of queued chunks. */
  lemma TailsReplaced(content': Content, home': Homes, queue': Queues, fd': Links, bk': Links, node: Nodes,
                      t: TreeLinks, p: Pos, r: nat)
    requires QueuesOk(content', home', queue', fd', bk') && TailsOk(queue', t)
    requires ForestOk(node, t) && p in node && Fresh(node, r) && GetChild(t, r, 0) == 0 && GetChild(t, r, 1) == 0
    requires forall q :: q in node && q != p ==> node[q] !in content' || node[q] == First(queue', content'[node[q]])
    requires r !in content' || r == First(queue', content'[r])
    ensures TailsOk(queue', Replaced(node, t, p, r))
  {
    assert NodeOk(node, t, p);
    var x, xp := node[p], ParentRef(node, p);
    var c0, c1 := GetChild(t, x, 0), GetChild(t, x, 1);
    var changed := {r, c0, c1} + if p.n > 1 then {xp} else {};
    ChildOnce(p, p, 0);
    forall a | a in changed ensures NotTail(queue', a) {
      assert a == r || a == 0 || a == NodeAt(node, Child(p, 0)) || a == NodeAt(node, Child(p, 1))
             || (p.n > 1 && a == NodeAt(node, Parent(p)));
      OldestNotTail(content', home', queue', fd', bk', a);
    }
    forall a | a !in changed ensures SameWords(t, Replaced(node, t, p, r), a) {
      ReplacedWords(node, t, p, r, a);
    }
    TailsFrame(queue', t, Replaced(node, t, p, r), changed);
  }

  // ----- Best fit -----

  /** 32-bit `size - nb`: with rsize at most -nb, the comparison `trem < rsize` holds just
      for the sizes that fit and fit better. */
  function Remainder(size: nat, nb: nat): nat
    requires nb < WORD
  {
    (size + WORD - nb) % WORD
  }

  lemma RemainderTest(size: nat, nb: nat, rsize: nat)
    requires size < WORD && nb < WORD && rsize <= WORD - nb
    ensures Remainder(size, nb) < rsize <==> nb <= size && size - nb < rsize
    ensures nb <= size ==> Remainder(size, nb) == size - nb
  {
  }

  /** A chunk of size `s` need no longer be looked at: it does not fit, or is no better
      than the choice `v` with remainder `rsize`. */
  ghost predicate Seen(s: nat, nb: nat, v: nat, rsize: nat) {
    s < nb || (v != 0 && nb + rsize <= s)
  }

  class TreeBins {
    var treemap: nat
    var roots: seq<nat>
    var fd: Links
    var bk: Links
    var tree: TreeLinks
    var index: Links

    ghost var content: Content
    ghost var at: Sites
    ghost var home: Homes
    ghost var queue: Queues

    ghost predicate Valid()
      reads this
    {
      && Shape(at, home)
      && QueuesOk(content, home, queue, fd, bk)
      && TailsOk(queue, tree)
      && IndicesOk(content, index)
      && ForestOk(Oldest(at, queue), tree)
      && RootsOk(Oldest(at, queue), roots, treemap)
    }

    /** Record a new abstract state that the words already represent. */
    ghost method SetView(content': Content, at': Sites, home': Homes, queue': Queues)
      requires Shape(at', home')
      requires QueuesOk(content', home', queue', fd, bk)
      requires TailsOk(queue', tree)
      requires IndicesOk(content', index)
      requires ForestOk(Oldest(at', queue'), tree)
      requires RootsOk(Oldest(at', queue'), roots, treemap)
      modifies `content, `at, `home, `queue
      ensures Valid() && content == content' && at == at' && home == home' && queue == queue'
    {
      content, at, home, queue := content', at', home', queue';
    }

    constructor ()
      ensures Valid() && content == map[] && queue == map[]
    {
      treemap, roots := 0, seq(NTREEBINS, _ => 0);
      fd, bk, index := map[], map[], map[];
      tree := TreeLinks(map[], map[], map[]);
      content, at, home, queue := map[], map[], map[], map[];
      new;
      forall i | 0 <= i < NTREEBINS ensures RootOk(Oldest(at, queue), roots, treemap, i) {
        BitZero(i);
      }
    }

    /** The search for size `s` in bin i has reached position p, chunk t, with search word
        k. */
    ghost predicate Searching(head: Heads, s: nat, i: nat, p: Pos, t: nat, k: nat)
      reads this
    {
      && p in at && p.bin == i && p.n >= 1
      && t == First(queue, at[p]) && ChunkSize(head, t) == at[p]
      && BitsAt(i, p.n, s, k)
      && (s in home ==> home[s].bin == i && Below(p.n, home[s].n))
    }

    lemma SearchStart(head: Heads, s: nat, i: nat)
      requires Valid() && Sized(head, content)
      requires MIN_LARGE_SIZE <= s < WORD && i == TreeIndex(s) && i < NTREEBINS && Bit(treemap, i)
      ensures Searching(head, s, i, Pos(i, 1), roots[i], Shl(s, LeftShift(i)))
    {
      InitialBits(s);
      var p := Pos(i, 1);
      assert RootOk(Oldest(at, queue), roots, treemap, i);
      OldestSize(head, p);
      if s in home {
        assert Housed(at, home, s) && Placed(at, home, home[s]);
        BelowRoot(home[s].n);
      }
    }

    lemma SearchStep(head: Heads, s: nat, i: nat, p: Pos, t: nat, k: nat, b: nat, c: nat)
      requires Valid() && Sized(head, content) && Searching(head, s, i, p, t, k) && ChunkSize(head, t) != s
      requires b == k / 0x8000_0000 && c == GetChild(tree, t, b)
      ensures b < 2
      ensures c == 0 ==> s !in home && Child(p, b) !in at && Covers(i, 2 * p.n + b, s)
      ensures c != 0 ==> Searching(head, s, i, Child(p, b), c, (2 * k) % WORD)
      ensures c != 0 ==> 0 <= Exp(i, Child(p, b).n) < Exp(i, p.n)
    {
      DescendStep(at, home, p, s, k, b);
      NodeChild(p, b);
      if c != 0 {
        ChildExp(i, p.n, b);
        OldestSize(head, Child(p, b));
      }
    }

    /** The search of `insert_large_chunk`: down from the root of bin i by the bits of `s`,
        to the node of that size or to the free child slot where it belongs. */
    method Descend(head: Heads, s: nat, i: nat) returns (t: nat, b: nat, ghost p: Pos)
      requires Valid() && Sized(head, content)
      requires MIN_LARGE_SIZE <= s < WORD && i == TreeIndex(s) && i < NTREEBINS && Bit(treemap, i)
      ensures p in at && p.bin == i && p.n >= 1 && t == First(queue, at[p]) && ChunkSize(head, t) == at[p]
      ensures at[p] == s ==> s in home && home[s] == p
      ensures at[p] != s ==> s !in home && b < 2 && Child(p, b) !in at && Covers(i, 2 * p.n + b, s)
    {
      SearchStart(head, s, i);
      t := roots[i];
      b := 0;
      p := Pos(i, 1);
      var k: nat := Shl(s, LeftShift(i));
      while ChunkSize(head, t) != s
        invariant Searching(head, s, i, p, t, k)
        decreases Exp(i, p.n)
      {
        b := k / 0x8000_0000;
        var c := GetChild(tree, t, b);
        SearchStep(head, s, i, p, t, k, b, c);
        k := (2 * k) % WORD;
        if c == 0 {
          return;
        }
        t := c;
        p := Child(p, b);
      }
      NodeHome(p);
      assert at[p] == s;
    }

    /** A node's head word holds its size. */
    lemma OldestSize(head: Heads, p: Pos)
      requires Valid() && Sized(head, content) && p in at
      ensures at[p] in queue && First(queue, at[p]) in content && content[First(queue, at[p])] == at[p]
      ensures First(queue, at[p]) != 0
      ensures ChunkSize(head, First(queue, at[p])) == at[p]
    {
      assert Placed(at, home, p);
      assert QueueOk(content, home, queue, fd, bk, at[p]);
    }

    lemma NodeHome(p: Pos)
      requires Valid() && p in at
      ensures at[p] in home && home[at[p]] == p
    {
      assert Placed(at, home, p);
    }

    /** A child word is null exactly when the child position is unoccupied. */
    lemma NodeChild(p: Pos, b: nat)
      requires Valid() && p in at && b < 2
      ensures var c := GetChild(tree, First(queue, at[p]), b);
              if Child(p, b) in at then c != 0 && c == First(queue, at[Child(p, b)]) else c == 0
    {
      var node := Oldest(at, queue);
      assert NodeOk(node, tree, p);
      if Child(p, b) in at { assert NodeOk(node, tree, Child(p, b)); }
    }

    // ----- insert_large_chunk -----

    lemma NewChunk(x: nat)
      requires Valid() && x != 0 && x !in content
      ensures Fresh(Oldest(at, queue), x) && NotTail(queue, x)
    {
      OldestFresh(content, at, home, queue, fd, bk, x);
      OldestNotTail(content, home, queue, fd, bk, x);
    }

    lemma OldNode(p: Pos)
      requires Valid() && p in at
      ensures NotTail(queue, First(queue, at[p]))
    {
      assert Placed(at, home, p);
      assert QueueOk(content, home, queue, fd, bk, at[p]);
      OldestNotTail(content, home, queue, fd, bk, First(queue, at[p]));
    }

    /** `X->index = I; X->child[0] = X->child[1] = 0`. */
    method Prepare(x: nat, i: nat)
      requires Valid() && x != 0 && x !in content
      modifies `tree, `index
      ensures Valid()
      ensures Get(index, x) == i && GetChild(tree, x, 0) == 0 && GetChild(tree, x, 1) == 0
    {
      NewChunk(x);
      ClearFresh(Oldest(at, queue), tree, x);
      TailsFrame(queue, tree, ClearChildren(tree, x), {x});
      index := index[x := i];
      tree := ClearChildren(tree, x);
    }

    lemma RootLinked(x: nat, s: nat, i: nat)
      requires Valid() && x != 0 && x !in content && MIN_LARGE_SIZE <= s < WORD && i == TreeIndex(s) && i < NTREEBINS
      requires GetChild(tree, x, 0) == 0 && GetChild(tree, x, 1) == 0 && !Bit(treemap, i)
      ensures s !in queue
      ensures var p, tree' := Pos(i, 1), SetParent(tree, x, RootRef(i));
              var at', home', queue' := at[p := s], home[s := p], queue[s := [x]];
              && Shape(at', home')
              && QueuesOk(content[x := s], home', queue', fd[x := x], bk[x := x])
              && TailsOk(queue', tree')
              && ForestOk(Oldest(at', queue'), tree')
              && Oldest(at', queue') == Oldest(at, queue)[p := x]
    {
      var p, node, tree' := Pos(i, 1), Oldest(at, queue), SetParent(tree, x, RootRef(i));
      EmptyBin(s);
      assert Shape(at[p := s], home[s := p]) by { RootCovers(s); ShapeAdd(at, home, p, s); }
      PushNew(content, home, queue, fd, bk, s, p, x);
      assert TailsOk(queue[s := [x]], tree') by {
        NewChunk(x);
        TailsFrame(queue, tree, tree', {x});
        TailsAddSingle(queue, tree', s, x);
      }
      OldestAdd(at, home, queue, p, s, x);
      assert ForestOk(node[p := x], tree') by { NewChunk(x); AddRoot(node, tree, i, x); }
    }

    /** `mark_treemap(M, I); *H = X`. */
    method SetRoot(i: nat, x: nat, ghost node: Nodes)
      requires RootsOk(node, roots, treemap) && i < NTREEBINS
      modifies `roots, `treemap
      ensures RootsOk(node[Pos(i, 1) := x], roots, treemap)
    {
      RootsAdd(node, roots, treemap, i, x);
      treemap := Mark(treemap, i);
      roots := roots[i := x];
    }

    /** The first chunk of an empty bin becomes its root. */
    method LinkRoot(x: nat, s: nat, i: nat)
      requires Valid() && x != 0 && x !in content && MIN_LARGE_SIZE <= s < WORD && i == TreeIndex(s) && i < NTREEBINS
      requires Get(index, x) == i && GetChild(tree, x, 0) == 0 && GetChild(tree, x, 1) == 0
      requires !Bit(treemap, i)
      modifies this
      ensures Valid() && queue == PushLast(old(queue), s, x) && content == old(content)[x := s]
    {
      RootLinked(x, s, i);
      SetRoot(i, x, Oldest(at, queue));
      tree := SetParent(tree, x, RootRef(i));
      fd, bk := fd[x := x], bk[x := x];
      SetView(content[x := s], at[Pos(i, 1) := s], home[s := Pos(i, 1)], queue[s := [x]]);
    }

    lemma EmptyBin(s: nat)
      requires Valid() && TreeIndex(s) < NTREEBINS && !Bit(treemap, TreeIndex(s))
      ensures Pos(TreeIndex(s), 1) !in at
      ensures s !in home && s !in queue
    {
      NewSize(s);
      var p := Pos(TreeIndex(s), 1);
      assert RootOk(Oldest(at, queue), roots, treemap, p.bin);
      if s in home {
        assert Housed(at, home, s) && Placed(at, home, home[s]);
        BelowRoot(home[s].n);
        Occupied(at, home, p.bin, 1, home[s].n);
      }
    }

    lemma NewSize(s: nat)
      requires Valid()
      ensures s in queue ==> s in home
    {
      assert s in queue ==> QueueOk(content, home, queue, fd, bk, s);
    }

    lemma LeafLinked(t: nat, b: nat, x: nat, s: nat, p: Pos)
      requires Valid() && x != 0 && x !in content && MIN_LARGE_SIZE <= s < WORD && p in at && t == First(queue, at[p])
      requires GetChild(tree, x, 0) == 0 && GetChild(tree, x, 1) == 0
      requires p.bin == TreeIndex(s) && p.n >= 1 && s !in home && b < 2 && Child(p, b) !in at
      requires Covers(p.bin, 2 * p.n + b, s)
      ensures s !in queue
      ensures var c, tree' := Child(p, b), SetParent(SetChild(tree, t, b, x), x, t);
              var at', home', queue' := at[c := s], home[s := c], queue[s := [x]];
              && Shape(at', home')
              && QueuesOk(content[x := s], home', queue', fd[x := x], bk[x := x])
              && TailsOk(queue', tree')
              && ForestOk(Oldest(at', queue'), tree')
              && RootsOk(Oldest(at', queue'), roots, treemap)
    {
      var c, node, tree' := Child(p, b), Oldest(at, queue), SetParent(SetChild(tree, t, b, x), x, t);
      NewSize(s);
      assert Shape(at[c := s], home[s := c]) by { assert Placed(at, home, p); ShapeAdd(at, home, c, s); }
      PushNew(content, home, queue, fd, bk, s, c, x);
      assert TailsOk(queue[s := [x]], tree') by {
        NewChunk(x);
        OldNode(p);
        TailsFrame(queue, tree, tree', {x, t});
        TailsAddSingle(queue, tree', s, x);
      }
      OldestAdd(at, home, queue, c, s, x);
      assert ForestOk(node[c := x], tree') by { NewChunk(x); AddLeaf(node, tree, p, b, x); }
      RootsFrame(node, node[c := x], roots, treemap);
    }

    /** A size that is new to its trie becomes a leaf. */
    method LinkLeaf(t: nat, b: nat, x: nat, s: nat, ghost p: Pos)
      requires Valid() && x != 0 && x !in content && MIN_LARGE_SIZE <= s < WORD && p in at && t == First(queue, at[p])
      requires Get(index, x) == TreeIndex(s) && GetChild(tree, x, 0) == 0 && GetChild(tree, x, 1) == 0
      requires p.bin == TreeIndex(s) && p.n >= 1 && s !in home && b < 2 && Child(p, b) !in at
      requires Covers(p.bin, 2 * p.n + b, s)
      modifies this
      ensures Valid() && queue == PushLast(old(queue), s, x) && content == old(content)[x := s]
    {
      LeafLinked(t, b, x, s, p);
      tree := SetChild(tree, t, b, x);
      tree := SetParent(tree, x, t);
      fd, bk := fd[x := x], bk[x := x];
      SetView(content[x := s], at[Child(p, b) := s], home[s := Child(p, b)], queue[s := [x]]);
    }

    lemma BehindLinked(t: nat, x: nat, s: nat)
      requires Valid() && x != 0 && x !in content && s in home && s in queue && t == First(queue, s)
      requires GetChild(tree, x, 0) == 0 && GetChild(tree, x, 1) == 0
      ensures var f, queue', tree' := Get(fd, t), queue[s := queue[s] + [x]], SetParent(tree, x, 0);
              && QueuesOk(content[x := s], home, queue', fd[t := x][x := f], bk[f := x][x := t])
              && TailsOk(queue', tree')
              && Oldest(at, queue') == Oldest(at, queue)
              && ForestOk(Oldest(at, queue), tree')
    {
      var queue', tree' := queue[s := queue[s] + [x]], SetParent(tree, x, 0);
      assert |queue[s]| > 0 by { assert QueueOk(content, home, queue, fd, bk, s); }
      PushOld(content, home, queue, fd, bk, s, x);
      assert TailsOk(queue', tree') by {
        NewChunk(x);
        TailsFrame(queue, tree, tree', {x});
        TailsAddLast(queue, tree', s, x);
      }
      assert ForestOk(Oldest(at, queue), tree') by { NewChunk(x); ParentFresh(Oldest(at, queue), tree, x); }
    }

    /** Another chunk of a size already present goes behind the newest. */
    method LinkBehind(t: nat, x: nat, s: nat)
      requires Valid() && x != 0 && x !in content && s in home && s in queue && t == First(queue, s)
      requires Get(index, x) == TreeIndex(s) && GetChild(tree, x, 0) == 0 && GetChild(tree, x, 1) == 0
      modifies this
      ensures Valid() && queue == PushLast(old(queue), s, x) && content == old(content)[x := s]
    {
      BehindLinked(t, x, s);
      var f := Get(fd, t);
      fd, bk := fd[t := x], bk[f := x];
      fd, bk := fd[x := f], bk[x := t];
      tree := SetParent(tree, x, 0);
      SetView(content[x := s], at, home, queue[s := queue[s] + [x]]);
    }

    method Insert(head: Heads, x: nat, s: nat)
      requires Valid() && Sized(head, content) && x != 0 && x !in content && MIN_LARGE_SIZE <= s < WORD
      modifies this
      ensures Valid() && queue == PushLast(old(queue), s, x) && content == old(content)[x := s]
    {
      var i := ComputeTreeIndex(s);
      TreeIndexExact(s);
      Prepare(x, i);
      IsMarkedBit(treemap, i);
      if !IsMarked(treemap, i) {
        LinkRoot(x, s, i);
      } else {
        ghost var p;
        var t, b;
        t, b, p := Descend(head, s, i);
        if ChunkSize(head, t) != s {
          LinkLeaf(t, b, x, s, p);
        } else {
          LinkBehind(t, x, s);
        }
      }
    }

    // ----- unlink_large_chunk -----

    /** The rightmost descendant of the node at p: the leaf `r`, the chunk `h` above it and
        which of its child words names it. */
    method Rightmost(x: nat, ghost p: Pos) returns (r: nat, h: nat, b: nat, ghost m: Pos)
      requires Valid() && p in at && p.n >= 1 && x == First(queue, at[p]) && !IsLeaf(at, p)
      ensures m in at && m.bin == p.bin && m.n > 1 && Below(p.n, m.n) && m != p && IsLeaf(at, m)
      ensures r == First(queue, at[m])
      ensures Parent(m) in at && h == First(queue, at[Parent(m)]) && b == m.n % 2
    {
      NodeChild(p, 0);
      NodeChild(p, 1);
      h := x;
      b := if GetChild(tree, x, 1) != 0 then 1 else 0;
      r := GetChild(tree, x, b);
      m := Child(p, b);
      BelowParent(p.n, m.n, b);
      NodeDepth(p);
      NodeDepth(m);
      while GetChild(tree, r, 1) != 0 || GetChild(tree, r, 0) != 0
        invariant m in at && m.bin == p.bin && m.n > 1 && Below(p.n, m.n) && m != p
        invariant r == First(queue, at[m]) && b < 2 && b == m.n % 2
        invariant Parent(m) in at && h == First(queue, at[Parent(m)])
        invariant 0 <= Exp(m.bin, m.n)
        decreases Exp(m.bin, m.n)
      {
        NodeChild(m, 0);
        NodeChild(m, 1);
        h := r;
        b := if GetChild(tree, r, 1) != 0 then 1 else 0;
        r := GetChild(tree, r, b);
        BelowLonger(p.n, m.n, b);
        m := Child(m, b);
        NodeDepth(m);
      }
      NodeChild(m, 0);
      NodeChild(m, 1);
    }

    lemma NodeDepth(p: Pos)
      requires Valid() && p in at
      ensures p.n >= 1 && Exp(p.bin, p.n) >= 0
      ensures p.n > 1 ==> Parent(p) in at && Exp(p.bin, p.n) == Exp(p.bin, p.n / 2) - 1
    {
      assert Placed(at, home, p);
    }

    /** `X->parent`'s word that names X now names R, and R takes over X's tree words. With
        R null the word is just cleared. */
    method Relink(x: nat, xp: nat, r: nat, ghost node: Nodes, ghost p: Pos)
      requires ForestOk(node, tree) && RootsOk(node, roots, treemap)
      requires p in node && node[p] == x && xp == ParentRef(node, p) && Get(index, x) == p.bin && p.bin < NTREEBINS
      modifies `tree, `roots, `treemap
      ensures tree == if r != 0 then Replaced(node, old(tree), p, r)
                      else if p.n == 1 then old(tree) else SetChild(old(tree), xp, p.n % 2, 0)
      ensures RootsOk(if r == 0 then Drop(node, p) else node[p := r], roots, treemap)
    {
      RootOrChild(node, p);
      var i := Get(index, x);
      if p.n == 1 {
        RootsDrop(node, roots, treemap, i);
        RootsReplace(node, roots, treemap, i, r);
      } else {
        RootsFrame(node, Drop(node, p), roots, treemap);
        RootsFrame(node, node[p := r], roots, treemap);
      }
      if x == roots[i] {
        roots := roots[i := r];
        if r == 0 {
          treemap := Clear(treemap, i);
        }
      } else if GetChild(tree, xp, 0) == x {
        tree := SetChild(tree, xp, 0, r);
      } else {
        tree := SetChild(tree, xp, 1, r);
      }
      if r != 0 {
        tree := SetParent(tree, r, xp);
        var c0 := GetChild(tree, x, 0);
        if c0 != 0 {
          tree := SetChild(tree, r, 0, c0);
          tree := SetParent(tree, c0, r);
        }
        var c1 := GetChild(tree, x, 1);
        if c1 != 0 {
          tree := SetChild(tree, r, 1, c1);
          tree := SetParent(tree, c1, r);
        }
      }
    }

    /** A node is its bin's root exactly at position 1; otherwise the parent's left word
        names it exactly when its position is even. */
    lemma RootOrChild(node: Nodes, p: Pos)
      requires ForestOk(node, tree) && RootsOk(node, roots, treemap) && p in node
      ensures p.bin < NTREEBINS && |roots| == NTREEBINS && p.n >= 1
      ensures node[p] == roots[p.bin] <==> p.n == 1
      ensures p.n > 1 ==> (GetChild(tree, ParentRef(node, p), 0) == node[p] <==> p.n % 2 == 0)
    {
      assert NodeOk(node, tree, p);
      assert RootOk(node, roots, treemap, p.bin);
      if p.n > 1 {
        assert NodeOk(node, tree, Parent(p));
        assert Child(Parent(p), p.n % 2) == p;
      }
    }

    /** Chunk `x` is number k in the queue of its size. */
    ghost predicate Queued(x: nat, s: nat, k: nat)
      reads this
    {
      s in queue && k < |queue[s]| && queue[s][k] == x
    }

    lemma QueuedFacts(x: nat, s: nat, k: nat)
      requires Valid() && Queued(x, s, k)
      ensures x != 0 && x in content && content[x] == s && s in home && home[s] in at && at[home[s]] == s
      ensures Get(bk, x) != x <==> |queue[s]| > 1
      ensures |queue[s]| > 1 ==> Get(bk, x) == After(queue[s], k)
      ensures Get(index, x) == TreeIndex(s)
      ensures var p := home[s]; p.bin == TreeIndex(s) && p.bin < NTREEBINS && p.n >= 1
      ensures k > 0 ==> Get(tree.parent, x) == 0
      ensures k == 0 ==>
                && x == First(queue, s) && Get(tree.parent, x) == ParentRef(Oldest(at, queue), home[s])
                && Get(tree.parent, x) != 0
    {
      assert QueueOk(content, home, queue, fd, bk, s) && TailOk(queue, tree, s);
      assert x in queue[s];
      assert Linked(bk, fd, queue[s], k);
      RingNeighbours(bk, fd, queue[s], k);
      assert Housed(at, home, s) && Placed(at, home, home[s]);
      var node := Oldest(at, queue);
      assert NodeOk(node, tree, home[s]);
      if home[s].n > 1 { assert NodeOk(node, tree, Parent(home[s])); }
    }

    /** The parent word tells the oldest of its size from the others. */
    lemma ChainedFacts(x: nat, s: nat, k: nat)
      requires Valid() && Queued(x, s, k) && |queue[s]| > 1
      ensures s in home && Get(bk, x) == After(queue[s], k)
      ensures Get(tree.parent, x) != 0 <==> k == 0
    {
      QueuedFacts(x, s, k);
    }

    lemma NodeFacts(x: nat, s: nat)
      requires Valid() && Queued(x, s, 0)
      ensures s in home && home[s] in at && home[s].bin < NTREEBINS && home[s].n >= 1 && at[home[s]] == s
      ensures Oldest(at, queue)[home[s]] == x && Get(index, x) == home[s].bin
      ensures Get(tree.parent, x) == ParentRef(Oldest(at, queue), home[s])
    {
      QueuedFacts(x, s, 0);
    }

    /** Removing a chunk that is not the oldest of its size leaves the trie alone. */
    lemma TailUnlinked(s: nat, k: nat)
      requires Valid() && s in queue && 1 <= k < |queue[s]|
      ensures var queue' := queue[s := Remove(queue[s], k)];
              TailsOk(queue', tree) && Oldest(at, queue') == Oldest(at, queue)
    {
      TailsRemove(queue, tree, s, k);
    }

    /** When the oldest of several chunks leaves, the next oldest takes its node. */
    lemma OldestUnlinked(s: nat)
      requires Valid() && s in queue && |queue[s]| > 1 && s in home
      ensures home[s] in at
      ensures var r, p, node, queue' := queue[s][1], home[s], Oldest(at, queue), queue[s := Remove(queue[s], 0)];
              && r != 0
              && TailsOk(queue', Replaced(node, tree, p, r))
              && Oldest(at, queue') == node[p := r]
              && ForestOk(node[p := r], Replaced(node, tree, p, r))
    {
      var x, r, p, node, queue' := queue[s][0], queue[s][1], home[s], Oldest(at, queue),
          queue[s := Remove(queue[s], 0)];
      QueuedFacts(x, s, 0);
      QueuedFacts(r, s, 1);
      OldestFresh(content, at, home, queue, fd, bk, r);
      assert TailOk(queue, tree, s);
      Replace(node, tree, p, r);
      assert Oldest(at, queue') == node[p := r] by {
        forall q | q in at && q != p ensures at[q] != s { assert Placed(at, home, q); }
      }
      assert TailsOk(queue', Replaced(node, tree, p, r)) by {
        TailsRemove(queue, tree, s, 0);
        TakeOut(content, home, queue, fd, bk, s, 0);
        var f, b := Get(fd, x), Get(bk, x);
        OthersOldest(s);
        TailsReplaced(Without(content, x), home, queue', fd[b := f], bk[f := b], node, tree, p, r);
      }
    }

    /** The nodes of the other sizes. */
    lemma OthersOldest(s: nat)
      requires Valid()
      ensures forall q :: q in at && at[q] != s ==>
                var a := First(queue, at[q]); a in content && content[a] == at[q] && at[q] in queue
      ensures forall q :: q in at ==> at[q] in home && home[at[q]] == q
    {
      forall q | q in at
        ensures at[q] in home && home[at[q]] == q && at[q] in queue
        ensures First(queue, at[q]) in content && content[First(queue, at[q])] == at[q]
      {
        NodeHome(q);
        assert QueueOk(content, home, queue, fd, bk, at[q]);
      }
    }

    /** When the only chunk of a size at a leaf leaves, its position is dropped. */
    lemma LeafUnlinked(s: nat)
      requires Valid() && s in queue && |queue[s]| == 1 && s in home && home[s] in at && IsLeaf(at, home[s])
      ensures var p, node := home[s], Oldest(at, queue);
              var at', home', queue' := DropSite(at, p), DropHome(home, s), DropSize(queue, s);
              && Shape(at', home')
              && QueuesOk(Without(content, queue[s][0]), home', queue', fd, bk)
              && Oldest(at', queue') == Drop(node, p)
    {
      var p := home[s];
      QueuedFacts(queue[s][0], s, 0);
      ShapeDrop(at, home, p);
      TakeLast(content, home, DropHome(home, s), queue, fd, bk, s);
      OthersOldest(s);
    }

    lemma LeafCleared(s: nat)
      requires Valid() && s in queue && |queue[s]| == 1 && s in home && home[s] in at && IsLeaf(at, home[s])
      ensures var p, node := home[s], Oldest(at, queue);
              var tree' := if p.n == 1 then tree else SetChild(tree, ParentRef(node, p), p.n % 2, 0);
              && TailsOk(DropSize(queue, s), tree')
              && ForestOk(Drop(node, p), tree')
    {
      var p, node := home[s], Oldest(at, queue);
      assert NodeOk(node, tree, p);
      if p.n == 1 {
        DropRoot(node, tree, p.bin);
        TailsDropSize(queue, tree, s);
      } else {
        DropLeaf(node, tree, p);
        var h := ParentRef(node, p);
        var tree' := SetChild(tree, h, p.n % 2, 0);
        OldNode(Parent(p));
        TailsFrame(queue, tree, tree', {h});
        TailsDropSize(queue, tree', s);
      }
    }

    /** A leaf cut off its parent is a childless chunk outside the trie. */
    lemma LeafCutOff(m: Pos)
      requires Valid() && m in at && m.n > 1 && IsLeaf(at, m)
      ensures Parent(m) in at
      ensures var node, r := Oldest(at, queue), First(queue, at[m]);
              var tree1 := SetChild(tree, node[Parent(m)], m.n % 2, 0);
              Fresh(Drop(node, m), r) && GetChild(tree1, r, 0) == 0 && GetChild(tree1, r, 1) == 0
    {
      assert NodeOk(Oldest(at, queue), tree, m);
    }

    /** m is the rightmost leaf below the node of size `s`, which is the only chunk of that
        size. */
    ghost predicate Replaceable(s: nat, m: Pos)
      reads this
    {
      && s in queue && |queue[s]| == 1 && s in home && home[s] in at && m in at && Parent(m) in at && at[m] in home
      && m.bin == home[s].bin && Below(home[s].n, m.n) && m != home[s] && m.n > 1 && IsLeaf(at, m)
    }

    /** When the only chunk of a size at an inner position leaves, the rightmost leaf below
        is cut off and takes over the position. */
    lemma InnerUnlinked(s: nat, m: Pos)
      requires Valid() && Replaceable(s, m)
      ensures var p, node, r := home[s], Oldest(at, queue), First(queue, at[m]);
              var at', home', queue' := MoveSite(at, p, m), MoveHome(home, s, at[m], p), DropSize(queue, s);
              && Shape(at', home')
              && QueuesOk(Without(content, queue[s][0]), home', queue', fd, bk)
              && Oldest(at', queue') == Drop(node, m)[p := r]
    {
      var p := home[s];
      QueuedFacts(queue[s][0], s, 0);
      NodeHome(m);
      ShapeMove(at, home, p, m);
      TakeLast(content, home, MoveHome(home, s, at[m], p), queue, fd, bk, s);
      OthersOldest(s);
    }

    lemma InnerCut(s: nat, m: Pos)
      requires Valid() && Replaceable(s, m)
      ensures var p, node, r := home[s], Oldest(at, queue), First(queue, at[m]);
              var node1, tree1 := Drop(node, m), SetChild(tree, node[Parent(m)], m.n % 2, 0);
              && r != 0 && Fresh(node1, r) && GetChild(tree1, r, 0) == 0 && GetChild(tree1, r, 1) == 0
              && p in node1 && node1[p] == queue[s][0] && ParentRef(node1, p) == ParentRef(node, p)
              && ForestOk(node1, tree1) && RootsOk(node1, roots, treemap)
    {
      var p, node := home[s], Oldest(at, queue);
      QueuedFacts(queue[s][0], s, 0);
      DropLeaf(node, tree, m);
      RootsFrame(node, Drop(node, m), roots, treemap);
      LeafCutOff(m);
      BelowLe(p.n, m.n);
      assert NodeOk(node, tree, p);
    }

    lemma InnerReplaced(s: nat, m: Pos)
      requires Valid() && Replaceable(s, m)
      ensures var p, node, r := home[s], Oldest(at, queue), First(queue, at[m]);
              var node1, tree1 := Drop(node, m), SetChild(tree, node[Parent(m)], m.n % 2, 0);
              && p in node1
              && ForestOk(node1[p := r], Replaced(node1, tree1, p, r))
              && TailsOk(DropSize(queue, s), Replaced(node1, tree1, p, r))
    {
      var p, node, r := home[s], Oldest(at, queue), First(queue, at[m]);
      var node1, tree1 := Drop(node, m), SetChild(tree, node[Parent(m)], m.n % 2, 0);
      InnerCut(s, m);
      Replace(node1, tree1, p, r);
      assert TailsOk(DropSize(queue, s), Replaced(node1, tree1, p, r)) by {
        OldNode(Parent(m));
        TailsFrame(queue, tree, tree1, {node[Parent(m)]});
        TailsDropSize(queue, tree1, s);
        OthersOldest(s);
        InnerUnlinked(s, m);
        TailsReplaced(Without(content, queue[s][0]), MoveHome(home, s, at[m], p), DropSize(queue, s), fd, bk, node1,
                      tree1, p, r);
      }
    }

    /** `unlink_large_chunk`. */
    method Unlink(x: nat) returns (ghost s: nat, ghost k: nat)
      requires Valid() && x in content
      modifies this
      ensures Valid() && content == Without(old(content), x)
      ensures s == old(content)[x] && s in old(queue) && k < |old(queue)[s]| && old(queue)[s][k] == x
      ensures queue == RemoveAt(old(queue), s, k)
    {
      s := content[x];
      k :| 0 <= k < |queue[s]| && queue[s][k] == x;
      QueuedFacts(x, s, k);
      var xp := Get(tree.parent, x);
      if Get(bk, x) != x {
        UnlinkChained(x, xp, s, k);
      } else if GetChild(tree, x, 1) != 0 || GetChild(tree, x, 0) != 0 {
        UnlinkInner(x, xp, s);
      } else {
        UnlinkLeaf(x, xp, s);
      }
    }

    method UnlinkChained(x: nat, xp: nat, ghost s: nat, ghost k: nat)
      requires Valid() && Queued(x, s, k) && |queue[s]| > 1 && xp == Get(tree.parent, x)
      modifies this
      ensures Valid() && content == Without(old(content), x) && queue == RemoveAt(old(queue), s, k)
    {
      ChainedFacts(x, s, k);
      TakeOut(content, home, queue, fd, bk, s, k);
      var f, r := Get(fd, x), Get(bk, x);
      if xp != 0 {
        NodeFacts(x, s);
        OldestUnlinked(s);
        Relink(x, xp, r, Oldest(at, queue), home[s]);
      } else {
        TailUnlinked(s, k);
      }
      bk := bk[f := r];
      fd := fd[r := f];
      SetView(Without(content, x), at, home, queue[s := Remove(queue[s], k)]);
    }

    method UnlinkLeaf(x: nat, xp: nat, ghost s: nat)
      requires Valid() && Queued(x, s, 0) && |queue[s]| == 1 && xp == Get(tree.parent, x)
      requires GetChild(tree, x, 0) == 0 && GetChild(tree, x, 1) == 0
      modifies this
      ensures Valid() && content == Without(old(content), x) && queue == RemoveAt(old(queue), s, 0)
    {
      NodeFacts(x, s);
      ghost var p, node := home[s], Oldest(at, queue);
      assert IsLeaf(at, p) by { NodeChild(p, 0); NodeChild(p, 1); }
      LeafUnlinked(s);
      LeafCleared(s);
      Relink(x, xp, 0, node, p);
      SetView(Without(content, x), DropSite(at, p), DropHome(home, s), DropSize(queue, s));
    }

    method UnlinkInner(x: nat, xp: nat, ghost s: nat)
      requires Valid() && Queued(x, s, 0) && |queue[s]| == 1 && xp == Get(tree.parent, x)
      requires GetChild(tree, x, 0) != 0 || GetChild(tree, x, 1) != 0
      modifies this
      ensures Valid() && content == Without(old(content), x) && queue == RemoveAt(old(queue), s, 0)
    {
      NodeFacts(x, s);
      ghost var p, node := home[s], Oldest(at, queue);
      assert !IsLeaf(at, p) by { NodeChild(p, 0); NodeChild(p, 1); }
      var r, h, b;
      ghost var m;
      r, h, b, m := Rightmost(x, p);
      assert at[m] in home by { NodeHome(m); }
      MoveUp(x, xp, r, h, b, s, m);
    }

    /** The rightmost leaf r, cut from its parent h, takes over the node of x. */
    method MoveUp(x: nat, xp: nat, r: nat, h: nat, b: nat, ghost s: nat, ghost m: Pos)
      requires Valid() && Queued(x, s, 0) && Replaceable(s, m)
      requires home[s].bin < NTREEBINS && Get(index, x) == home[s].bin
      requires Oldest(at, queue)[home[s]] == x && xp == ParentRef(Oldest(at, queue), home[s])
      requires r == First(queue, at[m]) && h == Oldest(at, queue)[Parent(m)] && b == m.n % 2 && at[m] in home
      modifies this
      ensures Valid() && content == Without(old(content), x) && queue == RemoveAt(old(queue), s, 0)
    {
      ghost var p, node := home[s], Oldest(at, queue);
      InnerUnlinked(s, m);
      InnerCut(s, m);
      InnerReplaced(s, m);
      tree := SetChild(tree, h, b, 0);
      Relink(x, xp, r, Drop(node, m), p);
      SetView(Without(content, x), MoveSite(at, p, m), MoveHome(home, s, at[m], p), DropSize(queue, s));
    }

    // ----- Best fit: tmalloc_large and tmalloc_small -----

    /** `v` is the oldest chunk that leaves remainder `rsize`, or null. */
    ghost predicate Choice(nb: nat, v: nat, rsize: nat)
      reads this
    {
      if v == 0 then rsize == WORD - nb else nb + rsize in home && v == First(queue, nb + rsize)
    }

    /** `v` is a best fit for `nb` bytes over all the bins. */
    ghost predicate BestFitting(nb: nat, v: nat, rsize: nat)
      reads this
    {
      && (v == 0 ==> forall s :: s in queue ==> s < nb)
      && (v != 0 ==> nb + rsize in queue && v == First(queue, nb + rsize))
      && (v != 0 ==> forall s :: s in queue && nb <= s ==> nb + rsize <= s)
    }

    ghost predicate TreeNode(t: nat, p: Pos)
      reads this
    {
      p in at && p.n >= 1 && t == First(queue, at[p]) && t != 0
    }

    /** Position `rp` holds the deepest untaken right subtree `rst`. */
    ghost predicate RightOf(nb: nat, i: nat, n: nat, rst: nat, rp: Pos)
      requires n >= 1
      reads this
    {
      rst != 0 ==> TreeNode(rst, rp) && rp.bin == i && nb < Lo(i, rp.n) && Hi(i, n) <= Lo(i, rp.n)
    }

    /** All of bin i is seen but what is below n, below rp, or bigger than all below rp. */
    ghost predicate PathScan(nb: nat, i: nat, n: nat, rst: nat, rp: Pos, v: nat, rsize: nat, q: Pos)
      requires q in at
      reads this
    {
      q.bin == i ==>
        || Seen(at[q], nb, v, rsize)
        || Below(n, q.n)
        || (rst != 0 && rp.n >= 1 && (Below(rp.n, q.n) || Hi(i, rp.n) <= at[q]))
    }

    /** The same once the path has ended. */
    ghost predicate PathDone(nb: nat, i: nat, rst: nat, rp: Pos, v: nat, rsize: nat, q: Pos)
      requires q in at
      reads this
    {
      q.bin == i ==>
        || Seen(at[q], nb, v, rsize)
        || (rst != 0 && rp.n >= 1 && (Below(rp.n, q.n) || Hi(i, rp.n) <= at[q]))
    }

    /** Everything is seen, or what is not is below m or at least `bound`, which is above
        all sizes below m. */
    ghost predicate LeastScan(nb: nat, t: nat, m: Pos, bound: nat, v: nat, rsize: nat)
      reads this
    {
      || (forall q :: q in at ==> Seen(at[q], nb, v, rsize))
      || (t != 0
          && (forall q ::
                q in at ==> Seen(at[q], nb, v, rsize) || (q.bin == m.bin && Below(m.n, q.n)) || bound <= at[q])
          && (forall q :: q in at && q.bin == m.bin && Below(m.n, q.n) ==> nb <= at[q] < bound))
    }

    lemma NodeBounds(q: Pos)
      requires Valid() && q in at
      ensures q.n >= 1 && q.bin == TreeIndex(at[q]) < NTREEBINS && MIN_LARGE_SIZE <= at[q] < WORD
      ensures Covers(q.bin, q.n, at[q]) && at[q] in home && home[at[q]] == q
    {
      assert Placed(at, home, q);
    }

    /** Looking at one more chunk. */
    lemma Visit(head: Heads, nb: nat, t: nat, p: Pos, v: nat, rsize: nat, v': nat, rsize': nat)
      requires Valid() && Sized(head, content) && TreeNode(t, p) && Choice(nb, v, rsize)
      requires nb < WORD && rsize <= WORD - nb
      requires var trem := Remainder(ChunkSize(head, t), nb);
               if trem < rsize then v' == t && rsize' == trem else v' == v && rsize' == rsize
      ensures Choice(nb, v', rsize') && rsize' <= rsize
      ensures (v' == v && rsize' == rsize) || nb + rsize' == at[p]
      ensures Seen(at[p], nb, v', rsize')
      ensures forall s :: Seen(s, nb, v, rsize) ==> Seen(s, nb, v', rsize')
    {
      OldestSize(head, p);
      NodeBounds(p);
      RemainderTest(at[p], nb, rsize);
    }

    /** What is below n but not below the child taken: too small, or in the right subtree
        that was not taken. */
    lemma OtherSide(nb: nat, p: Pos, b: nat, q: Pos)
      requires Valid() && p in at && p.n >= 1 && b < 2 && Exp(p.bin, p.n) >= 1 && Covers(p.bin, 2 * p.n + b, nb)
      requires q in at && q.bin == p.bin && q != p && Below(p.n, q.n) && !Below(2 * p.n + b, q.n)
      ensures b == 1 ==> at[q] < nb
      ensures b == 0 ==> Below(2 * p.n + 1, q.n) && Child(p, 1) in at
    {
      NodeBounds(q);
      OtherChild(p.bin, p.n, b, q.n, nb, at[q]);
      if b == 0 {
        Occupied(at, home, p.bin, 2 * p.n + 1, q.n);
      }
    }

    /** What was kept for the old right subtree is bigger than all of the new one. */
    lemma OldRight(nb: nat, p: Pos, rst: nat, rp: Pos, q: Pos)
      requires Valid() && p in at && p.n >= 1 && Exp(p.bin, p.n) >= 1 && RightOf(nb, p.bin, p.n, rst, rp) && rst != 0
      requires q in at && q.bin == p.bin && (Below(rp.n, q.n) || Hi(p.bin, rp.n) <= at[q])
      ensures Hi(p.bin, 2 * p.n + 1) <= at[q]
    {
      NodeBounds(q);
      RightEnd(p.bin, p.n);
      LowEnd(p.bin, rp.n, q.n, at[q]);
    }

    lemma PathStep(nb: nat, p: Pos, b: nat, rst: nat, rp: Pos, v: nat, rsize: nat, rst': nat, rp': Pos, q: Pos)
      requires Valid() && p in at && p.n >= 1 && b < 2 && Exp(p.bin, p.n) >= 1 && q in at
      requires Covers(p.bin, 2 * p.n + b, nb) && Seen(at[p], nb, v, rsize)
      requires RightOf(nb, p.bin, p.n, rst, rp) && PathScan(nb, p.bin, p.n, rst, rp, v, rsize, q)
      requires Untaken(p, b, rst, rp, rst', rp')
      ensures PathScan(nb, p.bin, 2 * p.n + b, rst', rp', v, rsize, q)
    {
      var c := 2 * p.n + b;
      if q.bin == p.bin && !Seen(at[q], nb, v, rsize) && !Below(c, q.n) {
        if Below(p.n, q.n) {
          OtherSide(nb, p, b, q);
          OldestNonzero(Child(p, 1));
        } else if b == 0 && Child(p, 1) in at {
          OldRight(nb, p, rst, rp, q);
          OldestNonzero(Child(p, 1));
        }
      }
    }

    lemma RightStep(nb: nat, p: Pos, b: nat, rst: nat, rp: Pos, rst': nat, rp': Pos)
      requires Valid() && p in at && p.n >= 1 && b < 2 && Exp(p.bin, p.n) >= 1
      requires Covers(p.bin, 2 * p.n + b, nb) && RightOf(nb, p.bin, p.n, rst, rp)
      requires Untaken(p, b, rst, rp, rst', rp')
      ensures RightOf(nb, p.bin, 2 * p.n + b, rst', rp')
    {
      Halves(p.bin, p.n);
      NodeChild(p, 1);
    }

    /** The state of the first loop of `tmalloc_large` at node t, position p. */
    ghost predicate OnPath(nb: nat, p: Pos, t: nat, k: nat, rst: nat, rp: Pos, v: nat, rsize: nat)
      reads this
    {
      && TreeNode(t, p) && BitsAt(p.bin, p.n, nb, k)
      && Choice(nb, v, rsize) && rsize <= WORD - nb && (v != 0 ==> TreeIndex(nb + rsize) == p.bin)
      && RightOf(nb, p.bin, p.n, rst, rp)
      && forall q {:trigger PathScan(nb, p.bin, p.n, rst, rp, v, rsize, q)} ::
           q in at ==> PathScan(nb, p.bin, p.n, rst, rp, v, rsize, q)
    }

    /** The path of bin i has ended without an exact fit. */
    ghost predicate OffPath(nb: nat, i: nat, rst: nat, rp: Pos, v: nat, rsize: nat)
      reads this
    {
      && Choice(nb, v, rsize) && rsize <= WORD - nb && (v != 0 ==> TreeIndex(nb + rsize) == i)
      && (rst != 0 ==> TreeNode(rst, rp) && rp.bin == i && nb < Lo(i, rp.n))
      && forall q {:trigger PathDone(nb, i, rst, rp, v, rsize, q)} :: q in at ==> PathDone(nb, i, rst, rp, v, rsize, q)
    }

    lemma PathStart(nb: nat, i: nat)
      requires Valid() && MIN_LARGE_SIZE <= nb < WORD && i == TreeIndex(nb) && i < NTREEBINS && |roots| == NTREEBINS
      requires roots[i] != 0
      ensures OnPath(nb, Pos(i, 1), roots[i], Shl(nb, LeftShift(i)), 0, Pos(i, 1), 0, WORD - nb)
    {
      assert RootOk(Oldest(at, queue), roots, treemap, i);
      InitialBits(nb);
      forall q | q in at ensures PathScan(nb, i, 1, 0, Pos(i, 1), 0, WORD - nb, q) {
        NodeBounds(q);
        BelowRoot(q.n);
      }
    }

    /** Looking at the chunk the path is at. */
    lemma PathVisit(head: Heads, nb: nat, p: Pos, t: nat, k: nat, rst: nat, rp: Pos, v: nat, rsize: nat, v': nat,
                    rsize': nat)
      requires Valid() && Sized(head, content) && nb < WORD && OnPath(nb, p, t, k, rst, rp, v, rsize)
      requires var trem := Remainder(ChunkSize(head, t), nb);
               if trem < rsize then v' == t && rsize' == trem else v' == v && rsize' == rsize
      ensures OnPath(nb, p, t, k, rst, rp, v', rsize') && Seen(at[p], nb, v', rsize')
    {
      Visit(head, nb, t, p, v, rsize, v', rsize');
      NodeBounds(p);
      forall q | q in at ensures PathScan(nb, p.bin, p.n, rst, rp, v', rsize', q) {
        assert PathScan(nb, p.bin, p.n, rst, rp, v, rsize, q);
      }
    }

    /** `rst` after the child chosen by b has been taken from p. */
    ghost predicate Untaken(p: Pos, b: nat, rst: nat, rp: Pos, rst': nat, rp': Pos)
      reads this
    {
      if b == 0 && Child(p, 1) in at then rp' == Child(p, 1) && rst' == First(queue, at[rp'])
      else rst' == rst && rp' == rp
    }

    lemma PathScanned(nb: nat, p: Pos, t: nat, k: nat, b: nat, rst: nat, rp: Pos, rst': nat, rp': Pos, v: nat,
                      rsize: nat)
      requires Valid() && nb < WORD && OnPath(nb, p, t, k, rst, rp, v, rsize) && rsize > 0 && Seen(at[p], nb, v, rsize)
      requires b == k / 0x8000_0000 && Untaken(p, b, rst, rp, rst', rp')
      ensures b < 2 && Exp(p.bin, p.n) >= 1 && BitsAt(p.bin, 2 * p.n + b, nb, (2 * k) % WORD)
      ensures RightOf(nb, p.bin, 2 * p.n + b, rst', rp')
      ensures forall q :: q in at ==> PathScan(nb, p.bin, 2 * p.n + b, rst', rp', v, rsize, q)
    {
      PathBits(nb, p, k, v, rsize);
      RightStep(nb, p, b, rst, rp, rst', rp');
      forall q | q in at ensures PathScan(nb, p.bin, 2 * p.n + b, rst', rp', v, rsize, q) {
        assert PathScan(nb, p.bin, p.n, rst, rp, v, rsize, q);
        PathStep(nb, p, b, rst, rp, v, rsize, rst', rp', q);
      }
    }

    /** The child words read from the chunk at p choose the next position and `rst`. */
    lemma ChildWords(p: Pos, b: nat, rst: nat, rp: Pos)
      requires Valid() && p in at && b < 2
      ensures var t', rt := GetChild(tree, First(queue, at[p]), b), GetChild(tree, First(queue, at[p]), 1);
              && (t' != 0 <==> Child(p, b) in at) && (t' != 0 ==> t' == First(queue, at[Child(p, b)]))
              && Untaken(p, b, rst, rp, if rt != 0 && rt != t' then rt else rst,
                         if rt != 0 && rt != t' then Child(p, 1) else rp)
    {
      NodeChild(p, b);
      NodeChild(p, 1);
      var node := Oldest(at, queue);
      assert Child(p, 0) != Child(p, 1);
      assert Child(p, 0) in node && Child(p, 1) in node ==> node[Child(p, 0)] != node[Child(p, 1)];
    }

    /** The search word has another bit to give unless the node at p is an exact fit. */
    lemma PathBits(nb: nat, p: Pos, k: nat, v: nat, rsize: nat)
      requires Valid() && p in at && p.n >= 1 && nb < WORD && BitsAt(p.bin, p.n, nb, k) && Seen(at[p], nb, v, rsize)
      requires rsize > 0
      ensures Exp(p.bin, p.n) >= 1 && k / 0x8000_0000 < 2
      ensures BitsAt(p.bin, 2 * p.n + k / 0x8000_0000, nb, (2 * k) % WORD)
    {
      NodeBounds(p);
      NextBits(p, nb, at[p], k);
    }

    lemma PathEnd(nb: nat, c: Pos, rst: nat, rp: Pos, v: nat, rsize: nat, q: Pos)
      requires Valid() && q in at && c !in at && c.n >= 1 && PathScan(nb, c.bin, c.n, rst, rp, v, rsize, q)
      ensures PathDone(nb, c.bin, rst, rp, v, rsize, q)
    {
      if q.bin == c.bin && Below(c.n, q.n) {
        Occupied(at, home, c.bin, c.n, q.n);
      }
    }

    /** One turn of the first loop of `tmalloc_large`, after looking at t: go on along the
        bits of nb and keep the right subtree if it is not the one taken. */
    method PathTurn(nb: nat, t: nat, k: nat, rst: nat, v: nat, rsize: nat, ghost p: Pos, ghost rp: Pos)
      returns (t': nat, k': nat, rst': nat, ghost p': Pos, ghost rp': Pos)
      requires Valid() && nb < WORD && OnPath(nb, p, t, k, rst, rp, v, rsize) && rsize > 0 && Seen(at[p], nb, v, rsize)
      ensures t' != 0 ==>
                && OnPath(nb, p', t', k', rst', rp', v, rsize) && p'.bin == p.bin
                && 0 <= Exp(p.bin, p'.n) < Exp(p.bin, p.n)
      ensures t' == 0 ==> OffPath(nb, p.bin, rst', rp', v, rsize)
    {
      var b := k / 0x8000_0000;
      PathBits(nb, p, k, v, rsize);
      ChildWords(p, b, rst, rp);
      var rt := GetChild(tree, t, 1);
      t' := GetChild(tree, t, b);
      rst', rp', p' := rst, rp, Child(p, b);
      if rt != 0 && rt != t' {
        rst', rp' := rt, Child(p, 1);
      }
      k' := (2 * k) % WORD;
      if t' == 0 {
        PathLeaves(nb, p, t, k, b, rst, rp, rst', rp', v, rsize);
      } else {
        PathGoesOn(nb, p, t, k, b, rst, rp, rst', rp', v, rsize);
      }
    }

    lemma PathLeaves(nb: nat, p: Pos, t: nat, k: nat, b: nat, rst: nat, rp: Pos, rst': nat, rp': Pos, v: nat,
                     rsize: nat)
      requires Valid() && nb < WORD && OnPath(nb, p, t, k, rst, rp, v, rsize) && rsize > 0 && Seen(at[p], nb, v, rsize)
      requires b == k / 0x8000_0000 && Untaken(p, b, rst, rp, rst', rp') && Child(p, b) !in at
      ensures OffPath(nb, p.bin, rst', rp', v, rsize)
    {
      PathScanned(nb, p, t, k, b, rst, rp, rst', rp', v, rsize);
      forall q | q in at ensures PathDone(nb, p.bin, rst', rp', v, rsize, q) {
        PathEnd(nb, Child(p, b), rst', rp', v, rsize, q);
      }
    }

    lemma PathGoesOn(nb: nat, p: Pos, t: nat, k: nat, b: nat, rst: nat, rp: Pos, rst': nat, rp': Pos, v: nat,
                     rsize: nat)
      requires Valid() && nb < WORD && OnPath(nb, p, t, k, rst, rp, v, rsize) && rsize > 0 && Seen(at[p], nb, v, rsize)
      requires b == k / 0x8000_0000 && Untaken(p, b, rst, rp, rst', rp') && Child(p, b) in at
      ensures OnPath(nb, Child(p, b), First(queue, at[Child(p, b)]), (2 * k) % WORD, rst', rp', v, rsize)
      ensures 0 <= Exp(p.bin, Child(p, b).n) < Exp(p.bin, p.n)
    {
      PathScanned(nb, p, t, k, b, rst, rp, rst', rp', v, rsize);
      ChildExp(p.bin, p.n, b);
      OldestNonzero(Child(p, b));
    }

    lemma OldestNonzero(p: Pos)
      requires Valid() && p in at
      ensures First(queue, at[p]) != 0
    {
      assert NodeOk(Oldest(at, queue), tree, p);
    }

    /** `trem = chunksize(t) - nb; if (trem < rsize) { v = t; rsize = trem; }` on the path. */
    method PathLook(head: Heads, nb: nat, t: nat, v: nat, rsize: nat, ghost p: Pos, ghost k: nat, ghost rst: nat,
                    ghost rp: Pos)
      returns (v': nat, rsize': nat)
      requires Valid() && Sized(head, content) && nb < WORD && OnPath(nb, p, t, k, rst, rp, v, rsize)
      ensures OnPath(nb, p, t, k, rst, rp, v', rsize') && Seen(at[p], nb, v', rsize')
      ensures rsize' == 0 ==> (v' == t && TreeNode(t, p)) || (v' == v && rsize == 0)
    {
      var trem := Remainder(ChunkSize(head, t), nb);
      v', rsize' := v, rsize;
      if trem < rsize {
        v', rsize' := t, trem;
      }
      PathVisit(head, nb, p, t, k, rst, rp, v, rsize, v', rsize');
    }

    ghost predicate Following(nb: nat, i: nat, p: Pos, t: nat, k: nat, rst: nat, rp: Pos, v: nat, rsize: nat)
      reads this
    {
      && rsize != 0
      && if t != 0 then p.bin == i && OnPath(nb, p, t, k, rst, rp, v, rsize) && 0 <= Exp(i, p.n)
         else OffPath(nb, i, rst, rp, v, rsize)
    }

    /** The first loop of `tmalloc_large`: down the trie of nb's own bin i along the bits of
        nb, keeping the best fit met and the deepest right subtree not taken. */
    method FollowPath(head: Heads, nb: nat, i: nat) returns (t: nat, v: nat, rsize: nat, ghost rp: Pos)
      requires Valid() && Sized(head, content) && MIN_LARGE_SIZE <= nb < WORD && i == TreeIndex(nb) && i < NTREEBINS
      requires |roots| == NTREEBINS && roots[i] != 0
      ensures rsize == 0 ==> v != 0 && t == v && Choice(nb, v, 0) && TreeNode(t, rp)
      ensures rsize != 0 ==> OffPath(nb, i, t, rp, v, rsize)
    {
      PathStart(nb, i);
      t, v, rsize := roots[i], 0, WORD - nb;
      var k: nat := Shl(nb, LeftShift(i));
      var rst := 0;
      ghost var p := Pos(i, 1);
      rp := p;
      while t != 0
        invariant Following(nb, i, p, t, k, rst, rp, v, rsize)
        decreases if t != 0 then Exp(i, p.n) else -1
      {
        v, rsize := PathLook(head, nb, t, v, rsize, p, k, rst, rp);
        if rsize == 0 {
          rp := p;
          return;
        }
        t, k, rst, p, rp := PathTurn(nb, t, k, rst, v, rsize, p, rp);
      }
      t := rst;
    }

    /** One turn of the second loop after looking at t: go to the leftmost child. */
    lemma LeastStep(nb: nat, t: nat, m: Pos, bound: nat, v: nat, rsize: nat, b: nat, bound': nat)
      requires Valid() && TreeNode(t, m) && LeastScan(nb, t, m, bound, v, rsize) && b < 2 && Exp(m.bin, m.n) >= 0
      requires Seen(at[m], nb, v, rsize)
      requires b == if Child(m, 0) in at then 0 else 1
      requires bound' == if b == 0 && Exp(m.bin, m.n) >= 1
                   && Lo(m.bin, 2 * m.n + 1) < bound then Lo(m.bin, 2 * m.n + 1) else bound
      ensures LeastScan(nb, if Child(m, b) in at then First(queue, at[Child(m, b)]) else 0, Child(m, b), bound', v,
                        rsize)
    {
      if exists q :: q in at && !Seen(at[q], nb, v, rsize) {
        if Child(m, b) in at {
          OldestNonzero(Child(m, b));
          NodeDepth(Child(m, b));
          ChildExp(m.bin, m.n, b);
          forall q | q in at && !Seen(at[q], nb, v, rsize)
            ensures (q.bin == m.bin && Below(2 * m.n + b, q.n)) || bound' <= at[q]
          {
            if q.bin == m.bin && Below(m.n, q.n) { LeastSide(m, b, q); }
          }
          forall q | q in at && q.bin == m.bin && Below(2 * m.n + b, q.n)
            ensures nb <= at[q] < bound'
          {
            LeastBelow(m, b, q);
          }
        } else {
          forall q | q in at ensures Seen(at[q], nb, v, rsize) {
            if q.bin == m.bin && Below(m.n, q.n) { NoneBelow(m, q); }
            assert Below(m.n, m.n);
          }
        }
      }
    }

    /** What is below m but not below its leftmost child is m itself or in the right half. */
    lemma LeastSide(m: Pos, b: nat, q: Pos)
      requires Valid() && m in at && m.n >= 1 && Exp(m.bin, m.n) >= 1 && b == if Child(m, 0) in at then 0 else 1
      requires q in at && q.bin == m.bin && Below(m.n, q.n)
      ensures q == m || Below(2 * m.n + b, q.n) || (b == 0 && Lo(m.bin, 2 * m.n + 1) <= at[q])
    {
      if q != m {
        var left, right := 2 * m.n, 2 * m.n + 1;
        NodeBounds(q);
        BelowChild(m.n, q.n);
        if Below(left, q.n) {
          Occupied(at, home, m.bin, left, q.n);
        } else {
          LowEnd(m.bin, right, q.n, at[q]);
        }
      }
    }

    lemma LeastBelow(m: Pos, b: nat, q: Pos)
      requires Valid() && m in at && m.n >= 1 && Exp(m.bin, m.n) >= 1 && b < 2
      requires q in at && q.bin == m.bin && Below(2 * m.n + b, q.n)
      ensures Below(m.n, q.n)
      ensures b == 0 ==> at[q] < Lo(m.bin, 2 * m.n + 1)
    {
      NodeBounds(q);
      BelowParent(m.n, q.n, b);
      if b == 0 {
        LeftOf(m.bin, m.n, q.n, Lo(m.bin, 2 * m.n + 1), at[q]);
      }
    }

    lemma NoneBelow(m: Pos, q: Pos)
      requires Valid() && m in at && m.n >= 1 && Child(m, 0) !in at && Child(m, 1) !in at
      requires q in at && q.bin == m.bin && Below(m.n, q.n)
      ensures q == m
    {
      if q != m {
        var left, right := 2 * m.n, 2 * m.n + 1;
        NodeBounds(q);
        BelowChild(m.n, q.n);
        if Below(left, q.n) { Occupied(at, home, m.bin, left, q.n); } else { Occupied(at, home, m.bin, right, q.n); }
      }
    }

    lemma LeastVisit(head: Heads, nb: nat, t: nat, m: Pos, bound: nat, v: nat, rsize: nat, v': nat, rsize': nat)
      requires Valid() && Sized(head, content) && TreeNode(t, m) && Choice(nb, v, rsize)
      requires nb < WORD && rsize <= WORD - nb && LeastScan(nb, t, m, bound, v, rsize)
      requires var trem := Remainder(ChunkSize(head, t), nb);
               if trem < rsize then v' == t && rsize' == trem else v' == v && rsize' == rsize
      ensures Choice(nb, v', rsize') && rsize' <= rsize && Seen(at[m], nb, v', rsize')
      ensures LeastScan(nb, t, m, bound, v', rsize')
    {
      Visit(head, nb, t, m, v, rsize, v', rsize');
    }

    lemma AllSeenBest(nb: nat, v: nat, rsize: nat)
      requires Valid() && Choice(nb, v, rsize) && forall q :: q in at ==> Seen(at[q], nb, v, rsize)
      ensures BestFitting(nb, v, rsize)
    {
      forall s | s in queue ensures s in home && Seen(s, nb, v, rsize) {
        assert QueueOk(content, home, queue, fd, bk, s);
        assert Housed(at, home, s);
      }
    }

    /** The state of the second loop. */
    ghost predicate Leasting(nb: nat, t: nat, m: Pos, bound: nat, v: nat, rsize: nat)
      reads this
    {
      && (t != 0 ==> TreeNode(t, m))
      && Choice(nb, v, rsize) && rsize <= WORD - nb
      && LeastScan(nb, t, m, bound, v, rsize)
    }

    /** `t = leftmost_child(t)`. */
    method LeftmostChild(nb: nat, t: nat, v: nat, rsize: nat, ghost m: Pos, ghost bound: nat)
      returns (t': nat, ghost m': Pos, ghost bound': nat)
      requires Valid() && nb < WORD && t != 0 && Leasting(nb, t, m, bound, v, rsize) && Seen(at[m], nb, v, rsize)
      ensures Leasting(nb, t', m', bound', v, rsize)
      ensures t' != 0 ==>
                m in at && m.n >= 1 && m'.n >= 1 && m'.bin == m.bin && 0 <= Exp(m'.bin, m'.n) < Exp(m.bin, m.n)
    {
      NodeChild(m, 0);
      NodeChild(m, 1);
      NodeDepth(m);
      t' := if GetChild(tree, t, 0) != 0 then GetChild(tree, t, 0) else GetChild(tree, t, 1);
      ghost var b := if Child(m, 0) in at then 0 else 1;
      m' := Child(m, b);
      bound' := if b == 0 && Exp(m.bin, m.n) >= 1
          && Lo(m.bin, 2 * m.n + 1) < bound then Lo(m.bin, 2 * m.n + 1) else bound;
      LeastStep(nb, t, m, bound, v, rsize, b, bound');
      if t' != 0 {
        OldestNonzero(m');
        NodeDepth(m');
        ChildExp(m.bin, m.n, b);
      }
    }

    /** The second loop of `tmalloc_large` and the loop of `tmalloc_small`: find the smallest
        of a tree or subtree. */
    method LeastOf(head: Heads, nb: nat, t0: nat, v0: nat, rsize0: nat, ghost m0: Pos, ghost bound0: nat)
      returns (v: nat, rsize: nat)
      requires Valid() && Sized(head, content) && nb < WORD && Leasting(nb, t0, m0, bound0, v0, rsize0)
      ensures BestFitting(nb, v, rsize) && Choice(nb, v, rsize)
    {
      var t := t0;
      v, rsize := v0, rsize0;
      ghost var m, bound := m0, bound0;
      ghost var e := if t != 0 then Exp(m.bin, m.n) else -1;
      if t != 0 { NodeDepth(m); }
      while t != 0
        invariant Leasting(nb, t, m, bound, v, rsize)
        invariant t != 0 ==> m in at && m.n >= 1 && e == Exp(m.bin, m.n) >= 0
        decreases if t != 0 then e else -1
      {
        var trem := Remainder(ChunkSize(head, t), nb);
        ghost var v1, rsize1 := v, rsize;
        if trem < rsize {
          rsize, v := trem, t;
        }
        LeastVisit(head, nb, t, m, bound, v1, rsize1, v, rsize);
        t, m, bound := LeftmostChild(nb, t, v, rsize, m, bound);
        if t != 0 { NodeDepth(m); }
        e := if t != 0 then Exp(m.bin, m.n) else -1;
      }
      AllSeenBest(nb, v, rsize);
    }

    /** An exact fit makes everything seen. */
    lemma StartExact(nb: nat, t: nat, m: Pos, v: nat)
      requires Valid() && v != 0
      ensures LeastScan(nb, t, m, 0, v, 0)
    {
      forall q | q in at ensures Seen(at[q], nb, v, 0) {
      }
    }

    /** Chunks of the smaller bins do not fit; chunks of the larger bins are bigger than any
        of bin i. */
    lemma OtherBins(nb: nat, i: nat, s: nat, q: Pos)
      requires Valid() && q in at && MIN_LARGE_SIZE <= nb && i == TreeIndex(nb)
      requires MIN_LARGE_SIZE <= s && TreeIndex(s) == i
      ensures q.bin < i ==> at[q] < nb
      ensures q.bin > i ==> s < at[q]
    {
      NodeBounds(q);
      if q.bin < i { BinsOrdered(at[q], nb); }
      if q.bin > i { BinsOrdered(s, at[q]); }
    }

    /** No right subtree is left: the choice made in nb's own bin is the best of all. */
    lemma StartNone(nb: nat, i: nat, rp: Pos, v: nat, rsize: nat, m: Pos)
      requires Valid() && MIN_LARGE_SIZE <= nb < WORD && i == TreeIndex(nb) && OffPath(nb, i, 0, rp, v, rsize) && v != 0
      ensures LeastScan(nb, 0, m, 0, v, rsize)
    {
      assert Housed(at, home, nb + rsize);
      forall q | q in at ensures Seen(at[q], nb, v, rsize) {
        assert PathDone(nb, i, 0, rp, v, rsize, q);
        OtherBins(nb, i, nb + rsize, q);
      }
    }

    /** The deepest untaken right subtree holds the least sizes above nb still unseen. */
    lemma StartRight(nb: nat, i: nat, rst: nat, rp: Pos, v: nat, rsize: nat)
      requires Valid() && MIN_LARGE_SIZE <= nb < WORD && i == TreeIndex(nb) && OffPath(nb, i, rst, rp, v, rsize)
      requires rst != 0
      ensures LeastScan(nb, rst, rp, Hi(i, rp.n), v, rsize)
    {
      NodeBounds(rp);
      HiBelowRoot(i, rp.n);
      forall q | q in at ensures Seen(at[q], nb, v, rsize) || (q.bin == i && Below(rp.n, q.n)) || Hi(i, rp.n) <= at[q] {
        assert PathDone(nb, i, rst, rp, v, rsize, q);
        OtherBins(nb, i, nb, q);
        if q.bin > i {
          NodeBounds(q);
          HiRoot(i);
          TreeIndexExact(at[q]);
          if i + 1 < q.bin { MinSizeMono(i + 1, q.bin); }
        }
      }
      forall q | q in at && q.bin == i && Below(rp.n, q.n) ensures nb <= at[q] < Hi(i, rp.n) {
        NodeBounds(q);
        BelowCovers(i, rp.n, q.n, at[q]);
      }
    }

    /** An unmarked bin is empty. */
    lemma UnmarkedEmpty(q: Pos)
      requires Valid() && q in at
      ensures q.bin < NTREEBINS && |roots| == NTREEBINS && treemap < WORD && Bit(treemap, q.bin) && roots[q.bin] != 0
    {
      NodeBounds(q);
      BelowRoot(q.n);
      Occupied(at, home, q.bin, 1, q.n);
      assert RootOk(Oldest(at, queue), roots, treemap, q.bin);
      OldestNonzero(Pos(q.bin, 1));
    }

    /** When bin i has no fit and no bin is marked above it, nothing fits. */
    lemma StartEmpty(nb: nat, i: nat, m: Pos)
      requires Valid() && MIN_LARGE_SIZE <= nb < WORD && i == TreeIndex(nb)
      requires forall q :: q in at && q.bin == i ==> at[q] < nb
      requires forall j :: i < j < NTREEBINS ==> !Bit(treemap, j)
      ensures LeastScan(nb, 0, m, 0, 0, WORD - nb)
    {
      forall q | q in at ensures Seen(at[q], nb, 0, WORD - nb) {
        UnmarkedEmpty(q);
        OtherBins(nb, i, nb, q);
      }
    }

    /** When bin i has no fit, the next marked bin holds the least sizes above nb. */
    lemma StartNext(nb: nat, i: nat, j: nat)
      requires Valid() && MIN_LARGE_SIZE <= nb < WORD && i == TreeIndex(nb) < j < NTREEBINS && Bit(treemap, j)
      requires forall q :: q in at && q.bin == i ==> at[q] < nb
      requires forall l :: i < l < j ==> !Bit(treemap, l)
      ensures TreeNode(roots[j], Pos(j, 1))
      ensures LeastScan(nb, roots[j], Pos(j, 1), if j < NTREEBINS - 1 then MinSize(j + 1) else WORD, 0, WORD - nb)
    {
      var m, bound := Pos(j, 1), if j < NTREEBINS - 1 then MinSize(j + 1) else WORD;
      assert RootOk(Oldest(at, queue), roots, treemap, j);
      OldestNonzero(m);
      forall q | q in at ensures Seen(at[q], nb, 0, WORD - nb) || (q.bin == j && Below(1, q.n)) || bound <= at[q] {
        NextSeen(nb, i, j, q, bound);
      }
      forall q | q in at && q.bin == j && Below(1, q.n) ensures nb <= at[q] < bound {
        NextSeen(nb, i, j, q, bound);
      }
    }

    lemma NextSeen(nb: nat, i: nat, j: nat, q: Pos, bound: nat)
      requires Valid() && MIN_LARGE_SIZE <= nb < WORD && i == TreeIndex(nb) < j < NTREEBINS && q in at
      requires forall q :: q in at && q.bin == i ==> at[q] < nb
      requires forall l :: i < l < j ==> !Bit(treemap, l)
      requires bound == if j < NTREEBINS - 1 then MinSize(j + 1) else WORD
      ensures Seen(at[q], nb, 0, WORD - nb) || (q.bin == j && Below(1, q.n)) || bound <= at[q]
      ensures q.bin == j ==> nb <= at[q] < bound
    {
      UnmarkedEmpty(q);
      OtherBins(nb, i, nb, q);
      NodeBounds(q);
      BelowRoot(q.n);
      if q.bin >= j {
        TreeIndexExact(at[q]);
        if j + 1 < q.bin { MinSizeMono(j + 1, q.bin); }
      }
    }

    /** Where the search of `tmalloc_large` goes when nb's own bin has nothing to offer. */
    method NextBin(nb: nat, i: nat) returns (t: nat, ghost m: Pos, ghost bound: nat)
      requires Valid() && MIN_LARGE_SIZE <= nb < WORD && i == TreeIndex(nb) && i < NTREEBINS
      requires forall q :: q in at && q.bin == i ==> at[q] < nb
      ensures Leasting(nb, t, m, bound, 0, WORD - nb)
    {
      assert |roots| == NTREEBINS && treemap < WORD;
      NextMarked(treemap, i);
      var leftbits := And(LeftBits(Idx2Bit(i)), treemap);
      if leftbits != 0 {
        var j := Bit2Idx(LeastBit(leftbits));
        StartNext(nb, i, j);
        t, m, bound := roots[j], Pos(j, 1), if j < NTREEBINS - 1 then MinSize(j + 1) else WORD;
      } else {
        t, m, bound := 0, Pos(i, 1), 0;
        StartEmpty(nb, i, m);
      }
    }

    /** The search of `tmalloc_large`: the oldest chunk of the least size that holds nb
        bytes, over all the tree bins. */
    method BestFit(head: Heads, nb: nat) returns (v: nat, rsize: nat)
      requires Valid() && Sized(head, content) && MIN_LARGE_SIZE <= nb < WORD
      ensures BestFitting(nb, v, rsize)
      ensures v == 0 ==> rsize == WORD - nb
    {
      var i := ComputeTreeIndex(nb);
      TreeIndexExact(nb);
      assert |roots| == NTREEBINS;
      var t := 0;
      v, rsize := 0, WORD - nb;
      ghost var m, bound := Pos(i, 1), 0;
      if roots[i] != 0 {
        t, v, rsize, m := FollowPath(head, nb, i);
        if rsize == 0 {
          StartExact(nb, t, m, v);
        } else {
          bound := AfterPath(nb, i, t, m, v, rsize);
        }
      } else {
        EmptyRoot(nb, i);
      }
      if t == 0 && v == 0 {
        t, m, bound := NextBin(nb, i);
      }
      v, rsize := LeastOf(head, nb, t, v, rsize, m, bound);
    }

    lemma EmptyRoot(nb: nat, i: nat)
      requires Valid() && i < NTREEBINS && |roots| == NTREEBINS && roots[i] == 0
      ensures forall q :: q in at && q.bin == i ==> at[q] < nb
    {
      forall q | q in at ensures q.bin != i {
        UnmarkedEmpty(q);
      }
    }

    lemma AfterPath(nb: nat, i: nat, t: nat, rp: Pos, v: nat, rsize: nat)
      returns (bound: nat)
      requires Valid() && MIN_LARGE_SIZE <= nb < WORD && i == TreeIndex(nb) && OffPath(nb, i, t, rp, v, rsize)
      ensures t != 0 || v != 0 ==> Leasting(nb, t, rp, bound, v, rsize)
      ensures t == 0 && v == 0 ==> rsize == WORD - nb && forall q :: q in at && q.bin == i ==> at[q] < nb
    {
      bound := 0;
      if t != 0 {
        bound := Hi(i, rp.n);
        StartRight(nb, i, t, rp, v, rsize);
      } else if v != 0 {
        StartNone(nb, i, rp, v, rsize, rp);
      } else {
        forall q | q in at && q.bin == i ensures at[q] < nb {
          assert PathDone(nb, i, 0, rp, v, rsize, q);
        }
      }
    }

    /** Any tree chunk holds a small request; the least marked bin holds the least. */
    lemma StartLeast(nb: nat, j: nat)
      requires Valid() && 0 < nb < MIN_LARGE_SIZE && j < NTREEBINS && Bit(treemap, j) && |roots| == NTREEBINS
      requires forall l :: 0 <= l < j ==> !Bit(treemap, l)
      ensures TreeNode(roots[j], Pos(j, 1)) && roots[j] in content && content[roots[j]] in home
      ensures content[roots[j]] >= MIN_LARGE_SIZE
      ensures LeastScan(nb, roots[j], Pos(j, 1), if j < NTREEBINS - 1 then MinSize(j + 1) else WORD, 0, WORD - nb)
    {
      var m, bound := Pos(j, 1), if j < NTREEBINS - 1 then MinSize(j + 1) else WORD;
      assert RootOk(Oldest(at, queue), roots, treemap, j);
      OldestNonzero(m);
      NodeBounds(m);
      assert QueueOk(content, home, queue, fd, bk, at[m]);
      forall q | q in at ensures (q.bin == j && Below(1, q.n)) || bound <= at[q] {
        UnmarkedEmpty(q);
        NodeBounds(q);
        BelowRoot(q.n);
        if q.bin > j {
          TreeIndexExact(at[q]);
          if j + 1 < q.bin { MinSizeMono(j + 1, q.bin); }
        }
      }
      forall q | q in at && q.bin == j && Below(1, q.n) ensures nb <= at[q] < bound {
        NodeBounds(q);
        TreeIndexExact(at[q]);
      }
    }

    /** The root of the least marked bin. */
    method FirstRoot(nb: nat) returns (t: nat, ghost m: Pos, ghost bound: nat)
      requires Valid() && 0 < nb < MIN_LARGE_SIZE && treemap != 0
      ensures t != 0 && Leasting(nb, t, m, bound, 0, WORD - nb)
      ensures exists s :: s in queue && nb <= s
    {
      assert |roots| == NTREEBINS && treemap < WORD;
      FirstMarked(treemap);
      var i := Bit2Idx(LeastBit(treemap));
      StartLeast(nb, i);
      t, m, bound := roots[i], Pos(i, 1), if i < NTREEBINS - 1 then MinSize(i + 1) else WORD;
      assert content[t] in queue && nb <= content[t];
    }

    /** The search of `tmalloc_small`: the oldest chunk of the least size of all, from the
        least marked bin. */
    method SmallestFit(head: Heads, nb: nat) returns (v: nat, rsize: nat)
      requires Valid() && Sized(head, content) && 0 < nb < MIN_LARGE_SIZE && treemap != 0
      ensures BestFitting(nb, v, rsize) && v != 0
    {
      ghost var m, bound;
      var t;
      t, m, bound := FirstRoot(nb);
      v := t;
      rsize := Remainder(ChunkSize(head, t), nb);
      SmallRemainder(head, nb, t, m);
      LeastVisit(head, nb, t, m, bound, 0, WORD - nb, v, rsize);
      t, m, bound := LeftmostChild(nb, t, v, rsize, m, bound);
      v, rsize := LeastOf(head, nb, t, v, rsize, m, bound);
    }

    lemma SmallRemainder(head: Heads, nb: nat, t: nat, m: Pos)
      requires Valid() && Sized(head, content) && 0 < nb < MIN_LARGE_SIZE && TreeNode(t, m)
      ensures Remainder(ChunkSize(head, t), nb) < WORD - nb
    {
      OldestSize(head, m);
      NodeBounds(m);
      RemainderTest(at[m], nb, WORD - nb);
    }

    /** A best fit is a least chunk that fits, the oldest of its size. */
    lemma FitIsLeast(nb: nat, v: nat, rsize: nat)
      requires Valid() && BestFitting(nb, v, rsize)
      ensures v == 0 ==> NoneFits(content, nb)
      ensures v != 0 ==> Least(content, nb, v) && content[v] == nb + rsize
    {
      if v == 0 {
        forall a | a in content ensures content[a] < nb {
          assert content[a] in queue;
        }
      } else {
        assert QueueOk(content, home, queue, fd, bk, nb + rsize);
        assert v in queue[nb + rsize];
        forall a | a in content && nb <= content[a] ensures content[v] <= content[a] {
          assert content[a] in queue;
        }
      }
    }

    lemma Unmarked()
      requires Valid() && treemap == 0
      ensures content == map[]
    {
      forall a | a in content ensures false {
        var s := content[a];
        assert s in queue && QueueOk(content, home, queue, fd, bk, s) && Housed(at, home, s);
        UnmarkedEmpty(home[s]);
        BitZero(home[s].bin);
      }
    }

    lemma SomeChunk() returns (a: nat)
      requires Valid() && treemap != 0
      ensures a in content
    {
      assert treemap < WORD;
      FirstMarked(treemap);
      var i := Bit2Idx(LeastBit(treemap));
      StartLeast(16, i);
      a := roots[i];
    }
  }
}
