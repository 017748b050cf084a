/** The breadth-first iterator over a tree that does not change while it runs. */
module ArtIterator {
  import opened Common
  import opened ArtKeys
  import opened ArtLayout
  import opened ArtHeap
  import opened ArtWide
  import opened ArtWalk
  import opened RadixOrder
  import opened RadixMap
  import opened ArtMap
  import R = RadixTree

  // ---------------------------------------------------------------------
  // What a queue of subtrees still holds
  // ---------------------------------------------------------------------

  /** The leaves below the queued subtrees. */
  function Flat(ts: seq<R.Tree>): seq<Entry> {
    if ts == [] then [] else InOrder(ts[0]) + Flat(ts[1..])
  }

  /** The number of nodes and leaves of a tree: the queue loses one of them in each round. */
  function Weight(t: R.Tree): nat
    decreases t, 257
  {
    if t.Leaf? then 1 else 1 + WeightUnder(t, Bytes(t.children.Keys))
  }

  function WeightUnder(t: R.Tree, bs: seq<byte>): nat
    requires t.Inner? && forall b :: b in bs ==> b in t.children
    decreases t, |bs|
  {
    if bs == [] then 0 else Weight(t.children[bs[0]]) + WeightUnder(t, bs[1..])
  }

  function TotalWeight(ts: seq<R.Tree>): nat {
    if ts == [] then 0 else Weight(ts[0]) + TotalWeight(ts[1..])
  }

  function Subtrees(t: R.Tree, bs: seq<byte>): (ts: seq<R.Tree>)
    requires t.Inner? && forall b :: b in bs ==> b in t.children
    ensures |ts| == |bs|
  {
    seq(|bs|, i requires 0 <= i < |bs| => assert bs[i] in bs; t.children[bs[i]])
  }

  /** Nothing is lost and nothing is returned twice. */
  ghost predicate Conserved(returned: seq<Entry>, pending: seq<R.Tree>, all: seq<Entry>) {
    multiset(returned) + multiset(Flat(pending)) == multiset(all)
  }

  lemma {:induction false} FlatAppend(a: seq<R.Tree>, b: seq<R.Tree>)
    ensures Flat(a + b) == Flat(a) + Flat(b)
  {
    hide InOrder, Flat;
    if a == [] {
      assert a + b == b;
      NothingFlat(b);
    } else {
      FlatAppend(a[1..], b);
      assert a + b == [a[0]] + (a[1..] + b) && a == [a[0]] + a[1..];
      HeadOfQueue(a[0], a[1..] + b);
      HeadOfQueue(a[0], a[1..]);
      Regroup(InOrder(a[0]), Flat(a[1..]), Flat(b));
    }
  }

  lemma {:induction false} NothingFlat(b: seq<R.Tree>)
    ensures Flat([]) == [] && Flat([]) + Flat(b) == Flat(b)
  {
  }

  lemma {:induction false} Regroup(x: seq<Entry>, y: seq<Entry>, z: seq<Entry>)
    ensures x + (y + z) == (x + y) + z
  {
  }

  lemma {:induction false} WeightAppend(a: seq<R.Tree>, b: seq<R.Tree>)
    ensures TotalWeight(a + b) == TotalWeight(a) + TotalWeight(b)
  {
    hide Weight;
    if a == [] {
      assert a + b == b;
    } else {
      WeightAppend(a[1..], b);
      assert (a + b)[1..] == a[1..] + b;
    }
  }

  /** The children of a node hold the leaves of the node, and weigh less. */
  lemma {:induction false} SubtreesHoldTheLeaves(t: R.Tree, bs: seq<byte>)
    requires t.Inner? && forall b :: b in bs ==> b in t.children
    ensures Flat(Subtrees(t, bs)) == InOrderUnder(t, bs)
    ensures TotalWeight(Subtrees(t, bs)) == WeightUnder(t, bs)
    decreases |bs|
  {
    hide InOrder, Weight;
    if bs == [] {
    } else {
      SubtreesHoldTheLeaves(t, bs[1..]);
      assert Subtrees(t, bs)[1..] == Subtrees(t, bs[1..]);
    }
  }

  /** Polling a node and queueing its children. */
  lemma {:induction false} Expand(t: R.Tree, rest: seq<R.Tree>, kids: seq<R.Tree>)
    requires t.Inner? && kids == Subtrees(t, Bytes(t.children.Keys))
    ensures multiset(Flat(rest + kids)) == multiset(Flat([t] + rest))
    ensures TotalWeight(rest + kids) < TotalWeight([t] + rest)
  {
    hide Bytes;
    SubtreesHoldTheLeaves(t, Bytes(t.children.Keys));
    FlatAppend(rest, kids);
    WeightAppend(rest, kids);
    HeadOfQueue(t, rest);
  }

  lemma {:induction false} HeadOfQueue(t: R.Tree, rest: seq<R.Tree>)
    ensures Flat([t] + rest) == InOrder(t) + Flat(rest)
    ensures TotalWeight([t] + rest) == Weight(t) + TotalWeight(rest)
  {
    hide InOrder, Weight;
    assert ([t] + rest)[1..] == rest;
  }

  // ---------------------------------------------------------------------
  // The order
  // ---------------------------------------------------------------------

  function Kids(t: R.Tree): seq<R.Tree> {
    if t.Leaf? then [] else Subtrees(t, Bytes(t.children.Keys))
  }

  /** The leaves in the order in which a queue gives them. */
  function BreadthFirst(ts: seq<R.Tree>): seq<Entry>
    decreases TotalWeight(ts)
  {
    if ts == [] then []
    else
      var t, rest := ts[0], ts[1..];
      assert ts == [t] + rest;
      HeadOfQueue(t, rest);
      if t.Leaf? then [Entry(t.key, t.value)] + BreadthFirst(rest)
      else
        Expand(t, rest, Kids(t));
        BreadthFirst(rest + Kids(t))
  }

  /** The leaves among some trees, and the children of the others, both in order. */
  function LeavesAmong(ts: seq<R.Tree>): seq<Entry> {
    if ts == [] then []
    else (if ts[0].Leaf? then [Entry(ts[0].key, ts[0].value)] else []) + LeavesAmong(ts[1..])
  }

  function NextLevel(ts: seq<R.Tree>): seq<R.Tree> {
    if ts == [] then [] else Kids(ts[0]) + NextLevel(ts[1..])
  }

  lemma {:induction false} QueueStep(t: R.Tree, rest: seq<R.Tree>)
    ensures BreadthFirst([t] + rest) ==
            if t.Leaf? then [Entry(t.key, t.value)] + BreadthFirst(rest) else BreadthFirst(rest + Kids(t))
  {
    hide Bytes, Subtrees, TotalWeight;
    assert ([t] + rest)[1..] == rest;
  }

  lemma {:induction false} LevelAndRest(a: seq<R.Tree>, b: seq<R.Tree>)
    ensures BreadthFirst(a + b) == LeavesAmong(a) + BreadthFirst(b + NextLevel(a))
    decreases |a|
  {
    hide BreadthFirst, Kids;
    if a == [] {
      assert a + b == b && b + NextLevel(a) == b;
    } else {
      var t, rest := a[0], a[1..];
      assert a + b == [t] + (rest + b);
      QueueStep(t, rest + b);
      if t.Leaf? {
        LevelAndRest(rest, b);
        LeafHasNoKids(t, rest);
        Regroup([Entry(t.key, t.value)], LeavesAmong(rest), BreadthFirst(b + NextLevel(rest)));
      } else {
        LevelAndRest(rest, b + Kids(t));
        assert (rest + b) + Kids(t) == rest + (b + Kids(t));
        assert (b + Kids(t)) + NextLevel(rest) == b + NextLevel(a);
        assert LeavesAmong(a) == LeavesAmong(rest);
      }
    }
  }

  lemma {:induction false} LeafHasNoKids(t: R.Tree, rest: seq<R.Tree>)
    requires t.Leaf?
    ensures NextLevel([t] + rest) == NextLevel(rest)
    ensures LeavesAmong([t] + rest) == [Entry(t.key, t.value)] + LeavesAmong(rest)
  {
    assert ([t] + rest)[1..] == rest;
  }

  /** Level by level: the leaves of a level come before everything below it. */
  lemma {:induction false} LevelByLevel(ts: seq<R.Tree>)
    ensures BreadthFirst(ts) == LeavesAmong(ts) + BreadthFirst(NextLevel(ts))
  {
    hide BreadthFirst, LeavesAmong, NextLevel;
    LevelAndRest(ts, []);
    assert ts + [] == ts && [] + NextLevel(ts) == NextLevel(ts);
  }

  /** What has been returned is what the queue has given so far. */
  ghost predicate InQueueOrder(returned: seq<Entry>, pending: seq<R.Tree>, root: seq<R.Tree>) {
    returned + BreadthFirst(pending) == BreadthFirst(root)
  }

  lemma {:induction false} LeafInOrder(returned: seq<Entry>, t: R.Tree, rest: seq<R.Tree>, root: seq<R.Tree>)
    requires t.Leaf? && InQueueOrder(returned, [t] + rest, root)
    ensures InQueueOrder(returned + [Entry(t.key, t.value)], rest, root)
  {
    hide BreadthFirst;
    QueueStep(t, rest);
    Regroup(returned, [Entry(t.key, t.value)], BreadthFirst(rest));
  }

  lemma {:induction false} NodeInOrder(returned: seq<Entry>, t: R.Tree, rest: seq<R.Tree>, kids: seq<R.Tree>,
                                       root: seq<R.Tree>)
    requires t.Inner? && kids == Subtrees(t, Bytes(t.children.Keys)) && InQueueOrder(returned, [t] + rest, root)
    ensures InQueueOrder(returned, rest + kids, root)
  {
    hide BreadthFirst, Bytes, Subtrees;
    QueueStep(t, rest);
  }

  lemma {:induction false} PrefixOfOrder(returned: seq<Entry>, pending: seq<R.Tree>, root: seq<R.Tree>)
    requires InQueueOrder(returned, pending, root)
    ensures returned <= BreadthFirst(root)
  {
    hide BreadthFirst;
  }

  lemma {:induction false} RootInOrder(root: seq<R.Tree>)
    ensures InQueueOrder([], root, root)
  {
    hide BreadthFirst;
  }

  /** A sorted list of the items of a map is as long as the map. */
  lemma {:induction false} AsManyEntriesAsKeys(s: State, m: map<Key, Value>)
    requires Represents(s, m)
    ensures |Entries(s)| == s.size
  {
    hide Represents, Entries;
    EntriesRefineMap(s, m);
    var es := Entries(s);
    var keys := KeysOf(es);
    assert forall k :: k in m ==> Entry(k, m[k]) in es && Entry(k, m[k]).key in keys;
    assert keys == m.Keys;
    CountKeys(es);
    assert |m.Keys| == |m|;
    SizeIsCount(s, m);
  }

  lemma {:induction false} SizeIsCount(s: State, m: map<Key, Value>)
    requires Represents(s, m)
    ensures s.size == |m|
  {
  }

  ghost function KeysOf(es: seq<Entry>): set<Key> {
    set e | e in es :: e.key
  }

  lemma {:induction false} CountKeys(es: seq<Entry>)
    requires SortedByKey(es)
    ensures |KeysOf(es)| == |es|
  {
    hide KeyLess;
    if es == [] {
    } else {
      var n := |es| - 1;
      SortedFront(es);
      CountKeys(es[..n]);
      KeysOfFront(es);
    }
  }

  lemma {:induction false} SortedFront(es: seq<Entry>)
    requires SortedByKey(es) && es != []
    ensures SortedByKey(es[..|es| - 1])
    ensures forall e :: e in es[..|es| - 1] ==> e.key != es[|es| - 1].key
  {
    hide KeyLess;
    var n := |es| - 1;
    forall e | e in es[..n] ensures e.key != es[n].key {
      var i :| 0 <= i < n && es[..n][i] == e;
      KeyLessIsIrreflexive(es[i].key, es[n].key);
    }
  }

  lemma {:induction false} KeysOfFront(es: seq<Entry>)
    requires es != []
    ensures KeysOf(es) == KeysOf(es[..|es| - 1]) + {es[|es| - 1].key}
  {
    var n := |es| - 1;
    assert es == es[..n] + [es[n]];
    var all, front := KeysOf(es), KeysOf(es[..n]);
    forall k | k in front + {es[n].key} ensures k in all {
      if k == es[n].key {
        assert es[n] in es;
      } else {
        var e :| e in es[..n] && e.key == k;
        assert e in es;
      }
    }
  }

  // ---------------------------------------------------------------------
  // struct art_iterator
  // ---------------------------------------------------------------------

  class Iterator {
    const tree: Art
    var que: seq<Ref>
    var count: int
    var key: Key
    var value: Option<Value>
    ghost var pending: seq<R.Tree>
    ghost var returned: seq<Entry>

    ghost function Stored(): seq<Entry>
      requires tree.Owns()
      reads tree, tree.repr
    {
      Entries(tree.Abstract())
    }

    /** What has been returned and what hangs below the queue is the tree, once each. */
    ghost predicate Valid()
      reads this, tree, tree.repr
    {
      && tree.Valid() && this !in tree.repr
      && QueueMatches()
      && count == |returned|
      && (count == 0 ==> que == [])
      && (0 < count ==> Conserved(returned, pending, Stored()) && InQueueOrder(returned, pending, Root()))
    }

    ghost function Root(): seq<R.Tree>
      requires tree.Owns()
      reads tree, tree.repr
    {
      if tree.root == Null then [] else [TreeOf(tree.root)]
    }

    ghost predicate QueueMatches()
      reads this, tree, tree.repr
    {
      AllQueued(que, pending)
    }

    ghost predicate AllQueued(rs: seq<Ref>, ts: seq<R.Tree>)
      reads tree, tree.repr
    {
      && |rs| == |ts|
      && forall i :: 0 <= i < |rs| ==> Queued(rs[i], ts[i])
    }

    lemma {:induction false} QueueAppend(rs: seq<Ref>, ts: seq<R.Tree>, kids: seq<Ref>, trees: seq<R.Tree>)
      requires AllQueued(rs, ts) && AllQueued(kids, trees)
      ensures AllQueued(rs + kids, ts + trees)
    {
      hide Queued;
    }

    ghost predicate Queued(r: Ref, t: R.Tree)
      reads tree, tree.repr
    {
      match r
      case Null => false
      case ToLeaf(leaf) => leaf in tree.repr && TreeOf(r) == t
      case ToNode(n) => n in tree.repr && n.repr <= tree.repr && ArtHeap.Valid(n) && TreeOf(r) == t
    }

    constructor (t: Art)
      requires t.Valid()
      ensures tree == t && Valid() && returned == []
    {
      tree := t;
      que, count, key, value := [], 0, [], None;
      pending, returned := [], [];
    }

    /** True exactly while some key has not been returned yet. */
    method HasNext() returns (r: bool)
      requires Valid()
      ensures r <==> |returned| < |Stored()|
      ensures !r ==> multiset(returned) == multiset(Stored())
    {
      hide InOrder, Represents, ArtHeap.Valid, Queued;
      AsManyEntriesAsKeys(tree.Abstract(), tree.contents);
      NothingLeft(this);
      r := count < tree.size;
    }

    /** Returns the next leaf; a run of these returns every leaf once and then stops. */
    method Next() returns (r: bool)
      requires Valid()
      modifies this
      ensures Valid()
      ensures r <==> old(|returned|) < |Stored()|
      ensures r ==> value.Some? && Entry(key, value.value) in Stored()
      ensures r ==> returned <= BreadthFirst(Root())
      ensures returned == if r then old(returned) + [Entry(key, value.value)] else old(returned)
      ensures !r ==> multiset(returned) == multiset(Stored())
    {
      hide InOrder, Represents, ArtHeap.Valid, Flat, TotalWeight, R.Good, Conserved, InQueueOrder, BreadthFirst;
      AsManyEntriesAsKeys(tree.Abstract(), tree.contents);
      NothingLeft(this);
      if count == tree.size {
        return false;
      }
      if count == 0 {
        SeedQueue(tree);
        que, pending := [tree.root], [TreeOf(tree.root)];
        RootInOrder(pending);
      }
      r := FirstLeaf();
    }

    /** The loop over the queue: it ends at the first leaf. */
    method FirstLeaf() returns (r: bool)
      requires tree.Valid() && this !in tree.repr && QueueMatches() && count == |returned| < |Stored()|
      requires Conserved(returned, pending, Stored()) && InQueueOrder(returned, pending, Root())
      modifies this
      ensures r && Valid() && value.Some? && returned <= BreadthFirst(Root())
      ensures returned == old(returned) + [Entry(key, value.value)] && Entry(key, value.value) in Stored()
    {
      hide InOrder, Represents, ArtHeap.Valid, Flat, TotalWeight, R.Good, Conserved, InQueueOrder, BreadthFirst;
      while que != []
        invariant returned == old(returned) && count == old(count) && QueueMatches()
        invariant Conserved(returned, pending, Stored()) && InQueueOrder(returned, pending, Root())
        decreases TotalWeight(pending)
      {
        var node := que[0];
        ghost var t, rest := pending[0], pending[1..];
        assert pending == [t] + rest;
        assert Queued(node, t);
        que, pending := que[1..], rest;
        assert QueueMatches();
        match node {
          case ToLeaf(leaf) =>
            ConservedByLeaf(returned, t, rest, Stored());
            LeafInOrder(returned, t, rest, Root());
            count := count + 1;
            key, value := leaf.key, Some(leaf.value);
            returned := returned + [Entry(leaf.key, leaf.value)];
            PrefixOfOrder(returned, pending, Root());
            return true;
          case ToNode(n) =>
            ghost var all, root := Stored(), Root();
            AddChildren(n, rest, all, root);
        }
      }
      NothingQueued(returned, pending, Stored());
      assert false;
    }

    /** Queueing the children of a node that has just been polled. */
    method AddChildren(n: Node, ghost rest: seq<R.Tree>, ghost all: seq<Entry>, ghost root: seq<R.Tree>)
      requires tree.Valid() && this !in tree.repr && QueueMatches() && pending == rest
      requires n in tree.repr && n.repr <= tree.repr && ArtHeap.Valid(n)
      requires Conserved(returned, [n.tree] + rest, all) && InQueueOrder(returned, [n.tree] + rest, root)
      modifies this`que, this`pending
      ensures QueueMatches() && Conserved(returned, pending, all) && InQueueOrder(returned, pending, root)
      ensures TotalWeight(pending) < TotalWeight([n.tree] + rest)
    {
      hide InOrder, Represents, ArtHeap.Valid, Flat, TotalWeight, R.Good, Conserved, Bytes, Children, Lookup, Tidy,
           Packed, InQueueOrder;
      ValidFields(n);
      var kids := ChildrenInOrder(n);
      ghost var bs := Bytes(n.tree.children.Keys);
      ghost var ts := Subtrees(n.tree, bs);
      ConservedByNode(returned, n.tree, rest, ts, all);
      NodeInOrder(returned, n.tree, rest, ts, root);
      forall i | 0 <= i < |kids| ensures |ts| == |kids| && Queued(kids[i], ts[i]) {
        KidsAreSubtrees(n, kids, i);
        OwnsItself(kids[i]);
      }
      NoKidsNoTrees(n, kids);
      assert AllQueued(kids, ts);
      QueueAppend(que, rest, kids, ts);
      que, pending := que + kids, rest + ts;
    }
  }

  lemma {:induction false} NoKidsNoTrees(n: Node, kids: seq<Ref>)
    requires ArtHeap.Valid(n) && kids == Packed(n.Shape(), Bytes(Children(n.Shape()).Keys))
    ensures n.tree.Inner? && |kids| == |Bytes(n.tree.children.Keys)|
  {
    ValidFields(n);
  }

  lemma {:induction false} NothingLeft(it: Iterator)
    requires it.Valid()
    ensures |it.returned| <= |it.Stored()|
    ensures |it.returned| == |it.Stored()| ==> multiset(it.returned) == multiset(it.Stored())
  {
    hide InOrder, Represents, ArtHeap.Valid, Flat, R.Good;
    if it.count > 0 {
      Sizes(it.returned, Flat(it.pending), it.Stored());
    }
  }

  lemma {:induction false} Sizes(a: seq<Entry>, b: seq<Entry>, all: seq<Entry>)
    requires multiset(a) + multiset(b) == multiset(all)
    ensures |a| + |b| == |all|
    ensures b == [] ==> multiset(a) == multiset(all)
  {
    assert |multiset(a) + multiset(b)| == |a| + |b|;
    assert |multiset(all)| == |all|;
  }

  lemma {:induction false} SeedQueue(a: Art)
    requires a.Valid() && a.size != 0
    ensures a.root != Null && Conserved([], [TreeOf(a.root)], Entries(a.Abstract()))
  {
    HeadOfQueue(TreeOf(a.root), []);
  }

  lemma {:induction false} ConservedByLeaf(returned: seq<Entry>, t: R.Tree, rest: seq<R.Tree>, all: seq<Entry>)
    requires t.Leaf? && Conserved(returned, [t] + rest, all)
    ensures Conserved(returned + [Entry(t.key, t.value)], rest, all)
    ensures Entry(t.key, t.value) in all
  {
    hide Flat;
    HeadOfQueue(t, rest);
    assert Entry(t.key, t.value) in multiset(all);
  }

  lemma {:induction false} ConservedByNode(returned: seq<Entry>, t: R.Tree, rest: seq<R.Tree>, kids: seq<R.Tree>,
                                           all: seq<Entry>)
    requires t.Inner? && kids == Subtrees(t, Bytes(t.children.Keys)) && Conserved(returned, [t] + rest, all)
    ensures Conserved(returned, rest + kids, all)
    ensures TotalWeight(rest + kids) < TotalWeight([t] + rest)
  {
    hide Flat, Bytes;
    Expand(t, rest, kids);
  }

  lemma {:induction false} NothingQueued(returned: seq<Entry>, pending: seq<R.Tree>, all: seq<Entry>)
    requires Conserved(returned, pending, all) && pending == []
    ensures |returned| == |all|
  {
    Sizes(returned, [], all);
  }
}
