/** The adaptive radix tree on the heap: nodes that are changed in place, and the
    radix tree they stand for. */
module ArtHeap {
  import opened Common
  import opened ArtKeys
  import opened ArtLayout
  import opened ArtNode
  import R = RadixTree

  ghost function ReprOf(r: Ref): set<object>
    reads if r.ToNode? then {r.node} else {}
  {
    match r
    case Null => {}
    case ToLeaf(leaf) => {leaf}
    case ToNode(node) => node.repr
  }

  ghost function TreeOf(r: Ref): R.Tree
    requires r != Null
    reads if r.ToNode? then {r.node} else if r.ToLeaf? then {r.leaf} else {}
  {
    match r
    case ToLeaf(leaf) => R.Leaf(leaf.key, leaf.value)
    case ToNode(node) => node.tree
  }

  /** A node that owns its children: they are valid, below the node, and share
      nothing; its ghost tree is what the fields say. */
  ghost predicate Valid(n: Node)
    reads n, n.repr
    decreases n.repr
  {
    && n in n.repr
    && Ok(n.Shape()) && |n.prefix| == MAX_PREFIX_LEN
    && var m := Children(n.Shape());
    && (forall b :: b in m ==> Owned(n, m[b]))
    && (forall b, c :: b in m && c in m && b != c ==> ReprOf(m[b]) !! ReprOf(m[c]))
    && n.tree == R.Inner(n.prefixLen, Stored(n), Trees(m))
  }

  ghost predicate Owned(n: Node, r: Ref)
    reads n, n.repr
    decreases n.repr, 0
  {
    match r
    case Null => false
    case ToLeaf(leaf) => leaf in n.repr
    case ToNode(node) =>
      && n in n.repr && node in n.repr && node.repr <= n.repr && n !in node.repr
      && Valid(node)
  }

  ghost predicate ValidRef(r: Ref)
    reads if r.ToNode? then {r.node} + r.node.repr else {}
  {
    match r
    case Null => false
    case ToLeaf(_) => true
    case ToNode(node) => Valid(node)
  }

  // ---------------------------------------------------------------------
  // Reading a valid node
  // ---------------------------------------------------------------------

  /** The child under a byte is valid, below the node, and stands for the subtree. */
  lemma {:induction false} ChildOf(n: Node, b: byte)
    requires Valid(n)
    ensures b in Children(n.Shape()) <==> Lookup(n.Shape(), b) != Null
    ensures b in Children(n.Shape()) <==> n.tree.Inner? && b in n.tree.children
    ensures b in Children(n.Shape()) ==>
              var c := Lookup(n.Shape(), b);
              && ValidRef(c) && ReprOf(c) <= n.repr && n !in ReprOf(c)
              && TreeOf(c) == n.tree.children[b]
  {
    hide Lookup, Stored;
    ChildrenAreLookups(n.Shape(), b);
  }

  lemma {:induction false} ValidFields(n: Node)
    requires Valid(n)
    ensures n in n.repr && Ok(n.Shape()) && |n.prefix| == MAX_PREFIX_LEN
    ensures n.tree.Inner? && n.tree.prefixLen == n.prefixLen && n.tree.prefix == Stored(n)
    ensures n.tree.children.Keys == Children(n.Shape()).Keys
    ensures |n.tree.children| == |Children(n.Shape())|
  {
    hide Tidy, Lookup, Stored, Owned;
    var m := Children(n.Shape());
    assert n.tree.children.Keys == m.Keys;
    assert |n.tree.children| == |n.tree.children.Keys| == |m.Keys| == |m|;
  }

  // ---------------------------------------------------------------------
  // Closing a node over its children
  // ---------------------------------------------------------------------

  /** Everything below the children in m. */
  ghost function Below(m: map<byte, Ref>): set<object>
    reads set b | b in m && m[b].ToNode? :: m[b].node
  {
    set b, o | b in m && o in ReprOf(m[b]) :: o
  }

  ghost function Trees(m: map<byte, Ref>): map<byte, R.Tree>
    requires forall b :: b in m ==> m[b] != Null
    reads set b | b in m && m[b].ToNode? :: m[b].node
    reads set b | b in m && m[b].ToLeaf? :: m[b].leaf
  {
    map b | b in m :: TreeOf(m[b])
  }

  /** The children in m are valid and share nothing with each other or with n. */
  ghost predicate Apart(n: Node, m: map<byte, Ref>)
    reads set b | b in m && m[b].ToNode? :: m[b].node
    reads set b, o | b in m && m[b].ToNode? && o in m[b].node.repr :: o
  {
    && (forall b :: b in m ==> m[b] != Null && ValidRef(m[b]) && n !in ReprOf(m[b]))
    && (forall b, c :: b in m && c in m && b != c ==> ReprOf(m[b]) !! ReprOf(m[c]))
  }

  lemma {:induction false} SealedIsValid(n: Node, m: map<byte, Ref>)
    requires Ok(n.Shape()) && |n.prefix| == MAX_PREFIX_LEN
    requires m == Children(n.Shape()) && Apart(n, m)
    requires n.repr == {n} + Below(m) && n.tree == R.Inner(n.prefixLen, Stored(n), Trees(m))
    ensures Valid(n)
  {
    hide Ok, Tidy, Lookup, Children, Stored;
    forall b | b in m ensures Owned(n, m[b]) {
      assert ReprOf(m[b]) <= Below(m);
    }
  }

  twostate lemma {:induction false} UntouchedRef(r: Ref)
    requires r != Null && old(ValidRef(r)) && unchanged(old(ReprOf(r)))
    ensures ValidRef(r) && ReprOf(r) == old(ReprOf(r)) && TreeOf(r) == old(TreeOf(r))
  {
  }

  ghost predicate ApartBelow(m: map<byte, Ref>)
    reads set b | b in m && m[b].ToNode? :: m[b].node
    reads set b, o | b in m && m[b].ToNode? && o in m[b].node.repr :: o
  {
    && (forall b :: b in m ==> m[b] != Null && ValidRef(m[b]))
    && (forall b, c :: b in m && c in m && b != c ==> ReprOf(m[b]) !! ReprOf(m[c]))
  }

  /** Children whose objects have not changed are as they were. */
  twostate lemma {:induction false} UntouchedChildren(m: map<byte, Ref>)
    requires old(ApartBelow(m)) && unchanged(old(Below(m)))
    ensures ApartBelow(m) && Trees(m) == old(Trees(m)) && Below(m) == old(Below(m))
  {
    hide ValidRef, ReprOf, TreeOf;
    forall c | c in m
      ensures ValidRef(m[c]) && ReprOf(m[c]) == old(ReprOf(m[c])) && TreeOf(m[c]) == old(TreeOf(m[c]))
    {
      assert old(ReprOf(m[c])) <= old(Below(m));
      UntouchedRef(m[c]);
    }
  }

  twostate lemma {:induction false} UntouchedOthers(m: map<byte, Ref>, new b: byte)
    requires old(ApartBelow(m - {b})) && unchanged(old(Below(m - {b})))
    ensures ApartBelow(m - {b}) && Trees(m - {b}) == old(Trees(m - {b})) && Below(m - {b}) == old(Below(m - {b}))
  {
    var rest := m - {b};
    forall c | c in rest
      ensures ValidRef(rest[c]) && ReprOf(rest[c]) == old(ReprOf(rest[c])) && TreeOf(rest[c]) == old(TreeOf(rest[c]))
    {
      assert rest[c] == m[c];
      assert old(ReprOf(m[c])) <= old(Below(rest));
      UntouchedRef(m[c]);
    }
    hide ValidRef, ReprOf, TreeOf;
  }

  lemma {:induction false} ApartMeans(n: Node, m: map<byte, Ref>)
    ensures Apart(n, m) <==> ApartBelow(m) && n !in Below(m)
  {
    hide ValidRef, ReprOf;
  }

  /** One more child, or another one in the place of an old one. */
  lemma {:induction false} OneMoreChild(m: map<byte, Ref>, b: byte, r: Ref)
    requires ApartBelow(m - {b}) && r != Null && ValidRef(r) && Below(m - {b}) !! ReprOf(r)
    ensures ApartBelow(m[b := r]) && Below(m[b := r]) == Below(m - {b}) + ReprOf(r)
    ensures Trees(m[b := r]) == Trees(m - {b})[b := TreeOf(r)]
  {
    hide ValidRef, ReprOf, TreeOf;
    var rest, m' := m - {b}, m[b := r];
    assert m'[b] == r && forall c :: c in rest ==> m'[c] == rest[c];
    forall o ensures o in Below(m') <==> o in Below(rest) || o in ReprOf(r) {
      if o in Below(m') {
        var c :| c in m' && o in ReprOf(m'[c]);
        assert c != b ==> c in rest;
      }
      if o in Below(rest) {
        var c :| c in rest && o in ReprOf(rest[c]);
        assert c in m';
      }
    }
    forall c | c in rest ensures ReprOf(rest[c]) <= Below(rest) {
    }
  }

  /** Some of the children. */
  lemma {:induction false} FewerChildren(m: map<byte, Ref>, b: byte)
    requires ApartBelow(m)
    ensures ApartBelow(m - {b}) && Below(m - {b}) <= Below(m)
    ensures Trees(m - {b}) == Trees(m) - {b}
    ensures b in m ==> ReprOf(m[b]) !! Below(m - {b}) && ReprOf(m[b]) <= Below(m)
  {
    hide ValidRef, ReprOf, TreeOf;
    var rest := m - {b};
    assert forall c :: c in rest ==> c in m && rest[c] == m[c];
  }

  /** Bring the ghost fields of a node up to date after its fields have changed. */
  ghost method Seal(n: Node)
    requires Ok(n.Shape()) && |n.prefix| == MAX_PREFIX_LEN
    requires Apart(n, Children(n.Shape()))
    modifies n`repr, n`tree
    ensures Valid(n)
    ensures n.repr == {n} + Below(Children(n.Shape()))
    ensures n.tree == R.Inner(n.prefixLen, Stored(n), Trees(Children(n.Shape())))
    ensures Trees(Children(n.Shape())) == old(Trees(Children(n.Shape())))
    ensures Below(Children(n.Shape())) == old(Below(Children(n.Shape())))
  {
    hide Tidy, Lookup, Children;
    var m := Children(n.Shape());
    SetGhosts(n, m);
    hide Ok, Apart, Below, Trees;
    SealedIsValid(n, m);
  }

  /** Seal a node whose children are the ones in m but for the one under b. */
  ghost method SealOneMore(n: Node, m: map<byte, Ref>, b: byte, r: Ref)
    requires Ok(n.Shape()) && |n.prefix| == MAX_PREFIX_LEN
    requires Children(n.Shape()) == m[b := r]
    requires ApartBelow(m - {b}) && r != Null && ValidRef(r) && Below(m - {b}) !! ReprOf(r)
    requires n !in Below(m - {b}) && n !in ReprOf(r)
    modifies n`repr, n`tree
    ensures Valid(n)
    ensures n.repr == {n} + old(Below(m - {b}) + ReprOf(r))
    ensures n.tree == R.Inner(n.prefixLen, old(Stored(n)), old(Trees(m - {b})[b := TreeOf(r)]))
  {
    hide Valid, Tidy, Lookup, Children, Trees, Below, Apart, ApartBelow, ValidRef, ReprOf, TreeOf;
    OneMoreChild(m, b, r);
    ApartMeans(n, m[b := r]);
    Seal(n);
  }

  lemma {:induction false} AreAllocated(m: map<byte, Ref>, c: Ref)
    ensures allocated(Below(m)) && allocated(ReprOf(c))
  {
  }

  /** Write a child through the pointer that node_get_child returned, and seal. */
  method StoreBelow(n: Node, b: byte, c: Ref, ghost m: map<byte, Ref>)
    requires Ok(n.Shape()) && |n.prefix| == MAX_PREFIX_LEN && Lookup(n.Shape(), b) != Null
    requires m == Children(n.Shape())
    requires ApartBelow(m - {b}) && c != Null && ValidRef(c) && Below(m - {b}) !! ReprOf(c)
    requires n !in Below(m - {b}) && n !in ReprOf(c)
    modifies n
    ensures Valid(n)
    ensures n.repr == {n} + old(Below(m - {b}) + ReprOf(c))
    ensures n.tree == R.Inner(old(n.prefixLen), old(Stored(n)), old(Trees(m - {b})[b := TreeOf(c)]))
  {
    hide Valid, Tidy, Lookup, Children, Trees, ApartBelow, Below, ReprOf, TreeOf, ValidRef;
    AreAllocated(m - {b}, c);
    StoreChild(n, b, c);
    UntouchedRef(c);
    UntouchedOthers(m, b);
    SealOneMore(n, m, b, c);
  }

  ghost method SetGhosts(n: Node, m: map<byte, Ref>)
    requires Apart(n, m)
    modifies n`repr, n`tree
    ensures Apart(n, m) && Trees(m) == old(Trees(m)) && Below(m) == old(Below(m))
    ensures n.repr == {n} + Below(m) && n.tree == R.Inner(n.prefixLen, Stored(n), Trees(m))
  {
    hide Valid;
    forall b | b in m && m[b].ToNode? ensures n != m[b].node {
      ValidFields(m[b].node);
    }
    n.repr := {n} + Below(m);
    n.tree := R.Inner(n.prefixLen, Stored(n), Trees(m));
  }
}
