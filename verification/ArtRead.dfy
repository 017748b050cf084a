/** The operations that only read the tree. */
module ArtRead {
  import opened Common
  import opened ArtKeys
  import opened ArtLayout
  import opened ArtSorted
  import opened ArtNode
  import opened ArtHeap
  import R = RadixTree

  // ---------------------------------------------------------------------
  // node_get_minimum
  // ---------------------------------------------------------------------

  lemma {:induction false} LeastByte(s: set<byte>, b: byte)
    requires b in s && forall c: byte :: c < b ==> c !in s
    ensures |s| > 0 && Bytes(s)[0] == b
  {
    var bs := Bytes(s);
    assert b in bs;
    assert bs[0] in bs;
  }

  lemma {:induction false} SortedKeysAreBytes(l: Layout)
    requires Ok(l) && (l.kind.Node4? || l.kind.Node16?)
    ensures l.keys[..l.num] == Bytes(Children(l).Keys)
  {
    hide StrictlyAscending, Children, IndexOf;
    forall b: byte ensures b in l.keys[..l.num] <==> b in Bytes(Children(l).Keys) {
      OkSorted(l, b);
      ChildrenAreLookups(l, b);
    }
    AscendingUnique(l.keys[..l.num], Bytes(Children(l).Keys));
  }

  /** The child under the smallest byte. */
  method FirstChild(n: Node) returns (r: Ref)
    requires Ok(n.Shape()) && |Children(n.Shape())| > 0
    ensures var b := Bytes(Children(n.Shape()).Keys)[0];
            b in Children(n.Shape()) && r == Lookup(n.Shape(), b)
  {
    hide StrictlyAscending, Linked, NoOrphan, Children, IndexOf, LookupSorted;
    ghost var l := n.Shape();
    ghost var used := Children(l).Keys;
    assert Bytes(used)[0] in Bytes(used);
    OkCounts(l);
    match n.kind {
      case Node4 =>
        FirstSorted(l);
        r := n.slots[0];
      case Node16 =>
        FirstSorted(l);
        r := n.slots[0];
      case Node48 =>
        ghost var least := Bytes(used)[0];
        UsedByte(l, least);
        var idx := 0;
        while n.keys[idx] == 0
          invariant 0 <= idx <= least
          invariant forall b: byte :: b < idx ==> b !in used
          decreases least - idx
        {
          UsedByte(l, idx);
          idx := idx + 1;
        }
        UsedByte(l, idx);
        LeastByte(used, idx);
        r := n.slots[n.keys[idx] - 1];
      case Node256 =>
        ghost var least := Bytes(used)[0];
        ChildrenAreLookups(l, least);
        var idx := 0;
        while n.slots[idx] == Null
          invariant 0 <= idx <= least
          invariant forall b: byte :: b < idx ==> b !in used
          decreases least - idx
        {
          ChildrenAreLookups(l, idx);
          idx := idx + 1;
        }
        ChildrenAreLookups(l, idx);
        LeastByte(used, idx);
        r := n.slots[idx];
    }
  }

  lemma {:induction false} UsedByte(l: Layout, b: byte)
    requires Sized(l) && l.kind.Node48? && Tidy(l)
    ensures b in Children(l).Keys <==> l.keys[b] != 0
  {
    hide NoOrphan;
    UnusedByte(l, b);
    ChildrenAreLookups(l, b);
  }

  lemma {:induction false} FirstSorted(l: Layout)
    requires Ok(l) && (l.kind.Node4? || l.kind.Node16?) && |Children(l)| > 0
    ensures l.num > 0 && Lookup(l, Bytes(Children(l).Keys)[0]) == l.slots[0]
  {
    hide StrictlyAscending, Children, IndexOf;
    SortedKeysAreBytes(l);
    OkSorted(l, 0);
    LookupAt(l, 0);
    assert l.keys[..l.num][0] == l.keys[0];
  }

  /** The leftmost leaf below a node of a good tree. */
  method Minimum(n: Node, ghost p: Key) returns (leaf: Leaf)
    requires Valid(n) && R.Good(n.tree, p)
    ensures R.MinLeaf(n.tree) == R.Leaf(leaf.key, leaf.value)
  {
    hide R.GoodVia, R.Good, Ok, Children, Lookup, Valid;
    var cur := ToNode(n);
    ghost var q := p;
    while cur.ToNode?
      invariant cur != Null && ValidRef(cur) && R.Good(TreeOf(cur), q)
      invariant R.MinLeaf(TreeOf(cur)) == R.MinLeaf(n.tree)
      decreases TreeOf(cur)
    {
      var at := cur.node;
      ghost var t := at.tree;
      ValidFields(at);
      ghost var q' := R.PathThrough(t, q);
      ManyChildren(t, q, q');
      ghost var b := Bytes(t.children.Keys)[0];
      R.ChildIsGood(t, q, q', b);
      SmallerChild(t, b);
      cur := FirstChild(at);
      ChildOf(at, b);
      q := q' + [b];
    }
    leaf := cur.leaf;
  }

  lemma {:induction false} SmallerChild(t: R.Tree, b: byte)
    requires t.Inner? && b in t.children
    ensures t.children[b] < t
  {
    assert t == R.Inner(t.prefixLen, t.prefix, t.children);
  }

  lemma {:induction false} ManyChildren(t: R.Tree, p: Key, q: Key)
    requires R.GoodVia(t, p, q)
    ensures t.Inner? && 2 <= |t.children|
    ensures Bytes(t.children.Keys)[0] in t.children
  {
    hide R.Good;
    assert Bytes(t.children.Keys)[0] in Bytes(t.children.Keys);
  }

  // ---------------------------------------------------------------------
  // check_prefix_partial, check_prefix, leaf_match
  // ---------------------------------------------------------------------

  method CheckPrefixPartial(n: Node, key: Key, depth: nat) returns (len: nat)
    requires Valid(n) && depth <= |key|
    ensures len == R.CheckPrefixPartial(n.tree, key, depth)
  {
    ValidFields(n);
    hide Valid, Ok, Children;
    len := 0;
    var maxCmp := Min(Min(n.prefixLen, MAX_PREFIX_LEN), |key| - depth);
    while len < maxCmp && key[depth + len] == n.prefix[len]
      invariant 0 <= len <= maxCmp
      invariant R.Matching(n.tree.prefix, key, depth, len) == R.Matching(n.tree.prefix, key, depth, 0)
    {
      len := len + 1;
    }
  }

  method CheckPrefix(n: Node, key: Key, depth: nat) returns (len: nat)
    requires Valid(n) && depth <= |key| && R.Good(n.tree, key[..depth])
    ensures len == R.CheckPrefix(n.tree, key, depth)
  {
    hide Valid, Ok, Children, R.Good, R.GoodVia, R.MinLeaf, Diverge;
    ValidFields(n);
    len := CheckPrefixPartial(n, key, depth);
    if len < MAX_PREFIX_LEN {
      return;
    }
    var leaf := Minimum(n, key[..depth]);
    ghost var q := R.PathThrough(n.tree, key[..depth]);
    R.MinLeafShowsThePrefix(n.tree, key[..depth], q);
    R.ViaIsGood(n.tree, key[..depth], q);
    var d := GoOnComparing(leaf.key, key, depth + len);
    len := d - depth;
  }

  /** The second loop of check_prefix: compare the real keys from index i on. */
  method GoOnComparing(a: Key, b: Key, i: nat) returns (d: nat)
    requires i <= |a| && i <= |b|
    ensures d == Diverge(a, b, i)
  {
    d := i;
    while d < Min(|a|, |b|) && a[d] == b[d]
      invariant i <= d <= |a| && d <= |b|
      invariant Diverge(a, b, d) == Diverge(a, b, i)
    {
      d := d + 1;
    }
  }

  // ---------------------------------------------------------------------
  // art_search
  // ---------------------------------------------------------------------

  /** The loop of the optimistic search. */
  method Search(root: Ref, key: Key) returns (r: Option<Value>)
    requires root == Null || ValidRef(root)
    ensures r == if root == Null then None else R.Search(TreeOf(root), 0, key)
  {
    hide Valid, Ok, Children, Lookup, R.CheckPrefixPartial;
    var node := root;
    var depth := 0;
    while node != Null
      invariant node == Null || ValidRef(node)
      invariant 0 <= depth && (node != Null ==> depth <= |key|)
      invariant root != Null
            ==> R.Search(TreeOf(root), 0, key) == if node == Null then None else R.Search(TreeOf(node), depth, key)
      decreases if node == Null then 0 else 1, if node == Null then R.Leaf([], 0) else TreeOf(node)
    {
      match node
      case ToLeaf(leaf) =>
        if leaf.key != key {
          return None;
        }
        return Some(leaf.value);
      case ToNode(n) =>
        ValidFields(n);
        var len := CheckPrefixPartial(n, key, depth);
        if len != Min(n.prefixLen, MAX_PREFIX_LEN) {
          return None;
        }
        depth := depth + n.prefixLen;
        if depth >= |key| {
          return None;
        }
        node := GetChild(n, key[depth]);
        ChildOf(n, key[depth]);
        if node != Null {
          SmallerChild(n.tree, key[depth]);
        }
        depth := depth + 1;
    }
    return None;
  }
}
