/** art_node_delete on the heap. */
module ArtDelete {
  import opened Common
  import opened ArtKeys
  import opened ArtLayout
  import opened ArtNode
  import opened ArtShrink
  import opened ArtHeap
  import opened ArtRead
  import opened ArtInsert
  import R = RadixTree
  import D = RadixDelete

  // ---------------------------------------------------------------------
  // Merging a node with its last child
  // ---------------------------------------------------------------------

  /** Parent prefix bytes, then the branch byte, then child prefix bytes, as far as
      the buffer goes. */
  method JoinPrefixes(buffer: seq<byte>, prefixLen: nat, ch: byte, child: seq<byte>, childLen: nat)
    returns (r: seq<byte>)
    requires |buffer| == MAX_PREFIX_LEN && |child| == MAX_PREFIX_LEN
    ensures |r| == MAX_PREFIX_LEN
    ensures forall i :: 0 <= i < Min(MAX_PREFIX_LEN, prefixLen) ==> r[i] == buffer[i]
    ensures prefixLen < MAX_PREFIX_LEN ==> r[prefixLen] == ch
    ensures forall i :: prefixLen < i < Min(MAX_PREFIX_LEN, prefixLen + 1 + childLen) ==>
            r[i] == child[i - (prefixLen + 1)]
  {
    r := buffer;
    var len := prefixLen;
    if len < MAX_PREFIX_LEN {
      r := r[len := ch];
      len := len + 1;
    }
    var i := 0;
    while len + i < MAX_PREFIX_LEN && i < childLen
      invariant 0 <= i <= childLen && |r| == MAX_PREFIX_LEN
      invariant len + i <= MAX_PREFIX_LEN || i == 0
      invariant forall j :: 0 <= j < Min(MAX_PREFIX_LEN, prefixLen) ==> r[j] == buffer[j]
      invariant prefixLen < MAX_PREFIX_LEN ==> r[prefixLen] == ch
      invariant forall j :: len <= j < Min(MAX_PREFIX_LEN, len + i) ==> r[j] == child[j - len]
    {
      r := r[len + i := child[i]];
      i := i + 1;
    }
  }

  /** The joined buffer shows the first bytes of the joined prefix. */
  lemma {:induction false} JoinedBytes(r: seq<byte>, buffer: seq<byte>, prefixLen: nat, ch: byte, child: seq<byte>,
                                       childLen: nat)
    requires |buffer| == MAX_PREFIX_LEN && |child| == MAX_PREFIX_LEN && |r| == MAX_PREFIX_LEN
    requires forall i :: 0 <= i < Min(MAX_PREFIX_LEN, prefixLen) ==> r[i] == buffer[i]
    requires prefixLen < MAX_PREFIX_LEN ==> r[prefixLen] == ch
    requires forall i :: prefixLen < i < Min(MAX_PREFIX_LEN, prefixLen + 1 + childLen) ==>
             r[i] == child[i - (prefixLen + 1)]
    ensures var len := prefixLen + 1 + childLen;
            var known := buffer[..Min(MAX_PREFIX_LEN, prefixLen)] + [ch] + child[..Min(MAX_PREFIX_LEN, childLen)];
            Min(MAX_PREFIX_LEN, len) <= |known| && r[..Min(MAX_PREFIX_LEN, len)] == known[..Min(MAX_PREFIX_LEN, len)]
  {
  }

  /** A Node4 that is left with one child, replaced by that child. */
  method MergeNode(n: Node, b: byte, c: Ref) returns (r: Ref)
    requires c != Null && ValidRef(c) && n !in ReprOf(c) && |n.prefix| == MAX_PREFIX_LEN
    modifies if c.ToNode? then {c.node} else {}
    ensures r == c && ValidRef(r) && ReprOf(r) == old(ReprOf(c))
    ensures TreeOf(r) == D.Merged(R.Inner(n.prefixLen, Stored(n), map[]), b, old(TreeOf(c)))
  {
    hide Valid, Ok, Children;
    r := c;
    if c.ToNode? {
      var child := c.node;
      ValidFields(child);
      var prefix := JoinPrefixes(n.prefix, n.prefixLen, b, child.prefix, child.prefixLen);
      JoinedBytes(prefix, n.prefix, n.prefixLen, b, child.prefix, child.prefixLen);
      Reprefix(child, n.prefixLen + 1 + child.prefixLen, prefix);
    }
  }

  // ---------------------------------------------------------------------
  // node_remove_child
  // ---------------------------------------------------------------------

  /** A node with one child is a Node4, and the child is in its first cell. */
  lemma {:induction false} LastChild(l: Layout)
    requires Ok(l)
    ensures |Children(l)| == 1 <==> l.kind.Node4? && l.num == 1
    ensures |Children(l)| == 1 ==>
              var b := Bytes(Children(l).Keys)[0];
              b == l.keys[0] && b in Children(l) && Children(l)[b] == l.slots[0]
  {
    hide Tidy, Children, Lookup;
    OkCounts(l);
    if |Children(l)| == 1 {
      SortedKeysAreBytes(l);
      FirstSorted(l);
      assert l.keys[..l.num][0] == l.keys[0];
      assert l.keys[0] in Bytes(Children(l).Keys);
      ChildrenAreLookups(l, l.keys[0]);
    }
  }

  /** What is left of a node: its tree without one child, merged if need be. */
  lemma {:induction false} RemoveChildUnfolds(t: R.Tree, b: byte)
    requires t.Inner?
    ensures var rest := t.children - {b};
            && (|rest| != 1 ==> D.RemoveChild(t, b) == t.(children := rest))
            && (|rest| == 1 ==>
                  var last := Bytes(rest.Keys)[0];
                  && last in rest
                  && D.RemoveChild(t, b) == D.Merged(R.Inner(t.prefixLen, t.prefix, map[]), last, rest[last]))
  {
    var rest := t.children - {b};
    if |rest| == 1 {
      assert Bytes(rest.Keys)[0] in Bytes(rest.Keys);
    }
  }

  lemma {:induction false} TreesHaveKeys(m: map<byte, Ref>, b: byte)
    requires ApartBelow(m)
    ensures Trees(m).Keys == m.Keys && |Trees(m)| == |m|
    ensures b in m ==>
              m[b] != Null && ValidRef(m[b]) && ReprOf(m[b]) <= Below(m) && Trees(m)[b] == TreeOf(m[b])
  {
    hide ValidRef, ReprOf, TreeOf;
    assert Trees(m).Keys == m.Keys;
    assert |Trees(m)| == |Trees(m).Keys| == |m.Keys| == |m|;
  }

  method DropChild(n: Node, b: byte) returns (r: Ref)
    requires Valid(n) && n.tree.Inner? && b in n.tree.children && 2 <= |n.tree.children|
    modifies n.repr
    ensures r != Null && ValidRef(r) && fresh(ReprOf(r) - old(n.repr))
    ensures TreeOf(r) == D.RemoveChild(old(n.tree), b)
  {
    hide Valid, Tidy, Children, Lookup, Apart, ApartBelow, Below, Trees, D.RemoveChild, D.Merged, Bytes;
    ValidFields(n);
    ghost var m := Children(n.Shape());
    ChildOf(n, b);
    OtherChildren(n, b);
    RemoveChildUnfolds(n.tree, b);
    var s := RemoveFrom(n, b);
    UntouchedOthers(m, b);
    r := Compress(s, m, b);
  }

  /** Path compression after a removal, if one child is left. */
  method Compress(s: Node, ghost m: map<byte, Ref>, ghost b: byte) returns (r: Ref)
    requires Ok(s.Shape()) && |s.prefix| == MAX_PREFIX_LEN && Children(s.Shape()) == m - {b}
    requires ApartBelow(m - {b}) && s !in Below(m - {b})
    modifies {s} + Below(m - {b})
    ensures r != Null && ValidRef(r)
    ensures ReprOf(r) <= {s} + old(Below(m - {b}))
    ensures var rest := old(Trees(m - {b}));
            && (|rest| != 1 ==> TreeOf(r) == R.Inner(old(s.prefixLen), old(Stored(s)), rest))
            && (|rest| == 1 ==>
                  var last := Bytes(rest.Keys)[0];
                  && last in rest
                  && TreeOf(r) == D.Merged(R.Inner(old(s.prefixLen), old(Stored(s)), map[]), last, rest[last]))
  {
    hide Valid, Tidy, Children, Lookup, Apart, ApartBelow, Below, Trees, D.Merged, Bytes, StrictlyAscending, IndexOf,
         Linked, NoOrphan;
    ApartMeans(s, m - {b});
    LastChild(s.Shape());
    TreesHaveKeys(m - {b}, 0);
    if s.kind.Node4? && s.num == 1 {
      TreesHaveKeys(m - {b}, s.keys[0]);
      if s.slots[0].ToNode? {
        ValidFields(s.slots[0].node);
      }
      r := MergeNode(s, s.keys[0], s.slots[0]);
    } else {
      Seal(s);
      r := ToNode(s);
    }
  }

  // ---------------------------------------------------------------------
  // art_node_delete
  // ---------------------------------------------------------------------

  /** Delete unfolded at an inner node. */
  lemma {:induction false} DeleteUnfolds(t: R.Tree, depth: nat, key: Key)
    requires t.Inner? && depth <= |key|
    ensures var d := depth + t.prefixLen;
            if R.CheckPrefixPartial(t, key, depth) != Min(MAX_PREFIX_LEN, t.prefixLen)
               || d >= |key| || key[d] !in t.children
            then D.Delete(t, depth, key) == D.Deleted(Some(t), None)
            else
              var c := t.children[key[d]];
              if c.Inner? then
                var r := D.Delete(c, d + 1, key);
                D.Delete(t, depth, key) ==
                    D.Deleted(Some(t.(children := t.children[key[d] := r.tree.value])), r.removed)
              else if c.key == key then
                D.Delete(t, depth, key) == D.Deleted(Some(D.RemoveChild(t, key[d])), Some(c.value))
              else D.Delete(t, depth, key) == D.Deleted(Some(t), None)
  {
    hide R.CheckPrefixPartial, D.RemoveChild;
  }

  /** The child that art_node_delete goes down to. */
  lemma {:induction false} GoodBelow(t: R.Tree, p: Key, b: byte)
    requires t.Inner? && R.Good(t, p)
    ensures 2 <= |t.children|
    ensures b in t.children ==>
              exists p' :: |p'| == |p| + t.prefixLen + 1 && R.Good(t.children[b], p')
  {
    hide R.Good;
    var q := R.PathThrough(t, p);
    ManyChildren(t, p, q);
    R.ViaIsGood(t, p, q);
    if b in t.children {
      R.ChildIsGood(t, p, q, b);
      assert |q + [b]| == |p| + t.prefixLen + 1;
    }
  }

  /** Deletion below an inner node; the node may be replaced. */
  method DeleteInNode(n: Node, depth: nat, key: Key, ghost p: Key) returns (r: Ref, removed: Option<Value>)
    requires Valid(n) && R.Good(n.tree, p) && |p| == depth <= |key|
    modifies n.repr
    ensures r != Null && ValidRef(r) && fresh(ReprOf(r) - old(n.repr))
    ensures D.Deleted(Some(TreeOf(r)), removed) == old(D.Delete(n.tree, depth, key))
    decreases n.tree, 1
  {
    hide Valid, Tidy, Children, Lookup, R.Good, R.CheckPrefixPartial, D.Delete, D.RemoveChild;
    ValidFields(n);
    DeleteUnfolds(n.tree, depth, key);
    r, removed := ToNode(n), None;
    var diff := CheckPrefixPartial(n, key, depth);
    if diff != Min(MAX_PREFIX_LEN, n.prefixLen) {
      return;
    }
    var d := depth + n.prefixLen;
    if d >= |key| {
      return;
    }
    var child := GetChild(n, key[d]);
    ChildOf(n, key[d]);
    GoodBelow(n.tree, p, key[d]);
    match child
    case Null =>
    case ToLeaf(leaf) =>
      if leaf.key == key {
        removed := Some(leaf.value);
        r := DropChild(n, key[d]);
      }
    case ToNode(c) =>
      ValidFields(c);
      removed := DeleteBelow(n, key, p, d, c);
  }

  method DeleteBelow(n: Node, key: Key, ghost p: Key, d: nat, c: Node) returns (removed: Option<Value>)
    requires Valid(n) && R.Good(n.tree, p) && d == |p| + n.prefixLen < |key|
    requires n.tree.Inner? && n.tree.prefixLen == n.prefixLen && key[d] in n.tree.children
    requires Ok(n.Shape()) && Lookup(n.Shape(), key[d]) == ToNode(c)
    modifies n.repr
    ensures Valid(n) && fresh(n.repr - old(n.repr))
    ensures var r := D.Delete(old(n.tree).children[key[d]], d + 1, key);
            && r.tree.Some? && removed == r.removed
            && n.tree == old(n.tree).(children := old(n.tree).children[key[d] := r.tree.value])
    decreases n.tree, 0
  {
    hide Valid, Tidy, Children, Lookup, R.Good, D.Delete, Apart, ApartBelow, Below, Trees;
    ValidFields(n);
    ghost var m := Children(n.Shape());
    ChildOf(n, key[d]);
    OtherChildren(n, key[d]);
    SmallerChild(n.tree, key[d]);
    GoodBelow(n.tree, p, key[d]);
    ghost var p' :| |p'| == d + 1 && R.Good(n.tree.children[key[d]], p');
    var s;
    s, removed := DeleteInNode(c, d + 1, key, p');
    UntouchedOthers(m, key[d]);
    StoreBelow(n, key[d], s, m);
  }
}
