/** Walking the tree: recursive iteration and prefix search. */
module ArtWalk {
  import opened Common
  import opened ArtKeys
  import opened ArtLayout
  import opened ArtSorted
  import opened ArtWide
  import opened ArtNode
  import opened ArtShrink
  import opened ArtHeap
  import opened ArtRead
  import opened RadixOrder
  import R = RadixTree

  // ---------------------------------------------------------------------
  // The children of a node, layout by layout
  // ---------------------------------------------------------------------

  /** The loops over the children of a node, which all layouts walk by ascending byte. */
  method ChildrenInOrder(n: Node) returns (kids: seq<Ref>)
    requires Ok(n.Shape())
    ensures kids == Packed(n.Shape(), Bytes(Children(n.Shape()).Keys))
  {
    hide Tidy, Children, Lookup, Packed, Bytes;
    match n.kind
    case Node4 => kids := SortedChildren(n);
    case Node16 => kids := SortedChildren(n);
    case Node48 => kids := IndexedChildren(n);
    case Node256 => kids := DirectChildren(n);
  }

  method SortedChildren(n: Node) returns (kids: seq<Ref>)
    requires Ok(n.Shape()) && (n.kind.Node4? || n.kind.Node16?)
    ensures kids == Packed(n.Shape(), Bytes(Children(n.Shape()).Keys))
  {
    hide StrictlyAscending, Children, Lookup, Bytes, IndexOf;
    ghost var l := n.Shape();
    SortedKeysAreBytes(l);
    kids := [];
    for i := 0 to n.num
      invariant |kids| == i && forall j :: 0 <= j < i ==> kids[j] == Lookup(l, l.keys[j])
    {
      SlotUnderKey(l, i);
      kids := kids + [n.slots[i]];
    }
    assert forall j :: 0 <= j < n.num ==> l.keys[..l.num][j] == l.keys[j];
  }

  lemma {:induction false} SlotUnderKey(l: Layout, i: nat)
    requires Ok(l) && (l.kind.Node4? || l.kind.Node16?) && i < l.num
    ensures Lookup(l, l.keys[i]) == l.slots[i]
  {
    hide StrictlyAscending, Children, IndexOf, LookupSorted;
    LookupAt(l, i);
  }

  method IndexedChildren(n: Node) returns (kids: seq<Ref>)
    requires Ok(n.Shape()) && n.kind.Node48?
    ensures kids == Packed(n.Shape(), Bytes(Children(n.Shape()).Keys))
  {
    hide Ok, Sized, Lookup, Children, Bytes, Ascending, Packed;
    ghost var l := n.Shape();
    SizedForPacking(l);
    ghost var used := Children(l).Keys;
    kids := [];
    NoneBelowZero(used);
    EmptyPack(l, 0);
    for i := 0 to 256
      invariant kids == Packed(l, Ascending(used, i))
    {
      IndexedStep(l, i);
      if n.keys[i] != 0 {
        kids := kids + [n.slots[n.keys[i] - 1]];
      }
    }
    BytesAreAscending(used);
  }

  lemma {:induction false} SizedForPacking(l: Layout)
    requires Ok(l) && l.kind.Node48?
    ensures Sized(l) && |l.keys| == 256
  {
    hide Tidy, Children;
  }

  /** One round of the loop. */
  lemma {:induction false} IndexedStep(l: Layout, i: byte)
    requires Ok(l) && l.kind.Node48?
    ensures |l.keys| == 256 && (l.keys[i] != 0 ==> l.keys[i] - 1 < |l.slots|)
    ensures var used := Children(l).Keys;
            Packed(l, Ascending(used, i + 1)) ==
            Packed(l, Ascending(used, i)) + if l.keys[i] != 0 then [l.slots[l.keys[i] - 1]] else []
  {
    hide Tidy, Lookup, Children, Bytes, Ascending, Packed;
    var used := Children(l).Keys;
    NextByte(used, i);
    IndexedSlot(l, i);
    if l.keys[i] != 0 {
      PackOne(l, Ascending(used, i), i);
    }
  }

  lemma {:induction false} IndexedSlot(l: Layout, b: byte)
    requires Ok(l) && l.kind.Node48?
    ensures |l.keys| == 256 && (b in Children(l).Keys <==> l.keys[b] != 0)
    ensures l.keys[b] != 0 ==> l.keys[b] - 1 < |l.slots| && Lookup(l, b) == l.slots[l.keys[b] - 1]
  {
    hide StrictlyAscending, NoOrphan, Children, IndexOf, LookupSorted, TidySorted, Nulls, Zeros;
    UsedByte(l, b);
  }

  method DirectChildren(n: Node) returns (kids: seq<Ref>)
    requires Ok(n.Shape()) && n.kind.Node256?
    ensures kids == Packed(n.Shape(), Bytes(Children(n.Shape()).Keys))
  {
    hide StrictlyAscending, Children, Bytes, Ascending, Packed;
    ghost var l := n.Shape();
    ghost var used := Children(l).Keys;
    kids := [];
    NoneBelowZero(used);
    EmptyPack(l, 0);
    for i := 0 to 256
      invariant kids == Packed(l, Ascending(used, i))
    {
      NextByte(used, i);
      ChildrenAreLookups(l, i);
      if n.slots[i] != Null {
        PackOne(l, Ascending(used, i), i);
        kids := kids + [n.slots[i]];
      }
    }
    BytesAreAscending(used);
  }

  lemma {:induction false} PackOne(l: Layout, bs: seq<byte>, b: byte)
    requires Sized(l)
    ensures Packed(l, bs + [b]) == Packed(l, bs) + [Lookup(l, b)]
  {
    hide Lookup;
  }

  /** The children of a valid node stand for the subtrees in byte order. */
  lemma {:induction false} KidsAreSubtrees(n: Node, kids: seq<Ref>, i: nat)
    requires Valid(n) && kids == Packed(n.Shape(), Bytes(Children(n.Shape()).Keys)) && i < |kids|
    ensures n.tree.Inner? && |kids| == |Bytes(n.tree.children.Keys)|
    ensures var b := Bytes(n.tree.children.Keys)[i];
            && b in n.tree.children && kids[i] != Null && ValidRef(kids[i]) && TreeOf(kids[i]) == n.tree.children[b]
            && ReprOf(kids[i]) <= n.repr
  {
    hide Valid, Tidy, Children, Lookup, Bytes;
    ValidFields(n);
    var bs := Bytes(n.tree.children.Keys);
    assert bs[i] in bs;
    ChildOf(n, bs[i]);
  }

  // ---------------------------------------------------------------------
  // art_node_iterate with the callback of the prefix search
  // ---------------------------------------------------------------------

  /** What a callback that stores up to max entries has stored after seeing s. */
  function Collected(acc: seq<Entry>, s: seq<Entry>, max: int): seq<Entry>
    requires |acc| <= max
  {
    acc + s[..Min(|s|, max - |acc|)]
  }

  lemma {:induction false} CollectedAppend(acc: seq<Entry>, a: seq<Entry>, b: seq<Entry>, max: int)
    requires |acc| <= max
    ensures Collected(acc, [], max) == acc
    ensures |acc| + |a| <= max ==>
              && Collected(acc, a, max) == acc + a
              && Collected(acc, a + b, max) == Collected(acc + a, b, max)
    ensures |acc| + |a| > max ==> Collected(acc, a + b, max) == Collected(acc, a, max)
    ensures |Collected(acc, a, max)| <= max
  {
  }

  lemma {:induction false} InOrderUnderSplit(t: R.Tree, a: seq<byte>, b: seq<byte>)
    requires t.Inner? && forall c :: c in a + b ==> c in t.children
    ensures (forall c :: c in a ==> c in t.children) && (forall c :: c in b ==> c in t.children)
    ensures InOrderUnder(t, a + b) == InOrderUnder(t, a) + InOrderUnder(t, b)
    decreases |a|
  {
    assert forall c :: c in a ==> c in a + b;
    assert forall c :: c in b ==> c in a + b;
    if a == [] {
      assert a + b == b;
    } else {
      assert (a + b)[1..] == a[1..] + b;
      InOrderUnderSplit(t, a[1..], b);
    }
  }

  lemma {:induction false} InOrderUnderSnoc(t: R.Tree, bs: seq<byte>, i: nat)
    requires t.Inner? && i < |bs| && forall c :: c in bs ==> c in t.children
    ensures (forall c :: c in bs[..i] ==> c in t.children) && (forall c :: c in bs[..i + 1] ==> c in t.children)
    ensures InOrderUnder(t, bs[..i + 1]) == InOrderUnder(t, bs[..i]) + InOrder(t.children[bs[i]])
    ensures InOrderUnder(t, []) == []
  {
    assert bs[..i + 1] == bs[..i] + [bs[i]];
    assert forall c :: c in bs[..i + 1] ==> c in bs;
    InOrderUnderSplit(t, bs[..i], [bs[i]]);
    assert [bs[i]][1..] == [];
  }

  /** The recursive walk; it stops as soon as the callback refuses an entry. */
  method Iterate(r: Ref, acc: seq<Entry>, max: int) returns (found: seq<Entry>, stop: bool)
    requires r != Null && ValidRef(r) && |acc| <= max
    ensures found == Collected(acc, InOrder(TreeOf(r)), max)
    ensures stop <==> |acc| + |InOrder(TreeOf(r))| > max
    decreases TreeOf(r), 1
  {
    hide Valid, InOrderUnder;
    match r
    case ToLeaf(leaf) =>
      if |acc| >= max {
        return acc, true;
      }
      return acc + [Entry(leaf.key, leaf.value)], false;
    case ToNode(n) =>
      ValidFields(n);
      found, stop := IterateNode(n, acc, max);
  }

  /** One more child is walked: either all of it is collected, or the limit falls inside it. */
  lemma {:induction false} WalkStep(t: R.Tree, bs: seq<byte>, i: nat, acc: seq<Entry>, done: seq<Entry>, max: int)
    requires t.Inner? && i < |bs| && forall c :: c in bs ==> c in t.children
    requires done == InOrderUnder(t, bs[..i]) && |acc| + |done| <= max
    ensures bs[i] in t.children && forall c :: c in bs[..i + 1] ==> c in t.children
    ensures var s := InOrder(t.children[bs[i]]);
            && InOrderUnder(t, bs[..i + 1]) == done + s
            && (|acc + done| + |s| <= max ==> Collected(acc + done, s, max) == acc + (done + s))
            && (|acc + done| + |s| > max ==>
                  && Collected(acc + done, s, max) == Collected(acc, InOrderUnder(t, bs), max)
                  && |acc| + |InOrderUnder(t, bs)| > max)
  {
    hide InOrder, InOrderUnder;
    InOrderUnderSnoc(t, bs, i);
    InOrderUnderSplit(t, bs[..i + 1], bs[i + 1..]);
    assert bs[..i + 1] + bs[i + 1..] == bs;
    var s := InOrder(t.children[bs[i]]);
    CollectedAppend(acc, done, s, max);
    CollectedAppend(acc, done + s, InOrderUnder(t, bs[i + 1..]), max);
  }

  method IterateNode(n: Node, acc: seq<Entry>, max: int) returns (found: seq<Entry>, stop: bool)
    requires Valid(n) && n.tree.Inner? && |acc| <= max
    ensures var s := InOrderUnder(n.tree, Bytes(n.tree.children.Keys));
            found == Collected(acc, s, max) && (stop <==> |acc| + |s| > max)
    decreases n.tree, 0
  {
    hide Valid, Tidy, Children, Lookup, Bytes, Packed, InOrder, InOrderUnder, Collected;
    ValidFields(n);
    ghost var bs := Bytes(n.tree.children.Keys);
    var kids := ChildrenInOrder(n);
    ghost var done: seq<Entry> := [];
    found, stop := acc, false;
    NothingUnder(n.tree);
    var i := 0;
    while i < |kids|
      invariant 0 <= i <= |kids| == |bs|
      invariant forall c :: c in bs[..i] ==> c in n.tree.children
      invariant done == InOrderUnder(n.tree, bs[..i]) && |acc| + |done| <= max && found == acc + done
    {
      KidsAreSubtrees(n, kids, i);
      SmallerChild(n.tree, bs[i]);
      WalkStep(n.tree, bs, i, acc, done, max);
      found, stop := Iterate(kids[i], found, max);
      if stop {
        return;
      }
      done := InOrderUnder(n.tree, bs[..i + 1]);
      i := i + 1;
    }
    assert bs[..i] == bs;
    CollectedAppend(acc, done, [], max);
  }

  lemma {:induction false} NothingUnder(t: R.Tree)
    requires t.Inner?
    ensures InOrderUnder(t, []) == []
  {
  }

  // ---------------------------------------------------------------------
  // pgagroal_art_prefix_search
  // ---------------------------------------------------------------------

  /** The descent of the prefix search, for a prefix that is not empty. */
  method SearchPrefix(root: Ref, pre: Key, max: int) returns (found: seq<Entry>)
    requires root != Null && ValidRef(root) && 0 < max && R.Good(TreeOf(root), [])
    ensures var all := PrefixSearch(TreeOf(root), 0, pre);
            found == all[..Min(max, |all|)]
  {
    hide Valid, Tidy, Children, Lookup, InOrder, R.Good, R.CheckPrefixPartial, R.MinLeaf;
    var node := root;
    var depth := 0;
    ghost var q: Key := [];
    while node != Null
      invariant node == Null || (ValidRef(node) && R.Good(TreeOf(node), q) && |q| == depth)
      invariant 0 <= depth && (node != Null ==> depth <= |pre|)
      invariant PrefixSearch(TreeOf(root), 0, pre) ==
                if node == Null then [] else PrefixSearch(TreeOf(node), depth, pre)
      decreases if node == Null then 0 else 1, if node == Null then R.Leaf([], 0) else TreeOf(node)
    {
      match node
      case ToLeaf(leaf) =>
        if pre <= leaf.key {
          return [Entry(leaf.key, leaf.value)];
        }
        return [];
      case ToNode(n) =>
        ValidFields(n);
        var len := CheckPrefixPartial(n, pre, depth);
        if len < Min(n.prefixLen, MAX_PREFIX_LEN) && depth + len < |pre| {
          return [];
        }
        var d := depth + n.prefixLen;
        if d >= |pre| {
          found := AllOrNothing(n, pre, max, q);
          return;
        }
        node := GetChild(n, pre[d]);
        ChildOf(n, pre[d]);
        if node != Null {
          SmallerChild(n.tree, pre[d]);
          ghost var path := R.PathThrough(n.tree, q);
          R.ViaIsGood(n.tree, q, path);
          R.ChildIsGood(n.tree, q, path, pre[d]);
          q := path + [pre[d]];
        }
        depth := d + 1;
    }
    return [];
  }

  /** The prefix is used up: one leaf decides about all of them. */
  method AllOrNothing(n: Node, pre: Key, max: int, ghost q: Key) returns (found: seq<Entry>)
    requires Valid(n) && R.Good(n.tree, q) && 0 < max
    ensures var all := if R.MinLeaf(n.tree).Leaf? && pre <= R.MinLeaf(n.tree).key then InOrder(n.tree) else [];
            found == all[..Min(max, |all|)]
  {
    hide Valid, InOrder, R.Good, R.MinLeaf;
    var leaf := Minimum(n, q);
    if pre <= leaf.key {
      var stop;
      found, stop := Iterate(ToNode(n), [], max);
    } else {
      found := [];
    }
  }
}
