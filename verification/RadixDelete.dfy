/** Deletion from the radix tree: optimistic descent, then path compression. */
module RadixDelete {
  import opened Common
  import opened ArtKeys
  import opened RadixTree

  datatype Deleted = Deleted(tree: Option<Tree>, removed: Option<Value>)

  /** Node t, left with one child under byte b, merged with that child: the child
      takes over t's prefix and the branch byte in front of its own prefix. */
  function Merged(t: Tree, b: byte, c: Tree): Tree
    requires t.Inner?
  {
    if c.Leaf? then c
    else
      var len := t.prefixLen + 1 + c.prefixLen;
      var known := t.prefix + [b] + c.prefix;
      c.(prefixLen := len, prefix := known[..Min(MAX_PREFIX_LEN, Min(len, |known|))])
  }

  function RemoveChild(t: Tree, b: byte): Tree
    requires t.Inner?
  {
    var rest := t.children - {b};
    if |rest| == 1 then
      var last := Bytes(rest.Keys)[0];
      assert last in Bytes(rest.Keys);
      Merged(t, last, rest[last])
    else t.(children := rest)
  }

  /** The result of deleting key below node t, which sits at depth. Only stored
      prefix bytes are compared on the way down. */
  function Delete(t: Tree, depth: nat, key: Key): (r: Deleted)
    requires depth <= |key|
    ensures t.Inner? ==> r.tree.Some?
    decreases t
  {
    match t
    case Leaf(k, v) => if k == key then Deleted(None, Some(v)) else Deleted(Some(t), None)
    case Inner(prefixLen, _, children) =>
      var d := depth + prefixLen;
      if CheckPrefixPartial(t, key, depth) != Min(MAX_PREFIX_LEN, prefixLen) then Deleted(Some(t), None)
      else if d >= |key| || key[d] !in children then Deleted(Some(t), None)
      else
        var c := children[key[d]];
        if c.Inner? then
          var r := Delete(c, d + 1, key);
          Deleted(Some(t.(children := children[key[d] := r.tree.value])), r.removed)
        else if c.key == key then Deleted(Some(RemoveChild(t, key[d])), Some(c.value))
        else Deleted(Some(t), None)
  }

  /** What a deletion does, said without walking the tree. */
  ghost predicate DeletedFrom(t: Tree, key: Key, r: Deleted) {
    && (forall k, v :: (r.tree.Some? && In(r.tree.value, k, v)) <==> k != key && In(t, k, v))
    && (forall v :: r.removed == Some(v) <==> In(t, key, v))
  }

  // ---------------------------------------------------------------------
  // Merging
  // ---------------------------------------------------------------------

  /** The stored bytes of a merged node are the first bytes of the joint prefix. */
  lemma {:induction false} MergedBytes(p: Key, q: Key, b: byte, r: Key)
    requires p <= q && q + [b] <= r
    ensures p <= r
    ensures var m, n := |q| - |p|, |r| - (|q| + 1);
            var known := q[|p|..|p| + Min(MAX_PREFIX_LEN, m)] + [b] + r[|q| + 1..|q| + 1 + Min(MAX_PREFIX_LEN, n)];
            var visible := Min(MAX_PREFIX_LEN, m + 1 + n);
            visible <= |known| && known[..visible] == r[|p|..|p| + visible]
  {
    PrefixOfPrefix(p, q, b, r);
    assert r[|q|] == b && r[..|q|] == q;
    var m, n := |q| - |p|, |r| - (|q| + 1);
    var visible := Min(MAX_PREFIX_LEN, m + 1 + n);
    if m < MAX_PREFIX_LEN {
      assert q[|p|..|p| + m] + [b] == r[|p|..|q| + 1];
      assert r[|p|..|q| + 1] + r[|q| + 1..|q| + 1 + Min(MAX_PREFIX_LEN, n)] == r[|p|..|q| + 1 + Min(MAX_PREFIX_LEN, n)];
      assert r[|p|..|q| + 1 + Min(MAX_PREFIX_LEN, n)][..visible] == r[|p|..|p| + visible];
    }
  }

  lemma {:induction false} MergedIsGood(t: Tree, p: Key, q: Key, b: byte)
    requires GoodVia(t, p, q) && b in t.children
    ensures Good(Merged(t, b, t.children[b]), p)
    ensures forall k, v :: In(Merged(t, b, t.children[b]), k, v) <==> In(t.children[b], k, v)
  {
    var c := t.children[b];
    assert Good(c, q + [b]);
    if c.Leaf? {
      PrefixOfPrefix(p, q, b, c.key);
    } else {
      var r := PathThrough(c, q + [b]);
      MergedBytes(p, q, b, r);
      assert GoodVia(Merged(t, b, c), p, r);
    }
  }

  lemma {:induction false} PrefixOfPrefix(p: Key, q: Key, b: byte, r: Key)
    requires p <= q && q + [b] <= r
    ensures p <= r
  {
    assert r[..|q|] == q;
  }

  /** A key below one child of a node has that child's byte after the path. */
  lemma {:induction false} ByteOfChild(t: Tree, p: Key, q: Key, b: byte, k: Key, v: Value)
    requires GoodVia(t, p, q) && b in t.children && In(t.children[b], k, v)
    ensures |q| < |k| && k[|q|] == b
  {
    KeysShareThePath(t.children[b], q + [b], k, v);
    assert k[..|q| + 1] == q + [b];
  }

  /** Removing one of two children leaves the other one, merged. */
  lemma {:induction false} RemoveOfTwoIsCorrect(t: Tree, p: Key, q: Key, key: Key, value: Value, last: byte)
    requires GoodVia(t, p, q) && |q| < |key|
    requires t.children.Keys == {key[|q|], last} && key[|q|] != last
    requires t.children[key[|q|]] == Leaf(key, value)
    ensures Good(Merged(t, last, t.children[last]), p)
    ensures forall k, v :: In(Merged(t, last, t.children[last]), k, v) <==> k != key && In(t, k, v)
  {
    MergedIsGood(t, p, q, last);
    forall k, v ensures In(t.children[last], k, v) <==> k != key && In(t, k, v) {
      InUnder(t, p, q, k, v);
      if In(t.children[last], k, v) {
        ByteOfChild(t, p, q, last, k, v);
      }
    }
  }

  /** Removing one of more than two children. */
  lemma {:induction false} RemoveOfManyIsCorrect(t: Tree, p: Key, q: Key, key: Key, value: Value)
    requires GoodVia(t, p, q) && |q| < |key| && key[|q|] in t.children && 3 <= |t.children|
    requires t.children[key[|q|]] == Leaf(key, value)
    ensures GoodVia(t.(children := t.children - {key[|q|]}), p, q)
    ensures forall k, v :: In(t.(children := t.children - {key[|q|]}), k, v) <==> k != key && In(t, k, v)
  {
    var b := key[|q|];
    var n := t.(children := t.children - {b});
    assert n.children.Keys == t.children.Keys - {b};
    assert |n.children.Keys| == |t.children.Keys| - 1;
    assert GoodVia(n, p, q);
    forall k, v ensures In(n, k, v) <==> k != key && In(t, k, v) {
      InUnder(t, p, q, k, v);
      InUnder(n, p, q, k, v);
    }
  }

  /** Removing the leaf of a key from a node. */
  lemma {:induction false} RemoveChildIsCorrect(t: Tree, p: Key, q: Key, key: Key, value: Value)
    requires GoodVia(t, p, q) && |q| < |key| && key[|q|] in t.children
    requires t.children[key[|q|]] == Leaf(key, value)
    ensures Good(RemoveChild(t, key[|q|]), p)
    ensures DeletedFrom(t, key, Deleted(Some(RemoveChild(t, key[|q|])), Some(value)))
  {
    var b := key[|q|];
    var rest := t.children - {b};
    assert rest.Keys == t.children.Keys - {b};
    if |rest| == 1 {
      var last := Bytes(rest.Keys)[0];
      OnlyByte(rest.Keys);
      assert t.children.Keys == rest.Keys + {b};
      RemoveOfTwoIsCorrect(t, p, q, key, value, last);
    } else {
      RemoveOfManyIsCorrect(t, p, q, key, value);
    }
    forall v ensures Some(value) == Some(v) <==> In(t, key, v) {
      InUnder(t, p, q, key, v);
    }
  }

  lemma {:induction false} OnlyByte(s: set<byte>)
    requires |s| == 1
    ensures s == {Bytes(s)[0]}
  {
    assert Bytes(s) == [Bytes(s)[0]];
  }

  /** Storing the result of a deletion below one child deletes below the node. */
  lemma {:induction false} DeletedBelow(t: Tree, p: Key, q: Key, key: Key, c: Tree, removed: Option<Value>)
    requires GoodVia(t, p, q) && |q| < |key| && key[|q|] in t.children
    requires Good(c, q + [key[|q|]])
    requires DeletedFrom(t.children[key[|q|]], key, Deleted(Some(c), removed))
    ensures Good(t.(children := t.children[key[|q|] := c]), p)
    ensures DeletedFrom(t, key, Deleted(Some(t.(children := t.children[key[|q|] := c])), removed))
  {
    var b := key[|q|];
    var n := t.(children := t.children[b := c]);
    StoredChildIsGood(t, p, q, b, c);
    forall k, v ensures In(n, k, v) <==> k != key && In(t, k, v) {
      InAfterStore(t, p, q, b, c, k, v);
      InUnder(t, p, q, k, v);
    }
    forall v ensures removed == Some(v) <==> In(t, key, v) {
      InUnder(t, p, q, key, v);
    }
  }

  /** Deletion removes exactly the given key and keeps the invariant, although it
      skips the hidden bytes and p need not be a prefix of key. */
  lemma {:induction false} DeleteIsCorrect(t: Tree, p: Key, key: Key)
    requires Good(t, p) && |p| <= |key|
    ensures Delete(t, |p|, key).tree.Some? ==> Good(Delete(t, |p|, key).tree.value, p)
    ensures DeletedFrom(t, key, Delete(t, |p|, key))
    decreases t
  {
    if t.Leaf? {
      DeleteLeafIsCorrect(t, p, key);
    } else {
      hide Delete, In, Good, GoodVia, CheckPrefixPartial, DeletedFrom;
      var q := PathThrough(t, p);
      ViaIsGood(t, p, q);
      if |q| < |key| && key[|q|] in t.children
         && CheckPrefixPartial(t, key, |p|) == Min(MAX_PREFIX_LEN, t.prefixLen) {
        var c := t.children[key[|q|]];
        ChildIsGood(t, p, q, key[|q|]);
        if c.Inner? {
          var p' := q + [key[|q|]];
          assert |p'| == |q| + 1;
          DeleteIsCorrect(c, p', key);
          DeleteDescends(t, p, q, key);
        } else {
          DeleteDecidesAtLeaf(t, p, q, key);
        }
      } else {
        NotUnderMissedNode(t, p, q, key);
        DeleteMisses(t, p, q, key);
      }
    }
  }

  lemma {:induction false} DeleteMisses(t: Tree, p: Key, q: Key, key: Key)
    requires GoodVia(t, p, q) && |p| <= |key|
    requires |key| <= |q| || key[|q|] !in t.children
          || CheckPrefixPartial(t, key, |p|) != Min(MAX_PREFIX_LEN, t.prefixLen)
    ensures Delete(t, |p|, key) == Deleted(Some(t), None)
  {
    hide In, Good, GoodVia, CheckPrefixPartial, RemoveChild;
    ViaIsGood(t, p, q);
  }

  lemma {:induction false} DeleteDecidesAtLeaf(t: Tree, p: Key, q: Key, key: Key)
    requires Good(t, p) && GoodVia(t, p, q) && |q| < |key| && key[|q|] in t.children
    requires CheckPrefixPartial(t, key, |p|) == Min(MAX_PREFIX_LEN, t.prefixLen)
    requires t.children[key[|q|]].Leaf?
    ensures Delete(t, |p|, key).tree.Some? && Good(Delete(t, |p|, key).tree.value, p)
    ensures DeletedFrom(t, key, Delete(t, |p|, key))
  {
    hide In, Good, GoodVia, CheckPrefixPartial, RemoveChild, DeletedFrom;
    ViaIsGood(t, p, q);
    var c := t.children[key[|q|]];
    if c.key == key {
      RemoveChildIsCorrect(t, p, q, key, c.value);
    } else {
      NotUnderOtherLeaf(t, p, q, key);
    }
  }

  lemma {:induction false} DeleteDescends(t: Tree, p: Key, q: Key, key: Key)
    requires Good(t, p) && GoodVia(t, p, q) && |q| < |key| && key[|q|] in t.children
    requires CheckPrefixPartial(t, key, |p|) == Min(MAX_PREFIX_LEN, t.prefixLen)
    requires t.children[key[|q|]].Inner?
    requires Good(Delete(t.children[key[|q|]], |q| + 1, key).tree.value, q + [key[|q|]])
    requires DeletedFrom(t.children[key[|q|]], key, Delete(t.children[key[|q|]], |q| + 1, key))
    ensures Delete(t, |p|, key).tree.Some? && Good(Delete(t, |p|, key).tree.value, p)
    ensures DeletedFrom(t, key, Delete(t, |p|, key))
  {
    hide In, Good, GoodVia, CheckPrefixPartial, RemoveChild, DeletedFrom;
    ViaIsGood(t, p, q);
    var r := Delete(t.children[key[|q|]], |q| + 1, key);
    DeletedBelow(t, p, q, key, r.tree.value, r.removed);
  }

  lemma {:induction false} DeleteLeafIsCorrect(t: Tree, p: Key, key: Key)
    requires t.Leaf? && Good(t, p) && |p| <= |key|
    ensures Delete(t, |p|, key).tree.Some? ==> Good(Delete(t, |p|, key).tree.value, p)
    ensures DeletedFrom(t, key, Delete(t, |p|, key))
  {
  }

  lemma {:induction false} NotUnderOtherLeaf(t: Tree, p: Key, q: Key, key: Key)
    requires GoodVia(t, p, q) && |q| < |key| && key[|q|] in t.children
    requires t.children[key[|q|]].Leaf? && t.children[key[|q|]].key != key
    ensures DeletedFrom(t, key, Deleted(Some(t), None))
  {
    forall v ensures !In(t, key, v) {
      InUnder(t, p, q, key, v);
    }
  }

  lemma {:induction false} NotUnderMissedNode(t: Tree, p: Key, q: Key, key: Key)
    requires GoodVia(t, p, q) && |p| <= |key|
    requires |key| <= |q| || key[|q|] !in t.children
          || CheckPrefixPartial(t, key, |p|) != Min(MAX_PREFIX_LEN, t.prefixLen)
    ensures DeletedFrom(t, key, Deleted(Some(t), None))
  {
    hide CheckPrefixPartial, In, GoodVia;
    ViaIsGood(t, p, q);
    forall v ensures !In(t, key, v) {
      if In(t, key, v) {
        KeysShareTheFullPrefix(t, p, q, key, v);
        WholePrefixPassesCheck(t, p, q, key);
      }
    }
  }
}
