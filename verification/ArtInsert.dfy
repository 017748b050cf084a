/** art_node_insert on the heap. */
module ArtInsert {
  import opened Common
  import opened ArtKeys
  import opened ArtLayout
  import opened ArtNode
  import opened ArtHeap
  import opened ArtRead
  import R = RadixTree

  // ---------------------------------------------------------------------
  // New nodes
  // ---------------------------------------------------------------------

  lemma {:induction false} EmptyNode4()
    ensures Ok(Empty(Node4)) && Children(Empty(Node4)) == map[]
  {
    var l := Empty(Node4);
    forall b: byte ensures Lookup(l, b) == Null {
      assert l.keys[..0] == [];
    }
    assert Children(l) == map[];
  }

  ghost function Pair<T>(b: byte, x: T, c: byte, y: T): map<byte, T> {
    map[b := x, c := y]
  }

  lemma {:induction false} TwoChildren(b: byte, r: Ref, c: byte, s: Ref)
    requires b != c && r != Null && s != Null
    ensures var m := Pair(b, r, c, s);
            && Below(m) == ReprOf(r) + ReprOf(s)
            && (forall d :: d in m ==> m[d] != Null)
            && Trees(m) == Pair(b, TreeOf(r), c, TreeOf(s))
  {
    var m := Pair(b, r, c, s);
    assert m[b] == r && m[c] == s;
  }

  lemma {:induction false} TwoAreApart(n: Node, b: byte, r: Ref, c: byte, s: Ref)
    requires r != Null && s != Null && ValidRef(r) && ValidRef(s) && b != c
    requires ReprOf(r) !! ReprOf(s) && n !in ReprOf(r) && n !in ReprOf(s)
    ensures Apart(n, Pair(b, r, c, s))
  {
    hide ValidRef, ReprOf;
    var m := Pair(b, r, c, s);
    assert m[b] == r && m[c] == s;
  }

  /** A new Node4 with the given prefix and two children. */
  method MakeFork(prefixLen: nat, prefix: seq<byte>, b: byte, r: Ref, c: byte, s: Ref) returns (n: Node)
    requires r != Null && s != Null && ValidRef(r) && ValidRef(s) && b != c
    requires ReprOf(r) !! ReprOf(s)
    requires |prefix| == MAX_PREFIX_LEN
    ensures fresh(n) && Valid(n)
    ensures n.repr == {n} + ReprOf(r) + ReprOf(s)
    ensures n.tree == R.Inner(prefixLen, prefix[..Min(MAX_PREFIX_LEN, prefixLen)], Pair(b, TreeOf(r), c, TreeOf(s)))
  {
    hide Tidy, Lookup, Children, Valid, Pair, Stored;
    n := NewNode4(prefixLen, prefix);
    n := AddTwo(n, b, r, c, s);
    SealTwo(n, b, r, c, s);
  }

  ghost method SealTwo(n: Node, b: byte, r: Ref, c: byte, s: Ref)
    requires Ok(n.Shape()) && |n.prefix| == MAX_PREFIX_LEN
    requires r != Null && s != Null && ValidRef(r) && ValidRef(s) && b != c
    requires ReprOf(r) !! ReprOf(s) && n !in ReprOf(r) && n !in ReprOf(s)
    requires Children(n.Shape()) == Pair(b, r, c, s)
    modifies n`repr, n`tree
    ensures Valid(n)
    ensures n.repr == {n} + ReprOf(r) + ReprOf(s)
    ensures n.tree == R.Inner(n.prefixLen, Stored(n), Pair(b, TreeOf(r), c, TreeOf(s)))
    ensures Stored(n) == old(Stored(n))
  {
    hide Tidy, Lookup, Children, Valid, Pair, Apart, Below, Trees;
    TwoAreApart(n, b, r, c, s);
    Seal(n);
    TwoChildren(b, r, c, s);
  }

  method NewNode4(prefixLen: nat, prefix: seq<byte>) returns (n: Node)
    requires |prefix| == MAX_PREFIX_LEN
    ensures fresh(n) && Ok(n.Shape()) && Children(n.Shape()) == map[]
    ensures n.prefixLen == prefixLen && |n.prefix| == MAX_PREFIX_LEN
    ensures Stored(n) == prefix[..Min(MAX_PREFIX_LEN, prefixLen)]
  {
    n := new Node(Node4);
    n.prefixLen := prefixLen;
    n.prefix := prefix;
    EmptyNode4();
  }

  method AddTwo(n0: Node, b: byte, r: Ref, c: byte, s: Ref) returns (n: Node)
    requires Ok(n0.Shape()) && Children(n0.Shape()) == map[] && |n0.prefix| == MAX_PREFIX_LEN
    requires b != c && r != Null && s != Null
    modifies n0`num, n0`keys, n0`slots
    ensures n == n0 || fresh(n)
    ensures Ok(n.Shape()) && Children(n.Shape()) == Pair(b, r, c, s)
    ensures n.prefixLen == old(n0.prefixLen) && Stored(n) == old(Stored(n0)) && |n.prefix| == MAX_PREFIX_LEN
  {
    hide Tidy, Lookup;
    ChildrenAreLookups(n0.Shape(), b);
    n := AddChild(n0, b, r);
    ChildrenAreLookups(n.Shape(), c);
    n := AddChild(n, c, s);
    hide Children;
    assert Pair(b, r, c, s) == map[][b := r][c := s];
  }

  // ---------------------------------------------------------------------
  // Expanding a leaf
  // ---------------------------------------------------------------------

  /** The loop that looks for the diverging byte and records the prefix on the way. */
  method CommonPrefix(key: Key, other: Key, depth: nat) returns (idx: nat, prefix: seq<byte>)
    requires depth <= |key| && depth <= |other|
    ensures idx == Diverge(key, other, depth) && |prefix| == MAX_PREFIX_LEN
    ensures prefix[..Min(MAX_PREFIX_LEN, idx - depth)] == key[depth..depth + Min(MAX_PREFIX_LEN, idx - depth)]
  {
    idx := depth;
    prefix := Zeros(MAX_PREFIX_LEN);
    while idx < Min(|key|, |other|) && key[idx] == other[idx]
      invariant depth <= idx <= |key| && idx <= |other|
      invariant Diverge(key, other, idx) == Diverge(key, other, depth)
      invariant |prefix| == MAX_PREFIX_LEN
      invariant forall j :: 0 <= j < Min(MAX_PREFIX_LEN, idx - depth) ==> prefix[j] == key[depth + j]
    {
      if idx - depth < MAX_PREFIX_LEN {
        prefix := prefix[idx - depth := key[idx]];
      }
      idx := idx + 1;
    }
    var k := Min(MAX_PREFIX_LEN, idx - depth);
    assert forall j :: 0 <= j < k ==> prefix[..k][j] == key[depth..depth + k][j];
  }

  lemma {:induction false} SliceOfPrefix(key: Key, d: nat, i: nat, j: nat)
    requires i <= j <= d <= |key|
    ensures key[..d][i..j] == key[i..j]
  {
  }

  /** A fork between a new leaf and an old one, at the byte d where their keys part. */
  ghost function Expanded(present: R.Tree, added: R.Tree, depth: nat, d: nat): R.Tree
    requires present.Leaf? && added.Leaf? && depth <= d < |added.key| && d < |present.key|
  {
    R.Inner(d - depth, added.key[depth..depth + Min(MAX_PREFIX_LEN, d - depth)],
            Pair(added.key[d], added, present.key[d], present))
  }

  lemma {:induction false} InsertExpandsLeaf(t: R.Tree, depth: nat, key: Key, value: Value)
    requires t.Leaf? && IsKey(key) && depth <= |key| && t.key != key && R.Good(t, key[..depth])
    ensures depth <= |t.key|
    ensures var d := Diverge(key, t.key, depth);
            && d < |key| && d < |t.key| && key[d] != t.key[d]
            && R.Insert(t, depth, key, value) == R.Inserted(Expanded(t, R.Leaf(key, value), depth, d), true, None)
  {
    KeysDiverge(key, t.key, depth);
    var d := Diverge(key, t.key, depth);
    SliceOfPrefix(key, d, depth, depth + Min(MAX_PREFIX_LEN, d - depth));
  }

  method ExpandLeaf(leaf: Leaf, depth: nat, key: Key, value: Value) returns (n: Node)
    requires depth <= |key| && depth <= |leaf.key|
    requires var d := Diverge(key, leaf.key, depth);
             d < |key| && d < |leaf.key| && key[d] != leaf.key[d]
    ensures Valid(n) && fresh(n.repr - {leaf})
    ensures n.tree == Expanded(TreeOf(ToLeaf(leaf)), R.Leaf(key, value), depth, Diverge(key, leaf.key, depth))
  {
    hide Diverge, Valid, Pair;
    var d, prefix := CommonPrefix(key, leaf.key, depth);
    var added := new Leaf(key, value);
    n := MakeFork(d - depth, prefix, key[d], ToLeaf(added), leaf.key[d], ToLeaf(leaf));
  }

  // ---------------------------------------------------------------------
  // Splitting a node
  // ---------------------------------------------------------------------

  lemma {:induction false} StoredTail(q: Key, m: Key, depth: nat, k: nat)
    requires q <= m && depth + k < |q|
    ensures q[depth..][k] == m[depth + k]
    ensures q[depth..][k + 1..] == m[depth + k + 1..|q|]
  {
  }

  /** What the two ways of shortening a prefix have in common. */
  lemma {:induction false} MovedDownBytes(t: R.Tree, p: Key, diff: nat)
    requires t.Inner? && R.Good(t, p) && diff < t.prefixLen
    ensures R.MinLeaf(t).Leaf? && |p| + t.prefixLen < |R.MinLeaf(t).key|
    ensures |t.prefix| == Min(MAX_PREFIX_LEN, t.prefixLen)
    ensures t.prefixLen <= MAX_PREFIX_LEN ==>
              && t.prefix[diff] == R.MinLeaf(t).key[|p| + diff]
              && t.prefix[diff + 1..] == R.MinLeaf(t).key[|p| + diff + 1..|p| + t.prefixLen]
  {
    var q := R.PathThrough(t, p);
    R.MinLeafShowsThePrefix(t, p, q);
    hide R.Good, R.MinLeaf;
    if t.prefixLen <= MAX_PREFIX_LEN {
      assert q[|p|..|q|] == q[|p|..];
      StoredTail(q, R.MinLeaf(t).key, |p|, diff);
    }
  }

  /** Shorten the prefix of a node that moves below a new node: diff bytes and the
      branch byte go. What becomes visible comes from the leftmost leaf when the
      stored bytes do not show it. */
  method MoveDown(n: Node, depth: nat, diff: nat, ghost p: Key, ghost m: Key) returns (branch: byte)
    requires Valid(n) && R.Good(n.tree, p) && |p| == depth && diff < n.prefixLen
    requires R.MinLeaf(n.tree).Leaf? && R.MinLeaf(n.tree).key == m && depth + n.prefixLen < |m|
    modifies n
    ensures Valid(n) && n.repr == old(n.repr)
    ensures branch == m[depth + diff]
    ensures var len := old(n.prefixLen) - (diff + 1);
            var from := depth + diff + 1;
            n.tree == old(n.tree).(prefixLen := len, prefix := m[from..from + Min(MAX_PREFIX_LEN, len)])
  {
    hide R.Good, R.MinLeaf, Valid;
    var prefix: seq<byte>;
    branch, prefix := ShortenedPrefix(n, depth, diff, p, m);
    Reprefix(n, n.prefixLen - (diff + 1), prefix);
  }

  /** The branch byte and the new prefix buffer of a node that moves down. */
  method ShortenedPrefix(n: Node, depth: nat, diff: nat, ghost p: Key, ghost m: Key)
    returns (branch: byte, prefix: seq<byte>)
    requires Valid(n) && R.Good(n.tree, p) && |p| == depth && diff < n.prefixLen
    requires R.MinLeaf(n.tree).Leaf? && R.MinLeaf(n.tree).key == m && depth + n.prefixLen < |m|
    ensures n.tree.Inner? && branch == m[depth + diff] && |prefix| == MAX_PREFIX_LEN
    ensures var k := Min(MAX_PREFIX_LEN, n.prefixLen - (diff + 1));
            prefix[..k] == m[depth + diff + 1..depth + diff + 1 + k]
  {
    hide R.Good, R.MinLeaf, Valid, Ok, Children;
    ValidFields(n);
    MovedDownBytes(n.tree, p, diff);
    var k := Min(MAX_PREFIX_LEN, n.prefixLen - (diff + 1));
    if n.prefixLen <= MAX_PREFIX_LEN {
      branch := n.prefix[diff];
      prefix := n.prefix[diff + 1..diff + 1 + k] + n.prefix[k..];
      assert prefix[..k] == n.tree.prefix[diff + 1..];
    } else {
      var leaf := Minimum(n, p);
      branch := leaf.key[depth + diff];
      prefix := leaf.key[depth + diff + 1..depth + diff + 1 + k] + n.prefix[k..];
      assert prefix[..k] == leaf.key[depth + diff + 1..depth + diff + 1 + k];
    }
  }

  /** Give a node another prefix. */
  method Reprefix(n: Node, prefixLen: nat, prefix: seq<byte>)
    requires Valid(n) && |prefix| == MAX_PREFIX_LEN
    modifies n
    ensures Valid(n) && n.repr == old(n.repr)
    ensures n.tree == old(n.tree).(prefixLen := prefixLen, prefix := prefix[..Min(MAX_PREFIX_LEN, prefixLen)])
  {
    hide Tidy, Lookup, Children, StrictlyAscending, IndexOf, Linked, NoOrphan;
    n.prefixLen := prefixLen;
    n.prefix := prefix;
    n.tree := n.tree.(prefixLen := prefixLen, prefix := Stored(n));
  }

  /** Node t below a fork with a new leaf, split after diff bytes of its prefix; m is
      the leftmost key below t. */
  ghost function SplitTree(t: R.Tree, added: R.Tree, depth: nat, diff: nat, m: Key): R.Tree
    requires t.Inner? && added.Leaf? && diff < t.prefixLen && Min(MAX_PREFIX_LEN, diff) <= |t.prefix|
    requires depth + t.prefixLen <= |m| && depth + diff < |added.key|
  {
    var len := t.prefixLen - (diff + 1);
    var from := depth + diff + 1;
    R.Inner(diff, t.prefix[..Min(MAX_PREFIX_LEN, diff)],
            Pair(added.key[depth + diff], added, m[depth + diff],
                 t.(prefixLen := len, prefix := m[from..from + Min(MAX_PREFIX_LEN, len)])))
  }

  /** Insert unfolded at a node whose prefix the key leaves. */
  lemma {:induction false} InsertForks(t: R.Tree, depth: nat, key: Key, value: Value, q: Key)
    requires t.Inner? && IsKey(key) && depth <= |key| && R.Good(t, key[..depth])
    requires R.GoodVia(t, key[..depth], q) && R.CheckPrefix(t, key, depth) < t.prefixLen
    ensures R.MinLeaf(t).Leaf? && |q| < |R.MinLeaf(t).key| && |q| == depth + t.prefixLen
    ensures var d := depth + R.CheckPrefix(t, key, depth);
            && d < |key| && key[..d] == q[..d] && key[d] != q[d] && q <= R.MinLeaf(t).key
            && R.Insert(t, depth, key, value)
               == R.Inserted(R.Fork(key[..depth], key[..d], key[d], R.Leaf(key, value), R.MinLeaf(t).key[d],
                                    R.MovedDown(t, d + 1, |q| - (d + 1))),
                             true, None)
  {
    hide R.CheckPrefix, R.Good, R.Fork, R.MovedDown, R.MinLeaf, R.GoodVia;
    R.ViaIsGood(t, key[..depth], q);
    R.CheckPrefixIsExact(t, key, depth, q);
    R.MinLeafShowsThePrefix(t, key[..depth], q);
  }

  lemma {:induction false} ForkIsSplitTree(t: R.Tree, added: R.Tree, depth: nat, diff: nat, m: Key, key: Key)
    requires t.Inner? && R.MinLeaf(t).Leaf? && R.MinLeaf(t).key == m
    requires added.Leaf? && added.key == key && diff < t.prefixLen && Min(MAX_PREFIX_LEN, diff) <= |t.prefix|
    requires depth + t.prefixLen <= |m| && depth + diff < |key|
    requires t.prefix[..Min(MAX_PREFIX_LEN, diff)] == key[depth..depth + Min(MAX_PREFIX_LEN, diff)]
    ensures var d := depth + diff;
            R.Fork(key[..depth], key[..d], key[d], added, m[d], R.MovedDown(t, d + 1, depth + t.prefixLen - (d + 1)))
            == SplitTree(t, added, depth, diff, m)
  {
    hide R.MinLeaf;
    SliceOfPrefix(key, depth + diff, depth, depth + Min(MAX_PREFIX_LEN, diff));
  }

  lemma {:induction false} InsertSplits(t: R.Tree, depth: nat, key: Key, value: Value)
    requires t.Inner? && IsKey(key) && depth <= |key| && R.Good(t, key[..depth])
    requires R.CheckPrefix(t, key, depth) < t.prefixLen
    ensures R.MinLeaf(t).Leaf? && depth + t.prefixLen < |R.MinLeaf(t).key|
    ensures var diff, m := R.CheckPrefix(t, key, depth), R.MinLeaf(t).key;
            && depth + diff < |key| && key[depth + diff] != m[depth + diff]
            && Min(MAX_PREFIX_LEN, diff) <= |t.prefix|
            && R.Insert(t, depth, key, value)
               == R.Inserted(SplitTree(t, R.Leaf(key, value), depth, diff, m), true, None)
  {
    hide R.CheckPrefix, R.Good, R.GoodVia, R.Insert, R.MinLeaf, R.Fork, R.MovedDown, SplitTree;
    var q := R.PathThrough(t, key[..depth]);
    InsertForks(t, depth, key, value, q);
    var diff := R.CheckPrefix(t, key, depth);
    SplitBytes(t, key, depth, q, diff);
    ForkIsSplitTree(t, R.Leaf(key, value), depth, diff, R.MinLeaf(t).key, key);
  }

  lemma {:induction false} SplitBytes(t: R.Tree, key: Key, depth: nat, q: Key, diff: nat)
    requires depth <= |key| && R.GoodVia(t, key[..depth], q) && diff < t.prefixLen
    requires depth + diff < |key| && key[..depth + diff] == q[..depth + diff] && key[depth + diff] != q[depth + diff]
    requires R.MinLeaf(t).Leaf? && q <= R.MinLeaf(t).key
    ensures key[depth + diff] != R.MinLeaf(t).key[depth + diff]
    ensures |t.prefix| >= Min(MAX_PREFIX_LEN, diff)
    ensures t.prefix[..Min(MAX_PREFIX_LEN, diff)] == key[depth..depth + Min(MAX_PREFIX_LEN, diff)]
  {
    hide R.MinLeaf, R.Good;
    var k := Min(MAX_PREFIX_LEN, diff);
    assert t.prefix[..k] == q[depth..depth + k];
    SameSlice(key, q, depth + diff, depth, depth + k);
  }

  lemma {:induction false} SameSlice(a: Key, b: Key, d: nat, i: nat, j: nat)
    requires i <= j <= d <= |a| && d <= |b| && a[..d] == b[..d]
    ensures a[i..j] == b[i..j]
  {
    SliceOfPrefix(a, d, i, j);
    SliceOfPrefix(b, d, i, j);
  }

  method SplitNode(n: Node, depth: nat, key: Key, value: Value, diff: nat, ghost p: Key, ghost m: Key)
    returns (r: Node)
    requires Valid(n) && R.Good(n.tree, p) && |p| == depth && diff < n.prefixLen
    requires R.MinLeaf(n.tree).Leaf? && R.MinLeaf(n.tree).key == m && depth + n.prefixLen < |m|
    requires depth + diff < |key| && key[depth + diff] != m[depth + diff]
    requires n.tree.Inner? && n.tree.prefixLen == n.prefixLen && n.tree.prefix == Stored(n)
    requires |n.prefix| == MAX_PREFIX_LEN
    modifies n
    ensures Valid(r) && fresh(r.repr - old(n.repr))
    ensures r.tree == SplitTree(old(n.tree), R.Leaf(key, value), depth, diff, m)
  {
    hide R.Good, R.MinLeaf, Valid, Pair;
    var k := Min(MAX_PREFIX_LEN, diff);
    var prefix := n.prefix[..k] + Zeros(MAX_PREFIX_LEN - k);
    assert prefix[..k] == n.tree.prefix[..k];
    var branch := MoveDown(n, depth, diff, p, m);
    var added := new Leaf(key, value);
    r := MakeFork(diff, prefix, key[depth + diff], ToLeaf(added), branch, ToNode(n));
  }

  // ---------------------------------------------------------------------
  // One level down
  // ---------------------------------------------------------------------

  /** The children of a valid node are apart from it. */
  lemma {:induction false} ChildrenAreApart(n: Node)
    requires Valid(n)
    ensures Ok(n.Shape()) && Apart(n, Children(n.Shape()))
    ensures n.tree == R.Inner(n.prefixLen, Stored(n), Trees(Children(n.Shape())))
    ensures Below(Children(n.Shape())) <= n.repr
  {
    hide Tidy, Lookup, Children, Stored;
  }

  /** What the other children of a node share with one of them: nothing. */
  lemma {:induction false} OtherChildren(n: Node, b: byte)
    requires Valid(n) && Lookup(n.Shape(), b) != Null
    ensures var m, c := Children(n.Shape()), Lookup(n.Shape(), b);
            && ApartBelow(m - {b}) && Below(m - {b}) !! ReprOf(c) && Below(m - {b}) <= n.repr
            && n !in Below(m - {b}) && n !in ReprOf(c)
            && n.tree.Inner? && Trees(m - {b}) == n.tree.children - {b}
  {
    hide Valid, Tidy, Lookup, Children, Apart, ApartBelow, Below, Trees, ReprOf;
    ChildrenAreApart(n);
    var m := Children(n.Shape());
    ChildrenAreLookups(n.Shape(), b);
    ApartMeans(n, m);
    FewerChildren(m, b);
  }

  /** Hang a new leaf under an unused byte of a node. */
  method AddLeaf(n: Node, ch: byte, key: Key, value: Value) returns (r: Node)
    requires Valid(n) && ch !in n.tree.children
    modifies n
    ensures Valid(r) && fresh(r.repr - old(n.repr))
    ensures r.tree == old(n.tree).(children := old(n.tree).children[ch := R.Leaf(key, value)])
  {
    hide Valid, Tidy, Lookup, Children, Apart, ApartBelow, Trees, Below;
    ValidFields(n);
    ChildOf(n, ch);
    ChildrenAreApart(n);
    ghost var m := Children(n.Shape());
    ApartMeans(n, m);
    var leaf := new Leaf(key, value);
    r := AddChild(n, ch, ToLeaf(leaf));
    UntouchedChildren(m);
    assert m - {ch} == m;
    SealOneMore(r, m, ch, ToLeaf(leaf));
  }

  // ---------------------------------------------------------------------
  // art_node_insert
  // ---------------------------------------------------------------------

  /** Key may be inserted below t at depth: every key below t starts as it does. */
  ghost predicate CanInsert(t: R.Tree, depth: nat, key: Key) {
    IsKey(key) && depth <= |key| && R.Good(t, key[..depth])
  }

  ghost function Result(t: R.Tree, depth: nat, key: Key, value: Value): R.Inserted
    requires CanInsert(t, depth, key)
  {
    R.Insert(t, depth, key, value)
  }

  lemma {:induction false} ResultAtLeaf(t: R.Tree, depth: nat, key: Key, value: Value)
    requires t.Leaf? && CanInsert(t, depth, key)
    ensures t.key == key ==> Result(t, depth, key, value) == R.Inserted(R.Leaf(key, value), false, Some(t.value))
    ensures t.key != key ==>
              && depth <= |key| && depth <= |t.key|
              && var d := Diverge(key, t.key, depth);
              && d < |key| && d < |t.key| && key[d] != t.key[d]
              && Result(t, depth, key, value) == R.Inserted(Expanded(t, R.Leaf(key, value), depth, d), true, None)
  {
    hide Expanded, Diverge;
    if t.key != key {
      InsertExpandsLeaf(t, depth, key, value);
    }
  }

  lemma {:induction false} ResultOfSplit(t: R.Tree, depth: nat, key: Key, value: Value)
    requires t.Inner? && CanInsert(t, depth, key)
    ensures depth <= |key| && R.Good(t, key[..depth])
    ensures R.CheckPrefix(t, key, depth) < t.prefixLen ==>
              && R.MinLeaf(t).Leaf? && depth + t.prefixLen < |R.MinLeaf(t).key|
              && var diff, m := R.CheckPrefix(t, key, depth), R.MinLeaf(t).key;
              && depth + diff < |key| && key[depth + diff] != m[depth + diff]
              && Min(MAX_PREFIX_LEN, diff) <= |t.prefix|
              && Result(t, depth, key, value)
                 == R.Inserted(SplitTree(t, R.Leaf(key, value), depth, diff, m), true, None)
  {
    hide R.CheckPrefix, R.MinLeaf, SplitTree, R.Insert, R.Good;
    if R.CheckPrefix(t, key, depth) < t.prefixLen {
      InsertSplits(t, depth, key, value);
    }
  }

  lemma {:induction false} ResultOfDescent(t: R.Tree, depth: nat, key: Key, value: Value)
    requires t.Inner? && CanInsert(t, depth, key)
    requires depth <= |key| && R.Good(t, key[..depth]) && R.CheckPrefix(t, key, depth) >= t.prefixLen
    ensures depth + t.prefixLen < |key|
    ensures var d := depth + t.prefixLen;
            var b := key[d];
            && (b in t.children ==>
                  && CanInsert(t.children[b], d + 1, key)
                  && var r := Result(t.children[b], d + 1, key, value);
                  Result(t, depth, key, value)
                  == R.Inserted(t.(children := t.children[b := r.tree]), r.isNew, r.replaced))
            && (b !in t.children ==>
                  Result(t, depth, key, value)
                  == R.Inserted(t.(children := t.children[b := R.Leaf(key, value)]), true, None))
  {
    hide R.CheckPrefix, R.MinLeaf, R.GoodVia, R.Good, R.Fork, R.MovedDown;
    var q := R.PathThrough(t, key[..depth]);
    R.ViaIsGood(t, key[..depth], q);
    R.CheckPrefixIsExact(t, key, depth, q);
    PrefixAndOneMore(q, key);
    if key[|q|] in t.children {
      R.ChildIsGood(t, key[..depth], q, key[|q|]);
    }
  }

  method InsertAt(r: Ref, depth: nat, key: Key, value: Value)
    returns (r': Ref, isNew: bool, replaced: Option<Value>)
    requires r != Null && ValidRef(r) && CanInsert(TreeOf(r), depth, key)
    modifies ReprOf(r)
    ensures r' != Null && ValidRef(r') && fresh(ReprOf(r') - old(ReprOf(r)))
    ensures R.Inserted(TreeOf(r'), isNew, replaced) == old(Result(TreeOf(r), depth, key, value))
    decreases TreeOf(r), 3
  {
    hide Valid, CanInsert, Result, Expanded, Diverge;
    match r
    case ToLeaf(leaf) =>
      ResultAtLeaf(TreeOf(r), depth, key, value);
      if leaf.key == key {
        replaced := Some(leaf.value);
        leaf.value := value;
        r', isNew := r, false;
      } else {
        var n := ExpandLeaf(leaf, depth, key, value);
        r', isNew, replaced := ToNode(n), true, None;
      }
    case ToNode(n) =>
      r', isNew, replaced := InsertInNode(n, depth, key, value);
  }

  method InsertInNode(n: Node, depth: nat, key: Key, value: Value)
    returns (r': Ref, isNew: bool, replaced: Option<Value>)
    requires Valid(n) && CanInsert(n.tree, depth, key)
    modifies n.repr
    ensures r' != Null && ValidRef(r') && fresh(ReprOf(r') - old(n.repr))
    ensures R.Inserted(TreeOf(r'), isNew, replaced) == old(Result(n.tree, depth, key, value))
    decreases n.tree, 2
  {
    hide Valid, CanInsert, Result, R.CheckPrefix, R.MinLeaf, R.Good, SplitTree, Ok, Children;
    ValidFields(n);
    ResultOfSplit(n.tree, depth, key, value);
    var diff := CheckPrefix(n, key, depth);
    if diff < n.prefixLen {
      var s := SplitNode(n, depth, key, value, diff, key[..depth], R.MinLeaf(n.tree).key);
      r', isNew, replaced := ToNode(s), true, None;
    } else {
      var s;
      s, isNew, replaced := InsertBelow(n, depth, key, value);
      r' := ToNode(s);
    }
  }

  /** Below a node, in the child of the next byte; the node keeps its place. */
  method InsertInChild(n: Node, next: Ref, d: nat, key: Key, value: Value)
    returns (isNew: bool, replaced: Option<Value>)
    requires Valid(n) && n.tree.Inner? && d < |key| && next != Null && next == Lookup(n.Shape(), key[d])
    requires key[d] in n.tree.children && CanInsert(n.tree.children[key[d]], d + 1, key)
    modifies n.repr
    ensures Valid(n) && fresh(n.repr - old(n.repr))
    ensures var b := key[d];
            var r := old(Result(n.tree.children[b], d + 1, key, value));
            && n.tree == old(n.tree).(children := old(n.tree).children[b := r.tree])
            && isNew == r.isNew && replaced == r.replaced
    decreases n.tree, 0
  {
    hide Valid, CanInsert, Result, R.CheckPrefix, R.Good, Tidy, Children, Lookup, Apart, ApartBelow, Below, Trees,
         StrictlyAscending, IndexOf, Linked, NoOrphan, IsKey;
    ValidFields(n);
    ghost var m := Children(n.Shape());
    ChildOf(n, key[d]);
    SmallerChild(n.tree, key[d]);
    OtherChildren(n, key[d]);
    var c;
    c, isNew, replaced := InsertAt(next, d + 1, key, value);
    UntouchedOthers(m, key[d]);
    StoreBelow(n, key[d], c, m);
  }

  method InsertBelow(n: Node, depth: nat, key: Key, value: Value)
    returns (s: Node, isNew: bool, replaced: Option<Value>)
    requires Valid(n) && CanInsert(n.tree, depth, key) && n.tree.Inner?
    requires depth <= |key| && R.Good(n.tree, key[..depth]) && R.CheckPrefix(n.tree, key, depth) >= n.tree.prefixLen
    modifies n.repr
    ensures Valid(s) && fresh(s.repr - old(n.repr))
    ensures R.Inserted(s.tree, isNew, replaced) == old(Result(n.tree, depth, key, value))
    decreases n.tree, 1
  {
    hide Valid, CanInsert, Result, R.CheckPrefix, R.Good, Tidy, Children, Lookup, Apart, ApartBelow, Below, Trees,
         StrictlyAscending, IndexOf, Linked, NoOrphan, IsKey;
    ValidFields(n);
    ResultOfDescent(n.tree, depth, key, value);
    var d := depth + n.prefixLen;
    var next := GetChild(n, key[d]);
    ChildOf(n, key[d]);
    if next != Null {
      isNew, replaced := InsertInChild(n, next, d, key, value);
      s := n;
    } else {
      s := AddLeaf(n, key[d], key, value);
      isNew, replaced := true, None;
    }
  }
}
