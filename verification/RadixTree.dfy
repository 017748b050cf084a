/** The adaptive radix tree as a value: what a node means once its layout is
    forgotten. An inner node is its prefix length, the at most ten prefix bytes it
    stores, and a map from branch byte to child. */
module RadixTree {
  import opened Common
  import opened ArtKeys

  datatype Tree =
    | Leaf(key: Key, value: Value)
    | Inner(prefixLen: nat, prefix: seq<byte>, children: map<byte, Tree>)

  /** Some leaf below t holds value v under key k. */
  ghost predicate In(t: Tree, k: Key, v: Value) {
    match t
    case Leaf(key, value) => k == key && v == value
    case Inner(_, _, children) => exists b :: b in children && In(children[b], k, v)
  }

  /** The tree invariant at a node reached along path p: every key below starts
      with p, although only a part of p may be stored on the way down. */
  ghost predicate Good(t: Tree, p: Key)
    decreases t, 1
  {
    if t.Leaf? then IsKey(t.key) && p <= t.key
    else exists q :: GoodVia(t, p, q)
  }

  /** q is the path through inner node t: p followed by the whole prefix of t, of
      which the node stores the first MAX_PREFIX_LEN bytes at most. */
  ghost predicate GoodVia(t: Tree, p: Key, q: Key)
    decreases t, 0
  {
    && t.Inner?
    && p <= q && |q| == |p| + t.prefixLen
    && t.prefix == q[|p|..|p| + Min(MAX_PREFIX_LEN, t.prefixLen)]
    && 2 <= |t.children|
    && forall b :: b in t.children ==> Good(t.children[b], q + [b])
  }

  lemma {:induction false} ViaIsGood(t: Tree, p: Key, q: Key)
    requires GoodVia(t, p, q)
    ensures Good(t, p)
    ensures p <= q && t.Inner? && |q| == |p| + t.prefixLen
  {
  }

  lemma {:induction false} LeafIsGood(key: Key, value: Value, p: Key)
    requires IsKey(key) && p <= key
    ensures Good(Leaf(key, value), p)
    ensures forall k, v :: In(Leaf(key, value), k, v) <==> k == key && v == value
  {
  }

  lemma {:induction false} ChildIsGood(t: Tree, p: Key, q: Key, b: byte)
    requires GoodVia(t, p, q) && b in t.children
    ensures Good(t.children[b], q + [b])
  {
  }

  lemma {:induction false} InnerHasPath(t: Tree, p: Key)
    requires t.Inner? && Good(t, p)
    ensures exists q :: GoodVia(t, p, q)
  {
    var q :| GoodVia(t, p, q);
  }

  /** The path through an inner node. */
  ghost function PathThrough(t: Tree, p: Key): (q: Key)
    requires t.Inner? && Good(t, p)
    ensures GoodVia(t, p, q)
  {
    InnerHasPath(t, p);
    var q :| GoodVia(t, p, q);
    q
  }

  // ---------------------------------------------------------------------
  // Consequences of the invariant
  // ---------------------------------------------------------------------

  /** Every key below a node starts with the path to the node. */
  lemma {:induction false} KeysShareThePath(t: Tree, p: Key, k: Key, v: Value)
    requires Good(t, p) && In(t, k, v)
    ensures IsKey(k) && p <= k
    decreases t
  {
    if t.Inner? {
      var q :| GoodVia(t, p, q);
      KeysShareTheFullPrefix(t, p, q, k, v);
    }
  }

  /** All keys below an inner node share its whole prefix, stored or not, go on for
      at least one more byte, and sit under the child named by that byte. */
  lemma {:induction false} KeysShareTheFullPrefix(t: Tree, p: Key, q: Key, k: Key, v: Value)
    requires GoodVia(t, p, q) && In(t, k, v)
    ensures IsKey(k) && |q| < |k| && q <= k
    ensures k[|q|] in t.children && In(t.children[k[|q|]], k, v)
    decreases t, 0
  {
    var b :| b in t.children && In(t.children[b], k, v);
    KeysShareThePath(t.children[b], q + [b], k, v);
    assert k[..|q| + 1] == q + [b];
    assert k[|q|] == b && k[..|q|] == q;
  }

  /** A key has at most one value. */
  lemma {:induction false} OneValuePerKey(t: Tree, p: Key, k: Key, v: Value, w: Value)
    requires Good(t, p) && In(t, k, v) && In(t, k, w)
    ensures v == w
    decreases t
  {
    if t.Leaf? {
    } else {
      var q :| GoodVia(t, p, q);
      KeysShareTheFullPrefix(t, p, q, k, v);
      KeysShareTheFullPrefix(t, p, q, k, w);
      OneValuePerKey(t.children[k[|q|]], q + [k[|q|]], k, v, w);
    }
  }

  /** The leftmost leaf below t. */
  function MinLeaf(t: Tree): (m: Tree) {
    if t.Inner? && |t.children| > 0 then
      MinLeaf(t.children[Bytes(t.children.Keys)[0]])
    else t
  }

  lemma {:induction false} MinLeafIsBelow(t: Tree, p: Key)
    requires Good(t, p)
    ensures MinLeaf(t).Leaf? && In(t, MinLeaf(t).key, MinLeaf(t).value)
    decreases t
  {
    if t.Leaf? {
    } else {
      var q :| GoodVia(t, p, q);
      var b := Bytes(t.children.Keys)[0];
      assert b in t.children.Keys;
      MinLeafIsBelow(t.children[b], q + [b]);
      assert In(t.children[b], MinLeaf(t).key, MinLeaf(t).value);
    }
  }

  /** The bytes hidden from a node's prefix can be read off its leftmost leaf. */
  lemma {:induction false} MinLeafShowsThePrefix(t: Tree, p: Key, q: Key)
    requires GoodVia(t, p, q)
    ensures MinLeaf(t).Leaf? && IsKey(MinLeaf(t).key)
    ensures |q| < |MinLeaf(t).key| && q <= MinLeaf(t).key
  {
    assert Good(t, p);
    MinLeafIsBelow(t, p);
    KeysShareTheFullPrefix(t, p, q, MinLeaf(t).key, MinLeaf(t).value);
  }

  // ---------------------------------------------------------------------
  // Prefix comparison
  // ---------------------------------------------------------------------

  /** How many bytes of stored agree with key from depth on, counting from len. */
  function Matching(stored: seq<byte>, key: Key, depth: nat, len: nat): (r: nat)
    requires depth <= |key| && len <= |stored| && len <= |key| - depth
    ensures len <= r <= |stored| && r <= |key| - depth
    ensures forall i :: len <= i < r ==> stored[i] == key[depth + i]
    ensures r == |stored| || r == |key| - depth || stored[r] != key[depth + r]
    decreases |stored| - len
  {
    if len < |stored| && len < |key| - depth && key[depth + len] == stored[len]
    then Matching(stored, key, depth, len + 1)
    else len
  }

  /** The optimistic check: stored bytes only. */
  function CheckPrefixPartial(t: Tree, key: Key, depth: nat): nat
    requires t.Inner? && depth <= |key|
  {
    Matching(t.prefix, key, depth, 0)
  }

  /** How far key follows a prefix of which only the first bytes are stored, when a
      longer key m that carries the whole prefix is at hand. */
  function FollowsFor(stored: seq<byte>, m: Key, key: Key, depth: nat): nat
    requires depth <= |key| && depth + |stored| <= |m|
  {
    var len := Matching(stored, key, depth, 0);
    if len < MAX_PREFIX_LEN then len
    else Diverge(m, key, depth + len) - depth
  }

  /** The pessimistic check: past the stored bytes it goes on along the leftmost leaf. */
  function CheckPrefix(t: Tree, key: Key, depth: nat): nat
    requires t.Inner? && depth <= |key|
    requires Good(t, key[..depth])
  {
    MinLeafShowsThePrefix(t, key[..depth], PathThrough(t, key[..depth]));
    FollowsFor(t.prefix, MinLeaf(t).key, key, depth)
  }

  /** Where key parts from m, a longer key that starts with q, tells whether key
      starts with q as well. */
  lemma {:induction false} PartingTellsPrefix(q: Key, m: Key, key: Key, d: nat)
    requires IsKey(m) && IsKey(key)
    requires q <= m && |q| < |m|
    requires d <= |m| && d <= |key| && key[..d] == m[..d]
    requires d < |q| ==> d == |key| || key[d] != m[d]
    ensures |q| <= d <==> q <= key
    ensures q <= key ==> |q| < |key|
    ensures d < |q| ==> d < |key| && key[..d] == q[..d] && key[d] != q[d]
  {
    PrefixOfKeyIsKey(key, m);
    if d < |q| {
      assert m[d] == q[d];
      assert m[..d] == q[..d];
    } else {
      assert key[..|q|] == key[..d][..|q|] == m[..|q|];
    }
  }

  lemma {:induction false} MatchingAlong(stored: seq<byte>, key: Key, depth: nat, m: Key)
    requires depth <= |key| && depth + |stored| <= |m|
    requires key[..depth] == m[..depth] && stored == m[depth..depth + |stored|]
    ensures var s := depth + Matching(stored, key, depth, 0);
            && key[..s] == m[..s]
            && (s < depth + |stored| ==> s == |key| || key[s] != m[s])
  {
    var len := Matching(stored, key, depth, 0);
    assert key[depth..depth + len] == stored[..len];
    assert m[depth..depth + len] == stored[..len];
    AgreeThenAgree(key, m, depth, depth + len);
  }

  /** FollowsFor finds where key leaves q, wherever the stored bytes end. */
  lemma {:induction false} FollowsForIsExact(stored: seq<byte>, m: Key, key: Key, depth: nat, q: Key)
    requires IsKey(m) && IsKey(key)
    requires q <= m && |q| < |m| && depth <= |q| && depth <= |key| && key[..depth] == m[..depth]
    requires stored == m[depth..depth + Min(MAX_PREFIX_LEN, |q| - depth)]
    ensures var d := depth + FollowsFor(stored, m, key, depth);
            && (|q| <= d <==> q <= key)
            && (d < |q| ==> d < |key| && key[..d] == q[..d] && key[d] != q[d])
    ensures q <= key ==> |q| < |key|
  {
    MatchingAlong(stored, key, depth, m);
    var s := depth + Matching(stored, key, depth, 0);
    if s < depth + MAX_PREFIX_LEN {
      PartingTellsPrefix(q, m, key, s);
    } else {
      var d := Diverge(m, key, s);
      AgreeThenAgree(key, m, s, d);
      PartingTellsPrefix(q, m, key, d);
    }
  }

  lemma {:induction false} StoredIsOnLeaf(p: Key, q: Key, m: Key, n: nat)
    requires p <= q <= m && |p| + n <= |q|
    ensures q[|p|..|p| + n] == m[|p|..|p| + n] && m[..|p|] == p
  {
  }

  /** A length below the prefix length is exactly a first disagreement with the
      whole prefix, and neither key nor prefix is exhausted there; otherwise the key
      carries the whole prefix and one more byte. */
  lemma {:induction false} CheckPrefixIsExact(t: Tree, key: Key, depth: nat, q: Key)
    requires IsKey(key) && depth <= |key|
    requires GoodVia(t, key[..depth], q)
    ensures Good(t, key[..depth])
    ensures CheckPrefix(t, key, depth) >= t.prefixLen <==> q <= key
    ensures q <= key ==> |q| < |key|
    ensures var d := depth + CheckPrefix(t, key, depth);
            d < |q| ==> d < |key| && key[..d] == q[..d] && key[d] != q[d]
  {
    hide FollowsFor;
    MinLeafShowsThePrefix(t, key[..depth], q);
    StoredIsOnLeaf(key[..depth], q, MinLeaf(t).key, Min(MAX_PREFIX_LEN, t.prefixLen));
    FollowsForIsExact(t.prefix, MinLeaf(t).key, key, depth, q);
  }

  // ---------------------------------------------------------------------
  // Search: optimistic descent, decided at the leaf
  // ---------------------------------------------------------------------

  function Search(t: Tree, depth: nat, key: Key): Option<Value>
    requires depth <= |key|
    decreases t
  {
    match t
    case Leaf(k, v) => if k == key then Some(v) else None
    case Inner(prefixLen, _, children) =>
      if CheckPrefixPartial(t, key, depth) != Min(prefixLen, MAX_PREFIX_LEN) then None
      else
        var d := depth + prefixLen;
        if d >= |key| || key[d] !in children then None
        else Search(children[key[d]], d + 1, key)
  }

  /** A key that carries a node's whole prefix passes the optimistic check. */
  lemma {:induction false} WholePrefixPassesCheck(t: Tree, p: Key, q: Key, key: Key)
    requires GoodVia(t, p, q) && q <= key
    ensures CheckPrefixPartial(t, key, |p|) == Min(t.prefixLen, MAX_PREFIX_LEN)
  {
    var r := CheckPrefixPartial(t, key, |p|);
    assert key[..|q|] == q;
    assert forall i :: 0 <= i < |t.prefix| ==> t.prefix[i] == q[|p| + i] == key[|p| + i];
  }

  /** Search is exact although it skips the hidden bytes, and although nothing tells
      it that the bytes it skipped further up did match. */
  lemma {:induction false} SearchIsExact(t: Tree, p: Key, key: Key, v: Value)
    requires Good(t, p) && |p| <= |key|
    ensures Search(t, |p|, key) == Some(v) <==> In(t, key, v)
    decreases t
  {
    if t.Leaf? {
    } else {
      var q :| GoodVia(t, p, q);
      var d := |q|;
      if In(t, key, v) {
        KeysShareTheFullPrefix(t, p, q, key, v);
        WholePrefixPassesCheck(t, p, q, key);
      }
      if d < |key| && key[d] in t.children {
        SearchIsExact(t.children[key[d]], q + [key[d]], key, v);
      }
    }
  }

  // ---------------------------------------------------------------------
  // Insert: pessimistic descent
  // ---------------------------------------------------------------------

  datatype Inserted = Inserted(tree: Tree, isNew: bool, replaced: Option<Value>)

  /** A new inner node with two children below path q. */
  function Fork(p: Key, q: Key, b: byte, t: Tree, c: byte, u: Tree): Tree
    requires p <= q
  {
    Inner(|q| - |p|, q[|p|..|p| + Min(MAX_PREFIX_LEN, |q| - |p|)], map[b := t, c := u])
  }

  /** Node t moved below a new node that takes its first diff prefix bytes and the
      branch byte after them. */
  function MovedDown(t: Tree, from: nat, len: nat): Tree
    requires t.Inner? && MinLeaf(t).Leaf? && from + len <= |MinLeaf(t).key|
  {
    t.(prefixLen := len, prefix := MinLeaf(t).key[from..from + Min(MAX_PREFIX_LEN, len)])
  }

  /** The result of putting value under key below node t, which sits at depth. A leaf
      with another key is expanded into a fork; a node whose prefix the key leaves is
      split, wherever in the prefix that happens; otherwise the key goes one level
      down or becomes a new child. */
  function Insert(t: Tree, depth: nat, key: Key, value: Value): Inserted
    requires IsKey(key) && depth <= |key| && Good(t, key[..depth])
    decreases t
  {
    match t
    case Leaf(k, v) =>
      if k == key then Inserted(Leaf(key, value), false, Some(v))
      else
        KeysDiverge(key, k, depth);
        var d := Diverge(key, k, depth);
        Inserted(Fork(key[..depth], key[..d], key[d], Leaf(key, value), k[d], t), true, None)
    case Inner(prefixLen, _, children) =>
      ghost var q := PathThrough(t, key[..depth]);
      CheckPrefixIsExact(t, key, depth, q);
      MinLeafShowsThePrefix(t, key[..depth], q);
      var d := depth + CheckPrefix(t, key, depth);
      if d < depth + prefixLen then
        Inserted(Fork(key[..depth], key[..d], key[d], Leaf(key, value),
                      MinLeaf(t).key[d], MovedDown(t, d + 1, depth + prefixLen - (d + 1))),
                 true, None)
      else
        var b := key[depth + prefixLen];
        if b in children then
          PrefixAndOneMore(q, key);
          var r := Insert(children[b], depth + prefixLen + 1, key, value);
          Inserted(t.(children := children[b := r.tree]), r.isNew, r.replaced)
        else
          Inserted(t.(children := children[b := Leaf(key, value)]), true, None)
  }

  /** What an insertion does, said without walking the tree. */
  ghost predicate InsertedInto(t: Tree, key: Key, value: Value, r: Inserted) {
    && (forall k, v :: In(r.tree, k, v) <==> if k == key then v == value else In(t, k, v))
    && (r.isNew <==> r.replaced == None)
    && (forall v :: In(t, key, v) <==> r.replaced == Some(v))
  }

  lemma {:induction false} ForkIsGood(p: Key, q: Key, b: byte, t: Tree, c: byte, u: Tree)
    requires p <= q && b != c
    requires Good(t, q + [b]) && Good(u, q + [c])
    ensures GoodVia(Fork(p, q, b, t, c, u), p, q)
    ensures forall k, v :: In(Fork(p, q, b, t, c, u), k, v) <==> In(t, k, v) || In(u, k, v)
  {
    var two := map[b := t, c := u];
    assert two.Keys == {b, c} && two[b] == t && two[c] == u;
    assert |two| == |two.Keys| == 2;
  }

  /** Storing a tree under one byte of a node changes nothing under the others. */
  lemma {:induction false} StoredChildIsGood(t: Tree, p: Key, q: Key, b: byte, c: Tree)
    requires GoodVia(t, p, q) && Good(c, q + [b])
    ensures GoodVia(t.(children := t.children[b := c]), p, q)
  {
    var children := t.children[b := c];
    assert |children.Keys| >= |t.children.Keys| by {
      assert children.Keys == t.children.Keys + {b};
    }
  }

  lemma {:induction false} InAfterStore(t: Tree, p: Key, q: Key, b: byte, c: Tree, k: Key, v: Value)
    requires GoodVia(t, p, q) && Good(c, q + [b])
    ensures In(t.(children := t.children[b := c]), k, v)
       <==> if |q| < |k| && k[|q|] == b then In(c, k, v) else In(t, k, v)
  {
    var n := t.(children := t.children[b := c]);
    StoredChildIsGood(t, p, q, b, c);
    if In(n, k, v) {
      KeysShareTheFullPrefix(n, p, q, k, v);
    }
    if In(t, k, v) {
      KeysShareTheFullPrefix(t, p, q, k, v);
      assert k[|q|] != b ==> n.children[k[|q|]] == t.children[k[|q|]];
    }
    if In(c, k, v) {
      assert n.children[b] == c;
    }
  }

  lemma {:induction false} ExpandedLeafIsCorrect(t: Tree, depth: nat, key: Key, value: Value)
    requires t.Leaf? && t.key != key
    requires IsKey(key) && depth <= |key| && Good(t, key[..depth])
    ensures Good(Insert(t, depth, key, value).tree, key[..depth])
    ensures InsertedInto(t, key, value, Insert(t, depth, key, value))
  {
    KeysDiverge(key, t.key, depth);
    var d := Diverge(key, t.key, depth);
    TakeOneMore(key, key, d);
    TakeOneMore(t.key, key, d);
    ForkIsGood(key[..depth], key[..d], key[d], Leaf(key, value), t.key[d], t);
  }

  /** Moving a node down its own prefix keeps its path and its leaves. */
  lemma {:induction false} MovedDownIsGood(t: Tree, p: Key, q: Key, from: nat, len: nat)
    requires GoodVia(t, p, q) && |p| <= from && from + len == |q|
    ensures MinLeaf(t).Leaf? && |q| < |MinLeaf(t).key|
    ensures GoodVia(MovedDown(t, from, len), q[..from], q)
    ensures forall k, v :: In(MovedDown(t, from, len), k, v) <==> In(t, k, v)
  {
    MinLeafShowsThePrefix(t, p, q);
    StoredIsOnLeaf(q[..from], q, MinLeaf(t).key, Min(MAX_PREFIX_LEN, len));
  }

  /** Splitting a node at byte d of its path, where key leaves the path. */
  lemma {:induction false} SplitNodeIsCorrect(t: Tree, p: Key, q: Key, d: nat, key: Key, value: Value)
    requires GoodVia(t, p, q) && IsKey(key) && p <= key
    requires |p| <= d < |q| && d < |key| && key[..d] == q[..d] && key[d] != q[d]
    requires MinLeaf(t).Leaf? && |q| < |MinLeaf(t).key|
    ensures p <= key[..d]
    ensures var n := Fork(p, key[..d], key[d], Leaf(key, value), q[d], MovedDown(t, d + 1, |q| - (d + 1)));
            Good(n, p) && InsertedInto(t, key, value, Inserted(n, true, None))
  {
    hide In, Good, GoodVia, Fork, MovedDown, MinLeaf;
    ViaIsGood(t, p, q);
    var moved, leaf := MovedDown(t, d + 1, |q| - (d + 1)), Leaf(key, value);
    MovedDownIsGood(t, p, q, d + 1, |q| - (d + 1));
    ViaIsGood(moved, q[..d + 1], q);
    TakeOneMore(q, key, d);
    TakeOneMore(key, key, d);
    LeafIsGood(key, value, key[..d + 1]);
    ForkIsGood(p, key[..d], key[d], leaf, q[d], moved);
    ViaIsGood(Fork(p, key[..d], key[d], leaf, q[d], moved), p, key[..d]);
    NotBelow(t, p, q, key);
  }

  lemma {:induction false} SplitIsCorrect(t: Tree, depth: nat, key: Key, value: Value, q: Key)
    requires IsKey(key) && depth <= |key| && GoodVia(t, key[..depth], q)
    requires Good(t, key[..depth]) && CheckPrefix(t, key, depth) < t.prefixLen
    ensures Good(Insert(t, depth, key, value).tree, key[..depth])
    ensures InsertedInto(t, key, value, Insert(t, depth, key, value))
  {
    hide CheckPrefix, MinLeaf, Good, GoodVia, In, InsertedInto, Fork, MovedDown;
    ViaIsGood(t, key[..depth], q);
    CheckPrefixIsExact(t, key, depth, q);
    MinLeafShowsThePrefix(t, key[..depth], q);
    var d := depth + CheckPrefix(t, key, depth);
    SplitNodeIsCorrect(t, key[..depth], q, d, key, value);
    assert MinLeaf(t).key[d] == q[d];
  }

  /** A key that does not carry a node's whole prefix is not below the node. */
  lemma {:induction false} NotBelow(t: Tree, p: Key, q: Key, key: Key)
    requires GoodVia(t, p, q) && !(q <= key)
    ensures forall v :: !In(t, key, v)
  {
    forall v ensures !In(t, key, v) {
      if In(t, key, v) {
        KeysShareTheFullPrefix(t, p, q, key, v);
      }
    }
  }

  /** A key is below a node exactly when it is below the child named by its byte. */
  lemma {:induction false} InUnder(t: Tree, p: Key, q: Key, k: Key, v: Value)
    requires GoodVia(t, p, q)
    ensures In(t, k, v) <==> |q| < |k| && k[|q|] in t.children && In(t.children[k[|q|]], k, v)
  {
    if In(t, k, v) {
      KeysShareTheFullPrefix(t, p, q, k, v);
    }
  }

  /** Storing the result of an insertion below one child inserts below the node. */
  lemma {:induction false} InsertedBelow(t: Tree, p: Key, q: Key, key: Key, value: Value, c: Tree, isNew: bool,
                                         replaced: Option<Value>)
    requires GoodVia(t, p, q) && q <= key && |q| < |key|
    requires Good(c, q + [key[|q|]])
    requires forall k, v :: In(c, k, v) <==>
      if k == key then v == value else key[|q|] in t.children && In(t.children[key[|q|]], k, v)
    requires isNew <==> replaced == None
    requires forall v :: key[|q|] in t.children && In(t.children[key[|q|]], key, v) <==> replaced == Some(v)
    ensures Good(t.(children := t.children[key[|q|] := c]), p)
    ensures InsertedInto(t, key, value, Inserted(t.(children := t.children[key[|q|] := c]), isNew, replaced))
  {
    var b := key[|q|];
    var n := t.(children := t.children[b := c]);
    StoredChildIsGood(t, p, q, b, c);
    forall k, v ensures In(n, k, v) <==> if k == key then v == value else In(t, k, v) {
      InAfterStore(t, p, q, b, c, k, v);
      InUnder(t, p, q, k, v);
    }
    forall v ensures In(t, key, v) <==> replaced == Some(v) {
      InUnder(t, p, q, key, v);
    }
  }

  lemma {:induction false} InsertIsCorrect(t: Tree, depth: nat, key: Key, value: Value)
    requires IsKey(key) && depth <= |key| && Good(t, key[..depth])
    ensures Good(Insert(t, depth, key, value).tree, key[..depth])
    ensures InsertedInto(t, key, value, Insert(t, depth, key, value))
    decreases t, 1
  {
    if t.Leaf? {
      if t.key != key {
        ExpandedLeafIsCorrect(t, depth, key, value);
      }
    } else {
      var q := PathThrough(t, key[..depth]);
      if CheckPrefix(t, key, depth) < t.prefixLen {
        SplitIsCorrect(t, depth, key, value, q);
      } else {
        DescentIsCorrect(t, depth, key, value, q);
      }
    }
  }

  lemma {:induction false} DescentIsCorrect(t: Tree, depth: nat, key: Key, value: Value, q: Key)
    requires IsKey(key) && depth <= |key| && GoodVia(t, key[..depth], q)
    requires Good(t, key[..depth]) && CheckPrefix(t, key, depth) >= t.prefixLen
    ensures Good(Insert(t, depth, key, value).tree, key[..depth])
    ensures InsertedInto(t, key, value, Insert(t, depth, key, value))
    decreases t, 0
  {
    hide CheckPrefix, MinLeaf, GoodVia, Fork, MovedDown;
    ViaIsGood(t, key[..depth], q);
    CheckPrefixIsExact(t, key, depth, q);
    PrefixAndOneMore(q, key);
    var b := key[|q|];
    if b in t.children {
      ChildIsGood(t, key[..depth], q, b);
      var r := Insert(t.children[b], |q| + 1, key, value);
      InsertIsCorrect(t.children[b], |q| + 1, key, value);
      InsertedBelow(t, key[..depth], q, key, value, r.tree, r.isNew, r.replaced);
    } else {
      InsertedBelow(t, key[..depth], q, key, value, Leaf(key, value), true, None);
    }
  }
}
