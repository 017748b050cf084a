/** The order in which the radix tree is walked, and prefix search. */
module RadixOrder {
  import opened Common
  import opened ArtKeys
  import opened RadixTree

  datatype Entry = Entry(key: Key, value: Value)

  /** The leaves below t in the order the recursive walk meets them. */
  function InOrder(t: Tree): seq<Entry>
    decreases t, 257
  {
    match t
    case Leaf(key, value) => [Entry(key, value)]
    case Inner(_, _, children) => InOrderUnder(t, Bytes(children.Keys))
  }

  /** The leaves below the children of t named by bs. */
  function InOrderUnder(t: Tree, bs: seq<byte>): seq<Entry>
    requires t.Inner? && forall b :: b in bs ==> b in t.children
    decreases t, |bs|
  {
    if bs == [] then []
    else InOrder(t.children[bs[0]]) + InOrderUnder(t, bs[1..])
  }

  // ---------------------------------------------------------------------
  // Every leaf once, in ascending key order
  // ---------------------------------------------------------------------

  /** Byte-wise order of NUL-terminated strings: the order of strcmp. */
  ghost predicate KeyLess(a: Key, b: Key) {
    exists i :: LessAt(a, b, i)
  }

  predicate LessAt(a: Key, b: Key, i: nat) {
    i < |a| && i < |b| && a[..i] == b[..i] && a[i] < b[i]
  }

  lemma {:induction false} KeyLessIsIrreflexive(a: Key, b: Key)
    requires KeyLess(a, b)
    ensures a != b
  {
  }

  ghost predicate SortedByKey(s: seq<Entry>) {
    forall i, j :: 0 <= i < j < |s| ==> KeyLess(s[i].key, s[j].key)
  }

  lemma {:induction false} SortedAppend(a: seq<Entry>, b: seq<Entry>)
    requires SortedByKey(a) && SortedByKey(b)
    requires forall x, y :: x in a && y in b ==> KeyLess(x.key, y.key)
    ensures SortedByKey(a + b)
  {
    var s := a + b;
    forall i, j | 0 <= i < j < |s| ensures KeyLess(s[i].key, s[j].key) {
      if i < |a| <= j {
        assert s[i] in a && s[j] in b;
      }
    }
  }

  lemma {:induction false} InOrderListsTheLeaves(t: Tree, e: Entry)
    ensures e in InOrder(t) <==> In(t, e.key, e.value)
    decreases t, 257
  {
    if t.Inner? {
      InOrderUnderListsTheLeaves(t, Bytes(t.children.Keys), e);
    }
  }

  lemma {:induction false} InOrderUnderListsTheLeaves(t: Tree, bs: seq<byte>, e: Entry)
    requires t.Inner? && forall b :: b in bs ==> b in t.children
    ensures e in InOrderUnder(t, bs) <==> exists b :: b in bs && In(t.children[b], e.key, e.value)
    decreases t, |bs|
  {
    if bs == [] {
    } else {
      InOrderListsTheLeaves(t.children[bs[0]], e);
      InOrderUnderListsTheLeaves(t, bs[1..], e);
      assert forall b :: b in bs <==> b == bs[0] || b in bs[1..];
    }
  }

  /** Keys below a smaller branch byte come before keys below a larger one. */
  lemma {:induction false} BranchesAreOrdered(t: Tree, p: Key, q: Key, b: byte, c: byte, x: Entry, y: Entry)
    requires GoodVia(t, p, q) && b in t.children && c in t.children && b < c
    requires In(t.children[b], x.key, x.value) && In(t.children[c], y.key, y.value)
    ensures KeyLess(x.key, y.key)
  {
    KeysShareThePath(t.children[b], q + [b], x.key, x.value);
    KeysShareThePath(t.children[c], q + [c], y.key, y.value);
    BranchOrder(q, b, c, x.key, y.key);
  }

  lemma {:induction false} BranchOrder(q: Key, b: byte, c: byte, k: Key, l: Key)
    requires q + [b] <= k && q + [c] <= l && b < c
    ensures KeyLess(k, l)
  {
    assert k[..|q|] == q && l[..|q|] == q;
    assert k[|q|] == b && l[|q|] == c;
    assert LessAt(k, l, |q|);
  }

  lemma {:induction false} InOrderIsSorted(t: Tree, p: Key)
    requires Good(t, p)
    ensures SortedByKey(InOrder(t))
    decreases t, 257
  {
    if t.Inner? {
      InOrderUnderIsSorted(t, p, PathThrough(t, p), Bytes(t.children.Keys));
    }
  }

  lemma {:induction false} InOrderUnderIsSorted(t: Tree, p: Key, q: Key, bs: seq<byte>)
    requires GoodVia(t, p, q) && StrictlyAscending(bs) && forall b :: b in bs ==> b in t.children
    ensures SortedByKey(InOrderUnder(t, bs))
    decreases t, |bs|
  {
    if bs == [] {
    } else {
      var first, rest := InOrder(t.children[bs[0]]), InOrderUnder(t, bs[1..]);
      ChildIsGood(t, p, q, bs[0]);
      InOrderIsSorted(t.children[bs[0]], q + [bs[0]]);
      InOrderUnderIsSorted(t, p, q, bs[1..]);
      forall x, y | x in first && y in rest ensures KeyLess(x.key, y.key) {
        InOrderListsTheLeaves(t.children[bs[0]], x);
        InOrderUnderListsTheLeaves(t, bs[1..], y);
        var c :| c in bs[1..] && In(t.children[c], y.key, y.value);
        BranchesAreOrdered(t, p, q, bs[0], c, x, y);
      }
      SortedAppend(first, rest);
    }
  }

  // ---------------------------------------------------------------------
  // Prefix search
  // ---------------------------------------------------------------------

  /** The entries of s whose key starts with pre, in order. */
  function StartingWith(s: seq<Entry>, pre: Key): seq<Entry> {
    if s == [] then []
    else (if pre <= s[0].key then [s[0]] else []) + StartingWith(s[1..], pre)
  }

  lemma {:induction false} StartingWithAppend(a: seq<Entry>, b: seq<Entry>, pre: Key)
    ensures StartingWith(a + b, pre) == StartingWith(a, pre) + StartingWith(b, pre)
    decreases |a|
  {
    if a == [] {
      assert a + b == b;
    } else {
      assert (a + b)[1..] == a[1..] + b;
      StartingWithAppend(a[1..], b, pre);
    }
  }

  lemma {:induction false} AllStartWith(s: seq<Entry>, pre: Key)
    requires forall e :: e in s ==> pre <= e.key
    ensures StartingWith(s, pre) == s
    decreases |s|
  {
    if s == [] {
    } else {
      assert forall e :: e in s[1..] ==> e in s;
      AllStartWith(s[1..], pre);
    }
  }

  lemma {:induction false} NoneStartWith(s: seq<Entry>, pre: Key)
    requires forall e :: e in s ==> !(pre <= e.key)
    ensures StartingWith(s, pre) == []
    decreases |s|
  {
    if s == [] {
    } else {
      assert s[0] in s && forall e :: e in s[1..] ==> e in s;
      NoneStartWith(s[1..], pre);
    }
  }

  /** What prefix search walks: it follows stored prefix bytes and branch bytes until
      the prefix is used up, then looks at one leaf only to decide about them all. */
  function PrefixSearch(t: Tree, depth: nat, pre: Key): seq<Entry>
    requires depth <= |pre|
    decreases t
  {
    match t
    case Leaf(key, value) => if pre <= key then [Entry(key, value)] else []
    case Inner(prefixLen, _, children) =>
      var len := CheckPrefixPartial(t, pre, depth);
      var d := depth + prefixLen;
      if len < Min(prefixLen, MAX_PREFIX_LEN) && depth + len < |pre| then []
      else if d >= |pre| then
        (if MinLeaf(t).Leaf? && pre <= MinLeaf(t).key then InOrder(t) else [])
      else if pre[d] in children then PrefixSearch(children[pre[d]], d + 1, pre)
      else []
  }

  /** Prefix search returns exactly the keys that start with the prefix, in order. */
  lemma {:induction false} PrefixSearchIsExact(t: Tree, p: Key, pre: Key)
    requires Good(t, p) && |p| <= |pre|
    ensures PrefixSearch(t, |p|, pre) == StartingWith(InOrder(t), pre)
    decreases t, 1
  {
    if t.Inner? {
      hide Good, GoodVia, StartingWith, CheckPrefixPartial, MinLeaf, InOrderUnder;
      var q := PathThrough(t, p);
      ViaIsGood(t, p, q);
      var len := CheckPrefixPartial(t, pre, |p|);
      if len < Min(t.prefixLen, MAX_PREFIX_LEN) && |p| + len < |pre| {
        StoredByteDiffers(t, p, q, pre);
      } else if |q| >= |pre| {
        OneLeafDecides(t, p, q, pre);
      } else {
        PrefixSearchDescends(t, p, q, pre);
      }
    }
  }

  lemma {:induction false} PrefixSearchDescends(t: Tree, p: Key, q: Key, pre: Key)
    requires GoodVia(t, p, q) && |q| < |pre|
    requires CheckPrefixPartial(t, pre, |p|) >= Min(t.prefixLen, MAX_PREFIX_LEN)
    ensures PrefixSearch(t, |p|, pre) == StartingWith(InOrder(t), pre)
    decreases t, 0
  {
    hide Good, GoodVia, StartingWith, CheckPrefixPartial, MinLeaf, InOrderUnder;
    ViaIsGood(t, p, q);
    OnlyOneBranch(t, p, q, pre, Bytes(t.children.Keys));
    if pre[|q|] in t.children {
      ChildIsGood(t, p, q, pre[|q|]);
      var p' := q + [pre[|q|]];
      assert |p'| == |q| + 1;
      PrefixSearchIsExact(t.children[pre[|q|]], p', pre);
    }
  }

  lemma {:induction false} StoredByteDiffers(t: Tree, p: Key, q: Key, pre: Key)
    requires GoodVia(t, p, q) && |p| <= |pre|
    requires var len := CheckPrefixPartial(t, pre, |p|);
             len < Min(t.prefixLen, MAX_PREFIX_LEN) && |p| + len < |pre|
    ensures StartingWith(InOrder(t), pre) == []
  {
    var d := |p| + CheckPrefixPartial(t, pre, |p|);
    assert pre[d] != q[d];
    forall e | e in InOrder(t) ensures !(pre <= e.key) {
      InOrderListsTheLeaves(t, e);
      KeysShareTheFullPrefix(t, p, q, e.key, e.value);
      assert e.key[d] == q[d];
    }
    NoneStartWith(InOrder(t), pre);
  }

  lemma {:induction false} OneLeafDecides(t: Tree, p: Key, q: Key, pre: Key)
    requires GoodVia(t, p, q) && |pre| <= |q|
    ensures StartingWith(InOrder(t), pre)
         == if MinLeaf(t).Leaf? && pre <= MinLeaf(t).key then InOrder(t) else []
  {
    MinLeafShowsThePrefix(t, p, q);
    ShorterPrefix(pre, q, MinLeaf(t).key);
    forall e | e in InOrder(t) ensures pre <= e.key <==> pre <= q {
      InOrderListsTheLeaves(t, e);
      KeysShareTheFullPrefix(t, p, q, e.key, e.value);
      ShorterPrefix(pre, q, e.key);
    }
    if pre <= q {
      AllStartWith(InOrder(t), pre);
    } else {
      NoneStartWith(InOrder(t), pre);
    }
  }

  lemma {:induction false} ShorterPrefix(pre: Key, q: Key, k: Key)
    requires |pre| <= |q| && q <= k
    ensures pre <= k <==> pre <= q
  {
    assert k[..|pre|] == q[..|pre|];
  }

  /** Past the node's prefix, only the child under the next prefix byte can match. */
  lemma {:induction false} OnlyOneBranch(t: Tree, p: Key, q: Key, pre: Key, bs: seq<byte>)
    requires GoodVia(t, p, q) && |q| < |pre|
    requires StrictlyAscending(bs) && forall b :: b in bs ==> b in t.children
    ensures StartingWith(InOrderUnder(t, bs), pre)
         == if pre[|q|] in bs then StartingWith(InOrder(t.children[pre[|q|]]), pre) else []
    decreases |bs|
  {
    if bs == [] {
    } else {
      var first, rest := InOrder(t.children[bs[0]]), InOrderUnder(t, bs[1..]);
      StartingWithAppend(first, rest, pre);
      OnlyOneBranch(t, p, q, pre, bs[1..]);
      assert bs == [bs[0]] + bs[1..];
      if bs[0] == pre[|q|] {
        assert forall b :: b in bs[1..] ==> b > bs[0];
      } else {
        OtherBranch(t, p, q, pre, bs[0]);
      }
    }
  }

  lemma {:induction false} OtherBranch(t: Tree, p: Key, q: Key, pre: Key, b: byte)
    requires GoodVia(t, p, q) && |q| < |pre| && b in t.children && b != pre[|q|]
    ensures StartingWith(InOrder(t.children[b]), pre) == []
  {
    ChildIsGood(t, p, q, b);
    forall e | e in InOrder(t.children[b]) ensures !(pre <= e.key) {
      InOrderListsTheLeaves(t.children[b], e);
      KeysShareThePath(t.children[b], q + [b], e.key, e.value);
      assert e.key[|q|] == (q + [b])[|q|] == b;
    }
    NoneStartWith(InOrder(t.children[b]), pre);
  }
}
