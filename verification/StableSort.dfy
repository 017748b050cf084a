/** Merge sort on sequences of deque nodes: what sorting a deque computes. */
module StableSort {
  import opened Common

  type Value = int

  /** What a node carries: a value and a tag, None for NULL. */
  datatype Item = Item(data: Value, tag: Option<seq<byte>>)

  class Node {
    const item: Item
    var next: Node?
    var prev: Node?

    constructor (i: Item)
      ensures item == i && next == null && prev == null
    {
      item := i;
      next, prev := null, null;
    }
  }

  // ---------------------------------------------------------------------
  // The order
  // ---------------------------------------------------------------------

  /** A comparison callback, or the order of the tags. */
  datatype Order = ByTag | ByData(cmp: (Value, Value) -> int)

  /** The strings end where their sequences end. */
  function StrCmp(a: seq<byte>, b: seq<byte>): int {
    if a == [] && b == [] then 0
    else if a == [] then -1
    else if b == [] then 1
    else if a[0] != b[0] then a[0] - b[0]
    else StrCmp(a[1..], b[1..])
  }

  function TagCompare(a: Option<seq<byte>>, b: Option<seq<byte>>): int {
    match (a, b)
    case (None, None) => 0
    case (None, Some(_)) => 1
    case (Some(_), None) => -1
    case (Some(s), Some(t)) => StrCmp(s, t)
  }

  function Cmp(o: Order, a: Item, b: Item): int {
    match o
    case ByTag => TagCompare(a.tag, b.tag)
    case ByData(cmp) => cmp(a.data, b.data)
  }

  predicate Le(o: Order, a: Item, b: Item) {
    Cmp(o, a, b) <= 0
  }

  predicate Same(o: Order, a: Item, b: Item) {
    Le(o, a, b) && Le(o, b, a)
  }

  ghost predicate Total(o: Order) {
    forall a, b :: Le(o, a, b) || Le(o, b, a)
  }

  ghost predicate Transitive(o: Order) {
    forall a, b, c :: Le(o, a, b) && Le(o, b, c) ==> Le(o, a, c)
  }

  ghost predicate Preorder(o: Order) {
    Total(o) && Transitive(o)
  }

  lemma {:induction false} StrCmpIsAntisymmetric(a: seq<byte>, b: seq<byte>)
    ensures StrCmp(a, b) <= 0 || StrCmp(b, a) <= 0
    ensures StrCmp(a, b) == 0 <==> a == b
  {
    if a != [] && b != [] && a[0] == b[0] {
      StrCmpIsAntisymmetric(a[1..], b[1..]);
      assert a == [a[0]] + a[1..] && b == [b[0]] + b[1..];
    }
  }

  lemma {:induction false} StrCmpIsTransitive(a: seq<byte>, b: seq<byte>, c: seq<byte>)
    requires StrCmp(a, b) <= 0 && StrCmp(b, c) <= 0
    ensures StrCmp(a, c) <= 0
  {
    if a != [] && b != [] && c != [] && a[0] == b[0] == c[0] {
      StrCmpIsTransitive(a[1..], b[1..], c[1..]);
    }
  }

  /** The order of the tags puts nodes without a tag last. */
  lemma {:induction false} TagOrderIsPreorder()
    ensures Preorder(ByTag)
    ensures forall a: Item, b: Item :: a.tag.Some? && b.tag.None? ==> Cmp(ByTag, a, b) < 0 < Cmp(ByTag, b, a)
    ensures forall a: Item, b: Item :: Same(ByTag, a, b) <==> a.tag == b.tag
  {
    forall a: Item, b: Item ensures (Le(ByTag, a, b) || Le(ByTag, b, a)) && (Same(ByTag, a, b) <==> a.tag == b.tag) {
      if a.tag.Some? && b.tag.Some? {
        StrCmpIsAntisymmetric(a.tag.value, b.tag.value);
        StrCmpIsAntisymmetric(b.tag.value, a.tag.value);
        if Same(ByTag, a, b) {
          OnlyEqualBothWays(a.tag.value, b.tag.value);
        }
      }
    }
    forall a: Item, b: Item, c: Item | Le(ByTag, a, b) && Le(ByTag, b, c) ensures Le(ByTag, a, c) {
      if a.tag.Some? && b.tag.Some? && c.tag.Some? {
        StrCmpIsTransitive(a.tag.value, b.tag.value, c.tag.value);
      }
    }
  }

  lemma {:induction false} OnlyEqualBothWays(a: seq<byte>, b: seq<byte>)
    requires StrCmp(a, b) <= 0 && StrCmp(b, a) <= 0
    ensures a == b
  {
    if a == [] || b == [] {
    } else {
      OnlyEqualBothWays(a[1..], b[1..]);
      assert a == [a[0]] + a[1..] && b == [b[0]] + b[1..];
    }
  }

  /** The strings agree up to position i, and there the first has the smaller byte. */
  predicate SmallerAt(a: seq<byte>, b: seq<byte>, i: nat) {
    i < |a| && i < |b| && a[..i] == b[..i] && a[i] < b[i]
  }

  /** The order of a dictionary: a proper prefix comes first, and otherwise the first byte
      that differs decides. */
  ghost predicate DictionaryLess(a: seq<byte>, b: seq<byte>) {
    a < b || exists i :: SmallerAt(a, b, i)
  }

  lemma {:induction false} StrCmpIsDictionary(a: seq<byte>, b: seq<byte>)
    ensures StrCmp(a, b) < 0 <==> DictionaryLess(a, b)
  {
    if a == [] || b == [] {
    } else if a[0] != b[0] {
      assert a[0] < b[0] ==> SmallerAt(a, b, 0);
    } else {
      var c, d := a[1..], b[1..];
      StrCmpIsDictionary(c, d);
      assert a == [a[0]] + c && b == [b[0]] + d;
      if i: nat :| SmallerAt(c, d, i) {
        assert a[..i + 1] == [a[0]] + c[..i] && b[..i + 1] == [b[0]] + d[..i];
        assert SmallerAt(a, b, i + 1);
      }
      if i: nat :| SmallerAt(a, b, i) {
        assert 0 < i && c[..i - 1] == a[..i][1..] && d[..i - 1] == b[..i][1..];
        assert SmallerAt(c, d, i - 1);
      }
    }
  }

  /** Tags are compared byte by byte, as in a dictionary. */
  lemma {:induction false} TagOrderIsDictionary(x: Item, y: Item)
    requires x.tag.Some? && y.tag.Some?
    ensures Cmp(ByTag, x, y) < 0 <==> DictionaryLess(x.tag.value, y.tag.value)
    ensures Cmp(ByTag, x, y) == 0 <==> x.tag == y.tag
  {
    StrCmpIsDictionary(x.tag.value, y.tag.value);
    StrCmpIsAntisymmetric(x.tag.value, y.tag.value);
  }

  // ---------------------------------------------------------------------
  // Merge sort
  // ---------------------------------------------------------------------

  function Merge(o: Order, a: seq<Node>, b: seq<Node>): seq<Node> {
    if a == [] then b
    else if b == [] then a
    else if Le(o, a[0].item, b[0].item) then [a[0]] + Merge(o, a[1..], b)
    else [b[0]] + Merge(o, a, b[1..])
  }

  function MergeSort(o: Order, s: seq<Node>): (r: seq<Node>)
    ensures |s| <= 1 ==> r == s
    decreases |s|
  {
    if |s| <= 1 then s
    else Merge(o, MergeSort(o, s[..|s| / 2]), MergeSort(o, s[|s| / 2..]))
  }

  // ---------------------------------------------------------------------
  // Sorted, a permutation, stable
  // ---------------------------------------------------------------------

  predicate Sorted(o: Order, s: seq<Node>) {
    forall i, j :: 0 <= i < j < |s| ==> Le(o, s[i].item, s[j].item)
  }

  /** The nodes of s that are equivalent to x, in the order they have in s. */
  function Alike(o: Order, s: seq<Node>, x: Item): seq<Node> {
    if s == [] then []
    else (if Same(o, s[0].item, x) then [s[0]] else []) + Alike(o, s[1..], x)
  }

  /** One step of a merge. */
  lemma {:induction false} MergeStep(o: Order, a: seq<Node>, b: seq<Node>)
    ensures a == [] ==> Merge(o, a, b) == b
    ensures b == [] ==> Merge(o, a, b) == a
    ensures a != [] && b != [] && Le(o, a[0].item, b[0].item) ==> Merge(o, a, b) == [a[0]] + Merge(o, a[1..], b)
    ensures a != [] && b != [] && !Le(o, a[0].item, b[0].item) ==> Merge(o, a, b) == [b[0]] + Merge(o, a, b[1..])
  {
  }

  lemma {:induction false} Regroup(x: seq<Node>, y: seq<Node>, z: seq<Node>)
    ensures x + (y + z) == (x + y) + z
    ensures y == [] ==> x + z == y + (x + z)
  {
  }

  lemma {:induction false} CountHead(s: seq<Node>)
    requires s != []
    ensures multiset(s) == multiset{s[0]} + multiset(s[1..])
  {
    assert s == [s[0]] + s[1..];
  }

  lemma {:induction false} MergePermutes(o: Order, a: seq<Node>, b: seq<Node>)
    ensures multiset(Merge(o, a, b)) == multiset(a) + multiset(b)
    ensures |Merge(o, a, b)| == |a| + |b|
  {
    hide Le, Merge;
    MergeStep(o, a, b);
    if a == [] || b == [] {
    } else {
      CountHead(a);
      CountHead(b);
      if Le(o, a[0].item, b[0].item) {
        MergePermutes(o, a[1..], b);
      } else {
        MergePermutes(o, a, b[1..]);
      }
    }
  }

  /** A node that is not after any node of s can stand before s. */
  lemma {:induction false} SortedCons(o: Order, x: Node, s: seq<Node>)
    requires Sorted(o, s) && forall y :: y in s ==> Le(o, x.item, y.item)
    ensures Sorted(o, [x] + s)
  {
    var r := [x] + s;
    forall i, j | 0 <= i < j < |r| ensures Le(o, r[i].item, r[j].item) {
      assert r[j] == s[j - 1] && s[j - 1] in s;
      if 0 < i {
        assert r[i] == s[i - 1];
      }
    }
  }

  lemma {:induction false} HeadIsLeast(o: Order, s: seq<Node>, x: Item, y: Node)
    requires Preorder(o) && Sorted(o, s) && s != [] && Le(o, x, s[0].item) && y in s
    ensures Le(o, x, y.item)
  {
    var i :| 0 <= i < |s| && s[i] == y;
    if 0 < i {
      assert Le(o, s[0].item, s[i].item);
    }
  }

  lemma {:induction false} TailIsSorted(o: Order, s: seq<Node>)
    requires Sorted(o, s) && s != []
    ensures Sorted(o, s[1..])
  {
  }

  lemma {:induction false} MergeIsSorted(o: Order, a: seq<Node>, b: seq<Node>)
    requires Preorder(o) && Sorted(o, a) && Sorted(o, b)
    ensures Sorted(o, Merge(o, a, b))
  {
    hide Sorted, Le, Preorder, Cmp;
    if a == [] || b == [] {
    } else {
      if Le(o, a[0].item, b[0].item) {
        TailIsSorted(o, a);
        MergeIsSorted(o, a[1..], b);
        FirstOfMerge(o, a[0], a[1..], b, a);
        SortedCons(o, a[0], Merge(o, a[1..], b));
      } else {
        TailIsSorted(o, b);
        MergeIsSorted(o, a, b[1..]);
        NotLe(o, a[0].item, b[0].item);
        FirstOfMerge(o, b[0], a, b[1..], b);
        SortedCons(o, b[0], Merge(o, a, b[1..]));
      }
    }
  }

  lemma {:induction false} NotLe(o: Order, a: Item, b: Item)
    requires Preorder(o)
    ensures !Le(o, a, b) ==> Le(o, b, a)
    ensures Le(o, a, a)
  {
  }

  /** A node at or before the heads of two sorted lists is at or before their merge. */
  lemma {:induction false} FirstOfMerge(o: Order, x: Node, a: seq<Node>, b: seq<Node>, from: seq<Node>)
    requires Preorder(o) && from != [] && x == from[0] && Sorted(o, from)
    requires (from[1..] == a && Sorted(o, b) && (b != [] ==> Le(o, x.item, b[0].item))) ||
             (from[1..] == b && Sorted(o, a) && (a != [] ==> Le(o, x.item, a[0].item)))
    ensures forall y :: y in Merge(o, a, b) ==> Le(o, x.item, y.item)
  {
    hide Sorted, Le, Preorder, Cmp;
    MergePermutes(o, a, b);
    NotLe(o, x.item, x.item);
    forall y | y in Merge(o, a, b) ensures Le(o, x.item, y.item) {
      assert y in multiset(Merge(o, a, b));
      if y in from[1..] {
        HeadIsLeast(o, from, x.item, y);
      } else if from[1..] == a {
        HeadIsLeast(o, b, x.item, y);
      } else {
        HeadIsLeast(o, a, x.item, y);
      }
    }
  }

  lemma {:induction false} AlikeAppend(o: Order, a: seq<Node>, b: seq<Node>, x: Item)
    ensures Alike(o, a + b, x) == Alike(o, a, x) + Alike(o, b, x)
  {
    hide Same, Alike, AlikeOne;
    if a == [] {
      NothingAlike(o, x);
      assert a + b == b;
    } else {
      AlikeAppend(o, a[1..], b, x);
      AlikeHead(o, a, x);
      AlikeHead(o, a + b, x);
      assert (a + b)[1..] == a[1..] + b;
      Regroup(AlikeOne(o, a[0], x), Alike(o, a[1..], x), Alike(o, b, x));
    }
  }

  lemma {:induction false} NoneAlike(o: Order, s: seq<Node>, x: Item)
    requires forall y :: y in s ==> !Same(o, y.item, x)
    ensures Alike(o, s, x) == []
  {
    if s == [] {
    } else {
      NoneAlike(o, s[1..], x);
    }
  }

  /** Nothing in a is equivalent to a node that goes before all of a. */
  lemma {:induction false} NothingAlikeAfter(o: Order, a: seq<Node>, y: Item, x: Item)
    requires Preorder(o) && Sorted(o, a) && a != [] && !Le(o, a[0].item, y) && Same(o, y, x)
    ensures Alike(o, a, x) == []
  {
    forall z | z in a ensures !Same(o, z.item, x) {
      NotLe(o, a[0].item, a[0].item);
      HeadIsLeast(o, a, a[0].item, z);
    }
    NoneAlike(o, a, x);
  }

  /** Merging keeps equivalent nodes in order, those of the first list first. */
  lemma {:induction false} MergeIsStable(o: Order, a: seq<Node>, b: seq<Node>, x: Item)
    requires Preorder(o) && Sorted(o, a) && Sorted(o, b)
    ensures Alike(o, Merge(o, a, b), x) == Alike(o, a, x) + Alike(o, b, x)
  {
    hide Sorted, Le, Preorder, Cmp, Same, Alike, Merge;
    MergeStep(o, a, b);
    if a == [] || b == [] {
      NothingAlike(o, x);
    } else if Le(o, a[0].item, b[0].item) {
      TailIsSorted(o, a);
      MergeIsStable(o, a[1..], b, x);
      AlikeCons(o, a[0], Merge(o, a[1..], b), x);
      AlikeHead(o, a, x);
      Regroup(AlikeOne(o, a[0], x), Alike(o, a[1..], x), Alike(o, b, x));
    } else {
      TailIsSorted(o, b);
      MergeIsStable(o, a, b[1..], x);
      AlikeCons(o, b[0], Merge(o, a, b[1..]), x);
      AlikeHead(o, b, x);
      Regroup(AlikeOne(o, b[0], x), Alike(o, a, x), Alike(o, b[1..], x));
      if Same(o, b[0].item, x) {
        NothingAlikeAfter(o, a, b[0].item, x);
      }
    }
  }

  function AlikeOne(o: Order, y: Node, x: Item): seq<Node> {
    if Same(o, y.item, x) then [y] else []
  }

  lemma {:induction false} AlikeHead(o: Order, s: seq<Node>, x: Item)
    requires s != []
    ensures Alike(o, s, x) == AlikeOne(o, s[0], x) + Alike(o, s[1..], x)
  {
    hide Same;
  }

  lemma {:induction false} NothingAlike(o: Order, x: Item)
    ensures Alike(o, [], x) == []
  {
  }

  lemma {:induction false} AlikeCons(o: Order, y: Node, s: seq<Node>, x: Item)
    ensures Alike(o, [y] + s, x) == AlikeOne(o, y, x) + Alike(o, s, x)
  {
    hide Same;
    assert ([y] + s)[1..] == s;
  }

  /** Merge sort gives the same nodes, in order, with equivalent nodes as they were. */
  lemma {:induction false} MergeSortIsStableSort(o: Order, s: seq<Node>, x: Item)
    requires Preorder(o)
    ensures Sorted(o, MergeSort(o, s))
    ensures multiset(MergeSort(o, s)) == multiset(s)
    ensures Alike(o, MergeSort(o, s), x) == Alike(o, s, x)
    decreases |s|
  {
    hide Sorted, Le, Preorder, Cmp, Same, Alike, Merge;
    if |s| <= 1 {
      ShortIsSorted(o, s);
    } else {
      var a, b := s[..|s| / 2], s[|s| / 2..];
      assert s == a + b;
      MergeSortIsStableSort(o, a, x);
      MergeSortIsStableSort(o, b, x);
      MergeIsSorted(o, MergeSort(o, a), MergeSort(o, b));
      MergePermutes(o, MergeSort(o, a), MergeSort(o, b));
      MergeIsStable(o, MergeSort(o, a), MergeSort(o, b), x);
      AlikeAppend(o, a, b, x);
    }
  }

  lemma {:induction false} ShortIsSorted(o: Order, s: seq<Node>)
    requires |s| <= 1
    ensures Sorted(o, s)
  {
  }

  // ---------------------------------------------------------------------
  // What the two orders mean for the sorted nodes
  // ---------------------------------------------------------------------

  /** x may stand before y: by tag, nodes without a tag come last and the others as in a
      dictionary. */
  ghost predicate InTagOrder(x: Item, y: Item) {
    y.tag.None? || (x.tag.Some? && (x.tag == y.tag || DictionaryLess(x.tag.value, y.tag.value)))
  }

  ghost predicate IsPreorder(cmp: (Value, Value) -> int) {
    && (forall a, b :: cmp(a, b) <= 0 || cmp(b, a) <= 0)
    && (forall a, b, c :: cmp(a, b) <= 0 && cmp(b, c) <= 0 ==> cmp(a, c) <= 0)
  }

  ghost predicate InOrder(o: Order, s: seq<Node>) {
    match o
    case ByTag => forall i, j :: 0 <= i < j < |s| ==> InTagOrder(s[i].item, s[j].item)
    case ByData(cmp) => IsPreorder(cmp) ==> forall i, j :: 0 <= i < j < |s| ==> cmp(s[i].item.data, s[j].item.data) <= 0
  }

  lemma {:induction false} SortedIsInOrder(o: Order, s: seq<Node>)
    ensures InOrder(o, MergeSort(o, s))
  {
    hide MergeSort, StrCmp, Alike;
    var r := MergeSort(o, s);
    if o.ByTag? {
      TagOrderIsPreorder();
      MergeSortIsStableSort(o, s, Item(0, None));
      forall i, j | 0 <= i < j < |r| ensures InTagOrder(r[i].item, r[j].item) {
        assert Le(o, r[i].item, r[j].item);
        if r[i].item.tag.Some? && r[j].item.tag.Some? {
          TagOrderIsDictionary(r[i].item, r[j].item);
        }
      }
    } else if IsPreorder(o.cmp) {
      CallbackIsPreorder(o.cmp);
      MergeSortIsStableSort(o, s, Item(0, None));
      forall i, j | 0 <= i < j < |r| ensures o.cmp(r[i].item.data, r[j].item.data) <= 0 {
        assert Le(o, r[i].item, r[j].item);
      }
    }
  }

  lemma {:induction false} CallbackIsPreorder(cmp: (Value, Value) -> int)
    requires IsPreorder(cmp)
    ensures Preorder(ByData(cmp))
  {
    var o := ByData(cmp);
    forall a, b ensures Le(o, a, b) || Le(o, b, a) {
      assert cmp(a.data, b.data) <= 0 || cmp(b.data, a.data) <= 0;
    }
    forall a, b, c | Le(o, a, b) && Le(o, b, c) ensures Le(o, a, c) {
      assert cmp(a.data, b.data) <= 0 && cmp(b.data, c.data) <= 0;
    }
  }
}
