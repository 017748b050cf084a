/** Doubly linked chains of deque nodes, and merge sort by relinking them. */
module DequeLinks {
  import opened StableSort

  // ---------------------------------------------------------------------
  // Chains
  // ---------------------------------------------------------------------

  ghost predicate Distinct(s: seq<Node>) {
    forall i, j :: 0 <= i < j < |s| ==> s[i] != s[j]
  }

  ghost predicate Disjoint(a: seq<Node>, b: seq<Node>) {
    forall x :: x in a ==> x !in b
  }

  ghost predicate Joined(a: Node, b: Node)
    reads a, b
  {
    a.next == b && b.prev == a
  }

  /** The next and prev links inside s are each other's inverse. */
  ghost predicate Links(s: seq<Node>)
    reads s
  {
    forall i, j :: 0 <= i < j < |s| && j == i + 1 ==> Joined(s[i], s[j])
  }

  /** Nothing follows the last node of s. */
  ghost predicate Ends(s: seq<Node>)
    reads s
  {
    s != [] ==> s[|s| - 1].next == null
  }

  ghost predicate Begins(s: seq<Node>)
    reads s
  {
    s != [] ==> s[0].prev == null
  }

  /** A whole list of its own, from a first node to a last one. */
  ghost predicate Chain(s: seq<Node>)
    reads s
  {
    Distinct(s) && Links(s) && Begins(s) && Ends(s)
  }

  function Head(s: seq<Node>): Node? {
    if s == [] then null else s[0]
  }

  lemma {:induction false} TailOfList(s: seq<Node>)
    requires s != [] && Distinct(s) && Links(s) && Ends(s)
    ensures Distinct(s[1..]) && Links(s[1..]) && Ends(s[1..])
    ensures s[0].next == Head(s[1..]) && s[0] !in s[1..]
    ensures s == [s[0]] + s[1..]
  {
    assert |s| > 1 ==> Joined(s[0], s[1]);
  }

  lemma {:induction false} DistinctSnoc(s: seq<Node>, x: Node)
    requires Distinct(s) && x !in s
    ensures Distinct(s + [x])
  {
  }

  // ---------------------------------------------------------------------
  // deque_merge
  // ---------------------------------------------------------------------

  function Last(s: seq<Node>): Node? {
    if s == [] then null else s[|s| - 1]
  }

  ghost predicate Apart3(a: seq<Node>, b: seq<Node>, c: seq<Node>) {
    && Distinct(a) && Distinct(b) && Distinct(c)
    && Disjoint(a, b) && Disjoint(a, c) && Disjoint(b, c)
  }

  /** What is merged so far, and what is left of the two lists. */
  ghost predicate Merging(done: seq<Node>, a: seq<Node>, b: seq<Node>)
    reads done, a, b
  {
    && Apart3(done, a, b)
    && Links(done) && Begins(done) && Ends(done)
    && Links(a) && Ends(a) && Links(b) && Ends(b)
  }

  lemma {:induction false} MovedIsApart(done: seq<Node>, a: seq<Node>, b: seq<Node>)
    requires Apart3(done, a, b) && a != []
    ensures Apart3(done + [a[0]], a[1..], b) && a[0] !in done && a[0] !in a[1..] && a[0] !in b
  {
    assert a[0] in a && forall x :: x in a[1..] ==> x in a;
    DistinctSnoc(done, a[0]);
  }

  /** Hangs x behind the last node of done, or makes it the first. */
  method Attach(node: Node?, x: Node, ghost done: seq<Node>)
    requires Distinct(done) && Links(done) && Begins(done) && x !in done && node == Last(done)
    modifies x, if node == null then {} else {node}
    ensures Links(done + [x]) && Begins(done + [x]) && Ends(done + [x])
  {
    if node == null {
      x.prev := null;
      x.next := null;
    } else {
      node.next := x;
      x.prev := node;
      x.next := null;
    }
    ghost var s := done + [x];
    forall i, j | 0 <= i < j < |s| && j == i + 1 ensures Joined(s[i], s[j]) {
      assert j < |done| ==> old(Joined(done[i], done[j])) && done[i] != done[|done| - 1];
    }
  }

  /** Moves the first node of a list to the end of what is merged. */
  method Take(node: Node?, x: Node, ghost done: seq<Node>, ghost a: seq<Node>, ghost b: seq<Node>) returns (next: Node?)
    requires Merging(done, a, b) && a != [] && x == a[0] && node == Last(done)
    modifies x, if node == null then {} else {node}
    ensures next == Head(a[1..]) && Merging(done + [x], a[1..], b)
  {
    hide Distinct, Disjoint, Links, Ends, Begins;
    MovedIsApart(done, a, b);
    TailOfList(a);
    LastIsIn(done);
    next := x.next;
    Elsewhere(node, x, done, a, b);
    Attach(node, x, done);
  }

  lemma {:induction false} LastIsIn(s: seq<Node>)
    ensures Last(s) != null ==> Last(s) in s
  {
  }

  lemma {:induction false} Elsewhere(node: Node?, x: Node, done: seq<Node>, a: seq<Node>, b: seq<Node>)
    requires Apart3(done, a, b) && a != [] && x == a[0] && node == Last(done)
    ensures x !in a[1..] && x !in b && x !in done && node !in a[1..] && node !in b
  {
    MovedIsApart(done, a, b);
    LastIsIn(done);
  }

  lemma {:induction false} Swapped(done: seq<Node>, a: seq<Node>, b: seq<Node>)
    requires Merging(done, a, b)
    ensures Merging(done, b, a)
  {
    hide Distinct, Links, Ends, Begins;
  }

  lemma {:induction false} DistinctConcat(a: seq<Node>, b: seq<Node>)
    requires Distinct(a) && Distinct(b) && Disjoint(a, b)
    ensures Distinct(a + b)
  {
    var s := a + b;
    forall i, j | 0 <= i < j < |s| ensures s[i] != s[j] {
      if i < |a| <= j {
        assert s[i] in a && s[j] in b;
      }
    }
  }

  lemma {:induction false} LinksConcat(a: seq<Node>, b: seq<Node>)
    requires Links(a) && Links(b) && (a != [] && b != [] ==> Joined(a[|a| - 1], b[0]))
    ensures Links(a + b)
  {
  }

  /** The rest of one list is hung behind what is merged, node by node. */
  method Drain(last: Node, first: Node?, ghost done: seq<Node>, ghost rest: seq<Node>)
    requires Distinct(done) && Distinct(rest) && Disjoint(done, rest) && done != [] && last == Last(done)
    requires Links(done) && Begins(done) && Ends(done) && Links(rest) && Ends(rest) && first == Head(rest)
    modifies last, rest
    ensures Chain(done + rest)
  {
    hide Distinct, Disjoint;
    var node, left := last, first;
    ghost var k := 0;
    OutsideOf(done, rest);
    while left != null
      invariant 0 <= k <= |rest| && left == Head(rest[k..]) && node == (if k == 0 then last else rest[k - 1])
      invariant Links(done) && Begins(done) && (rest == [] ==> Ends(done))
      invariant Links(rest) && Ends(rest) && (0 < k ==> Joined(last, rest[0]))
      decreases |rest| - k
    {
      assert left == rest[k];
      TailFrom(rest, k);
      var next := left.next;
      JoinAt(node, left, done, rest, k);
      left := next;
      node := node.next;
      k := k + 1;
    }
    DistinctConcat(done, rest);
    LinksConcat(done, rest);
  }

  lemma {:induction false} OutsideOf(done: seq<Node>, rest: seq<Node>)
    requires Disjoint(done, rest) && done != []
    ensures done[|done| - 1] !in rest && forall x :: x in rest ==> x !in done
  {
    assert done[|done| - 1] in done;
  }

  lemma {:induction false} TailFrom(s: seq<Node>, k: nat)
    requires k < |s| && Links(s) && Ends(s)
    ensures s[k].next == Head(s[k + 1..])
  {
    assert k + 1 < |s| ==> Joined(s[k], s[k + 1]);
  }

  /** From the second node on, the links are there already. */
  method JoinAt(node: Node, x: Node, ghost done: seq<Node>, ghost rest: seq<Node>, ghost k: nat)
    requires Distinct(done) && Distinct(rest) && Disjoint(done, rest) && done != [] && k < |rest| && x == rest[k]
    requires Links(done) && Begins(done) && Links(rest) && Ends(rest)
    requires if k == 0 then node == Last(done) else node == rest[k - 1] && Joined(done[|done| - 1], rest[0])
    modifies node`next, x`prev
    ensures Links(done) && Begins(done) && Links(rest) && Ends(rest) && Joined(done[|done| - 1], rest[0])
    ensures node.next == x && x.next == old(x.next)
  {
    OutsideOf(done, rest);
    assert x in rest && rest[0] in rest && done[0] in done;
    assert k == 0 ==> node in done;
    assert 0 < k ==> Joined(rest[k - 1], rest[k]);
    node.next := x;
    x.prev := node;
    forall i, j | 0 <= i < j < |done| && j == i + 1 ensures Joined(done[i], done[j]) {
      assert old(Joined(done[i], done[j])) && done[i] != done[|done| - 1] && done[j] in done;
    }
    forall i, j | 0 <= i < j < |rest| && j == i + 1 ensures Joined(rest[i], rest[j]) {
      assert old(Joined(rest[i], rest[j])) && rest[j] != rest[0] && rest[i] in rest;
    }
  }

  /** deque_merge: relinks the nodes of two lists into one. */
  method MergeLists(o: Order, node1: Node?, node2: Node?, ghost a: seq<Node>, ghost b: seq<Node>)
    returns (start: Node?, ghost r: seq<Node>)
    requires Chain(a) && Chain(b) && Disjoint(a, b) && node1 == Head(a) && node2 == Head(b)
    modifies a, b
    ensures r == Merge(o, a, b) && Chain(r) && start == Head(r)
  {
    hide Merge, Distinct, Disjoint, Links, Ends, Begins;
    r := Merge(o, a, b);
    MergeStep(o, a, b);
    if node1 == null {
      return node2, r;
    }
    if node2 == null {
      return node1, r;
    }
    ghost var done: seq<Node> := [];
    ghost var la, lb := a, b;
    NothingMerged(a, b);
    var node: Node?, left, right := null, node1, node2;
    start := null;
    while left != null && right != null
      invariant Merging(done, la, lb) && Within(done, la, lb, a, b)
      invariant start == Head(done) && node == Last(done) && left == Head(la) && right == Head(lb)
      invariant r == done + Merge(o, la, lb)
      invariant node == null ==> left != null && right != null
      decreases |la| + |lb|
    {
      MergeStep(o, la, lb);
      Inside(done, la, lb, a, b);
      if Cmp(o, left.item, right.item) <= 0 {
        var next := Take(node, left, done, la, lb);
        if node == null {
          start := left;
        }
        node := left;
        Regroup(done, [left], Merge(o, la[1..], lb));
        done, la := done + [left], la[1..];
        left := next;
      } else {
        Swapped(done, la, lb);
        var next := Take(node, right, done, lb, la);
        if node == null {
          start := right;
        }
        node := right;
        Regroup(done, [right], Merge(o, la, lb[1..]));
        done, lb := done + [right], lb[1..];
        Swapped(done, lb, la);
        right := next;
      }
    }
    MergeStep(o, la, lb);
    Inside(done, la, lb, a, b);
    assert forall i :: 0 <= i < |la| ==> la[i] in a || la[i] in b;
    assert forall i :: 0 <= i < |lb| ==> lb[i] in a || lb[i] in b;
    if left != null {
      Drain(node, left, done, la);
    } else {
      Drain(node, right, done, lb);
    }
  }

  ghost predicate Within(done: seq<Node>, la: seq<Node>, lb: seq<Node>, a: seq<Node>, b: seq<Node>) {
    forall x :: x in done + la + lb ==> x in a + b
  }

  lemma {:induction false} Inside(done: seq<Node>, la: seq<Node>, lb: seq<Node>, a: seq<Node>, b: seq<Node>)
    requires Within(done, la, lb, a, b)
    ensures Last(done) != null ==> Last(done) in a || Last(done) in b
    ensures forall x :: x in la || x in lb ==> x in a || x in b
    ensures la != [] ==> la[0] in la && Within(done + [la[0]], la[1..], lb, a, b)
    ensures lb != [] ==> lb[0] in lb && Within(done + [lb[0]], la, lb[1..], a, b)
  {
    assert forall x :: x in done + la + lb <==> x in done || x in la || x in lb;
    LastIsIn(done);
  }

  lemma {:induction false} NothingMerged(a: seq<Node>, b: seq<Node>)
    requires Chain(a) && Chain(b) && Disjoint(a, b)
    ensures Merging([], a, b)
  {
  }

  // ---------------------------------------------------------------------
  // deque_sort
  // ---------------------------------------------------------------------

  /** get_middle: one pointer takes one step while the other takes two. */
  method GetMiddle(node: Node, ghost s: seq<Node>) returns (slow: Node)
    requires Links(s) && Ends(s) && node == Head(s)
    ensures slow == s[|s| / 2]
  {
    slow := node;
    var fast: Node? := node;
    ghost var k := 0;
    while fast != null && fast.next != null
      invariant 0 <= k < |s| && 2 * k <= |s| && slow == s[k]
      invariant fast == if 2 * k < |s| then s[2 * k] else null
      decreases |s| - k
    {
      TailFrom(s, k);
      TailFrom(s, 2 * k);
      TailFrom(s, 2 * k + 1);
      slow := slow.next;
      fast := fast.next.next;
      k := k + 1;
    }
    if fast != null {
      TailFrom(s, 2 * k);
    }
  }

  lemma {:induction false} Halves(s: seq<Node>, m: nat)
    requires Distinct(s) && 0 < m < |s|
    ensures Distinct(s[..m]) && Distinct(s[m..]) && Disjoint(s[..m], s[m..]) && s == s[..m] + s[m..]
  {
    var a, b := s[..m], s[m..];
    forall x | x in a ensures x !in b {
      var i :| 0 <= i < m && s[i] == x;
      assert forall j :: 0 <= j < |b| ==> b[j] == s[m + j] != x;
    }
  }

  /** Cuts a list in two behind its first m nodes. */
  method Cut(mid: Node, ghost s: seq<Node>, ghost m: nat)
    requires Chain(s) && 0 < m < |s| && mid == s[m]
    modifies s
    ensures Chain(s[..m]) && Chain(s[m..])
  {
    assert Joined(s[m - 1], s[m]);
    var prevmid := mid.prev;
    mid.prev := null;
    prevmid.next := null;
    Halves(s, m);
    forall i, j | 0 <= i < j < |s| && j == i + 1 && j != m ensures Joined(s[i], s[j]) {
      assert old(Joined(s[i], s[j])) && s[j] != mid && s[i] != prevmid;
    }
  }

  /** deque_sort: sorts a list by relinking its nodes. */
  method SortList(o: Order, node: Node?, ghost s: seq<Node>) returns (head: Node?, ghost r: seq<Node>)
    requires Chain(s) && node == Head(s)
    modifies s
    ensures r == MergeSort(o, s) && Chain(r) && head == Head(r)
    decreases |s|, 1
  {
    hide Distinct, Disjoint, Merge, MergeSort, Chain;
    OneNode(s);
    SortSteps(o, s);
    if node == null || node.next == null {
      return node, s;
    }
    ChainIsList(s);
    var mid := GetMiddle(node, s);
    ghost var m := |s| / 2;
    Cut(mid, s, m);
    SortedHalves(o, s, m);
    var node1, node2 := SortHalves(o, node, mid, s[..m], s[m..]);
    ghost var r1;
    head, r1 := MergeLists(o, node1, node2, MergeSort(o, s[..m]), MergeSort(o, s[m..]));
    r := MergeSort(o, s);
  }

  /** Both halves, one after the other. */
  method SortHalves(o: Order, node: Node, mid: Node, ghost a: seq<Node>, ghost b: seq<Node>) returns (node1: Node?,
                    node2: Node?)
    requires Chain(a) && Chain(b) && node == Head(a) && mid == Head(b)
    requires Separate(a, b) && Separate(MergeSort(o, a), b)
    modifies a, b
    ensures Chain(MergeSort(o, a)) && Chain(MergeSort(o, b))
    ensures node1 == Head(MergeSort(o, a)) && node2 == Head(MergeSort(o, b))
    decreases |a| + |b|, 0
  {
    hide MergeSort, Chain;
    ghost var r1, r2;
    assert mid == b[0] && node == a[0];
    node1, r1 := SortList(o, node, a);
    ChainKept(b);
    label L2:
    node2, r2 := SortList(o, mid, b);
    ChainKept@L2(r1);
  }

  ghost predicate Separate(a: seq<Node>, b: seq<Node>) {
    forall i, j :: 0 <= i < |a| && 0 <= j < |b| ==> a[i] != b[j]
  }

  lemma {:induction false} ChainIsList(s: seq<Node>)
    requires Chain(s)
    ensures Distinct(s) && Links(s) && Ends(s)
  {
  }

  twostate lemma {:induction false} ChainKept(s: seq<Node>)
    requires old(Chain(s))
    requires forall i :: 0 <= i < |s| ==> s[i].next == old(s[i].next) && s[i].prev == old(s[i].prev)
    ensures Chain(s)
  {
    forall i, j | 0 <= i < j < |s| && j == i + 1 ensures Joined(s[i], s[j]) {
      assert old(Joined(s[i], s[j]));
    }
  }

  lemma {:induction false} SortSteps(o: Order, s: seq<Node>)
    ensures |s| <= 1 ==> MergeSort(o, s) == s
    ensures |s| > 1 ==> MergeSort(o, s) == Merge(o, MergeSort(o, s[..|s| / 2]), MergeSort(o, s[|s| / 2..]))
  {
  }

  /** The halves stay apart while they are sorted. */
  lemma {:induction false} SortedHalves(o: Order, s: seq<Node>, m: nat)
    requires Distinct(s) && 0 < m < |s|
    ensures var a, b := s[..m], s[m..];
            var r1, r2 := MergeSort(o, a), MergeSort(o, b);
            && Separate(a, b) && Separate(r1, b) && Disjoint(r1, r2) && s == a + b
            && (forall i :: 0 <= i < |a| ==> a[i] in s)
            && (forall i :: 0 <= i < |b| ==> b[i] in s)
            && (forall i :: 0 <= i < |r1| ==> r1[i] in s)
            && (forall i :: 0 <= i < |r2| ==> r2[i] in s)
  {
    hide MergeSort, Distinct;
    Halves(s, m);
    SortedNodes(o, s[..m]);
    SortedNodes(o, s[m..]);
    InFront(s, m);
    AreSeparate(s[..m], s[..m], s[m..]);
    AreSeparate(MergeSort(o, s[..m]), s[..m], s[m..]);
  }

  lemma {:induction false} AreSeparate(r: seq<Node>, a: seq<Node>, b: seq<Node>)
    requires Disjoint(a, b) && forall i :: 0 <= i < |r| ==> r[i] in a
    ensures Separate(r, b)
  {
    forall i, j | 0 <= i < |r| && 0 <= j < |b| ensures r[i] != b[j] {
      assert r[i] in a && b[j] in b;
    }
  }

  lemma {:induction false} InFront(s: seq<Node>, m: nat)
    requires m <= |s|
    ensures forall x :: x in s[..m] ==> x in s
    ensures forall x :: x in s[m..] ==> x in s
  {
  }

  lemma {:induction false} OneNode(s: seq<Node>)
    requires Chain(s)
    ensures s != [] && s[0].next != null <==> |s| > 1
  {
    assert |s| > 1 ==> Joined(s[0], s[1]);
  }

  /** Sorting moves nodes around and adds none. */
  lemma {:induction false} SortedNodes(o: Order, s: seq<Node>)
    ensures multiset(MergeSort(o, s)) == multiset(s)
    ensures forall i :: 0 <= i < |MergeSort(o, s)| ==> MergeSort(o, s)[i] in s
    decreases |s|
  {
    hide Merge;
    if |s| <= 1 {
    } else {
      var a, b := s[..|s| / 2], s[|s| / 2..];
      SortedNodes(o, a);
      SortedNodes(o, b);
      MergePermutes(o, MergeSort(o, a), MergeSort(o, b));
      assert s == a + b;
    }
    forall i | 0 <= i < |MergeSort(o, s)| ensures MergeSort(o, s)[i] in s {
      assert MergeSort(o, s)[i] in multiset(MergeSort(o, s));
    }
  }
}
