/** The deque: a doubly linked list between two sentinels. */
module Deque {
  import opened Common
  import opened StableSort
  import opened DequeLinks

  /** The nodes whose tag is not t. */
  function Without(s: seq<Node>, t: seq<byte>): seq<Node> {
    if s == [] then []
    else if s[0].item.tag == Some(t) then Without(s[1..], t)
    else [s[0]] + Without(s[1..], t)
  }

  /** What is left are the nodes with another tag or none. */
  lemma {:induction false} WithoutLeavesTheOthers(s: seq<Node>, t: seq<byte>, n: Node)
    ensures n in Without(s, t) <==> n in s && n.item.tag != Some(t)
  {
    if s == [] {
    } else {
      WithoutLeavesTheOthers(s[1..], t, n);
    }
  }

  /** They keep their order: list by list, and node by node. */
  lemma {:induction false} WithoutKeepsTheOrder(a: seq<Node>, b: seq<Node>, t: seq<byte>, n: Node)
    ensures Without(a + b, t) == Without(a, t) + Without(b, t)
    ensures Without([n], t) == if n.item.tag == Some(t) then [] else [n]
  {
    assert [n][1..] == [];
    if a == [] {
      assert a + b == b;
    } else {
      assert (a + b)[1..] == a[1..] + b;
      WithoutKeepsTheOrder(a[1..], b, t, n);
    }
  }

  /** Position k has the tag, and none from i to k has. */
  predicate IsFirst(s: seq<Node>, t: seq<byte>, i: nat, k: nat)
    requires i <= k < |s|
  {
    s[k].item.tag == Some(t) && forall j :: i <= j < k ==> s[j].item.tag != Some(t)
  }

  /** The first node from i on whose tag is t, or null. */
  function FirstTagged(s: seq<Node>, t: seq<byte>, i: nat): (n: Node?)
    requires i <= |s|
    ensures n != null ==> exists k :: i <= k < |s| && n == s[k] && IsFirst(s, t, i, k)
    ensures n == null ==> forall j :: i <= j < |s| ==> s[j].item.tag != Some(t)
    decreases |s| - i
  {
    if i == |s| then null
    else if s[i].item.tag == Some(t) then
      assert IsFirst(s, t, i, i);
      s[i]
    else
      var n := FirstTagged(s, t, i + 1);
      assert n != null ==> exists k :: i + 1 <= k < |s| && n == s[k] && IsFirst(s, t, i + 1, k) && IsFirst(s, t, i, k);
      n
  }

  class List {
    const start: Node
    const end: Node
    var size: int
    ghost var nodes: seq<Node>
    ghost var repr: set<Node>

    ghost function All(): seq<Node>
      reads this
    {
      [start] + nodes + [end]
    }

    /** From the start sentinel to the end sentinel every link is matched by its inverse,
        no node occurs twice, and size counts the nodes between. */
    ghost predicate Valid()
      reads this, repr
    {
      && (forall i :: 0 <= i < |All()| ==> All()[i] in repr)
      && Distinct(All()) && Links(All()) && size == |nodes|
    }

    constructor ()
      ensures Valid() && nodes == [] && fresh(repr)
    {
      var s := new Node(Item(0, None));
      var e := new Node(Item(0, None));
      s.next := e;
      e.prev := s;
      start, end, size := s, e, 0;
      nodes, repr := [], {s, e};
    }

    /** A value without a type is not added. */
    method Offer(tag: Option<seq<byte>>, data: Option<Value>)
      requires Valid()
      modifies this, repr
      ensures Valid() && fresh(repr - old(repr))
      ensures data.None? ==> nodes == old(nodes)
      ensures data.Some? ==>
                && |nodes| == |old(nodes)| + 1 && nodes[..|old(nodes)|] == old(nodes)
                && nodes[|old(nodes)|].item == Item(data.value, tag) && fresh(nodes[|old(nodes)|])
    {
      if data.None? {
        return;
      }
      var n := new Node(Item(data.value, tag));
      PutLast(n);
    }

    method PutLast(n: Node)
      requires Valid() && n !in repr
      modifies this, repr, n
      ensures Valid() && nodes == old(nodes) + [n] && repr == old(repr) + {n}
    {
      ghost var s := All();
      ghost var k := |nodes|;
      size := size + 1;
      assert Joined(s[k], s[k + 1]);
      var last := end.prev;
      last.next := n;
      n.prev := last;
      n.next := end;
      end.prev := n;
      nodes, repr := nodes + [n], repr + {n};
      assert n !in s;
      Inserted(s, n, k + 1);
      assert All() == s[..k + 1] + [n] + s[k + 1..];
      forall i, j | 0 <= i < j < |All()| && j == i + 1 ensures Joined(All()[i], All()[j]) {
        if j <= k {
          assert old(Joined(s[i], s[j])) && s[i] != s[k] && s[j] != s[k + 1];
        }
      }
    }

    /** Takes out the node at position k: its neighbours are joined. */
    method Unlink(node: Node, ghost k: nat) returns (prev: Node)
      requires Valid() && k < |nodes| && node == nodes[k]
      modifies this, repr
      ensures Valid() && nodes == old(nodes[..k] + nodes[k + 1..]) && repr == old(repr) && prev == old(All()[k])
    {
      ghost var s := All();
      BetweenWithout(start, nodes, end, k);
      assert s[k + 1] == node;
      assert Joined(s[k], s[k + 1]) && Joined(s[k + 1], s[k + 2]);
      prev := node.prev;
      var next := node.next;
      prev.next := next;
      next.prev := prev;
      size := size - 1;
      nodes := nodes[..k] + nodes[k + 1..];
      Removed(s, k + 1);
      ghost var r := s[..k + 1] + s[k + 2..];
      assert All() == r;
      forall i, j | 0 <= i < j < |r| && j == i + 1 ensures Joined(r[i], r[j]) {
        if j <= k {
          assert old(Joined(s[i], s[j])) && s[i] != s[k] && s[j] != s[k + 2];
        } else if k < i {
          assert old(Joined(s[i + 1], s[j + 1])) && s[i + 1] != s[k] && s[j + 1] != s[k + 2];
        }
      }
    }

    /** Removes and returns the first item. */
    method Poll() returns (r: Option<Item>)
      requires Valid()
      modifies this, repr
      ensures Valid() && repr == old(repr)
      ensures old(nodes) == [] ==> r == None && nodes == []
      ensures old(nodes) != [] ==> r == Some(old(nodes[0].item)) && nodes == old(nodes[1..])
    {
      if size == 0 {
        return None;
      }
      assert Joined(All()[0], All()[1]);
      var head := start.next;
      Sentinels(this, 1);
      assert head != end;
      var prev := Unlink(head, 0);
      return Some(head.item);
    }

    /** Removes and returns the last item. */
    method PollLast() returns (r: Option<Item>)
      requires Valid()
      modifies this, repr
      ensures Valid() && repr == old(repr)
      ensures old(nodes) == [] ==> r == None && nodes == []
      ensures old(nodes) != [] ==> r == Some(old(nodes[|nodes| - 1].item)) && nodes == old(nodes[..|nodes| - 1])
    {
      if size == 0 {
        return None;
      }
      assert Joined(All()[size], All()[size + 1]);
      var tail := end.prev;
      Sentinels(this, size);
      assert tail != start;
      var prev := Unlink(tail, size - 1);
      return Some(tail.item);
    }

    method Peek() returns (r: Option<Item>)
      requires Valid()
      ensures r == if nodes == [] then None else Some(nodes[0].item)
    {
      if size == 0 {
        return None;
      }
      assert Joined(All()[0], All()[1]);
      return Some(start.next.item);
    }

    method PeekLast() returns (r: Option<Item>)
      requires Valid()
      ensures r == if nodes == [] then None else Some(nodes[|nodes| - 1].item)
    {
      if size == 0 {
        return None;
      }
      assert Joined(All()[size], All()[size + 1]);
      return Some(end.prev.item);
    }

    /** deque_next: the node behind node, null at the end or for null. */
    method NextOf(node: Node?, ghost k: nat) returns (next: Node?)
      requires Valid() && k <= |nodes| && (node == null || node == All()[k])
      ensures next == if node == null || k == |nodes| then null else nodes[k]
    {
      if size == 0 || node == null {
        return null;
      }
      assert Joined(All()[k], All()[k + 1]);
      assert k < |nodes| ==> All()[k + 1] == nodes[k] && All()[k + 1] != All()[|nodes| + 1];
      if node.next == end {
        return null;
      }
      return node.next;
    }

    /** deque_find: the first node with the tag; an empty tag finds nothing. */
    method Find(tag: Option<seq<byte>>) returns (n: Node?)
      requires Valid()
      ensures n == if tag.None? || tag.value == [] then null else FirstTagged(nodes, tag.value, 0)
    {
      if tag.None? || tag.value == [] || size == 0 {
        return null;
      }
      ghost var k := 0;
      n := NextOf(start, 0);
      while n != null
        invariant 0 <= k <= |nodes| && n == (if k == |nodes| then null else nodes[k])
        invariant FirstTagged(nodes, tag.value, 0) == FirstTagged(nodes, tag.value, k)
        decreases |nodes| - k
      {
        if n.item.tag == tag {
          return;
        }
        n := NextOf(n, k + 1);
        k := k + 1;
      }
    }

    /** Removes every node with the tag and says how many there were. */
    method RemoveTag(tag: Option<seq<byte>>) returns (count: int)
      requires Valid()
      modifies this, repr
      ensures Valid() && repr == old(repr) && count == |old(nodes)| - |nodes|
      ensures nodes == if tag.None? then old(nodes) else Without(old(nodes), tag.value)
    {
      hide Distinct, Links, Without;
      count := 0;
      if tag.None? {
        return;
      }
      ghost var rest, kept := nodes, [];
      var iter := new Iterator(this);
      var more := iter.Next();
      while more
        invariant Valid() && iter.Valid() && iter.deque == this && fresh(iter) && repr == old(repr)
        invariant nodes == kept + rest && count == |old(nodes)| - |nodes|
        invariant Without(old(nodes), tag.value) == kept + Without(rest, tag.value)
        invariant if more then rest != [] && iter.cur == rest[0] && iter.pos == |kept| + 1 else rest == []
        decreases |rest|, more
      {
        WithoutHead(kept, rest, tag.value);
        var dropped := Visit(iter, tag.value, kept, rest);
        if dropped {
          count := count + 1;
        } else {
          kept := kept + [rest[0]];
        }
        rest := rest[1..];
        more := iter.Next();
      }
      NothingWithout(tag.value);
    }

    /** Drops the node under the iterator if it has the tag. */
    method Visit(iter: Iterator, t: seq<byte>, ghost kept: seq<Node>, ghost rest: seq<Node>)
      returns (dropped: bool)
      requires Valid() && iter.Valid() && iter.deque == this
      requires rest != [] && nodes == kept + rest && iter.pos == |kept| + 1 && iter.cur == rest[0]
      modifies this, repr, iter
      ensures Valid() && iter.Valid() && iter.cur != null && repr == old(repr)
      ensures dropped == (rest[0].item.tag == Some(t))
      ensures nodes == kept + (if dropped then rest[1..] else rest)
      ensures iter.pos == |kept| + if dropped then 0 else 1
    {
      hide Distinct, Links;
      SplitAt(kept, rest);
      dropped := iter.item.value.tag == Some(t);
      if dropped {
        iter.Remove();
      }
    }

    method Clear()
      requires Valid()
      modifies this, repr
      ensures Valid() && nodes == [] && repr == old(repr)
    {
      hide Distinct, Links;
      var iter := new Iterator(this);
      var more := iter.Next();
      while more
        invariant Valid() && iter.Valid() && iter.deque == this && fresh(iter) && repr == old(repr)
        invariant iter.pos == (if more then 1 else 0) && (more ==> iter.cur != null && nodes != [])
        invariant !more ==> nodes == []
        decreases |nodes|, more
      {
        iter.Remove();
        more := iter.Next();
      }
    }

    /** Sorts by the callback, or by tag: the nodes are relinked between the sentinels. */
    method Sort(o: Order)
      requires Valid()
      modifies this, repr
      ensures Valid() && nodes == MergeSort(o, old(nodes)) && size == old(size) && repr == old(repr)
      ensures InOrder(o, nodes)
    {
      hide Distinct, Links, MergeSort, InOrder;
      ghost var was := nodes;
      SortedIsInOrder(o, nodes);
      InRepr(this);
      ShortList(o, nodes);
      if size <= 1 {
        return;
      }
      var first := Detach();
      SortedBetween(o, start, was, end);
      var node, r := SortList(o, first, was);
      Relink(node, r);
    }

    /** Cuts the nodes off the sentinels. */
    method Detach() returns (first: Node)
      requires Valid() && 0 < size
      modifies repr
      ensures Chain(nodes) && first == nodes[0] && Outside(start, nodes, end) && size == |nodes|
    {
      ghost var s, n := All(), |nodes|;
      assert s[0] == start && s[1] == nodes[0] && s[n] == nodes[n - 1] && s[n + 1] == end;
      assert Joined(s[0], s[1]) && Joined(s[n], s[n + 1]);
      first := start.next;
      var last := end.prev;
      first.prev := null;
      last.next := null;
      start.next := null;
      end.prev := null;
      assert forall i :: 0 <= i < n ==> nodes[i] == s[i + 1];
      forall i, j | 0 <= i < j < n && j == i + 1 ensures Joined(nodes[i], nodes[j]) {
        assert old(Joined(s[i + 1], s[j + 1])) && s[j + 1] != s[1] && s[i + 1] != s[n];
      }
      assert start !in nodes && end !in nodes;
    }

    /** Hangs a list of nodes between the sentinels. */
    method Relink(head: Node?, ghost r: seq<Node>)
      requires Chain(r) && r != [] && head == Head(r) && Outside(start, r, end) && size == |r|
      requires start in repr && end in repr && forall i :: 0 <= i < |r| ==> r[i] in repr
      modifies this, repr
      ensures Valid() && nodes == r && size == old(size) && repr == old(repr)
    {
      start.next := head;
      head.prev := start;
      forall i, j | 0 <= i < j < |r| && j == i + 1 ensures Joined(r[i], r[j]) {
        assert old(Joined(r[i], r[j])) && r[i] in r && r[j] != r[0];
      }
      assert r[|r| - 1] in r;
      var last := LastOf(head, r);
      end.prev := last;
      last.next := end;
      nodes := r;
      forall i, j | 0 <= i < j < |r| && j == i + 1 ensures Joined(r[i], r[j]) {
        assert r[i] != last && r[i] in r && r[j] in r;
      }
      LinksConcat([start], r);
      LinksConcat([start] + r, [end]);
      BetweenDistinct(start, r, end);
    }

    /** The walk to the last node. */
    method LastOf(head: Node, ghost r: seq<Node>) returns (node: Node)
      requires Links(r) && Ends(r) && head == Head(r)
      ensures node == r[|r| - 1]
    {
      node := head;
      ghost var k := 0;
      TailFrom(r, k);
      while node.next != null
        invariant 0 <= k < |r| && node == r[k] && node.next == Head(r[k + 1..])
        decreases |r| - k
      {
        node := node.next;
        k := k + 1;
        TailFrom(r, k);
      }
    }
  }

  /** An iterator stands on a node, on the start sentinel before the first one, or on
      nothing once it has passed the last one. */
  class Iterator {
    const deque: List
    var cur: Node?
    var item: Option<Item>
    ghost var pos: nat

    ghost predicate Valid()
      reads this, deque, deque.repr
    {
      && deque.Valid() && pos <= |deque.nodes|
      && (cur == null || cur == deque.All()[pos])
      && (cur != null && 0 < pos ==> item == Some(cur.item))
    }

    constructor (d: List)
      requires d.Valid()
      ensures Valid() && deque == d && pos == 0 && cur == d.start
    {
      deque, cur, item := d, d.start, None;
      pos := 0;
    }

    method Next() returns (more: bool)
      requires Valid()
      modifies this
      ensures Valid() && more == (old(cur) != null && old(pos) < |deque.nodes|)
      ensures if more then pos == old(pos) + 1 && cur == deque.nodes[old(pos)] else pos == old(pos) && cur == null
    {
      ghost var k := pos;
      cur := deque.NextOf(cur, k);
      if cur == null {
        return false;
      }
      item := Some(cur.item);
      pos := pos + 1;
      return true;
    }

    /** Removes the node it stands on and steps back, so that the next step goes on with
        the node behind it. */
    method Remove()
      requires Valid()
      modifies this, deque, deque.repr
      ensures Valid() && deque.repr == old(deque.repr)
      ensures if old(cur) == null || old(pos) == 0
              then pos == old(pos) && cur == old(cur) && deque.nodes == old(deque.nodes)
              else
                && pos == old(pos) - 1 && cur == old(deque.All()[pos - 1]) && cur == deque.All()[pos]
                && deque.nodes == old(deque.nodes[..pos - 1] + deque.nodes[pos..])
    {
      hide Distinct, Links;
      if cur == null || cur == deque.start || cur == deque.end {
        Sentinels(deque, pos);
        return;
      }
      Sentinels(deque, pos);
      var prev := deque.Unlink(cur, pos - 1);
      cur := prev;
      pos := pos - 1;
      if cur == deque.start {
        Sentinels(deque, pos);
        item := None;
        return;
      }
      item := Some(cur.item);
    }
  }

  /** The sentinels are two nodes that are not among s. */
  ghost predicate Outside(start: Node, s: seq<Node>, end: Node) {
    start != end && start !in s && end !in s
  }

  lemma {:induction false} BetweenDistinct(start: Node, s: seq<Node>, end: Node)
    requires Distinct(s) && Outside(start, s, end)
    ensures Distinct([start] + s + [end])
  {
    Inserted(s, start, 0);
    assert s[..0] + [start] + s[0..] == [start] + s;
    DistinctSnoc([start] + s, end);
  }

  lemma {:induction false} ShortList(o: Order, s: seq<Node>)
    ensures |s| <= 1 ==> MergeSort(o, s) == s
  {
  }

  lemma {:induction false} SortedBetween(o: Order, start: Node, s: seq<Node>, end: Node)
    requires Outside(start, s, end)
    ensures Outside(start, MergeSort(o, s), end) && |MergeSort(o, s)| == |s|
    ensures forall i :: 0 <= i < |MergeSort(o, s)| ==> MergeSort(o, s)[i] in s
  {
    hide MergeSort;
    SortedNodes(o, s);
    assert |multiset(MergeSort(o, s))| == |MergeSort(o, s)| && |multiset(s)| == |s|;
    assert forall i :: 0 <= i < |s| ==> s[i] in s;
  }

  lemma {:induction false} InRepr(d: List)
    requires d.Valid()
    ensures d.start in d.repr && d.end in d.repr && forall n :: n in d.nodes ==> n in d.repr
  {
    var s := d.All();
    assert s[0] == d.start && s[|d.nodes| + 1] == d.end;
    assert forall i :: 0 <= i < |d.nodes| ==> d.nodes[i] == s[i + 1];
  }

  lemma {:induction false} Sentinels(d: List, k: nat)
    requires d.Valid() && k <= |d.nodes|
    ensures d.All()[k] == d.start <==> k == 0
    ensures d.All()[k] != d.end
    ensures 0 < k ==> d.All()[k] == d.nodes[k - 1]
  {
    assert d.All()[0] == d.start && d.All()[|d.nodes| + 1] == d.end;
  }

  lemma {:induction false} NothingWithout(t: seq<byte>)
    ensures Without([], t) == []
  {
  }

  /** Leaving out the first node of the second part. */
  lemma {:induction false} SplitAt(a: seq<Node>, b: seq<Node>)
    requires b != []
    ensures (a + b)[..|a|] + (a + b)[|a| + 1..] == a + b[1..]
    ensures (a + [b[0]]) + b[1..] == a + b && (a + b)[|a|] == b[0]
  {
  }

  lemma {:induction false} WithoutHead(kept: seq<Node>, rest: seq<Node>, t: seq<byte>)
    requires rest != []
    ensures kept + Without(rest, t) ==
            (if rest[0].item.tag == Some(t) then kept else kept + [rest[0]]) + Without(rest[1..], t)
    ensures (kept + [rest[0]]) + rest[1..] == kept + rest
  {
    hide Without;
    WithoutUnfold(rest, t);
    Shifted(kept, rest[0], Without(rest[1..], t));
    Shifted(kept, rest[0], rest[1..]);
    assert [rest[0]] + rest[1..] == rest;
  }

  lemma {:induction false} WithoutUnfold(s: seq<Node>, t: seq<byte>)
    requires s != []
    ensures Without(s, t) == if s[0].item.tag == Some(t) then Without(s[1..], t) else [s[0]] + Without(s[1..], t)
  {
  }

  lemma {:induction false} BetweenWithout(a: Node, s: seq<Node>, b: Node, k: nat)
    requires k < |s|
    ensures var all := [a] + s + [b];
            all[..k + 1] + all[k + 2..] == [a] + (s[..k] + s[k + 1..]) + [b]
  {
    var all := [a] + s + [b];
    assert all[..k + 1] == [a] + s[..k] && all[k + 2..] == s[k + 1..] + [b];
  }

  lemma {:induction false} Shifted(a: seq<Node>, x: Node, b: seq<Node>)
    ensures a + ([x] + b) == (a + [x]) + b
  {
  }

  lemma {:induction false} Inserted(s: seq<Node>, n: Node, k: nat)
    requires Distinct(s) && n !in s && k <= |s|
    ensures Distinct(s[..k] + [n] + s[k..])
  {
    var r := s[..k] + [n] + s[k..];
    forall i, j | 0 <= i < j < |r| ensures r[i] != r[j] {
      assert i < k ==> r[i] == s[i];
      assert i > k ==> r[i] == s[i - 1];
      assert j < k ==> r[j] == s[j];
      assert j > k ==> r[j] == s[j - 1];
    }
  }

  lemma {:induction false} Removed(s: seq<Node>, k: nat)
    requires Distinct(s) && k < |s|
    ensures Distinct(s[..k] + s[k + 1..])
  {
  }
}
