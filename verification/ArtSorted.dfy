/** Adding and removing children in the two layouts with sorted keys, Node4 and Node16. */
module ArtSorted {
  import opened Common
  import opened ArtKeys
  import opened ArtLayout

  /** Making room at an index of an array whose first n cells are in use: the cells
      from the index on move up by one, the cell behind them is overwritten. */
  function InsertAt<T>(s: seq<T>, at: nat, n: nat, x: T): (r: seq<T>)
    requires at <= n < |s|
    ensures |r| == |s|
  {
    s[..at] + [x] + s[at..n] + s[n + 1..]
  }

  /** Closing the gap at an index: the cells behind it move down by one, and the last
      cell in use keeps a stale copy. */
  function RemoveAt<T>(s: seq<T>, at: nat, n: nat): (r: seq<T>)
    requires at < n <= |s|
    ensures |r| == |s|
  {
    s[..at] + s[at + 1..n] + s[n - 1..]
  }

  /** The index of the largest key that is at most ch, -1 if all are larger. */
  function FloorIndex(ks: seq<byte>, ch: byte): (i: int)
    ensures -1 <= i < |ks|
    ensures 0 <= i ==> ks[i] <= ch
    ensures forall j :: i < j < |ks| ==> ch < ks[j]
  {
    if ks == [] then -1
    else if ks[|ks| - 1] <= ch then |ks| - 1
    else FloorIndex(ks[..|ks| - 1], ch)
  }

  /** find_index: the binary search returns the floor index of sorted keys. */
  method FindIndex(ch: byte, keys: seq<byte>, length: nat) returns (idx: int)
    requires length <= |keys| && StrictlyAscending(keys[..length])
    ensures idx == FloorIndex(keys[..length], ch)
    ensures -1 <= idx < length
    ensures forall j :: 0 <= j <= idx ==> keys[j] <= ch
    ensures forall j :: idx < j < length ==> ch < keys[j]
  {
    var left := 0;
    var right := length - 1;
    ghost var ks := keys[..length];
    assert forall j :: 0 <= j < length ==> ks[j] == keys[j];
    if length == 0 {
      return -1;
    }
    while left + 1 < right
      invariant 0 <= left <= right < length
      invariant left == 0 || keys[left] < ch
      invariant right == length - 1 || ch < keys[right]
    {
      var mid := (left + right) / 2;
      if keys[mid] == ch {
        FloorIndexIsUnique(ks, ch, mid);
        return mid;
      }
      if keys[mid] < ch {
        left := mid;
      } else {
        right := mid;
      }
    }
    if keys[right] <= ch {
      FloorIndexIsUnique(ks, ch, right);
      return right;
    } else if keys[left] <= ch {
      FloorIndexIsUnique(ks, ch, left);
      return left;
    }
    FloorIndexIsUnique(ks, ch, -1);
    return -1;
  }

  lemma {:induction false} FloorIndexIsUnique(ks: seq<byte>, ch: byte, i: int)
    requires StrictlyAscending(ks) && -1 <= i < |ks|
    requires 0 <= i ==> ks[i] <= ch
    requires i + 1 < |ks| ==> ch < ks[i + 1]
    ensures FloorIndex(ks, ch) == i
    ensures forall j :: 0 <= j <= i ==> ks[j] <= ch
    ensures forall j :: i < j < |ks| ==> ch < ks[j]
  {
  }

  // ---------------------------------------------------------------------
  // Lookup
  // ---------------------------------------------------------------------

  lemma {:induction false} LookupAt(l: Layout, i: nat)
    requires Sized(l) && (l.kind.Node4? || l.kind.Node16?) && TidySorted(l) && i < l.num
    ensures LookupSorted(l, l.keys[i]) == l.slots[i]
  {
    var ks := l.keys[..l.num];
    var j := IndexOf(ks, l.keys[i]);
    assert ks[i] == l.keys[i];
    assert ks[i] in ks;
  }

  lemma {:induction false} LookupMissing(l: Layout, ch: byte)
    requires Sized(l) && (l.kind.Node4? || l.kind.Node16?) && TidySorted(l)
    ensures LookupSorted(l, ch) == Null <==> ch !in l.keys[..l.num]
  {
  }

  // ---------------------------------------------------------------------
  // Add
  // ---------------------------------------------------------------------

  function AddSorted(l: Layout, ch: byte, child: Ref): Layout
    requires Sized(l) && (l.kind.Node4? || l.kind.Node16?) && l.num < |l.slots|
  {
    var at := FloorIndex(l.keys[..l.num], ch) + 1;
    l.(num := l.num + 1, keys := InsertAt(l.keys, at, l.num, ch), slots := InsertAt(l.slots, at, l.num, child))
  }

  lemma {:induction false} InsertAtCells<T>(s: seq<T>, at: nat, n: nat, x: T)
    requires at <= n < |s|
    ensures forall j :: 0 <= j < at ==> InsertAt(s, at, n, x)[j] == s[j]
    ensures InsertAt(s, at, n, x)[at] == x
    ensures forall j :: at < j <= n ==> InsertAt(s, at, n, x)[j] == s[j - 1]
    ensures InsertAt(s, at, n, x)[..n + 1] == s[..at] + [x] + s[at..n]
  {
  }

  lemma {:induction false} InsertMovesCell<T>(s: seq<T>, at: nat, n: nat, x: T, j: nat)
    requires at <= n < |s| && j < n
    ensures InsertAt(s, at, n, x)[at] == x
    ensures InsertAt(s, at, n, x)[if j < at then j else j + 1] == s[j]
  {
  }

  lemma {:induction false} InsertKeepsFilled(s: seq<Ref>, at: nat, n: nat, x: Ref)
    requires at <= n < |s| && x != Null
    requires forall j :: 0 <= j < n ==> s[j] != Null
    ensures forall j :: 0 <= j < n + 1 ==> InsertAt(s, at, n, x)[j] != Null
  {
    hide InsertAt;
    InsertAtCells(s, at, n, x);
  }

  lemma {:induction false} InsertKeepsAscending(ks: seq<byte>, at: nat, ch: byte)
    requires StrictlyAscending(ks) && at <= |ks|
    requires forall j :: 0 <= j < at ==> ks[j] < ch
    requires forall j :: at <= j < |ks| ==> ch < ks[j]
    ensures StrictlyAscending(ks[..at] + [ch] + ks[at..])
    ensures forall b: byte :: b in ks[..at] + [ch] + ks[at..] <==> b == ch || b in ks
  {
    var r := ks[..at] + [ch] + ks[at..];
    assert ks == ks[..at] + ks[at..];
  }

  lemma {:induction false} KeysAfterInsert(keys: seq<byte>, n: nat, ch: byte)
    requires n < |keys| && StrictlyAscending(keys[..n]) && ch !in keys[..n]
    ensures var r := InsertAt(keys, FloorIndex(keys[..n], ch) + 1, n, ch);
            && StrictlyAscending(r[..n + 1])
            && forall b: byte :: b in r[..n + 1] <==> b == ch || b in keys[..n]
  {
    hide InsertAt, FloorIndex;
    var ks := keys[..n];
    var at := FloorIndex(ks, ch) + 1;
    FloorIndexIsUnique(ks, ch, at - 1);
    InsertAtCells(keys, at, n, ch);
    InsertKeepsAscending(ks, at, ch);
    assert keys[..at] == ks[..at] && keys[at..n] == ks[at..];
  }

  lemma {:induction false} AddSortedIsTidy(l: Layout, ch: byte, child: Ref)
    requires Sized(l) && (l.kind.Node4? || l.kind.Node16?) && TidySorted(l)
    requires l.num < |l.slots| && ch !in l.keys[..l.num] && child != Null
    ensures Sized(AddSorted(l, ch, child)) && TidySorted(AddSorted(l, ch, child))
    ensures forall b: byte :: b in AddSorted(l, ch, child).keys[..l.num + 1] <==> b == ch || b in l.keys[..l.num]
  {
    hide InsertAt, FloorIndex, StrictlyAscending;
    KeysAfterInsert(l.keys, l.num, ch);
    InsertKeepsFilled(l.slots, FloorIndex(l.keys[..l.num], ch) + 1, l.num, child);
  }

  /** Adding a child to a sorted layout with room adds exactly that lookup. */
  lemma {:induction false} AddSortedLookup(l: Layout, ch: byte, child: Ref, b: byte)
    requires Sized(l) && (l.kind.Node4? || l.kind.Node16?) && TidySorted(l)
    requires l.num < |l.slots| && ch !in l.keys[..l.num] && child != Null
    ensures Sized(AddSorted(l, ch, child))
    ensures LookupSorted(AddSorted(l, ch, child), b) == if b == ch then child else LookupSorted(l, b)
  {
    hide InsertAt, FloorIndex, LookupSorted, TidySorted, IndexOf;
    AddSortedIsTidy(l, ch, child);
    var l' := AddSorted(l, ch, child);
    var at := FloorIndex(l.keys[..l.num], ch) + 1;
    LookupMissing(l', b);
    LookupMissing(l, b);
    if b == ch {
      InsertAtCells(l.keys, at, l.num, ch);
      InsertAtCells(l.slots, at, l.num, child);
      LookupAt(l', at);
    } else if b in l.keys[..l.num] {
      var j := IndexOf(l.keys[..l.num], b);
      InsertMovesCell(l.keys, at, l.num, ch, j);
      InsertMovesCell(l.slots, at, l.num, child, j);
      LookupAt(l, j);
      LookupAt(l', if j < at then j else j + 1);
    }
  }

  // ---------------------------------------------------------------------
  // Remove
  // ---------------------------------------------------------------------

  function RemoveSorted(l: Layout, ch: byte): Layout
    requires Sized(l) && (l.kind.Node4? || l.kind.Node16?) && ch in l.keys[..l.num]
  {
    var at := FloorIndex(l.keys[..l.num], ch);
    if 0 <= at then
      l.(num := l.num - 1, keys := RemoveAt(l.keys, at, l.num), slots := RemoveAt(l.slots, at, l.num))
    else l
  }

  lemma {:induction false} RemoveAtCells<T>(s: seq<T>, at: nat, n: nat)
    requires at < n <= |s|
    ensures forall j :: 0 <= j < at ==> RemoveAt(s, at, n)[j] == s[j]
    ensures forall j :: at <= j < n - 1 ==> RemoveAt(s, at, n)[j] == s[j + 1]
    ensures RemoveAt(s, at, n)[..n - 1] == s[..at] + s[at + 1..n]
  {
  }

  lemma {:induction false} RemoveMovesCell<T>(s: seq<T>, at: nat, n: nat, j: nat)
    requires at < n <= |s| && j < n && j != at
    ensures RemoveAt(s, at, n)[if j < at then j else j - 1] == s[j]
  {
  }

  lemma {:induction false} RemoveKeepsAscending(ks: seq<byte>, at: nat)
    requires StrictlyAscending(ks) && at < |ks|
    ensures StrictlyAscending(ks[..at] + ks[at + 1..])
    ensures forall b: byte :: b in ks[..at] + ks[at + 1..] <==> b != ks[at] && b in ks
  {
    assert ks == ks[..at] + [ks[at]] + ks[at + 1..];
  }

  lemma {:induction false} KeysAfterRemove(keys: seq<byte>, n: nat, at: nat)
    requires at < n <= |keys| && StrictlyAscending(keys[..n])
    ensures FloorIndex(keys[..n], keys[at]) == at
    ensures var r := RemoveAt(keys, at, n);
            && StrictlyAscending(r[..n - 1])
            && forall b: byte :: b in r[..n - 1] <==> b != keys[at] && b in keys[..n]
  {
    hide RemoveAt, FloorIndex;
    var ks := keys[..n];
    assert ks[at] == keys[at];
    FloorIndexIsUnique(ks, ks[at], at);
    RemoveAtCells(keys, at, n);
    RemoveKeepsAscending(ks, at);
    assert keys[..at] == ks[..at] && keys[at + 1..n] == ks[at + 1..];
  }

  lemma {:induction false} RemoveKeepsFilled(s: seq<Ref>, at: nat, n: nat)
    requires at < n <= |s|
    requires forall j :: 0 <= j < n ==> s[j] != Null
    ensures forall j :: 0 <= j < n - 1 ==> RemoveAt(s, at, n)[j] != Null
  {
    hide RemoveAt;
    RemoveAtCells(s, at, n);
  }

  lemma {:induction false} RemoveSortedIsTidy(l: Layout, ch: byte, at: nat)
    requires Sized(l) && (l.kind.Node4? || l.kind.Node16?) && TidySorted(l)
    requires at < l.num && l.keys[at] == ch
    ensures ch in l.keys[..l.num] && FloorIndex(l.keys[..l.num], ch) == at
    ensures Sized(RemoveSorted(l, ch)) && TidySorted(RemoveSorted(l, ch))
    ensures forall b: byte :: b in RemoveSorted(l, ch).keys[..l.num - 1] <==> b != ch && b in l.keys[..l.num]
  {
    hide RemoveAt, FloorIndex, StrictlyAscending;
    assert l.keys[..l.num][at] == ch;
    KeysAfterRemove(l.keys, l.num, at);
    RemoveKeepsFilled(l.slots, at, l.num);
  }

  /** Removing a child from a sorted layout removes exactly that lookup. */
  lemma {:induction false} RemoveSortedLookup(l: Layout, ch: byte, b: byte)
    requires Sized(l) && (l.kind.Node4? || l.kind.Node16?) && TidySorted(l)
    requires ch in l.keys[..l.num]
    ensures Sized(RemoveSorted(l, ch))
    ensures LookupSorted(RemoveSorted(l, ch), b) == if b == ch then Null else LookupSorted(l, b)
  {
    hide RemoveAt, FloorIndex, LookupSorted, TidySorted, IndexOf;
    var at := IndexOf(l.keys[..l.num], ch);
    RemoveSortedIsTidy(l, ch, at);
    var l' := RemoveSorted(l, ch);
    LookupMissing(l', b);
    LookupMissing(l, b);
    if b != ch && b in l.keys[..l.num] {
      var j := IndexOf(l.keys[..l.num], b);
      RemoveMovesCell(l.keys, at, l.num, j);
      RemoveMovesCell(l.slots, at, l.num, j);
      LookupAt(l, j);
      LookupAt(l', if j < at then j else j - 1);
    }
  }
}
