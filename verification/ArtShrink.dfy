/** Removing a child from a node, and replacing the node by one with a smaller layout
    when few children are left. */
module ArtShrink {
  import opened Common
  import opened ArtKeys
  import opened ArtLayout
  import opened ArtSorted
  import opened ArtWide
  import opened ArtNode

  ghost predicate Removed(l: Layout, l': Layout, ch: byte) {
    Ok(l) && Ok(l') && Children(l') == Children(l) - {ch}
  }

  /** l' is l without the child under ch, before any change of layout. */
  ghost predicate Dropped(l: Layout, l': Layout, ch: byte) {
    Ok(l) && Fair(l') && l'.kind == l.kind && Children(l') == Children(l) - {ch} && |Children(l')| == |Children(l)| - 1
  }

  lemma {:induction false} DroppedIsFair(l: Layout, l': Layout, ch: byte)
    requires Ok(l) && Sized(l') && Tidy(l') && l'.kind == l.kind
    requires Lookup(l, ch) != Null && Children(l') == Children(l) - {ch}
    requires l'.num == (l.num + 255) % 256
    ensures Dropped(l, l', ch)
  {
    hide Tidy, Lookup, StrictlyAscending;
    ChildrenAreLookups(l, ch);
    hide Children;
    OkCounts(l);
    CountAfter(Children(l), ch, Null);
  }

  lemma {:induction false} RemoveSortedChildren(l: Layout, ch: byte)
    requires Sized(l) && (l.kind.Node4? || l.kind.Node16?) && TidySorted(l) && ch in l.keys[..l.num]
    ensures Sized(RemoveSorted(l, ch)) && Tidy(RemoveSorted(l, ch))
    ensures Children(RemoveSorted(l, ch)) == Children(l) - {ch}
    ensures RemoveSorted(l, ch).kind == l.kind && RemoveSorted(l, ch).num == l.num - 1
  {
    hide StrictlyAscending, IndexOf, Children, TidySorted, FloorIndex, RemoveAt, LookupSorted;
    var l' := RemoveSorted(l, ch);
    RemoveSortedIsTidy(l, ch, IndexOf(l.keys[..l.num], ch));
    forall b: byte ensures Lookup(l', b) == if b == ch then Null else Lookup(l, b) {
      RemoveSortedLookup(l, ch, b);
    }
    RemovedLookupRemovesChild(l, l', ch);
  }

  lemma {:induction false} RemoveSortedIsFair(l: Layout, ch: byte)
    requires Ok(l) && (l.kind.Node4? || l.kind.Node16?) && Lookup(l, ch) != Null
    ensures ch in l.keys[..l.num] && Dropped(l, RemoveSorted(l, ch), ch)
  {
    hide Ok, Tidy, TidySorted, Children, Lookup, StrictlyAscending, RemoveSorted;
    OkSorted(l, ch);
    RemoveSortedChildren(l, ch);
    DroppedIsFair(l, RemoveSorted(l, ch), ch);
  }

  lemma {:induction false} Remove48IsFair(l: Layout, ch: byte)
    requires Ok(l) && l.kind.Node48? && Lookup(l, ch) != Null
    ensures l.keys[ch] != 0 && l.num > 0 && Dropped(l, Remove48(l, ch), ch)
  {
    hide NoOrphan, Linked, Children;
    UnusedByte(l, ch);
    OkCounts(l);
    var l' := Remove48(l, ch);
    Remove48IsTidy(l, ch);
    hide Ok, Lookup;
    forall b: byte ensures Lookup(l', b) == if b == ch then Null else Lookup(l, b) {
      Remove48Lookup(l, ch, b);
    }
    RemovedLookupRemovesChild(l, l', ch);
    DroppedIsFair(l, l', ch);
  }

  lemma {:induction false} Remove256IsFair(l: Layout, ch: byte)
    requires Ok(l) && l.kind.Node256? && Lookup(l, ch) != Null
    ensures Dropped(l, Remove256(l, ch), ch)
  {
    hide Children;
    var l' := Remove256(l, ch);
    RemovedLookupRemovesChild(l, l', ch);
    hide Lookup, Ok;
    DroppedIsFair(l, l', ch);
  }

  /** After a removal num is exact again, also in a node that had 256 children. */
  lemma {:induction false} DroppedCounts(l: Layout, l': Layout, ch: byte)
    requires Dropped(l, l', ch)
    ensures l'.num == |Children(l')|
  {
    hide Children, Tidy;
    AtMost256(Children(l).Keys);
  }

  lemma {:induction false} Shrink16IsOk(l: Layout)
    requires Fair(l) && l.kind.Node16? && |Children(l)| <= 4 && l.num == |Children(l)|
    ensures Ok(Shrink16(l)) && Children(Shrink16(l)) == Children(l)
  {
    hide StrictlyAscending;
    forall b: byte ensures Lookup(Shrink16(l), b) == Lookup(l, b) {
      Shrink16KeepsLookups(l, b);
    }
    Shrink16KeepsLookups(l, 0);
    SameLookupsSameChildren(l, Shrink16(l));
  }

  lemma {:induction false} Shrink48IsOk(l: Layout)
    requires Fair(l) && l.kind.Node48? && 4 <= |Children(l)| <= 16 && l.num == |Children(l)|
    ensures Ok(Shrink48(l, Bytes(Children(l).Keys))) && Children(Shrink48(l, Bytes(Children(l).Keys))) == Children(l)
  {
    hide StrictlyAscending, Linked, NoOrphan;
    var bs := Bytes(Children(l).Keys);
    assert forall c: byte :: c in bs <==> Lookup(l, c) != Null;
    hide Lookup;
    Shrink48IsTidy(l, bs);
    forall b: byte ensures Lookup(Shrink48(l, bs), b) == Lookup(l, b) {
      Shrink48KeepsLookups(l, bs, b);
    }
    SameLookupsSameChildren(l, Shrink48(l, bs));
  }

  lemma {:induction false} Shrink256IsOk(l: Layout)
    requires Fair(l) && l.kind.Node256? && 13 <= |Children(l)| <= 48 && l.num == |Children(l)|
    ensures Ok(Shrink256(l, Bytes(Children(l).Keys))) && Children(Shrink256(l, Bytes(Children(l).Keys))) == Children(l)
  {
    hide StrictlyAscending, Linked, NoOrphan;
    var bs := Bytes(Children(l).Keys);
    assert forall c: byte :: c in bs <==> Lookup(l, c) != Null;
    hide Lookup;
    Shrink256IsTidy(l, bs);
    forall b: byte ensures Lookup(Shrink256(l, bs), b) == Lookup(l, b) {
      Shrink256KeepsLookups(l, bs, b);
    }
    SameLookupsSameChildren(l, Shrink256(l, bs));
  }

  lemma {:induction false} FillNextKey(a: seq<byte>, n: nat, x: byte)
    requires |a| < n
    ensures (a + Zeros(n - |a|))[|a| := x] == (a + [x]) + Zeros(n - |a + [x]|)
  {
  }

  lemma {:induction false} FillNextSlot(l: Layout, bs: seq<byte>, n: nat, b: byte)
    requires Sized(l) && |bs| < n
    ensures (Packed(l, bs) + Nulls(n - |bs|))[|bs| := Lookup(l, b)]
         == Packed(l, bs + [b]) + Nulls(n - |bs + [b]|)
  {
    hide Lookup;
    assert Packed(l, bs + [b]) == Packed(l, bs) + [Lookup(l, b)];
  }

  lemma {:induction false} IndexOfSnoc(bs: seq<byte>, x: byte, b: byte)
    ensures IndexOf(bs + [x], b) == if b == x then |bs| else IndexOf(bs, b)
  {
    assert (bs + [x])[..|bs|] == bs;
  }

  /** The keys and slots of a small layout after the bytes below i have been packed. */
  ghost function KeysSoFar(used: set<byte>, i: nat, n: nat): (r: seq<byte>)
    requires i <= 256 && |used| <= n
    ensures |r| == n
  {
    AscendingFits(used, i);
    Ascending(used, i) + Zeros(n - |Ascending(used, i)|)
  }

  ghost function SlotsSoFar(l: Layout, used: set<byte>, i: nat, n: nat): (r: seq<Ref>)
    requires Sized(l) && i <= 256 && |used| <= n
    ensures |r| == n
  {
    AscendingFits(used, i);
    Packed(l, Ascending(used, i)) + Nulls(n - |Ascending(used, i)|)
  }

  lemma {:induction false} AscendingFits(s: set<byte>, i: nat)
    requires i <= 256
    ensures |Ascending(s, i)| <= |s|
  {
    AscendingGrows(s, i, 256);
    BytesAreAscending(s);
  }

  lemma {:induction false} PackStep(l: Layout, used: set<byte>, i: byte, n: nat)
    requires Sized(l) && |used| <= n
    ensures i !in used ==>
              && KeysSoFar(used, i + 1, n) == KeysSoFar(used, i, n)
              && SlotsSoFar(l, used, i + 1, n) == SlotsSoFar(l, used, i, n)
              && |Ascending(used, i + 1)| == |Ascending(used, i)|
    ensures i in used ==>
              var cnt := |Ascending(used, i)|;
              && cnt < n && |Ascending(used, i + 1)| == cnt + 1
              && KeysSoFar(used, i + 1, n) == KeysSoFar(used, i, n)[cnt := i]
              && SlotsSoFar(l, used, i + 1, n) == SlotsSoFar(l, used, i, n)[cnt := Lookup(l, i)]
  {
    hide Ascending, StrictlyAscending, Packed, Lookup, Zeros, Nulls;
    NextByte(used, i);
    AscendingFits(used, i);
    if i in used {
      FillNextKey(Ascending(used, i), n, i);
      FillNextSlot(l, Ascending(used, i), n, i);
    }
  }

  lemma {:induction false} PackEnds(l: Layout, used: set<byte>, n: nat)
    requires Sized(l) && |used| <= n
    ensures KeysSoFar(used, 0, n) == Zeros(n) && SlotsSoFar(l, used, 0, n) == Nulls(n)
    ensures |Ascending(used, 0)| == 0
    ensures KeysSoFar(used, 256, n) == Bytes(used) + Zeros(n - |used|)
    ensures SlotsSoFar(l, used, 256, n) == Packed(l, Bytes(used)) + Nulls(n - |used|)
  {
    hide StrictlyAscending, Packed, Lookup, Zeros, Nulls;
    NoneBelowZero(used);
    EmptyPack(l, n);
    BytesAreAscending(used);
  }

  /** The loop that turns a Node48 into the arrays of a Node16. */
  method PackSorted(keys: seq<byte>, slots: seq<Ref>, ghost l: Layout, ghost used: set<byte>)
    returns (ks: seq<byte>, ss: seq<Ref>)
    requires Sized(l) && l.kind.Node48? && l.keys == keys && l.slots == slots
    requires forall b: byte :: b in used <==> keys[b] != 0
    requires |used| <= 16
    ensures ks == Bytes(used) + Zeros(16 - |used|)
    ensures ss == Packed(l, Bytes(used)) + Nulls(16 - |used|)
  {
    hide Ascending, StrictlyAscending, Packed, Zeros, Nulls, KeysSoFar, SlotsSoFar;
    var cnt := 0;
    ks := Zeros(16);
    ss := Nulls(16);
    PackEnds(l, used, 16);
    for i := 0 to 256
      invariant cnt == |Ascending(used, i)|
      invariant ks == KeysSoFar(used, i, 16) && ss == SlotsSoFar(l, used, i, 16)
    {
      PackStep(l, used, i, 16);
      if keys[i] != 0 {
        ss := ss[cnt := slots[keys[i] - 1]];
        ks := ks[cnt := i];
        cnt := cnt + 1;
      }
    }
  }

  lemma {:induction false} EmptyPack(l: Layout, n: nat)
    requires Sized(l)
    ensures Packed(l, []) == []
    ensures Packed(l, []) + Nulls(n) == Nulls(n) && [] + Zeros(n) == Zeros(n)
    ensures forall b: byte :: IndexOf([], b) == -1
  {
  }

  lemma {:induction false} NoneBelowZero(s: set<byte>)
    ensures Ascending(s, 0) == []
  {
  }

  lemma {:induction false} BytesAreAscending(s: set<byte>)
    ensures Bytes(s) == Ascending(s, 256) && |s| == |Ascending(s, 256)|
  {
  }

  lemma {:induction false} NextByte(s: set<byte>, b: byte)
    ensures Ascending(s, b + 1) == if b in s then Ascending(s, b) + [b] else Ascending(s, b)
    ensures b in s ==> |Ascending(s, b)| < |s|
  {
    if b in s {
      RoomForMember(s, b);
    }
  }

  /** The loop that turns a Node256 into the arrays of a Node48. */
  method PackIndexed(slots: seq<Ref>, ghost l: Layout, ghost used: set<byte>)
    returns (ks: seq<byte>, ss: seq<Ref>)
    requires Sized(l) && l.kind.Node256? && l.slots == slots
    requires forall b: byte :: b in used <==> slots[b] != Null
    requires |used| <= 48
    ensures ks == KeysFor(Bytes(used))
    ensures ss == Packed(l, Bytes(used)) + Nulls(48 - |used|)
  {
    hide Ascending, StrictlyAscending, Packed, Nulls, IndexOf, KeysSoFar, SlotsSoFar;
    var cnt := 0;
    ks := Zeros(256);
    ss := Nulls(48);
    EmptyPack(l, 48);
    NoneBelowZero(used);
    PackEnds(l, used, 48);
    for i := 0 to 256
      invariant cnt == |Ascending(used, i)|
      invariant |ks| == 256 && forall b: byte :: ks[b] == IndexOf(Ascending(used, i), b) + 1
      invariant ss == SlotsSoFar(l, used, i, 48)
    {
      PackStep(l, used, i, 48);
      NextByte(used, i);
      if slots[i] != Null {
        forall b: byte
          ensures IndexOf(Ascending(used, i + 1), b) == if b == i then cnt else IndexOf(Ascending(used, i), b)
        {
          IndexOfSnoc(Ascending(used, i), i, b);
        }
        ks := ks[i := cnt + 1];
        ss := ss[cnt := slots[i]];
        cnt := cnt + 1;
      }
    }
    BytesAreAscending(used);
  }

  // ---------------------------------------------------------------------
  // node_remove_child
  // ---------------------------------------------------------------------

  /** The in-place step shared by Node4 and Node16: close the gap. */
  method RemoveInOrder(n: Node, ch: byte)
    requires Ok(n.Shape()) && (n.kind.Node4? || n.kind.Node16?) && Lookup(n.Shape(), ch) != Null
    modifies n`num, n`keys, n`slots
    ensures Dropped(old(n.Shape()), n.Shape(), ch)
  {
    hide StrictlyAscending, Linked, NoOrphan, RemoveAt, FloorIndex, Lookup, IndexOf;
    ghost var l := n.Shape();
    RemoveSortedIsFair(l, ch);
    var idx := FindIndex(ch, n.keys, n.num);
    FloorIsExact(n.keys[..n.num], ch);
    n.keys := RemoveAt(n.keys, idx, n.num);
    n.slots := RemoveAt(n.slots, idx, n.num);
    n.num := n.num - 1;
    assert n.Shape() == RemoveSorted(l, ch);
  }

  method Remove16Child(n: Node, ch: byte) returns (r: Node)
    requires Ok(n.Shape()) && n.kind.Node16? && Lookup(n.Shape(), ch) != Null && |n.prefix| == MAX_PREFIX_LEN
    modifies n`num, n`keys, n`slots
    ensures r == n || fresh(r)
    ensures Removed(old(n.Shape()), r.Shape(), ch)
    ensures r.prefixLen == n.prefixLen && Stored(r) == Stored(n) && |r.prefix| == MAX_PREFIX_LEN
  {
    hide StrictlyAscending, Linked, NoOrphan, IndexOf;
    ghost var l := n.Shape();
    RemoveInOrder(n, ch);
    DroppedCounts(l, n.Shape(), ch);
    if n.num <= 3 {
      r := DownToNode4(n);
    } else {
      r := n;
    }
  }

  method DownToNode4(n: Node) returns (r: Node)
    requires Fair(n.Shape()) && n.kind.Node16? && |n.prefix| == MAX_PREFIX_LEN
    requires |Children(n.Shape())| <= 4 && n.num == |Children(n.Shape())|
    ensures fresh(r) && Ok(r.Shape())
    ensures Children(r.Shape()) == Children(n.Shape())
    ensures r.prefixLen == n.prefixLen && Stored(r) == Stored(n) && |r.prefix| == MAX_PREFIX_LEN
  {
    hide StrictlyAscending, Linked, NoOrphan, IndexOf, Children;
    ghost var l := n.Shape();
    r := new Node(Node4);
    r.num := n.num;
    CopyPrefix(r, n);
    r.keys := n.keys[..n.num] + r.keys[n.num..];
    r.slots := n.slots[..n.num] + r.slots[n.num..];
    assert r.Shape() == Shrink16(l) by {
      assert r.slots == Shrink16(l).slots && r.keys == Shrink16(l).keys;
    }
    hide Shrink16, Ok, Fair, Stored;
    Shrink16IsOk(l);
  }

  method Remove48Child(n: Node, ch: byte) returns (r: Node)
    requires Ok(n.Shape()) && n.kind.Node48? && Lookup(n.Shape(), ch) != Null && |n.prefix| == MAX_PREFIX_LEN
    modifies n`num, n`keys, n`slots
    ensures r == n || fresh(r)
    ensures Removed(old(n.Shape()), r.Shape(), ch)
    ensures r.prefixLen == n.prefixLen && Stored(r) == Stored(n) && |r.prefix| == MAX_PREFIX_LEN
  {
    hide StrictlyAscending, Linked, NoOrphan, IndexOf;
    ghost var l := n.Shape();
    Remove48IsFair(l, ch);
    n.slots := n.slots[n.keys[ch] - 1 := Null];
    n.keys := n.keys[ch := 0];
    n.num := n.num - 1;
    assert n.Shape() == Remove48(l, ch);
    DroppedCounts(l, n.Shape(), ch);
    if n.num <= 12 {
      r := DownToNode16(n);
    } else {
      r := n;
    }
  }

  method DownToNode16(n: Node) returns (r: Node)
    requires Fair(n.Shape()) && n.kind.Node48? && |n.prefix| == MAX_PREFIX_LEN
    requires 4 <= |Children(n.Shape())| <= 16 && n.num == |Children(n.Shape())|
    ensures fresh(r) && Ok(r.Shape())
    ensures Children(r.Shape()) == Children(n.Shape())
    ensures r.prefixLen == n.prefixLen && Stored(r) == Stored(n) && |r.prefix| == MAX_PREFIX_LEN
  {
    hide StrictlyAscending, Linked, NoOrphan, IndexOf, Zeros, Nulls, Packed, Bytes;
    ghost var l := n.Shape();
    ghost var used := Children(l).Keys;
    r := new Node(Node16);
    r.num := n.num;
    CopyPrefix(r, n);
    UsedBytes(l);
    var ks, ss := PackSorted(n.keys, n.slots, l, used);
    r.keys, r.slots := ks, ss;
    assert r.Shape() == Shrink48(l, Bytes(used));
    hide Shrink48, Ok, Fair, Stored, Children;
    Shrink48IsOk(l);
  }

  lemma {:induction false} UsedBytes(l: Layout)
    requires Sized(l) && l.kind.Node48? && Tidy(l)
    ensures forall b: byte :: b in Children(l).Keys <==> l.keys[b] != 0
  {
    hide Lookup, Tidy;
    forall b: byte ensures b in Children(l).Keys <==> l.keys[b] != 0 {
      UnusedByte(l, b);
      ChildrenAreLookups(l, b);
    }
  }

  method Remove256Child(n: Node, ch: byte) returns (r: Node)
    requires Ok(n.Shape()) && n.kind.Node256? && Lookup(n.Shape(), ch) != Null && |n.prefix| == MAX_PREFIX_LEN
    modifies n`num, n`keys, n`slots
    ensures r == n || fresh(r)
    ensures Removed(old(n.Shape()), r.Shape(), ch)
    ensures r.prefixLen == n.prefixLen && Stored(r) == Stored(n) && |r.prefix| == MAX_PREFIX_LEN
  {
    hide StrictlyAscending, Linked, NoOrphan, IndexOf;
    ghost var l := n.Shape();
    Remove256IsFair(l, ch);
    n.slots := n.slots[ch := Null];
    n.num := (n.num + 255) % 256;
    assert n.Shape() == Remove256(l, ch);
    DroppedCounts(l, n.Shape(), ch);
    if n.num <= 37 {
      r := DownToNode48(n);
    } else {
      r := n;
    }
  }

  method DownToNode48(n: Node) returns (r: Node)
    requires Fair(n.Shape()) && n.kind.Node256? && |n.prefix| == MAX_PREFIX_LEN
    requires 13 <= |Children(n.Shape())| <= 48 && n.num == |Children(n.Shape())|
    ensures fresh(r) && Ok(r.Shape())
    ensures Children(r.Shape()) == Children(n.Shape())
    ensures r.prefixLen == n.prefixLen && Stored(r) == Stored(n) && |r.prefix| == MAX_PREFIX_LEN
  {
    hide StrictlyAscending, Linked, NoOrphan, IndexOf, Nulls, Packed, Bytes, KeysFor;
    ghost var l := n.Shape();
    ghost var used := Children(l).Keys;
    r := new Node(Node48);
    r.num := n.num;
    CopyPrefix(r, n);
    assert forall b: byte :: b in used <==> n.slots[b] != Null;
    var ks, ss := PackIndexed(n.slots, l, used);
    r.keys, r.slots := ks, ss;
    assert r.Shape() == Shrink256(l, Bytes(used));
    hide Shrink256, Ok, Fair, Stored, Children;
    Shrink256IsOk(l);
  }

  /** Remove the child under ch, short of merging a Node4 that is left with one child. */
  method RemoveFrom(n: Node, ch: byte) returns (r: Node)
    requires Ok(n.Shape()) && Lookup(n.Shape(), ch) != Null && |n.prefix| == MAX_PREFIX_LEN
    modifies n`num, n`keys, n`slots
    ensures r == n || fresh(r)
    ensures Removed(old(n.Shape()), r.Shape(), ch)
    ensures r.prefixLen == n.prefixLen && Stored(r) == Stored(n) && |r.prefix| == MAX_PREFIX_LEN
  {
    hide StrictlyAscending, Linked, NoOrphan, IndexOf, Lookup, Stored;
    match n.kind
    case Node4 =>
      RemoveInOrder(n, ch);
      r := n;
    case Node16 => r := Remove16Child(n, ch);
    case Node48 => r := Remove48Child(n, ch);
    case Node256 => r := Remove256Child(n, ch);
  }
}
