/** The methods that change a node's layout in place or replace the node by one with
    the neighbouring layout. */
module ArtNode {
  import opened Common
  import opened ArtKeys
  import opened ArtLayout
  import opened ArtSorted
  import opened ArtWide

  // ---------------------------------------------------------------------
  // Steps between layouts that keep Ok
  // ---------------------------------------------------------------------

  /** l' is l with one more child. */
  ghost predicate Added(l: Layout, l': Layout, ch: byte, child: Ref) {
    Ok(l) && Ok(l') && Children(l') == Children(l)[ch := child]
  }

  lemma {:induction false} OkCounts(l: Layout)
    requires Ok(l)
    ensures !l.kind.Node256? ==> l.num == |Children(l)|
    ensures l.num == |Children(l)| || (|Children(l)| == 256 && l.num == 0)
  {
    hide Tidy, Children, Sized, StrictlyAscending;
    AtMost256(Children(l).Keys);
  }

  /** One child more, one more in num, and there was room: the layout stays Ok. */
  lemma {:induction false} AddedIsOk(l: Layout, l': Layout, ch: byte, child: Ref)
    requires Ok(l) && Sized(l') && Tidy(l') && l'.kind == l.kind
    requires Lookup(l, ch) == Null && Children(l') == Children(l)[ch := child]
    requires l'.num == (l.num + 1) % 256
    requires l.kind.Node256? || l.num < |l.slots|
    ensures Added(l, l', ch, child)
  {
    hide Tidy, Lookup, StrictlyAscending;
    ChildrenAreLookups(l, ch);
    hide Children;
    OkCounts(l);
    CountAfter(Children(l), ch, child);
    AtMost256(Children(l').Keys);
  }

  /** The parts of Ok that the sorted layouts work with. */
  lemma {:induction false} OkSorted(l: Layout, ch: byte)
    requires Ok(l) && (l.kind.Node4? || l.kind.Node16?)
    ensures Sized(l) && TidySorted(l) && l.num == |Children(l)|
    ensures Lookup(l, ch) == Null <==> ch !in l.keys[..l.num]
  {
    hide StrictlyAscending, Children, IndexOf;
    OkCounts(l);
    LookupMissing(l, ch);
  }

  lemma {:induction false} AddSortedChildren(l: Layout, ch: byte, child: Ref)
    requires Sized(l) && (l.kind.Node4? || l.kind.Node16?) && TidySorted(l)
    requires l.num < |l.slots| && ch !in l.keys[..l.num] && child != Null
    ensures Sized(AddSorted(l, ch, child)) && Tidy(AddSorted(l, ch, child))
    ensures Children(AddSorted(l, ch, child)) == Children(l)[ch := child]
  {
    hide StrictlyAscending, IndexOf, Children, TidySorted, FloorIndex, InsertAt, LookupSorted;
    var l' := AddSorted(l, ch, child);
    AddSortedIsTidy(l, ch, child);
    forall b: byte ensures Lookup(l', b) == if b == ch then child else Lookup(l, b) {
      AddSortedLookup(l, ch, child, b);
    }
    AddedLookupAddsChild(l, l', ch, child);
  }

  lemma {:induction false} AddSortedIsOk(l: Layout, ch: byte, child: Ref)
    requires Ok(l) && (l.kind.Node4? || l.kind.Node16?) && l.num < |l.slots|
    requires Lookup(l, ch) == Null && child != Null
    ensures Added(l, AddSorted(l, ch, child), ch, child)
  {
    hide Ok, Tidy, TidySorted, Children, Lookup, FloorIndex, InsertAt, StrictlyAscending;
    OkSorted(l, ch);
    AddSortedChildren(l, ch, child);
    AddedIsOk(l, AddSorted(l, ch, child), ch, child);
  }

  lemma {:induction false} UnusedByte(l: Layout, ch: byte)
    requires Sized(l) && l.kind.Node48? && Tidy(l)
    ensures l.keys[ch] == 0 <==> Lookup(l, ch) == Null
  {
    hide NoOrphan;
  }

  lemma {:induction false} Add48IsOk(l: Layout, ch: byte, child: Ref, pos: nat)
    requires Ok(l) && l.kind.Node48? && l.num < 48 && pos < 48 && l.slots[pos] == Null
    requires Lookup(l, ch) == Null && child != Null
    ensures Added(l, Add48(l, ch, child, pos), ch, child)
  {
    hide NoOrphan, Linked, Lookup, Children;
    var l' := Add48(l, ch, child, pos);
    UnusedByte(l, ch);
    Add48IsTidy(l, ch, child, pos);
    hide Ok;
    forall b: byte ensures Lookup(l', b) == if b == ch then child else Lookup(l, b) {
      Add48Lookup(l, ch, child, pos, b);
    }
    AddedLookupAddsChild(l, l', ch, child);
    AddedIsOk(l, l', ch, child);
  }

  lemma {:induction false} Add256IsOk(l: Layout, ch: byte, child: Ref)
    requires Ok(l) && l.kind.Node256? && Lookup(l, ch) == Null && child != Null
    ensures Added(l, Add256(l, ch, child), ch, child)
  {
    hide Children;
    var l' := Add256(l, ch, child);
    AddedLookupAddsChild(l, l', ch, child);
    hide Lookup, Ok;
    AddedIsOk(l, l', ch, child);
  }

  lemma {:induction false} Grow4IsOk(l: Layout)
    requires Ok(l) && l.kind.Node4? && l.num == 4
    ensures Ok(Grow4(l)) && Children(Grow4(l)) == Children(l)
  {
    hide StrictlyAscending;
    OkCounts(l);
    forall b: byte ensures Lookup(Grow4(l), b) == Lookup(l, b) {
      Grow4KeepsLookups(l, b);
    }
    Grow4KeepsLookups(l, 0);
    SameLookupsSameChildren(l, Grow4(l));
  }

  lemma {:induction false} Grow16IsOk(l: Layout)
    requires Ok(l) && l.kind.Node16? && l.num == 16
    ensures Ok(Grow16(l)) && Children(Grow16(l)) == Children(l)
  {
    hide StrictlyAscending, Linked, NoOrphan;
    OkCounts(l);
    Grow16IsTidy(l);
    forall b: byte ensures Lookup(Grow16(l), b) == Lookup(l, b) {
      Grow16KeepsLookups(l, b);
    }
    SameLookupsSameChildren(l, Grow16(l));
  }

  lemma {:induction false} Grow48IsOk(l: Layout)
    requires Ok(l) && l.kind.Node48? && l.num == 48
    ensures Ok(Grow48(l)) && Children(Grow48(l)) == Children(l)
  {
    hide StrictlyAscending, Linked, NoOrphan;
    OkCounts(l);
    forall b: byte ensures Lookup(Grow48(l), b) == Lookup(l, b) {
      Grow48KeepsLookups(l, b);
    }
    SameLookupsSameChildren(l, Grow48(l));
  }

  // ---------------------------------------------------------------------
  // The copying loops
  // ---------------------------------------------------------------------

  /** The first free slot of a Node48. */
  method FirstFree(slots: seq<Ref>) returns (pos: nat)
    requires exists i :: 0 <= i < |slots| && slots[i] == Null
    ensures pos < |slots| && slots[pos] == Null
    ensures forall i :: 0 <= i < pos ==> slots[i] != Null
  {
    pos := 0;
    while slots[pos] != Null
      invariant pos < |slots|
      invariant forall i :: 0 <= i < pos ==> slots[i] != Null
      decreases |slots| - pos
    {
      pos := pos + 1;
    }
  }

  /** The key array of a Node48 made from the sorted keys of a Node16. */
  method IndexKeys(keys: seq<byte>, num: nat) returns (r: seq<byte>)
    requires num <= |keys| && num <= 48
    ensures r == KeysFor(keys[..num])
  {
    r := Zeros(256);
    for i := 0 to num
      invariant |r| == 256 && forall b: byte :: r[b] == IndexOf(keys[..i], b) + 1
    {
      assert keys[..i + 1][..i] == keys[..i];
      r := r[keys[i] := i + 1];
    }
  }

  /** The slots of a Node256 made from a Node48. */
  method SpreadSlots(keys: seq<byte>, slots: seq<Ref>) returns (r: seq<Ref>)
    requires |keys| == 256 && |slots| == 48 && forall b :: 0 <= b < 256 ==> keys[b] <= 48
    ensures |r| == 256
    ensures forall b: byte :: r[b] == if keys[b] == 0 then Null else slots[keys[b] - 1]
  {
    r := Nulls(256);
    for i := 0 to 256
      invariant |r| == 256
      invariant forall b: byte :: r[b] == if i <= b || keys[b] == 0 then Null else slots[keys[b] - 1]
    {
      if keys[i] != 0 {
        r := r[i := slots[keys[i] - 1]];
      }
    }
  }

  // ---------------------------------------------------------------------
  // node_get_child and node_add_child
  // ---------------------------------------------------------------------

  method GetChild(n: Node, ch: byte) returns (r: Ref)
    requires Ok(n.Shape())
    ensures r == Lookup(n.Shape(), ch)
  {
    ghost var l := n.Shape();
    match n.kind
    case Node4 =>
      r := GetSorted(n, ch);
    case Node16 =>
      r := GetSorted(n, ch);
    case Node48 =>
      r := if n.keys[ch] == 0 then Null else n.slots[n.keys[ch] - 1];
    case Node256 =>
      r := n.slots[ch];
  }

  method GetSorted(n: Node, ch: byte) returns (r: Ref)
    requires Ok(n.Shape()) && (n.kind.Node4? || n.kind.Node16?)
    ensures r == Lookup(n.Shape(), ch)
  {
    hide StrictlyAscending, Children;
    ghost var l := n.Shape();
    var idx := FindIndex(ch, n.keys, n.num);
    if idx == -1 || n.keys[idx] != ch {
      FloorMisses(n.keys[..n.num], ch, idx);
      LookupMissing(l, ch);
      r := Null;
    } else {
      LookupAt(l, idx);
      r := n.slots[idx];
    }
  }

  lemma {:induction false} FloorMisses(ks: seq<byte>, ch: byte, i: int)
    requires StrictlyAscending(ks) && i == FloorIndex(ks, ch)
    requires i == -1 || ks[i] != ch
    ensures ch !in ks
  {
    FloorIndexIsUnique(ks, ch, i);
  }

  /** The prefix bytes of a node that mean something. */
  function Stored(n: Node): seq<byte>
    reads n
  {
    n.prefix[..Min(|n.prefix|, Min(MAX_PREFIX_LEN, n.prefixLen))]
  }

  /** copy_header, except for the number of children. */
  method CopyPrefix(dest: Node, src: Node)
    requires dest != src && |src.prefix| == MAX_PREFIX_LEN && |dest.prefix| == MAX_PREFIX_LEN
    modifies dest`prefixLen, dest`prefix
    ensures dest.prefixLen == src.prefixLen && |dest.prefix| == MAX_PREFIX_LEN
    ensures Stored(dest) == Stored(src)
  {
    dest.prefixLen := src.prefixLen;
    var k := Min(MAX_PREFIX_LEN, src.prefixLen);
    dest.prefix := src.prefix[..k] + dest.prefix[k..];
  }

  lemma {:induction false} OkIsSized(l: Layout, l': Layout)
    requires Ok(l) && Ok(l')
    ensures Sized(l) && Sized(l')
  {
  }

  lemma {:induction false} SameNulls(l: Layout, l': Layout)
    requires Sized(l) && Sized(l') && Children(l) == Children(l')
    ensures forall ch: byte :: Lookup(l, ch) == Null <==> Lookup(l', ch) == Null
  {
    forall ch: byte ensures Lookup(l, ch) == Null <==> Lookup(l', ch) == Null {
      ChildrenAreLookups(l, ch);
      ChildrenAreLookups(l', ch);
    }
  }

  /** The conversion loop or copy that grows a full Node4. */
  method ToNode16(n: Node) returns (r: Node)
    requires Ok(n.Shape()) && n.kind.Node4? && n.num == 4 && |n.prefix| == MAX_PREFIX_LEN
    ensures fresh(r) && r.kind.Node16? && Ok(r.Shape())
    ensures Children(r.Shape()) == Children(n.Shape())
    ensures forall ch: byte :: Lookup(r.Shape(), ch) == Null <==> Lookup(n.Shape(), ch) == Null
    ensures r.prefixLen == n.prefixLen && Stored(r) == Stored(n) && |r.prefix| == MAX_PREFIX_LEN
  {
    hide StrictlyAscending, Linked, NoOrphan, IndexOf;
    ghost var l := n.Shape();
    r := new Node(Node16);
    r.num := n.num;
    CopyPrefix(r, n);
    r.slots := n.slots[..n.num] + r.slots[n.num..];
    r.keys := n.keys[..n.num] + r.keys[n.num..];
    assert r.Shape() == Grow4(l) by {
      assert r.slots == Grow4(l).slots && r.keys == Grow4(l).keys;
    }
    hide Ok, Children, Grow4, Lookup, Stored;
    Grow4IsOk(l);
    OkIsSized(l, r.Shape());
    SameNulls(r.Shape(), l);
  }

  /** The conversion loop or copy that grows a full Node16. */
  method ToNode48(n: Node) returns (r: Node)
    requires Ok(n.Shape()) && n.kind.Node16? && n.num == 16 && |n.prefix| == MAX_PREFIX_LEN
    ensures fresh(r) && r.kind.Node48? && Ok(r.Shape())
    ensures Children(r.Shape()) == Children(n.Shape())
    ensures forall ch: byte :: Lookup(r.Shape(), ch) == Null <==> Lookup(n.Shape(), ch) == Null
    ensures r.prefixLen == n.prefixLen && Stored(r) == Stored(n) && |r.prefix| == MAX_PREFIX_LEN
  {
    hide StrictlyAscending, Linked, NoOrphan, IndexOf;
    ghost var l := n.Shape();
    r := new Node(Node48);
    r.num := n.num;
    CopyPrefix(r, n);
    r.slots := n.slots[..n.num] + r.slots[n.num..];
    r.keys := IndexKeys(n.keys, n.num);
    assert r.Shape() == Grow16(l) by {
      assert r.slots == Grow16(l).slots;
    }
    hide Ok, Children, Grow16, Lookup, Stored;
    Grow16IsOk(l);
    OkIsSized(l, r.Shape());
    SameNulls(r.Shape(), l);
  }

  /** The conversion loop or copy that grows a full Node48. */
  method ToNode256(n: Node) returns (r: Node)
    requires Ok(n.Shape()) && n.kind.Node48? && n.num == 48 && |n.prefix| == MAX_PREFIX_LEN
    ensures fresh(r) && r.kind.Node256? && Ok(r.Shape())
    ensures Children(r.Shape()) == Children(n.Shape())
    ensures forall ch: byte :: Lookup(r.Shape(), ch) == Null <==> Lookup(n.Shape(), ch) == Null
    ensures r.prefixLen == n.prefixLen && Stored(r) == Stored(n) && |r.prefix| == MAX_PREFIX_LEN
  {
    hide StrictlyAscending, Linked, NoOrphan, IndexOf;
    ghost var l := n.Shape();
    r := new Node(Node256);
    r.num := n.num;
    CopyPrefix(r, n);
    r.slots := SpreadSlots(n.keys, n.slots);
    assert r.Shape() == Grow48(l) by {
      assert r.slots == Grow48(l).slots;
      assert r.keys == [];
    }
    hide Ok, Children, Grow48, Lookup, Stored;
    Grow48IsOk(l);
    OkIsSized(l, r.Shape());
    SameNulls(r.Shape(), l);
  }

  method Add256Child(n: Node, ch: byte, child: Ref)
    requires Ok(n.Shape()) && n.kind.Node256? && Lookup(n.Shape(), ch) == Null && child != Null
    modifies n`num, n`slots
    ensures Added(old(n.Shape()), n.Shape(), ch, child)
  {
    Add256IsOk(n.Shape(), ch, child);
    n.num := (n.num + 1) % 256;
    n.slots := n.slots[ch := child];
  }

  method Add48Child(n: Node, ch: byte, child: Ref) returns (r: Node)
    requires Ok(n.Shape()) && n.kind.Node48? && Lookup(n.Shape(), ch) == Null && child != Null
    requires |n.prefix| == MAX_PREFIX_LEN
    modifies n`num, n`keys, n`slots
    ensures r == n || fresh(r)
    ensures Added(old(n.Shape()), r.Shape(), ch, child)
    ensures r.prefixLen == n.prefixLen && Stored(r) == Stored(n) && |r.prefix| == MAX_PREFIX_LEN
  {
    hide StrictlyAscending, Linked, NoOrphan, IndexOf;
    ghost var l := n.Shape();
    OkCounts(l);
    if n.num < 48 {
      FreeSlotExists(l);
      var pos := FirstFree(n.slots);
      n.slots := n.slots[pos := child];
      n.keys := n.keys[ch := pos + 1];
      n.num := n.num + 1;
      r := n;
      assert n.Shape() == Add48(l, ch, child, pos);
      hide Added, Ok, Lookup, Add48, NoOrphan, Linked;
      Add48IsOk(l, ch, child, pos);
    } else {
      r := ToNode256(n);
      Add256Child(r, ch, child);
    }
  }

  method Add16Child(n: Node, ch: byte, child: Ref) returns (r: Node)
    requires Ok(n.Shape()) && n.kind.Node16? && Lookup(n.Shape(), ch) == Null && child != Null
    requires |n.prefix| == MAX_PREFIX_LEN
    modifies n`num, n`keys, n`slots
    ensures r == n || fresh(r)
    ensures Added(old(n.Shape()), r.Shape(), ch, child)
    ensures r.prefixLen == n.prefixLen && Stored(r) == Stored(n) && |r.prefix| == MAX_PREFIX_LEN
  {
    hide StrictlyAscending, Linked, NoOrphan, IndexOf;
    ghost var l := n.Shape();
    OkCounts(l);
    if n.num < 16 {
      AddInOrder(n, ch, child);
      r := n;
    } else {
      r := ToNode48(n);
      r := Add48Child(r, ch, child);
    }
  }

  /** The in-place case shared by Node4 and Node16: shift the cells behind the floor
      index up by one and store the new pair there. */
  method AddInOrder(n: Node, ch: byte, child: Ref)
    requires Ok(n.Shape()) && (n.kind.Node4? || n.kind.Node16?) && n.num < |n.slots|
    requires Lookup(n.Shape(), ch) == Null && child != Null
    modifies n`num, n`keys, n`slots
    ensures Added(old(n.Shape()), n.Shape(), ch, child)
  {
    hide StrictlyAscending, Linked, NoOrphan, InsertAt, FloorIndex, Lookup;
    ghost var l := n.Shape();
    var idx := FindIndex(ch, n.keys, n.num);
    n.keys := InsertAt(n.keys, idx + 1, n.num, ch);
    n.slots := InsertAt(n.slots, idx + 1, n.num, child);
    n.num := n.num + 1;
    assert n.Shape() == AddSorted(l, ch, child);
    hide Added, Ok, Lookup, AddSorted;
    AddSortedIsOk(l, ch, child);
  }

  method Add4Child(n: Node, ch: byte, child: Ref) returns (r: Node)
    requires Ok(n.Shape()) && n.kind.Node4? && Lookup(n.Shape(), ch) == Null && child != Null
    requires |n.prefix| == MAX_PREFIX_LEN
    modifies n`num, n`keys, n`slots
    ensures r == n || fresh(r)
    ensures Added(old(n.Shape()), r.Shape(), ch, child)
    ensures r.prefixLen == n.prefixLen && Stored(r) == Stored(n) && |r.prefix| == MAX_PREFIX_LEN
  {
    hide StrictlyAscending, Linked, NoOrphan, IndexOf;
    ghost var l := n.Shape();
    OkCounts(l);
    if n.num < 4 {
      AddInOrder(n, ch, child);
      r := n;
    } else {
      r := ToNode16(n);
      r := Add16Child(r, ch, child);
    }
  }

  method AddChild(n: Node, ch: byte, child: Ref) returns (r: Node)
    requires Ok(n.Shape()) && Lookup(n.Shape(), ch) == Null && child != Null
    requires |n.prefix| == MAX_PREFIX_LEN
    modifies n`num, n`keys, n`slots
    ensures r == n || fresh(r)
    ensures Added(old(n.Shape()), r.Shape(), ch, child)
    ensures r.prefixLen == n.prefixLen && Stored(r) == Stored(n) && |r.prefix| == MAX_PREFIX_LEN
  {
    match n.kind
    case Node4 => r := Add4Child(n, ch, child);
    case Node16 => r := Add16Child(n, ch, child);
    case Node48 => r := Add48Child(n, ch, child);
    case Node256 =>
      Add256Child(n, ch, child);
      r := n;
  }

  // ---------------------------------------------------------------------
  // Writing through the pointer that node_get_child returns
  // ---------------------------------------------------------------------

  lemma {:induction false} StoreSorted(l: Layout, i: nat, c: Ref, b: byte)
    requires Sized(l) && (l.kind.Node4? || l.kind.Node16?) && TidySorted(l) && i < l.num && c != Null
    ensures var l' := l.(slots := l.slots[i := c]);
            && Sized(l') && TidySorted(l')
            && LookupSorted(l', b) == if b == l.keys[i] then c else LookupSorted(l, b)
  {
    var l' := l.(slots := l.slots[i := c]);
    hide StrictlyAscending, IndexOf;
    LookupAt(l', i);
    LookupMissing(l, b);
    LookupMissing(l', b);
    hide LookupSorted;
    if b in l.keys[..l.num] {
      var j := IndexOf(l.keys[..l.num], b);
      LookupAt(l, j);
      LookupAt(l', j);
    }
  }

  lemma {:induction false} Store48(l: Layout, ch: byte, c: Ref, b: byte)
    requires Sized(l) && l.kind.Node48? && Tidy(l) && l.keys[ch] != 0 && c != Null
    ensures var l' := l.(slots := l.slots[l.keys[ch] - 1 := c]);
            && Sized(l') && Lookup(l', b) == if b == ch then c else Lookup(l, b)
  {
    hide NoOrphan;
  }

  lemma {:induction false} Store48IsTidy(l: Layout, ch: byte, c: Ref)
    requires Sized(l) && l.kind.Node48? && Tidy(l) && l.keys[ch] != 0 && c != Null
    ensures var l' := l.(slots := l.slots[l.keys[ch] - 1 := c]);
            Sized(l') && Tidy(l')
  {
    var slots' := l.slots[l.keys[ch] - 1 := c];
    assert Linked(l.keys, slots') by {
      hide NoOrphan;
    }
    assert NoOrphan(l.keys, slots') by {
      hide Linked;
      forall i | 0 <= i < 48 && slots'[i] != Null ensures exists b: byte :: l.keys[b] == i + 1 {
        if i == l.keys[ch] - 1 {
          assert l.keys[ch] == i + 1;
        } else {
          assert l.slots[i] != Null;
        }
      }
    }
  }

  /** Replacing the child of a byte in use keeps the layout Ok. */
  lemma {:induction false} StoredIsOk(l: Layout, l': Layout, ch: byte, c: Ref)
    requires Ok(l) && Sized(l') && Tidy(l') && l'.kind == l.kind && l'.num == l.num
    requires Lookup(l, ch) != Null && c != Null
    requires forall b: byte :: Lookup(l', b) == if b == ch then c else Lookup(l, b)
    ensures Added(l, l', ch, c)
  {
    hide Tidy, Lookup;
    ChildrenAreLookups(l, ch);
    AddedLookupAddsChild(l, l', ch, c);
    hide Children;
    CountAfter(Children(l), ch, c);
  }

  method StoreChild(n: Node, ch: byte, c: Ref)
    requires Ok(n.Shape()) && Lookup(n.Shape(), ch) != Null && c != Null
    modifies n`slots
    ensures Added(old(n.Shape()), n.Shape(), ch, c)
  {
    hide StrictlyAscending, Linked, NoOrphan, IndexOf, LookupSorted, Children;
    ghost var l := n.Shape();
    match n.kind {
      case Node4 => StoreInOrder(n, ch, c);
      case Node16 => StoreInOrder(n, ch, c);
      case Node48 =>
        UnusedByte(l, ch);
        Store48IsTidy(l, ch, c);
        n.slots := n.slots[n.keys[ch] - 1 := c];
        forall b: byte ensures Lookup(n.Shape(), b) == if b == ch then c else Lookup(l, b) {
          Store48(l, ch, c, b);
        }
        StoredIsOk(l, n.Shape(), ch, c);
      case Node256 =>
        n.slots := n.slots[ch := c];
        StoredIsOk(l, n.Shape(), ch, c);
    }
  }

  method StoreInOrder(n: Node, ch: byte, c: Ref)
    requires Ok(n.Shape()) && (n.kind.Node4? || n.kind.Node16?) && Lookup(n.Shape(), ch) != Null && c != Null
    modifies n`slots
    ensures Added(old(n.Shape()), n.Shape(), ch, c)
  {
    hide StrictlyAscending, IndexOf, LookupSorted, Children, FloorIndex;
    ghost var l := n.Shape();
    OkSorted(l, ch);
    var idx := FindIndex(ch, n.keys, n.num);
    FloorIsExact(n.keys[..n.num], ch);
    n.slots := n.slots[idx := c];
    StoreSorted(l, idx, c, ch);
    forall b: byte ensures Lookup(n.Shape(), b) == if b == ch then c else Lookup(l, b) {
      StoreSorted(l, idx, c, b);
    }
    hide Ok, Lookup;
    StoredIsOk(l, n.Shape(), ch, c);
  }

  lemma {:induction false} FloorIsExact(ks: seq<byte>, ch: byte)
    requires StrictlyAscending(ks) && ch in ks
    ensures 0 <= FloorIndex(ks, ch) && ks[FloorIndex(ks, ch)] == ch
  {
    var i := IndexOf(ks, ch);
    FloorIndexIsUnique(ks, ch, i);
  }
}
