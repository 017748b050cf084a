/** The two layouts indexed by branch byte, Node48 and Node256, and the conversions
    between neighbouring layouts. */
module ArtWide {
  import opened Common
  import opened ArtKeys
  import opened ArtLayout

  // ---------------------------------------------------------------------
  // Node256: the slots are the map
  // ---------------------------------------------------------------------

  function Add256(l: Layout, ch: byte, child: Ref): Layout
    requires Sized(l) && l.kind.Node256?
  {
    l.(num := (l.num + 1) % 256, slots := l.slots[ch := child])
  }

  function Remove256(l: Layout, ch: byte): Layout
    requires Sized(l) && l.kind.Node256?
  {
    l.(num := (l.num + 255) % 256, slots := l.slots[ch := Null])
  }

  // ---------------------------------------------------------------------
  // Node48: a byte names a slot
  // ---------------------------------------------------------------------

  function Add48(l: Layout, ch: byte, child: Ref, pos: nat): Layout
    requires Sized(l) && l.kind.Node48? && pos < 48 && l.num < 255
  {
    l.(num := l.num + 1, keys := l.keys[ch := pos + 1], slots := l.slots[pos := child])
  }

  function Remove48(l: Layout, ch: byte): Layout
    requires Sized(l) && l.kind.Node48? && l.keys[ch] != 0 && l.num > 0
  {
    l.(num := l.num - 1, keys := l.keys[ch := 0], slots := l.slots[l.keys[ch] - 1 := Null])
  }

  /** Filling a free slot under an unused byte adds exactly that lookup. */
  lemma {:induction false} Add48Lookup(l: Layout, ch: byte, child: Ref, pos: nat, b: byte)
    requires Sized(l) && l.kind.Node48? && Tidy(l) && l.num < 255 && pos < 48
    requires l.keys[ch] == 0 && l.slots[pos] == Null && child != Null
    ensures Sized(Add48(l, ch, child, pos))
    ensures Lookup(Add48(l, ch, child, pos), b) == if b == ch then child else Lookup(l, b)
  {
    hide NoOrphan;
  }

  lemma {:induction false} Add48NoOrphan(keys: seq<byte>, slots: seq<Ref>, ch: byte, child: Ref, pos: nat)
    requires |keys| == 256 && |slots| == 48 && NoOrphan(keys, slots) && pos < 48 && keys[ch] == 0
    ensures NoOrphan(keys[ch := pos + 1], slots[pos := child])
  {
    var keys', slots' := keys[ch := pos + 1], slots[pos := child];
    forall i | 0 <= i < 48 && slots'[i] != Null ensures exists b: byte :: keys'[b] == i + 1 {
      if i == pos {
        assert keys'[ch] == i + 1;
      } else {
        assert slots[i] != Null;
        var b: byte :| keys[b] == i + 1;
        assert keys'[b] == i + 1;
      }
    }
  }

  lemma {:induction false} Add48IsTidy(l: Layout, ch: byte, child: Ref, pos: nat)
    requires Sized(l) && l.kind.Node48? && Tidy(l) && l.num < 255 && pos < 48
    requires l.keys[ch] == 0 && l.slots[pos] == Null && child != Null
    ensures Sized(Add48(l, ch, child, pos)) && Tidy(Add48(l, ch, child, pos))
  {
    hide NoOrphan;
    Add48NoOrphan(l.keys, l.slots, ch, child, pos);
  }

  /** Removing a byte frees its slot, which may lie between slots in use. */
  lemma {:induction false} Remove48Lookup(l: Layout, ch: byte, b: byte)
    requires Sized(l) && l.kind.Node48? && Tidy(l) && l.keys[ch] != 0 && l.num > 0
    ensures Sized(Remove48(l, ch))
    ensures Lookup(Remove48(l, ch), b) == if b == ch then Null else Lookup(l, b)
  {
    hide NoOrphan;
  }

  lemma {:induction false} Remove48NoOrphan(keys: seq<byte>, slots: seq<Ref>, ch: byte)
    requires |keys| == 256 && |slots| == 48 && NoOrphan(keys, slots) && 0 < keys[ch] <= 48
    ensures NoOrphan(keys[ch := 0], slots[keys[ch] - 1 := Null])
  {
    var keys', slots' := keys[ch := 0], slots[keys[ch] - 1 := Null];
    forall i | 0 <= i < 48 && slots'[i] != Null ensures exists b: byte :: keys'[b] == i + 1 {
      assert slots[i] != Null;
      var b: byte :| keys[b] == i + 1;
      assert keys'[b] == i + 1;
    }
  }

  lemma {:induction false} Remove48IsTidy(l: Layout, ch: byte)
    requires Sized(l) && l.kind.Node48? && Tidy(l) && l.keys[ch] != 0 && l.num > 0
    ensures Sized(Remove48(l, ch)) && Tidy(Remove48(l, ch))
  {
    hide NoOrphan;
    Remove48NoOrphan(l.keys, l.slots, ch);
  }

  /** The bytes that name one of the first n slots. */
  ghost function Named(l: Layout, n: nat): set<byte>
    requires Sized(l) && l.kind.Node48?
  {
    set b: byte | 0 < l.keys[b] <= n
  }

  lemma {:induction false} NameOfSlot(l: Layout, i: nat) returns (b: byte)
    requires Sized(l) && l.kind.Node48? && Tidy(l) && i < 48 && l.slots[i] != Null
    ensures l.keys[b] == i + 1
  {
    hide Linked;
    b :| l.keys[b] == i + 1;
  }

  lemma {:induction false} NamedCount(l: Layout, n: nat)
    requires Sized(l) && l.kind.Node48? && Tidy(l) && n <= 48
    requires forall i :: 0 <= i < n ==> l.slots[i] != Null
    ensures |Named(l, n)| >= n
  {
    if n == 0 {
    } else {
      NamedCount(l, n - 1);
      var b := NameOfSlot(l, n - 1);
      hide NoOrphan, Linked;
      assert Named(l, n) >= Named(l, n - 1) + {b};
      SubsetIsNoLarger(Named(l, n - 1) + {b}, Named(l, n));
    }
  }

  /** With fewer than 48 children there is a free slot, however fragmented. */
  lemma {:induction false} FreeSlotExists(l: Layout)
    requires Sized(l) && l.kind.Node48? && Tidy(l) && |Children(l)| < 48
    ensures exists pos :: 0 <= pos < 48 && l.slots[pos] == Null
  {
    if forall i :: 0 <= i < 48 ==> l.slots[i] != Null {
      NamedCount(l, 48);
      assert Named(l, 48) <= Children(l).Keys;
      SubsetIsNoLarger(Named(l, 48), Children(l).Keys);
    }
  }

  // ---------------------------------------------------------------------
  // Growing
  // ---------------------------------------------------------------------

  function Grow4(l: Layout): Layout
    requires Sized(l) && l.kind.Node4?
  {
    Layout(Node16, l.num, l.keys[..l.num] + Zeros(16 - l.num), l.slots[..l.num] + Nulls(16 - l.num))
  }

  /** The key array of a Node48 whose slots hold the children under bs in order. */
  function KeysFor(bs: seq<byte>): (keys: seq<byte>)
    requires |bs| <= 48
    ensures |keys| == 256 && forall b: byte :: keys[b] == IndexOf(bs, b) + 1
  {
    seq(256, b requires 0 <= b < 256 => IndexOf(bs, b) + 1)
  }

  lemma {:induction false} KeysForIsTidy(bs: seq<byte>, slots: seq<Ref>)
    requires |bs| <= 48 && StrictlyAscending(bs) && |slots| == 48
    requires forall i :: 0 <= i < 48 ==> (slots[i] != Null <==> i < |bs|)
    ensures forall b: byte :: KeysFor(bs)[b] <= 48
    ensures Linked(KeysFor(bs), slots) && NoOrphan(KeysFor(bs), slots)
  {
    var keys := KeysFor(bs);
    assert Linked(keys, slots) by {
      forall b: byte, c: byte | keys[b] != 0 && keys[b] == keys[c] ensures b == c {
        assert bs[IndexOf(bs, b)] == b && bs[IndexOf(bs, c)] == c;
      }
    }
    assert NoOrphan(keys, slots) by {
      hide Linked;
      forall i | 0 <= i < 48 && slots[i] != Null ensures exists b: byte :: keys[b] == i + 1 {
        IndexOfAscending(bs, i);
        assert keys[bs[i]] == i + 1;
      }
    }
  }

  lemma {:induction false} IndexOfAscending(bs: seq<byte>, i: nat)
    requires StrictlyAscending(bs) && i < |bs|
    ensures IndexOf(bs, bs[i]) == i
  {
    assert bs[i] in bs;
  }

  function Grow16(l: Layout): Layout
    requires Sized(l) && l.kind.Node16?
  {
    Layout(Node48, l.num, KeysFor(l.keys[..l.num]), l.slots[..l.num] + Nulls(48 - l.num))
  }

  function Grow48(l: Layout): Layout
    requires Sized(l) && l.kind.Node48?
  {
    Layout(Node256, l.num, [], seq(256, b requires 0 <= b < 256 => Lookup(l, b)))
  }

  lemma {:induction false} Grow4KeepsLookups(l: Layout, b: byte)
    requires Sized(l) && l.kind.Node4? && Tidy(l)
    ensures Sized(Grow4(l)) && Tidy(Grow4(l)) && Lookup(Grow4(l), b) == Lookup(l, b)
  {
    assert Grow4(l).keys[..l.num] == l.keys[..l.num];
  }

  lemma {:induction false} Grow16KeepsLookups(l: Layout, b: byte)
    requires Sized(l) && l.kind.Node16? && Tidy(l)
    ensures Sized(Grow16(l)) && Lookup(Grow16(l), b) == Lookup(l, b)
  {
  }

  lemma {:induction false} Grow16IsTidy(l: Layout)
    requires Sized(l) && l.kind.Node16? && Tidy(l)
    ensures Sized(Grow16(l)) && Tidy(Grow16(l))
  {
    hide Linked, NoOrphan;
    KeysForIsTidy(l.keys[..l.num], Grow16(l).slots);
  }

  lemma {:induction false} Grow48KeepsLookups(l: Layout, b: byte)
    requires Sized(l) && l.kind.Node48?
    ensures Sized(Grow48(l)) && Lookup(Grow48(l), b) == Lookup(l, b)
  {
  }

  // ---------------------------------------------------------------------
  // Shrinking
  // ---------------------------------------------------------------------

  /** The children under the bytes bs, in that order. */
  function Packed(l: Layout, bs: seq<byte>): (r: seq<Ref>)
    requires Sized(l)
    ensures |r| == |bs| && forall i :: 0 <= i < |bs| ==> r[i] == Lookup(l, bs[i])
  {
    seq(|bs|, i requires 0 <= i < |bs| => Lookup(l, bs[i]))
  }

  function Shrink16(l: Layout): Layout
    requires Sized(l) && l.kind.Node16? && l.num <= 4
  {
    Layout(Node4, l.num, l.keys[..l.num] + Zeros(4 - l.num), l.slots[..l.num] + Nulls(4 - l.num))
  }

  /** bs lists the bytes in use in ascending order. */
  function Shrink48(l: Layout, bs: seq<byte>): Layout
    requires Sized(l) && l.kind.Node48? && |bs| <= 16
  {
    Layout(Node16, l.num, bs + Zeros(16 - |bs|), Packed(l, bs) + Nulls(16 - |bs|))
  }

  function Shrink256(l: Layout, bs: seq<byte>): Layout
    requires Sized(l) && l.kind.Node256? && |bs| <= 48
  {
    Layout(Node48, l.num, KeysFor(bs), Packed(l, bs) + Nulls(48 - |bs|))
  }

  lemma {:induction false} Shrink16KeepsLookups(l: Layout, b: byte)
    requires Sized(l) && l.kind.Node16? && Tidy(l) && l.num <= 4
    ensures Sized(Shrink16(l)) && Tidy(Shrink16(l)) && Lookup(Shrink16(l), b) == Lookup(l, b)
  {
    assert Shrink16(l).keys[..l.num] == l.keys[..l.num];
  }

  lemma {:induction false} Shrink48IsTidy(l: Layout, bs: seq<byte>)
    requires Sized(l) && l.kind.Node48? && |bs| <= 16 && l.num == |bs|
    requires StrictlyAscending(bs) && forall c: byte :: c in bs <==> Lookup(l, c) != Null
    ensures Sized(Shrink48(l, bs)) && Tidy(Shrink48(l, bs))
    ensures Shrink48(l, bs).keys[..l.num] == bs
  {
    hide Lookup;
    var l' := Shrink48(l, bs);
    assert l'.keys[..l'.num] == bs;
    forall i | 0 <= i < |bs| ensures l'.slots[i] != Null {
      assert bs[i] in bs;
    }
  }

  lemma {:induction false} Shrink48KeepsLookups(l: Layout, bs: seq<byte>, b: byte)
    requires Sized(l) && l.kind.Node48? && |bs| <= 16 && l.num == |bs|
    requires StrictlyAscending(bs) && forall c: byte :: c in bs <==> Lookup(l, c) != Null
    ensures Sized(Shrink48(l, bs)) && Lookup(Shrink48(l, bs), b) == Lookup(l, b)
  {
    Shrink48IsTidy(l, bs);
    var l' := Shrink48(l, bs);
    assert Lookup(l', b) == LookupSorted(l', b);
    hide Lookup;
    var i := IndexOf(bs, b);
    if 0 <= i {
      assert l'.slots[i] == Packed(l, bs)[i];
    }
  }

  lemma {:induction false} Shrink256KeepsLookups(l: Layout, bs: seq<byte>, b: byte)
    requires Sized(l) && l.kind.Node256? && |bs| <= 48
    requires forall c: byte :: c in bs <==> Lookup(l, c) != Null
    ensures Sized(Shrink256(l, bs)) && Lookup(Shrink256(l, bs), b) == Lookup(l, b)
  {
  }

  lemma {:induction false} Shrink256IsTidy(l: Layout, bs: seq<byte>)
    requires Sized(l) && l.kind.Node256? && |bs| <= 48
    requires StrictlyAscending(bs) && forall c: byte :: c in bs <==> Lookup(l, c) != Null
    ensures Sized(Shrink256(l, bs)) && Tidy(Shrink256(l, bs))
  {
    hide Linked, NoOrphan, Lookup;
    var slots := Shrink256(l, bs).slots;
    forall i | 0 <= i < 48 ensures slots[i] != Null <==> i < |bs| {
      if i < |bs| {
        assert slots[i] == Packed(l, bs)[i];
        assert bs[i] in bs;
      }
    }
    KeysForIsTidy(bs, slots);
  }
}
