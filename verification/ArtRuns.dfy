/** A node through any series of additions and removals, growing and shrinking as it goes. */
module ArtRuns {
  import opened Common
  import opened ArtKeys
  import opened ArtLayout
  import opened ArtNode
  import opened ArtShrink

  datatype Change = Gain(ch: byte, child: Ref) | Lose(ch: byte)

  function OnMap(m: map<byte, Ref>, c: Change): map<byte, Ref> {
    match c
    case Gain(ch, child) => m[ch := child]
    case Lose(ch) => m - {ch}
  }

  function RunOnMap(m: map<byte, Ref>, cs: seq<Change>): map<byte, Ref> {
    if cs == [] then m else OnMap(RunOnMap(m, cs[..|cs| - 1]), cs[|cs| - 1])
  }

  /** Only a byte without a child gains one, and only a byte with a child loses it. */
  predicate CanApply(m: map<byte, Ref>, c: Change) {
    match c
    case Gain(ch, child) => ch !in m && child != Null
    case Lose(ch) => ch in m
  }

  predicate CanApplyAll(m: map<byte, Ref>, cs: seq<Change>) {
    forall i :: 0 <= i < |cs| ==> CanApply(RunOnMap(m, cs[..i]), cs[i])
  }

  method Apply(n: Node, c: Change) returns (r: Node)
    requires Ok(n.Shape()) && |n.prefix| == MAX_PREFIX_LEN && CanApply(Children(n.Shape()), c)
    modifies n`num, n`keys, n`slots
    ensures r == n || fresh(r)
    ensures Ok(r.Shape()) && |r.prefix| == MAX_PREFIX_LEN
    ensures Children(r.Shape()) == OnMap(old(Children(n.Shape())), c)
  {
    hide Tidy, Sized, Children, Lookup;
    ChildrenAreLookups(n.Shape(), c.ch);
    match c
    case Gain(ch, child) => r := AddChild(n, ch, child);
    case Lose(ch) => r := RemoveFrom(n, ch);
  }

  /** The node answers for every byte like the map, and its count is the number of children
      modulo 256. */
  ghost predicate IsMap(l: Layout, m: map<byte, Ref>) {
    && Ok(l) && l.num as int == |m| % 256
    && forall ch: byte :: Lookup(l, ch) == if ch in m then m[ch] else Null
  }

  lemma {:induction false} IsMapOfItsChildren(l: Layout)
    requires Ok(l)
    ensures IsMap(l, Children(l))
  {
    hide Children, Lookup, Tidy;
    OkCounts(l);
    forall ch: byte ensures Lookup(l, ch) == if ch in Children(l) then Children(l)[ch] else Null {
      ChildrenAreLookups(l, ch);
    }
  }

  /** Any series of additions and removals on a node, replaced as it grows and shrinks, is
      the same series on a map. */
  method ApplyAll(n: Node, cs: seq<Change>) returns (r: Node)
    requires Ok(n.Shape()) && |n.prefix| == MAX_PREFIX_LEN && CanApplyAll(Children(n.Shape()), cs)
    modifies n`num, n`keys, n`slots
    ensures r == n || fresh(r)
    ensures |r.prefix| == MAX_PREFIX_LEN && IsMap(r.Shape(), old(RunOnMap(Children(n.Shape()), cs)))
  {
    hide Tidy, Sized, Children, Lookup, IsMap, OnMap;
    ghost var m := Children(n.Shape());
    r := n;
    var i := 0;
    while i < |cs|
      invariant 0 <= i <= |cs|
      invariant r == n || fresh(r)
      invariant Ok(r.Shape()) && |r.prefix| == MAX_PREFIX_LEN
      invariant Children(r.Shape()) == RunOnMap(m, cs[..i])
    {
      assert cs[..i + 1][..i] == cs[..i];
      r := Apply(r, cs[i]);
      i := i + 1;
    }
    assert cs[..i] == cs;
    IsMapOfItsChildren(r.Shape());
  }
}
