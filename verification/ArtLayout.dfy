/** The four node layouts of the adaptive radix tree. Each of them is a way to write
    down one map from branch byte to child. */
module ArtLayout {
  import opened Common
  import opened ArtKeys
  import R = RadixTree

  datatype Kind = Node4 | Node16 | Node48 | Node256

  /** A leaf of the tree. */
  class Leaf {
    const key: Key
    var value: Value

    constructor (key: Key, value: Value)
      ensures this.key == key && this.value == value
    {
      this.key := key;
      this.value := value;
    }
  }

  /** A child pointer; the lowest bit of the C pointer tells a leaf from a node. */
  datatype Ref = Null | ToLeaf(leaf: Leaf) | ToNode(node: Node)

  /** An inner node. The arrays are part of the C structs, so they are fields whose
      length depends only on the kind of node. */
  class Node {
    const kind: Kind
    var prefixLen: nat
    var prefix: seq<byte>
    var num: byte
    var keys: seq<byte>
    var slots: seq<Ref>

    /** The objects below this node, itself included, and the value it stands for. */
    ghost var repr: set<object>
    ghost var tree: R.Tree

    constructor (kind: Kind)
      ensures this.kind == kind && prefixLen == 0 && prefix == Zeros(MAX_PREFIX_LEN)
      ensures Shape() == Empty(kind)
    {
      this.kind := kind;
      prefixLen := 0;
      prefix := Zeros(MAX_PREFIX_LEN);
      num := 0;
      keys := Zeros(KeyCount(kind));
      slots := Nulls(SlotCount(kind));
      repr := {this};
      tree := R.Inner(0, [], map[]);
    }

    function Shape(): Layout
      reads this
    {
      Layout(kind, num, keys, slots)
    }
  }

  function KeyCount(kind: Kind): nat {
    match kind
    case Node4 => 4
    case Node16 => 16
    case Node48 => 256
    case Node256 => 0
  }

  function SlotCount(kind: Kind): nat {
    match kind
    case Node4 => 4
    case Node16 => 16
    case Node48 => 48
    case Node256 => 256
  }

  function Zeros(n: nat): (r: seq<byte>)
    ensures |r| == n
  {
    seq(n, i => 0)
  }

  function Nulls(n: nat): (r: seq<Ref>)
    ensures |r| == n
  {
    seq(n, i => Null)
  }

  /** What a node holds besides its prefix. num is a uint8_t: it wraps at 256. */
  datatype Layout = Layout(kind: Kind, num: byte, keys: seq<byte>, slots: seq<Ref>)

  function Empty(kind: Kind): Layout {
    Layout(kind, 0, Zeros(KeyCount(kind)), Nulls(SlotCount(kind)))
  }

  ghost predicate Sized(l: Layout) {
    && |l.keys| == KeyCount(l.kind)
    && |l.slots| == SlotCount(l.kind)
    && (l.kind.Node4? || l.kind.Node16? ==> l.num <= |l.slots|)
    && (l.kind.Node48? ==> forall b :: 0 <= b < 256 ==> l.keys[b] <= 48)
  }

  function IndexOf(ks: seq<byte>, ch: byte): (i: int)
    ensures -1 <= i < |ks|
    ensures 0 <= i ==> ks[i] == ch
    ensures i < 0 ==> ch !in ks
  {
    if ks == [] then -1
    else if ks[|ks| - 1] == ch then |ks| - 1
    else IndexOf(ks[..|ks| - 1], ch)
  }

  /** The child under byte ch, Null if there is none. */
  function Lookup(l: Layout, ch: byte): Ref
    requires Sized(l)
  {
    match l.kind
    case Node4 => LookupSorted(l, ch)
    case Node16 => LookupSorted(l, ch)
    case Node48 => if l.keys[ch] == 0 then Null else l.slots[l.keys[ch] - 1]
    case Node256 => l.slots[ch]
  }

  function LookupSorted(l: Layout, ch: byte): Ref
    requires Sized(l) && (l.kind.Node4? || l.kind.Node16?)
  {
    var i := IndexOf(l.keys[..l.num], ch);
    if i < 0 then Null else l.slots[i]
  }

  /** The map a layout writes down. */
  ghost function Children(l: Layout): map<byte, Ref>
    requires Sized(l)
  {
    map ch: byte | Lookup(l, ch) != Null :: Lookup(l, ch)
  }

  /** Sorted keys in the two small layouts; in a Node48 the key array and the slots in
      use point at each other, wherever the free slots are. */
  ghost predicate Tidy(l: Layout)
    requires Sized(l)
  {
    match l.kind
    case Node4 => TidySorted(l)
    case Node16 => TidySorted(l)
    case Node48 => Linked(l.keys, l.slots) && NoOrphan(l.keys, l.slots)
    case Node256 => true
  }

  /** Every byte in use names a slot of its own that is in use. */
  ghost predicate Linked(keys: seq<byte>, slots: seq<Ref>)
    requires |keys| == 256 && |slots| == 48 && forall b :: 0 <= b < 256 ==> keys[b] <= 48
  {
    && (forall b: byte :: keys[b] != 0 ==> slots[keys[b] - 1] != Null)
    && (forall b: byte, c: byte :: keys[b] != 0 && keys[b] == keys[c] ==> b == c)
  }

  /** Every slot in use is named by a byte. */
  ghost predicate NoOrphan(keys: seq<byte>, slots: seq<Ref>)
    requires |keys| == 256 && |slots| == 48
  {
    forall i :: 0 <= i < 48 && slots[i] != Null ==> exists b: byte :: keys[b] == i + 1
  }

  ghost predicate TidySorted(l: Layout)
    requires Sized(l) && (l.kind.Node4? || l.kind.Node16?)
  {
    && StrictlyAscending(l.keys[..l.num])
    && forall i :: 0 <= i < l.num ==> l.slots[i] != Null
  }

  /** num counts the children modulo 256. */
  ghost predicate Fair(l: Layout) {
    Sized(l) && Tidy(l) && l.num == |Children(l)| % 256
  }

  /** The layout is one that a node is left with: a larger node is replaced as soon as
      its number of children falls to 3, 12 or 37. */
  ghost predicate Ok(l: Layout) {
    && Fair(l)
    && match l.kind
       case Node4 => |Children(l)| <= 4
       case Node16 => 4 <= |Children(l)| <= 16
       case Node48 => 13 <= |Children(l)| <= 48
       case Node256 => 38 <= |Children(l)| <= 256
  }

  // ---------------------------------------------------------------------
  // From lookups to maps
  // ---------------------------------------------------------------------

  lemma {:induction false} ChildrenAreLookups(l: Layout, ch: byte)
    requires Sized(l)
    ensures ch in Children(l) <==> Lookup(l, ch) != Null
    ensures ch in Children(l) ==> Children(l)[ch] == Lookup(l, ch)
  {
  }

  lemma {:induction false} SameLookupsSameChildren(l: Layout, l': Layout)
    requires Sized(l) && Sized(l')
    requires forall b: byte :: Lookup(l', b) == Lookup(l, b)
    ensures Children(l') == Children(l)
  {
    hide Lookup;
  }

  lemma {:induction false} AddedLookupAddsChild(l: Layout, l': Layout, ch: byte, child: Ref)
    requires Sized(l) && Sized(l') && child != Null
    requires forall b: byte :: Lookup(l', b) == if b == ch then child else Lookup(l, b)
    ensures Children(l') == Children(l)[ch := child]
  {
    hide Lookup;
    var m, m' := Children(l)[ch := child], Children(l');
    assert m'.Keys == m.Keys;
  }

  lemma {:induction false} RemovedLookupRemovesChild(l: Layout, l': Layout, ch: byte)
    requires Sized(l) && Sized(l')
    requires forall b: byte :: Lookup(l', b) == if b == ch then Null else Lookup(l, b)
    ensures Children(l') == Children(l) - {ch}
  {
    hide Lookup;
    var m, m' := Children(l) - {ch}, Children(l');
    assert m'.Keys == m.Keys;
  }

  lemma {:induction false} AtMost256(s: set<byte>)
    ensures |s| <= 256
  {
    var all := Ascending(s, 256);
    assert Bytes(s) == all;
  }

  lemma {:induction false} CountAfter(m: map<byte, Ref>, ch: byte, child: Ref)
    ensures |m[ch := child]| == if ch in m then |m| else |m| + 1
    ensures |m - {ch}| == if ch in m then |m| - 1 else |m|
    ensures |m| <= 256
  {
    assert m[ch := child].Keys == m.Keys + {ch};
    assert (m - {ch}).Keys == m.Keys - {ch};
    AtMost256(m.Keys);
  }
}
