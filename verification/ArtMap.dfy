/** struct art: the object the rest of pgagroal uses as a map from strings to values. */
module ArtMap {
  import opened Common
  import opened ArtKeys
  import opened ArtLayout
  import opened ArtHeap
  import opened RadixOrder
  import opened RadixMap
  import R = RadixTree
  import D = RadixDelete
  import Read = ArtRead
  import Ins = ArtInsert
  import Del = ArtDelete
  import Walk = ArtWalk

  class Art {
    var root: Ref
    var size: int
    ghost var repr: set<object>
    ghost var contents: map<Key, Value>

    /** The root is a valid tree of nodes that belong to this object, and it stands for
        contents, with as many keys as size says. */
    ghost predicate Valid()
      reads this, repr
    {
      && this in repr && Owns()
      && Represents(Abstract(), contents)
    }

    ghost predicate Owns()
      reads this, repr
    {
      this in repr &&
      match root
      case Null => true
      case ToLeaf(leaf) => leaf in repr
      case ToNode(n) => n in repr && n.repr <= repr && this !in n.repr && ArtHeap.Valid(n)
    }

    /** The radix tree the nodes stand for. */
    ghost function Abstract(): State
      requires Owns()
      reads this, repr
    {
      State(if root == Null then None else Some(TreeOf(root)), size)
    }

    constructor ()
      ensures Valid() && fresh(repr) && contents == map[] && size == 0
    {
      root, size := Null, 0;
      repr, contents := {this}, map[];
    }

    /** A missing name or a value without a type is refused. */
    method Insert(name: Option<seq<byte>>, value: Option<Value>) returns (ok: bool)
      requires Valid() && (name.Some? ==> IsCString(name.value))
      modifies repr
      ensures Valid() && fresh(repr - old(repr))
      ensures ok <==> name.Some? && value.Some?
      ensures contents == if ok then old(contents)[ToKey(name.value) := value.value] else old(contents)
    {
      hide Represents, ArtHeap.Valid, R.Good, R.In, R.Insert;
      if name.None? || value.None? {
        return false;
      }
      InsertKey(ToKey(name.value), value.value);
      return true;
    }

    method InsertKey(key: Key, value: Value)
      requires Valid() && IsKey(key)
      modifies repr
      ensures Valid() && fresh(repr - old(repr))
      ensures contents == old(contents)[key := value]
    {
      hide Represents, ArtHeap.Valid, R.Good, R.In, R.Insert, Ins.Result, Ins.CanInsert;
      ghost var s := Abstract();
      IsSound(s, contents);
      PutRefinesMap(s, contents, key, value);
      if root == Null {
        var leaf := new Leaf(key, value);
        root, size := ToLeaf(leaf), size + 1;
        repr := {this, leaf};
      } else {
        ReadyToInsert(s.root.value, key, value);
        var r, isNew, replaced := Ins.InsertAt(root, 0, key, value);
        root := r;
        if isNew {
          size := size + 1;
        }
        repr := repr + ReprOf(root);
        OwnsItself(root);
      }
      contents := contents[key := value];
    }

    /** Deleting a name that is not there changes nothing; a missing name is refused. */
    method Delete(name: Option<seq<byte>>) returns (ok: bool)
      requires Valid() && (name.Some? ==> IsCString(name.value))
      modifies repr
      ensures Valid() && fresh(repr - old(repr))
      ensures ok <==> name.Some?
      ensures contents == if ok then old(contents) - {ToKey(name.value)} else old(contents)
    {
      hide Represents, ArtHeap.Valid, R.Good, R.In, D.Delete;
      if name.None? {
        return false;
      }
      DeleteKey(ToKey(name.value));
      return true;
    }

    method DeleteKey(key: Key)
      requires Valid() && IsKey(key)
      modifies repr
      ensures Valid() && fresh(repr - old(repr))
      ensures contents == old(contents) - {key}
    {
      hide Represents, ArtHeap.Valid, R.Good, R.In, R.CheckPrefixPartial, D.RemoveChild;
      ghost var s := Abstract();
      IsSound(s, contents);
      RemoveRefinesMap(s, contents, key);
      match root {
        case Null =>
        case ToLeaf(leaf) =>
          if leaf.key == key {
            root, size := Null, size - 1;
          }
        case ToNode(n) =>
          var r, removed := Del.DeleteInNode(n, 0, key, []);
          root := r;
          if removed.Some? {
            size := size - 1;
          }
          repr := repr + ReprOf(root);
          OwnsItself(root);
      }
      contents := contents - {key};
    }

    method Clear()
      requires Valid()
      modifies this
      ensures Valid() && repr == old(repr) && contents == map[] && size == 0
    {
      root, size := Null, 0;
      contents := map[];
    }

    method Search(name: seq<byte>) returns (r: Option<Value>)
      requires Valid() && IsCString(name)
      ensures r == if ToKey(name) in contents then Some(contents[ToKey(name)]) else None
    {
      hide Represents, ArtHeap.Valid, R.Good, R.In, R.Search;
      FindRefinesMap(Abstract(), contents, ToKey(name));
      r := Read.Search(root, ToKey(name));
    }

    /** The number of matches, and the matches. */
    method PrefixSearch(pre: seq<byte>, max: int) returns (count: int, found: seq<Entry>)
      requires Valid()
      ensures ListsInOrder(Entries(Abstract()), contents)
      ensures contents == map[] || max <= 0 ==> count == -1 && found == []
      ensures contents != map[] && 0 < max ==>
                var all := StartingWith(Entries(Abstract()), pre);
                count == Min(max, |all|) && found == all[..count]
    {
      hide ArtHeap.Valid, R.Good, R.In, InOrder, RadixOrder.PrefixSearch, StartingWith, ListsInOrder;
      ghost var s := Abstract();
      EntriesRefineMap(s, contents);
      IsSound(s, contents);
      EmptyIsNull(s, contents);
      FindPrefixIsExact(s, pre, max);
      if root == Null || max <= 0 {
        return -1, [];
      }
      var stop;
      if pre == [] {
        found, stop := Walk.Iterate(root, [], max);
      } else {
        found := Walk.SearchPrefix(root, pre, max);
      }
      count := |found|;
    }
  }

  lemma {:induction false} OwnsItself(r: Ref)
    requires ValidRef(r)
    ensures r.ToNode? ==> r.node in ReprOf(r)
    ensures r.ToLeaf? ==> r.leaf in ReprOf(r)
  {
  }

  lemma {:induction false} IsSound(s: State, m: map<Key, Value>)
    requires Represents(s, m)
    ensures Sound(s) && (s.root.Some? ==> R.Good(s.root.value, []))
  {
  }

  lemma {:induction false} ReadyToInsert(t: R.Tree, key: Key, value: Value)
    requires R.Good(t, []) && IsKey(key)
    ensures Ins.CanInsert(t, 0, key) && key[..0] == [] && R.Insert(t, 0, key, value) == Ins.Result(t, 0, key, value)
  {
    assert key[..0] == [];
  }

  lemma {:induction false} EmptyIsNull(s: State, m: map<Key, Value>)
    requires Represents(s, m)
    ensures s.root.None? <==> m == map[]
  {
    if s.root.Some? {
      var t := s.root.value;
      R.MinLeafIsBelow(t, []);
      assert R.MinLeaf(t).key in m;
    }
  }
}
