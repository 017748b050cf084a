/** The tree as the rest of pgagroal sees it: an ordinary map from strings to values. */
module RadixMap {
  import opened Common
  import opened ArtKeys
  import opened RadixTree
  import opened RadixDelete
  import opened RadixOrder

  /** struct art: the root pointer, None for NULL, and the number of keys. */
  datatype State = State(root: Option<Tree>, size: int)

  datatype Op =
    | Put(name: seq<byte>, value: Value)
    | Remove(name: seq<byte>)
    | Clear

  /** The state stands for map m. */
  ghost predicate Represents(s: State, m: map<Key, Value>) {
    && s.size == |m|
    && match s.root
       case None => m == map[]
       case Some(t) => Good(t, []) && forall k, v :: In(t, k, v) <==> k in m && m[k] == v
  }

  ghost predicate Sound(s: State) {
    s.root.Some? ==> Good(s.root.value, [])
  }

  // ---------------------------------------------------------------------
  // The operations on the tree
  // ---------------------------------------------------------------------

  function PutKey(s: State, key: Key, value: Value): State
    requires IsKey(key) && Sound(s)
  {
    match s.root
    case None => State(Some(Leaf(key, value)), s.size + 1)
    case Some(t) =>
      assert key[..0] == [];
      var r := Insert(t, 0, key, value);
      State(Some(r.tree), if r.isNew then s.size + 1 else s.size)
  }

  function RemoveKey(s: State, key: Key): State {
    match s.root
    case None => s
    case Some(t) =>
      var r := Delete(t, 0, key);
      State(r.tree, if r.removed.Some? then s.size - 1 else s.size)
  }

  function Find(s: State, key: Key): Option<Value> {
    match s.root
    case None => None
    case Some(t) => Search(t, 0, key)
  }

  function Entries(s: State): seq<Entry> {
    match s.root
    case None => []
    case Some(t) => InOrder(t)
  }

  /** The number of matches and the matches; the number is -1 for an empty tree or a
      limit that is not positive. */
  function FindPrefix(s: State, pre: seq<byte>, max: int): (int, seq<Entry>) {
    if s.root.None? || max <= 0 then (-1, [])
    else
      var found := if pre == [] then InOrder(s.root.value) else PrefixSearch(s.root.value, 0, pre);
      var n := Min(max, |found|);
      (n, found[..n])
  }

  // ---------------------------------------------------------------------
  // One operation
  // ---------------------------------------------------------------------

  lemma {:induction false} PutCounts(m: map<Key, Value>, key: Key, value: Value)
    ensures |m[key := value]| == if key in m then |m| else |m| + 1
    ensures |m - {key}| == if key in m then |m| - 1 else |m|
  {
    assert m[key := value].Keys == m.Keys + {key};
    assert (m - {key}).Keys == m.Keys - {key};
  }

  lemma {:induction false} PutIntoTree(t: Tree, m: map<Key, Value>, key: Key, value: Value, r: Inserted)
    requires forall k, v :: In(t, k, v) <==> k in m && m[k] == v
    requires InsertedInto(t, key, value, r)
    ensures key in m <==> !r.isNew
    ensures forall k, v :: In(r.tree, k, v) <==> k in m[key := value] && m[key := value][k] == v
  {
    hide In;
    assert key in m ==> In(t, key, m[key]);
    assert r.replaced.Some? ==> In(t, key, r.replaced.value);
  }

  lemma {:induction false} PutRefinesMap(s: State, m: map<Key, Value>, key: Key, value: Value)
    requires Represents(s, m) && IsKey(key)
    ensures Represents(PutKey(s, key, value), m[key := value])
  {
    PutCounts(m, key, value);
    match s.root
    case None =>
      LeafIsGood(key, value, []);
    case Some(t) =>
      hide In, Good, Insert, InsertedInto;
      assert key[..0] == [];
      InsertIsCorrect(t, 0, key, value);
      PutIntoTree(t, m, key, value, Insert(t, 0, key, value));
  }

  lemma {:induction false} RemoveFromTree(t: Tree, m: map<Key, Value>, key: Key, r: Deleted)
    requires forall k, v :: In(t, k, v) <==> k in m && m[k] == v
    requires DeletedFrom(t, key, r)
    ensures key in m <==> r.removed.Some?
    ensures forall k, v :: r.tree.Some? && In(r.tree.value, k, v) <==> k in m - {key} && (m - {key})[k] == v
    ensures r.tree.None? ==> m - {key} == map[]
  {
    hide In;
    assert key in m ==> In(t, key, m[key]);
    assert r.removed.Some? ==> In(t, key, r.removed.value);
    assert forall k :: k in m ==> In(t, k, m[k]);
    assert r.tree.None? ==> m - {key} == map[];
  }

  lemma {:induction false} RemoveRefinesMap(s: State, m: map<Key, Value>, key: Key)
    requires Represents(s, m)
    ensures Represents(RemoveKey(s, key), m - {key})
  {
    PutCounts(m, key, 0);
    match s.root
    case None =>
      assert m - {key} == map[];
    case Some(t) =>
      hide In, Good, Delete, DeletedFrom;
      DeleteIsCorrect(t, [], key);
      RemoveFromTree(t, m, key, Delete(t, 0, key));
  }

  lemma {:induction false} FindRefinesMap(s: State, m: map<Key, Value>, key: Key)
    requires Represents(s, m)
    ensures Find(s, key) == if key in m then Some(m[key]) else None
  {
    if s.root.Some? {
      var t := s.root.value;
      match Search(t, 0, key)
      case Some(v) => SearchIsExact(t, [], key, v);
      case None =>
        if key in m {
          SearchIsExact(t, [], key, m[key]);
        }
    }
  }

  /** The items of the map in ascending order of their keys. */
  ghost predicate ListsInOrder(es: seq<Entry>, m: map<Key, Value>) {
    && SortedByKey(es)
    && forall e :: e in es <==> e.key in m && m[e.key] == e.value
  }

  /** The walk lists the items of the map, once each, by ascending key. */
  lemma {:induction false} EntriesRefineMap(s: State, m: map<Key, Value>)
    requires Represents(s, m)
    ensures ListsInOrder(Entries(s), m)
  {
    if s.root.Some? {
      var t := s.root.value;
      InOrderIsSorted(t, []);
      forall e ensures e in InOrder(t) <==> e.key in m && m[e.key] == e.value {
        InOrderListsTheLeaves(t, e);
      }
    }
  }

  /** Prefix search on a tree that is not empty: the first keys, in order, that start
      with the prefix, as many as the limit admits. */
  lemma {:induction false} FindPrefixIsExact(s: State, pre: seq<byte>, max: int)
    requires Sound(s)
    ensures s.root.Some? && 0 < max ==>
              var all := StartingWith(Entries(s), pre);
              FindPrefix(s, pre, max) == (Min(max, |all|), all[..Min(max, |all|)])
    ensures FindPrefix(s, pre, max).0 == -1 <==> s.root.None? || max <= 0
  {
    if s.root.Some? {
      PrefixSearchIsExact(s.root.value, [], pre);
      if pre == [] {
        AllStartWith(InOrder(s.root.value), pre);
      }
    }
  }

  // ---------------------------------------------------------------------
  // Every run
  // ---------------------------------------------------------------------

  predicate ValidOp(op: Op) {
    op.Clear? || IsCString(op.name)
  }

  function ApplyToMap(m: map<Key, Value>, op: Op): map<Key, Value>
    requires ValidOp(op)
  {
    match op
    case Put(name, value) => m[ToKey(name) := value]
    case Remove(name) => m - {ToKey(name)}
    case Clear => map[]
  }

  function Apply(s: State, op: Op): State
    requires ValidOp(op) && Sound(s)
  {
    match op
    case Put(name, value) => PutKey(s, ToKey(name), value)
    case Remove(name) => RemoveKey(s, ToKey(name))
    case Clear => State(None, 0)
  }

  function RunOnMap(ops: seq<Op>): map<Key, Value>
    requires forall i :: 0 <= i < |ops| ==> ValidOp(ops[i])
  {
    if ops == [] then map[] else ApplyToMap(RunOnMap(ops[..|ops| - 1]), ops[|ops| - 1])
  }

  lemma {:induction false} StepRefinesMap(s: State, m: map<Key, Value>, op: Op)
    requires Represents(s, m) && ValidOp(op)
    ensures Represents(Apply(s, op), ApplyToMap(m, op))
  {
    match op
    case Put(name, value) => PutRefinesMap(s, m, ToKey(name), value);
    case Remove(name) => RemoveRefinesMap(s, m, ToKey(name));
    case Clear =>
  }

  /** The state after a run from the empty tree. It represents the map that the same
      run builds, which is also what makes the next operation possible. */
  function Run(ops: seq<Op>): (s: State)
    requires forall i :: 0 <= i < |ops| ==> ValidOp(ops[i])
    ensures Represents(s, RunOnMap(ops))
  {
    if ops == [] then State(None, 0)
    else
      var n := |ops| - 1;
      StepRefinesMap(Run(ops[..n]), RunOnMap(ops[..n]), ops[n]);
      Apply(Run(ops[..n]), ops[n])
  }

  /** After any run the tree cannot be told from the map: same lookups, same size,
      the items in order, and the same answer to every prefix search. */
  lemma {:induction false} EveryRunRefinesMap(ops: seq<Op>, name: seq<byte>, pre: seq<byte>, max: int)
    requires forall i :: 0 <= i < |ops| ==> ValidOp(ops[i])
    requires IsCString(name)
    ensures var s, m := Run(ops), RunOnMap(ops);
            && Find(s, ToKey(name)) == (if ToKey(name) in m then Some(m[ToKey(name)]) else None)
            && s.size == |m|
            && SortedByKey(Entries(s))
            && (forall e :: e in Entries(s) <==> e.key in m && m[e.key] == e.value)
            && (m != map[] && 0 < max ==>
                  var all := StartingWith(Entries(s), pre);
                  FindPrefix(s, pre, max) == (Min(max, |all|), all[..Min(max, |all|)]))
  {
    var s, m := Run(ops), RunOnMap(ops);
    hide Run, RunOnMap;
    FindRefinesMap(s, m, ToKey(name));
    EntriesRefineMap(s, m);
    FindPrefixIsExact(s, pre, max);
  }
}
