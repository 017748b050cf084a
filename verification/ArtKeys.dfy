/** Keys of the adaptive radix tree: C strings together with their terminating NUL. */
module ArtKeys {
  import opened Common

  type Key = seq<byte>

  /** The data word stored under a key; the tree never looks inside it. */
  type Value = int

  /** The number of prefix bytes an inner node stores. */
  const MAX_PREFIX_LEN := 10

  function Min(a: int, b: int): int {
    if a <= b then a else b
  }

  /** What a caller hands in: the bytes of a C string, up to but excluding its NUL. */
  predicate IsCString(s: seq<byte>) {
    forall i :: 0 <= i < |s| ==> s[i] != 0
  }

  /** What the tree stores: a C string with its NUL, and no other NUL. */
  predicate IsKey(k: Key) {
    && 0 < |k|
    && k[|k| - 1] == 0
    && forall i :: 0 <= i < |k| - 1 ==> k[i] != 0
  }

  function ToKey(s: seq<byte>): (k: Key)
    requires IsCString(s)
    ensures IsKey(k)
    ensures k[..|k| - 1] == s
  {
    s + [0]
  }

  /** The first index, from i on, at which a and b differ or one of them ends. */
  function Diverge(a: Key, b: Key, i: nat): (d: nat)
    requires i <= |a| && i <= |b|
    ensures i <= d <= |a| && d <= |b|
    ensures a[i..d] == b[i..d]
    ensures d == |a| || d == |b| || a[d] != b[d]
    decreases |a| - i
  {
    if i < |a| && i < |b| && a[i] == b[i] then
      assert forall d :: i + 1 <= d <= |a| && d <= |b| && a[i + 1..d] == b[i + 1..d] ==>
          a[i..d] == [a[i]] + a[i + 1..d] && b[i..d] == [b[i]] + b[i + 1..d];
      Diverge(a, b, i + 1)
    else i
  }

  lemma {:induction false} TakeOneMore(a: Key, b: Key, d: nat)
    requires d < |a| && d <= |b| && a[..d] == b[..d]
    ensures a[..d + 1] == b[..d] + [a[d]]
  {
  }

  lemma {:induction false} PrefixAndOneMore(q: Key, a: Key)
    requires q <= a && |q| < |a|
    ensures a[..|q| + 1] == q + [a[|q|]]
  {
  }

  lemma {:induction false} AgreeThenAgree(a: Key, b: Key, i: nat, j: nat)
    requires i <= j <= |a| && j <= |b|
    requires a[..i] == b[..i] && a[i..j] == b[i..j]
    ensures a[..j] == b[..j]
  {
    assert a[..j] == a[..i] + a[i..j];
    assert b[..j] == b[..i] + b[i..j];
  }

  /** No stored key is a proper prefix of another one: this is what the NUL buys. */
  lemma {:induction false} PrefixOfKeyIsKey(a: Key, b: Key)
    requires IsKey(a) && IsKey(b)
    ensures a <= b ==> a == b
  {
    assert a <= b ==> b[|a| - 1] == 0;
  }

  /** Two different keys that agree below i differ at an index inside both. */
  lemma {:induction false} KeysDiverge(a: Key, b: Key, i: nat)
    requires IsKey(a) && IsKey(b) && a != b
    requires i <= |a| && i <= |b| && a[..i] == b[..i]
    ensures Diverge(a, b, i) < |a| && Diverge(a, b, i) < |b|
    ensures a[Diverge(a, b, i)] != b[Diverge(a, b, i)]
    ensures a[..Diverge(a, b, i)] == b[..Diverge(a, b, i)]
  {
    var d := Diverge(a, b, i);
    AgreeThenAgree(a, b, i, d);
    assert d == |a| ==> a <= b;
    assert d == |b| ==> b <= a;
    PrefixOfKeyIsKey(a, b);
    PrefixOfKeyIsKey(b, a);
  }

  // ---------------------------------------------------------------------
  // Ascending enumeration of a set of bytes: the order every layout is walked in
  // ---------------------------------------------------------------------

  predicate StrictlyAscending(s: seq<byte>) {
    forall j, k :: 0 <= j < k < |s| ==> s[j] < s[k]
  }

  /** The members of s below i, in ascending order. */
  function Ascending(s: set<byte>, i: nat): (r: seq<byte>)
    requires i <= 256
    ensures forall b: byte :: b in r <==> b in s && b < i
    ensures StrictlyAscending(r)
    ensures |r| <= i
  {
    if i == 0 then []
    else
      var below := Ascending(s, i - 1);
      assert forall j :: 0 <= j < |below| ==> below[j] in below;
      if i - 1 in s then below + [i - 1] else below
  }

  function Bytes(s: set<byte>): (r: seq<byte>)
    ensures forall b: byte :: b in r <==> b in s
    ensures StrictlyAscending(r)
    ensures |r| == |s|
  {
    AscendingSize(Ascending(s, 256), s);
    Ascending(s, 256)
  }

  lemma {:induction false} AscendingSize(r: seq<byte>, s: set<byte>)
    requires StrictlyAscending(r)
    requires forall b: byte :: b in r <==> b in s
    ensures |r| == |s|
    decreases |r|
  {
    if r == [] {
      assert s == {};
    } else {
      var last := r[|r| - 1];
      var r' := r[..|r| - 1];
      assert r == r' + [last];
      AscendingSize(r', s - {last});
    }
  }

  lemma {:induction false} AscendingGrows(s: set<byte>, i: nat, j: nat)
    requires i <= j <= 256
    ensures |Ascending(s, i)| <= |Ascending(s, j)|
    decreases j
  {
    if i == j {
    } else {
      AscendingGrows(s, i, j - 1);
    }
  }

  /** A member of s leaves room for itself among the bytes below it. */
  lemma {:induction false} RoomForMember(s: set<byte>, b: byte)
    requires b in s
    ensures Ascending(s, b + 1) == Ascending(s, b) + [b]
    ensures |Ascending(s, b)| < |s|
  {
    AscendingGrows(s, b + 1, 256);
    assert Bytes(s) == Ascending(s, 256);
  }

  /** Dropping the last byte drops exactly the largest member. */
  lemma {:induction false} AscendingFront(a: seq<byte>)
    requires StrictlyAscending(a) && a != []
    ensures StrictlyAscending(a[..|a| - 1])
    ensures forall z: byte :: z in a[..|a| - 1] <==> z in a && z != a[|a| - 1]
    ensures forall z: byte :: z in a ==> z <= a[|a| - 1]
  {
    assert a == a[..|a| - 1] + [a[|a| - 1]];
  }

  /** A strictly ascending sequence is determined by its members. */
  lemma {:induction false} AscendingUnique(a: seq<byte>, b: seq<byte>)
    requires StrictlyAscending(a) && StrictlyAscending(b)
    requires forall x: byte :: x in a <==> x in b
    ensures a == b
    decreases |a|
  {
    var s := set x | x in a;
    AscendingSize(a, s);
    AscendingSize(b, s);
    if a == [] {
    } else {
      var x, y := a[|a| - 1], b[|b| - 1];
      AscendingFront(a);
      AscendingFront(b);
      assert x in b && y in a;
      assert x == y;
      var a', b' := a[..|a| - 1], b[..|b| - 1];
      forall z: byte ensures z in a' <==> z in b' {
        assert z in a' <==> z in a && z != x;
        assert z in b' <==> z in b && z != y;
      }
      AscendingUnique(a', b');
      assert a == a[..|a| - 1] + [x] && b == b[..|b| - 1] + [y];
    }
  }
}
