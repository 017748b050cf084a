/** Configuration files as sequences of lines: what get finds, and what set and del make
    of a file. Nothing is assumed about the file: a header may stand on several lines. */
module IniFile {
  import opened Common
  import opened IniLines

  const MAX_LINES := 8192

  function Tokens(lines: seq<string>): (ts: seq<Token>)
    ensures |ts| == |lines|
  {
    seq(|lines|, i requires 0 <= i < |lines| => Parse(lines[i]))
  }

  // ---------------------------------------------------------------------
  // get
  // ---------------------------------------------------------------------

  /** The value get prints for a key of the section with header h; inside says whether the
      scan is in that section. */
  function Get(ts: seq<Token>, h: string, key: string, inside: bool): Option<string> {
    if ts == [] then None
    else
      match ts[0]
      case Header(text) =>
        if text == h then Get(ts[1..], h, key, true)
        else if inside then None
        else Get(ts[1..], h, key, false)
      case Pair(k, v) => if inside && k == key then Some(Shown(v)) else Get(ts[1..], h, key, inside)
      case _ => Get(ts[1..], h, key, inside)
  }

  function Lookup(lines: seq<string>, section: string, key: string): Option<string> {
    Get(Tokens(lines), SearchedHeader(section), key, false)
  }

  // ---------------------------------------------------------------------
  // Where things are
  // ---------------------------------------------------------------------

  /** No two sections have the same header. */
  ghost predicate Unique(ts: seq<Token>) {
    forall i, j :: 0 <= i < j < |ts| && ts[i].Header? && ts[j].Header? ==> ts[i] != ts[j]
  }

  predicate IsKey(t: Token, key: string) {
    t.Pair? && t.key == key
  }

  predicate IsOtherHeader(t: Token, h: string) {
    t.Header? && t.text != h
  }

  ghost predicate NoHeaderIn(ts: seq<Token>, i: int, j: int)
    requires 0 <= i && j <= |ts|
  {
    forall k :: i <= k < j ==> !ts[k].Header?
  }

  /** No header but h. */
  ghost predicate SameSection(ts: seq<Token>, h: string, i: int, j: int)
    requires 0 <= i && j <= |ts|
  {
    forall k :: i <= k < j ==> !IsOtherHeader(ts[k], h)
  }

  ghost predicate NoKeyIn(ts: seq<Token>, key: string, i: int, j: int)
    requires 0 <= i && j <= |ts|
  {
    forall k :: i <= k < j ==> !IsKey(ts[k], key)
  }

  ghost predicate NotIn(ts: seq<Token>, h: string, i: int, j: int)
    requires 0 <= i && j <= |ts|
  {
    forall k :: i <= k < j ==> ts[k] != Header(h)
  }

  /** The first position from i on that holds header h, or -1. */
  function HeaderAt(ts: seq<Token>, h: string, i: nat): (s: int)
    requires i <= |ts|
    ensures s == -1 || (i <= s < |ts| && ts[s] == Header(h))
    ensures NotIn(ts, h, i, if s < 0 then |ts| else s)
    decreases |ts| - i
  {
    if i == |ts| then -1 else if ts[i] == Header(h) then i else HeaderAt(ts, h, i + 1)
  }

  /** The last position before i that holds header h, or -1. */
  function LastHeaderAt(ts: seq<Token>, h: string, i: nat): (s: int)
    requires i <= |ts|
    ensures s == -1 || (0 <= s < i && ts[s] == Header(h))
    ensures NotIn(ts, h, s + 1, i)
  {
    if i == 0 then -1 else if ts[i - 1] == Header(h) then i - 1 else LastHeaderAt(ts, h, i - 1)
  }

  /** The first header from i on, or the end of the file. */
  function EndAt(ts: seq<Token>, i: nat): (e: nat)
    requires i <= |ts|
    ensures i <= e <= |ts| && NoHeaderIn(ts, i, e) && (e < |ts| ==> ts[e].Header?)
    decreases |ts| - i
  {
    if i == |ts| || ts[i].Header? then i else EndAt(ts, i + 1)
  }

  /** The first header other than h from i on, or the end of the file: this is where get,
      once in the section, gives up. */
  function StopAt(ts: seq<Token>, h: string, i: nat): (e: nat)
    requires i <= |ts|
    ensures i <= e <= |ts| && SameSection(ts, h, i, e) && (e < |ts| ==> IsOtherHeader(ts[e], h))
    decreases |ts| - i
  {
    if i == |ts| || IsOtherHeader(ts[i], h) then i else StopAt(ts, h, i + 1)
  }

  /** The first position of a key between i and j, or -1. */
  function FirstKey(ts: seq<Token>, key: string, i: nat, j: nat): (k: int)
    requires i <= j <= |ts|
    ensures k == -1 || (i <= k < j && IsKey(ts[k], key))
    ensures NoKeyIn(ts, key, i, if k < 0 then j else k)
    decreases j - i
  {
    if i == j then -1 else if IsKey(ts[i], key) then i else FirstKey(ts, key, i + 1, j)
  }

  /** The header in force at position i: the last one before it. */
  function InForce(ts: seq<Token>, i: nat): Option<string>
    requires i <= |ts|
  {
    if i == 0 then None else if ts[i - 1].Header? then Some(ts[i - 1].text) else InForce(ts, i - 1)
  }

  /** A line for the key in a section with header h. */
  predicate Hit(ts: seq<Token>, h: string, key: string, i: nat)
    requires i < |ts|
  {
    IsKey(ts[i], key) && InForce(ts, i) == Some(h)
  }

  ghost predicate NoHitIn(ts: seq<Token>, h: string, key: string, i: int, j: int)
    requires 0 <= i && j <= |ts|
  {
    forall k :: i <= k < j ==> !Hit(ts, h, key, k)
  }

  /** The first and the last such line before i, or -1. */
  function FirstHit(ts: seq<Token>, h: string, key: string, i: nat): (k: int)
    requires i <= |ts|
    ensures k == -1 || (0 <= k < i && Hit(ts, h, key, k))
    ensures NoHitIn(ts, h, key, 0, if k < 0 then i else k)
  {
    if i == 0 then -1
    else
      var k := FirstHit(ts, h, key, i - 1);
      if 0 <= k then k else if Hit(ts, h, key, i - 1) then i - 1 else -1
  }

  function LastHit(ts: seq<Token>, h: string, key: string, i: nat): (k: int)
    requires i <= |ts|
    ensures k == -1 || (0 <= k < i && Hit(ts, h, key, k))
    ensures NoHitIn(ts, h, key, k + 1, i)
  {
    if i == 0 then -1 else if Hit(ts, h, key, i - 1) then i - 1 else LastHit(ts, h, key, i - 1)
  }

  /** Behind the last line from i to e that is not blank, or e if all are. */
  function InsertAt(ts: seq<Token>, i: nat, j: nat, e: nat): (p: nat)
    requires i <= j <= e <= |ts|
    ensures i <= p <= e
    decreases j - i
  {
    if i == j then e else if ts[j - 1] != Blank then j else InsertAt(ts, i, j - 1, e)
  }

  // ---------------------------------------------------------------------
  // set and del
  // ---------------------------------------------------------------------

  datatype Outcome = Done(lines: seq<string>) | Failed

  function Inserted<T>(s: seq<T>, p: nat, x: T): seq<T>
    requires p <= |s|
  {
    s[..p] + [x] + s[p..]
  }

  function Dropped<T>(s: seq<T>, i: nat, j: nat): seq<T>
    requires i <= j <= |s|
  {
    s[..i] + s[j..]
  }

  /** The lines set writes, as much of them as the buffer holds. */
  function NewPair(key: string, value: string, comment: Option<string>): string {
    CutTo(PairLine(key, value, comment), MAX_LINE_LENGTH)
  }

  function NewHeader(section: string): string {
    CutTo(SectionHeader(section) + "\n", MAX_LINE_LENGTH)
  }

  function Appended(lines: seq<string>, header: string, text: string): seq<string> {
    lines + (if lines == [] then [] else ["\n"]) + [header, text]
  }

  /** The first line with the key in any section with the header is replaced; if there is
      none, one is added to the last of these sections, and without such a section one is
      added to the file. */
  function Set(lines: seq<string>, section: string, key: string, value: string, comment: Option<string>): Outcome {
    var ts, h, text := Tokens(lines), SearchedHeader(section), NewPair(key, value, comment);
    var s := LastHeaderAt(ts, h, |ts|);
    if s < 0 then
      if |lines| + 3 >= MAX_LINES then Failed else Done(Appended(lines, NewHeader(section), text))
    else
      var k, e := FirstHit(ts, h, key, |ts|), EndAt(ts, s + 1);
      if 0 <= k then Done(lines[k := text])
      else if |lines| >= MAX_LINES then Failed
      else Done(Inserted(lines, InsertAt(ts, s + 1, e, e), text))
  }

  /** The last line with the key goes; without a key the last section goes, header included. */
  function Del(lines: seq<string>, section: string, key: Option<string>): Outcome {
    var ts, h := Tokens(lines), SearchedHeader(section);
    var s := LastHeaderAt(ts, h, |ts|);
    if s < 0 then Failed
    else
      match key
      case None => Done(Dropped(lines, s, EndAt(ts, s + 1)))
      case Some(name) =>
        var k := LastHit(ts, h, name, |ts|);
        if k < 0 then Failed else Done(Dropped(lines, k, k + 1))
  }

  // ---------------------------------------------------------------------
  // Scanning past tokens
  // ---------------------------------------------------------------------

  /** Before its section a scan goes past everything. */
  lemma {:induction false} SkipBefore(pre: seq<Token>, rest: seq<Token>, h: string, key: string)
    requires Header(h) !in pre
    ensures Get(pre + rest, h, key, false) == Get(rest, h, key, false)
  {
    if pre == [] {
      assert pre + rest == rest;
    } else {
      assert (pre + rest)[1..] == pre[1..] + rest && pre[0] in pre;
      SkipBefore(pre[1..], rest, h, key);
    }
  }

  /** In its section it goes past everything but other headers and the key. */
  lemma {:induction false} SkipInside(body: seq<Token>, rest: seq<Token>, h: string, key: string)
    requires forall t :: t in body ==> !IsOtherHeader(t, h) && !IsKey(t, key)
    ensures Get(body + rest, h, key, true) == Get(rest, h, key, true)
  {
    if body == [] {
      assert body + rest == rest;
    } else {
      assert (body + rest)[1..] == body[1..] + rest && body[0] in body;
      SkipInside(body[1..], rest, h, key);
    }
  }

  /** A scan that gets to position k of the section goes on from there. */
  lemma {:induction false} ScanReaches(ts: seq<Token>, h: string, key: string, s: nat, k: nat)
    requires s < k <= |ts| && ts[s] == Header(h) && Header(h) !in ts[..s]
    requires SameSection(ts, h, s + 1, k) && NoKeyIn(ts, key, s + 1, k)
    ensures Get(ts, h, key, false) == Get(ts[k..], h, key, true)
  {
    hide Get;
    var body := ts[s + 1..k];
    assert ts == ts[..s] + ts[s..];
    SkipBefore(ts[..s], ts[s..], h, key);
    OnHeader(ts[s..], h, key);
    assert ts[s..][1..] == body + ts[k..];
    forall t | t in body ensures !IsOtherHeader(t, h) && !IsKey(t, key) {
      var i :| 0 <= i < |body| && body[i] == t;
      assert body[i] == ts[s + 1 + i];
    }
    SkipInside(body, ts[k..], h, key);
  }

  lemma {:induction false} OnHeader(ts: seq<Token>, h: string, key: string)
    requires ts != [] && ts[0] == Header(h)
    ensures Get(ts, h, key, false) == Get(ts[1..], h, key, true)
  {
  }

  lemma {:induction false} OnKey(ts: seq<Token>, h: string, key: string)
    ensures ts != [] && IsKey(ts[0], key) ==> Get(ts, h, key, true) == Some(Shown(ts[0].value))
    ensures ts == [] || IsOtherHeader(ts[0], h) ==> Get(ts, h, key, true) == None
  {
  }

  lemma {:induction false} NotBefore(ts: seq<Token>, h: string)
    ensures HeaderAt(ts, h, 0) >= 0 ==> Header(h) !in ts[..HeaderAt(ts, h, 0)]
    ensures HeaderAt(ts, h, 0) < 0 <==> Header(h) !in ts
    ensures LastHeaderAt(ts, h, |ts|) < 0 <==> HeaderAt(ts, h, 0) < 0
    ensures HeaderAt(ts, h, 0) <= LastHeaderAt(ts, h, |ts|)
  {
    hide HeaderAt, LastHeaderAt;
  }

  /** What get finds is the first line with the key between the first header and the place
      where it gives up. */
  lemma {:induction false} GetIsFirst(ts: seq<Token>, h: string, key: string)
    ensures var f := HeaderAt(ts, h, 0);
            Get(ts, h, key, false) ==
            if f < 0 then None
            else
              var k := FirstKey(ts, key, f + 1, StopAt(ts, h, f + 1));
              if k < 0 then None else Some(Shown(ts[k].value))
  {
    hide Get, HeaderAt, FirstKey, StopAt;
    var f := HeaderAt(ts, h, 0);
    NotBefore(ts, h);
    if f < 0 {
      SkipBefore(ts, [], h, key);
      assert ts + [] == ts;
      NothingInEmpty(h, key);
    } else {
      var e := StopAt(ts, h, f + 1);
      var k := FirstKey(ts, key, f + 1, e);
      var n := if k < 0 then e else k;
      ScanReaches(ts, h, key, f, n);
      OnKey(ts[n..], h, key);
    }
  }

  lemma {:induction false} NothingInEmpty(h: string, key: string)
    ensures Get([], h, key, false) == None
  {
  }

  // ---------------------------------------------------------------------
  // The header in force
  // ---------------------------------------------------------------------

  lemma {:induction false} InForcePrefix(a: seq<Token>, b: seq<Token>, i: nat)
    requires i <= |a| && i <= |b| && forall j :: 0 <= j < i ==> a[j] == b[j]
    ensures InForce(a, i) == InForce(b, i)
  {
    if i == 0 {
    } else {
      InForcePrefix(a, b, i - 1);
    }
  }

  lemma {:induction false} InForceTail(ts: seq<Token>, i: nat)
    requires 0 < i <= |ts|
    ensures var l := InForce(ts[1..], i - 1);
            InForce(ts, i) == if l.Some? then l else if ts[0].Header? then Some(ts[0].text) else None
  {
    if i == 1 {
    } else {
      InForceTail(ts, i - 1);
      assert ts[1..][i - 2] == ts[i - 1];
    }
  }

  /** From a header of h on, up to another header, h is in force. */
  lemma {:induction false} InForceIn(ts: seq<Token>, h: string, s: nat, k: nat)
    requires s < k <= |ts| && ts[s] == Header(h) && SameSection(ts, h, s + 1, k)
    ensures InForce(ts, k) == Some(h)
    decreases k
  {
    if k == s + 1 {
    } else {
      assert !IsOtherHeader(ts[k - 1], h);
      InForceIn(ts, h, s, k - 1);
    }
  }

  /** h is in force exactly from its last header on, up to the end of that section. */
  lemma {:induction false} WhereInForce(ts: seq<Token>, h: string, i: nat)
    requires i <= |ts|
    ensures InForce(ts, i) == Some(h) <==>
            var s := LastHeaderAt(ts, h, i);
            0 <= s && i <= EndAt(ts, s + 1)
  {
    hide EndAt;
    if i == 0 {
    } else {
      WhereInForce(ts, h, i - 1);
    }
  }

  /** A line that is no header matters only to a lookup of its own key in its own section. */
  lemma {:induction false} PairElsewhere(pre: seq<Token>, p: Token, post: seq<Token>, h: string, key: string,
                                         inside: bool)
    requires !p.Header?
    requires IsKey(p, key) ==> match InForce(pre, |pre|) case Some(l) => l != h case None => !inside
    ensures Get(pre + [p] + post, h, key, inside) == Get(pre + post, h, key, inside)
  {
    if pre == [] {
      assert pre + [p] + post == [p] + post && pre + post == post;
      assert ([p] + post)[1..] == post;
    } else {
      assert (pre + [p] + post)[1..] == pre[1..] + [p] + post && (pre + post)[1..] == pre[1..] + post;
      assert (pre + [p] + post)[0] == pre[0] == (pre + post)[0];
      InForceTail(pre, |pre|);
      var t := pre[0];
      if t.Header? && (t.text == h || !inside) {
        PairElsewhere(pre[1..], p, post, h, key, t.text == h);
      } else if !t.Header? && !(inside && IsKey(t, key)) {
        PairElsewhere(pre[1..], p, post, h, key, inside);
      }
    }
  }
}
