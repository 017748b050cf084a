/** The three scanners of the configuration editor, over the lines of a file. */
module IniEditor {
  import opened Common
  import opened IniLines
  import opened IniFile

  /** strchr: the first position of c, or the length of s. */
  method IndexOf(s: string, c: char) returns (n: nat)
    ensures n == Find(s, c)
  {
    n := 0;
    while n < |s| && s[n] != c
      invariant 0 <= n <= |s| && c !in s[..n]
    {
      n := n + 1;
    }
    FindIs(s, c, n);
  }

  // ---------------------------------------------------------------------
  // config_get
  // ---------------------------------------------------------------------

  /** Cuts an inline comment off a trimmed value. */
  method StripComment(v: string) returns (r: string)
    requires IsTrimmed(v)
    ensures r == Shown(v)
  {
    hide LeftTrimmed, RightTrimmed, Find;
    var comment := IndexOf(v, '#');
    var semicolon := IndexOf(v, ';');
    if semicolon < |v| && (comment == |v| || semicolon < comment) {
      comment := semicolon;
    }
    TrimmedIsTrimmed(v);
    assert v[..|v|] == v;
    r := v;
    if comment < |v| {
      r := Trim(v[..comment]);
    }
  }

  /** config_get: the scan stops at the next header after the section. */
  method ConfigGet(lines: seq<string>, section: string, key: string) returns (r: Option<string>)
    ensures r == Lookup(lines, section, key)
  {
    hide Parse, Get, Tokens, Shown, Trimmed;
    var header := SearchedHeader(section);
    var inside := false;
    ghost var ts := Tokens(lines);
    assert ts[0..] == ts;
    var i := 0;
    while i < |lines|
      invariant 0 <= i <= |lines| == |ts|
      invariant Get(ts, header, key, false) == Get(ts[i..], header, key, inside)
    {
      TokenAt(lines, i);
      GetStep(ts, i, header, key, inside);
      var stop, now, found := GetLine(lines[i], header, key, inside);
      if stop {
        return found;
      }
      inside := now;
      i := i + 1;
    }
    GetStep(ts, i, header, key, inside);
    return None;
  }

  /** One round of the loop. */
  method GetLine(line: string, header: string, key: string, inside: bool) returns (stop: bool, now: bool,
                 found: Option<string>)
    ensures match Parse(line)
            case Header(text) => stop == (inside && text != header) && (!stop ==> now == (text == header))
                && found == None
            case Pair(k, v) =>
              && stop == (inside && k == key) && (!stop ==> now == inside)
              && found == (if stop then Some(Shown(v)) else None)
            case _ => !stop && now == inside && found == None
  {
    hide Shown, Trimmed, Find;
    stop, now, found := false, inside, None;
    var t := Trim(line);
    if t == "" || t[0] == '#' || t[0] == ';' {
      return;
    }
    if t[0] == '[' {
      var b := IndexOf(t, ']');
      if b < |t| {
        t := t[..b + 1];
      }
      if t == header {
        now := true;
      } else {
        stop := inside;
      }
      return;
    }
    if inside {
      var eq := IndexOf(t, '=');
      if eq < |t| {
        var k := Trim(t[..eq]);
        var v := Trim(t[eq + 1..]);
        TrimmedIsTrimmed(t[eq + 1..]);
        var shown := StripComment(v);
        if k == key {
          return true, inside, Some(shown);
        }
      }
    }
  }

  lemma {:induction false} TokenAt(lines: seq<string>, i: nat)
    requires i < |lines|
    ensures Tokens(lines)[i] == Parse(lines[i])
  {
  }

  lemma {:induction false} GetStep(ts: seq<Token>, i: nat, h: string, key: string, inside: bool)
    requires i <= |ts|
    ensures i == |ts| ==> Get(ts[i..], h, key, inside) == None
    ensures i < |ts| ==>
              Get(ts[i..], h, key, inside) ==
              match ts[i]
              case Header(text) =>
                if text == h then Get(ts[i + 1..], h, key, true)
                else if inside then None
                else Get(ts[i + 1..], h, key, false)
              case Pair(k, v) => if inside && k == key then Some(Shown(v)) else Get(ts[i + 1..], h, key, inside)
              case _ => Get(ts[i + 1..], h, key, inside)
  {
    assert i < |ts| ==> ts[i..][1..] == ts[i + 1..];
  }

  // ---------------------------------------------------------------------
  // The scans of config_set and config_del
  // ---------------------------------------------------------------------

  /** The header on a line, cut behind its bracket. */
  method HeaderOf(line: string) returns (h: Option<string>)
    ensures h == if Parse(line).Header? then Some(Parse(line).text) else None
  {
    hide Trimmed, Find;
    var t := Trim(line);
    if t == "" || t[0] != '[' {
      return None;
    }
    var b := IndexOf(t, ']');
    return Some(if b < |t| then t[..b + 1] else t);
  }

  /** Whether a line is a pair with this key. */
  method HasKey(line: string, key: string) returns (yes: bool)
    ensures yes == IsKey(Parse(line), key)
  {
    hide Trimmed, Find;
    var t := Trim(line);
    if t == "" || t[0] == '#' || t[0] == ';' || t[0] == '[' {
      return false;
    }
    var eq := IndexOf(t, '=');
    if eq == |t| {
      return false;
    }
    var k := Trim(t[..eq]);
    return k == key;
  }

  /** Where a scan of the first i lines stands: the last section with the header, and its end
      so far. */
  ghost predicate Scanned(ts: seq<Token>, h: string, i: nat, found: bool, start: int, end: int)
    requires i <= |ts|
  {
    && start == LastHeaderAt(ts, h, i) && found == (0 <= start)
    && (found ==> end == EndSoFar(ts, start, i))
  }

  function EndSoFar(ts: seq<Token>, s: nat, i: nat): nat
    requires s < i <= |ts|
  {
    var e := EndAt(ts, s + 1);
    if e < i then e else |ts|
  }

  /** One round of the header part of the loops. */
  method ScanHeader(line: string, h: string, i: nat, count: nat, found: bool, start: int, end: int,
                    ghost ts: seq<Token>)
    returns (found': bool, start': int, end': int, inside: bool)
    requires i < |ts| == count && ts[i] == Parse(line) && Scanned(ts, h, i, found, start, end)
    ensures Scanned(ts, h, i + 1, found', start', end')
    ensures inside == (!ts[i].Header? && InForce(ts, i) == Some(h))
  {
    hide Parse, NotIn, NoHeaderIn, InForce, EndAt, LastHeaderAt;
    found', start', end' := found, start, end;
    var text := HeaderOf(line);
    ScanStep(ts, h, i);
    if text.Some? {
      if text.value == h {
        found', start', end' := true, i, count;
      } else if found && end == count {
        end' := i;
      }
    }
    inside := found' && i > start' && (end' == count || i < end');
  }

  /** One more line: a line with the header starts the section anew, another header ends it,
      and in between the header is in force. */
  lemma {:induction false} ScanStep(ts: seq<Token>, h: string, i: nat)
    requires i < |ts|
    ensures var s := LastHeaderAt(ts, h, i);
            && LastHeaderAt(ts, h, i + 1) == (if ts[i] == Header(h) then i else s)
            && (ts[i] == Header(h) ==> EndSoFar(ts, i, i + 1) == |ts|)
            && (0 <= s ==>
                  && EndSoFar(ts, s, i + 1) ==
                     (if ts[i].Header? && EndSoFar(ts, s, i) == |ts| then i else EndSoFar(ts, s, i))
                  && (EndSoFar(ts, s, i) == |ts| || EndSoFar(ts, s, i) < i)
                  && (InForce(ts, i) == Some(h) <==> EndSoFar(ts, s, i) == |ts|))
            && (InForce(ts, i) == Some(h) ==> 0 <= s)
  {
    hide EndAt, NoHeaderIn, InForce;
    var s := LastHeaderAt(ts, h, i);
    WhereInForce(ts, h, i);
    if 0 <= s {
      EndStep(ts, s, i);
    }
  }

  lemma {:induction false} EndStep(ts: seq<Token>, s: nat, i: nat)
    requires s < i < |ts|
    ensures ts[i].Header? && i <= EndAt(ts, s + 1) ==> EndAt(ts, s + 1) == i
    ensures !ts[i].Header? ==> EndAt(ts, s + 1) != i
  {
    hide EndAt;
  }

  lemma {:induction false} NothingScanned(ts: seq<Token>, h: string)
    ensures Scanned(ts, h, 0, false, -1, -1)
  {
  }

  /** The lines a set or a del works on, in an array with room for MAX_LINES. */
  class ConfigLines {
    const lines: array<string>
    var count: nat

    ghost predicate Valid()
      reads this
    {
      lines.Length == MAX_LINES && count <= MAX_LINES
    }

    ghost function File(): seq<string>
      requires Valid()
      reads this, lines
    {
      lines[..count]
    }

    /** Reading a file, as many lines of it as fit. */
    constructor (file: seq<string>)
      ensures Valid() && fresh(lines)
      ensures File() == if |file| <= MAX_LINES then file else file[..MAX_LINES]
    {
      lines := new string[MAX_LINES](i => if 0 <= i < |file| then file[i] else "");
      count := if |file| <= MAX_LINES then |file| else MAX_LINES;
    }

    /** The loop of config_set: the last section with the header, and the first line with the
        key in any of them. */
    method ScanForSet(h: string, key: string) returns (found: bool, start: int, end: int, keyLine: int)
      requires Valid()
      ensures var ts := Tokens(File());
              && start == LastHeaderAt(ts, h, |ts|) && keyLine == FirstHit(ts, h, key, |ts|)
              && found == (0 <= start) && (found ==> end == EndAt(ts, start + 1))
    {
      hide Parse, Tokens, LastHeaderAt, EndAt, FirstHit, Scanned, NotIn, NoHeaderIn, NoHitIn, InForce;
      found, start, end, keyLine := false, -1, -1, -1;
      ghost var ts := Tokens(File());
      NothingScanned(ts, h);
      NoHitYet(ts, h, key);
      var i := 0;
      while i < count
        invariant 0 <= i <= count == |ts|
        invariant Scanned(ts, h, i, found, start, end)
        invariant keyLine == FirstHit(ts, h, key, i)
      {
        TokenAt(File(), i);
        HitStep(ts, h, key, i);
        var inside;
        found, start, end, inside := ScanHeader(lines[i], h, i, count, found, start, end, ts);
        if inside && keyLine < 0 {
          var yes := HasKey(lines[i], key);
          if yes {
            keyLine := i;
          }
        }
        i := i + 1;
      }
      ScannedAre(ts, h, found, start, end);
    }

    /** The loop of config_del, which keeps the last line with the key. */
    method ScanForDel(h: string, key: Option<string>) returns (found: bool, start: int, end: int, keyLine: int)
      requires Valid()
      ensures var ts := Tokens(File());
              && start == LastHeaderAt(ts, h, |ts|)
                 && keyLine == (if key.Some? then LastHit(ts, h, key.value, |ts|) else -1)
              && found == (0 <= start) && (found ==> end == EndAt(ts, start + 1))
    {
      hide Parse, Tokens, LastHeaderAt, EndAt, LastHit, Scanned, NotIn, NoHeaderIn, NoHitIn, InForce;
      found, start, end, keyLine := false, -1, -1, -1;
      ghost var ts := Tokens(File());
      ghost var name := if key.Some? then key.value else "";
      NothingScanned(ts, h);
      NoHitYet(ts, h, name);
      var i := 0;
      while i < count
        invariant 0 <= i <= count == |ts|
        invariant Scanned(ts, h, i, found, start, end)
        invariant keyLine == if key.Some? then LastHit(ts, h, name, i) else -1
      {
        TokenAt(File(), i);
        HitStep(ts, h, name, i);
        var inside;
        found, start, end, inside := ScanHeader(lines[i], h, i, count, found, start, end, ts);
        if inside && key.Some? {
          var yes := HasKey(lines[i], key.value);
          if yes {
            keyLine := i;
          }
        }
        i := i + 1;
      }
      ScannedAre(ts, h, found, start, end);
    }

    /** The walk back over blank lines. */
    method FindInsertAt(start: nat, end: nat) returns (p: nat)
      requires Valid() && start < end <= count
      ensures p == InsertAt(Tokens(File()), start + 1, end, end)
    {
      hide Parse, Tokens;
      ghost var ts := Tokens(File());
      var i := end;
      while i > start + 1
        invariant start + 1 <= i <= end && InsertAt(ts, start + 1, end, end) == InsertAt(ts, start + 1, i, end)
      {
        TokenAt(File(), i - 1);
        BlankIsEmpty(lines[i - 1]);
        var t := Trim(lines[i - 1]);
        if t != "" {
          return i;
        }
        i := i - 1;
      }
      return end;
    }

    /** Makes room at p by moving the lines behind it down by one. */
    method InsertLine(p: nat, text: string)
      requires Valid() && p <= count < MAX_LINES
      modifies this, lines
      ensures Valid() && File() == Inserted(old(File()), p, text)
    {
      ghost var was := File();
      ShiftUp(p, was);
      lines[p] := text;
      count := count + 1;
      InsertedAre(was, p, text, File());
    }

    /** Moves the lines from p on up by one. */
    method ShiftUp(p: nat, ghost was: seq<string>)
      requires Valid() && p <= count < MAX_LINES && was == File()
      modifies lines
      ensures forall j :: 0 <= j < p ==> lines[j] == was[j]
      ensures forall j :: p <= j < |was| ==> lines[j + 1] == was[j]
    {
      var i := count;
      while i > p
        invariant p <= i <= count
        invariant forall j :: 0 <= j < i ==> lines[j] == was[j]
        invariant forall j :: i <= j < |was| ==> lines[j + 1] == was[j]
      {
        lines[i] := lines[i - 1];
        i := i - 1;
      }
    }

    method AppendLine(text: string)
      requires Valid() && count < MAX_LINES
      modifies this, lines
      ensures Valid() && File() == old(File()) + [text]
    {
      lines[count] := text;
      count := count + 1;
    }

    method ReplaceLine(k: nat, text: string)
      requires Valid() && k < count
      modifies lines
      ensures Valid() && File() == old(File())[k := text]
    {
      lines[k] := text;
    }

    /** A separator if the file is not empty, the header and the first pair. */
    method AppendSection(header: string, text: string)
      requires Valid() && count + 3 < MAX_LINES
      modifies this, lines
      ensures Valid() && File() == Appended(old(File()), header, text)
    {
      ghost var file := File();
      if count > 0 {
        AppendLine("\n");
      }
      AppendLine(header);
      AppendLine(text);
      AppendTwo(file, File(), header, text);
    }

    /** config_set, up to writing the file back. */
    method Set(section: string, key: string, value: string, comment: Option<string>) returns (ok: bool)
      requires Valid()
      modifies this, lines
      ensures Valid() && ok == IniFile.Set(old(File()), section, key, value, comment).Done?
      ensures File() == if ok then IniFile.Set(old(File()), section, key, value, comment).lines else old(File())
    {
      hide Parse, Tokens, LastHeaderAt, EndAt, FirstHit, InsertAt, NotIn, NoHeaderIn, NoHitIn, NewPair, NewHeader,
           SearchedHeader, Inserted,
           Appended;
      var found, start, end, keyLine := ScanForSet(SearchedHeader(section), key);
      var text := NewPair(key, value, comment);
      HitInSection(Tokens(File()), SearchedHeader(section), key);
      if keyLine >= 0 {
        ReplaceLine(keyLine, text);
        return true;
      }
      if found {
        if count >= MAX_LINES {
          return false;
        }
        var p := FindInsertAt(start, end);
        InsertLine(p, text);
        return true;
      }
      if count + 3 >= MAX_LINES {
        return false;
      }
      AppendSection(NewHeader(section), text);
      return true;
    }

    /** The lines except those from position i to position j. */
    method CopyWithout(i: nat, j: nat) returns (out: seq<string>)
      requires Valid() && i <= j <= count
      ensures out == Dropped(File(), i, j)
    {
      out := [];
      ghost var file := File();
      for n := 0 to count
        invariant out == if n <= i then file[..n] else if n <= j then file[..i] else file[..i] + file[j..n]
      {
        if !(i <= n < j) {
          out := out + [lines[n]];
        }
      }
    }

    /** config_del: the lines that are written back. */
    method Del(section: string, key: Option<string>) returns (r: Outcome)
      requires Valid()
      ensures r == IniFile.Del(File(), section, key)
    {
      hide Parse, Tokens, LastHeaderAt, EndAt, LastHit, NotIn, NoHeaderIn, NoHitIn, SearchedHeader, Dropped;
      var found, start, end, keyLine := ScanForDel(SearchedHeader(section), key);
      if !found || (key.Some? && keyLine == -1) {
        return Failed;
      }
      var out;
      if key.None? {
        out := CopyWithout(start, end);
      } else {
        out := CopyWithout(keyLine, keyLine + 1);
      }
      return Done(out);
    }
  }

  lemma {:induction false} NoHitYet(ts: seq<Token>, h: string, key: string)
    ensures FirstHit(ts, h, key, 0) == -1 && LastHit(ts, h, key, 0) == -1
  {
  }

  lemma {:induction false} HitStep(ts: seq<Token>, h: string, key: string, i: nat)
    requires i < |ts|
    ensures var f := FirstHit(ts, h, key, i);
            FirstHit(ts, h, key, i + 1) == if 0 <= f then f else if Hit(ts, h, key, i) then i else -1
    ensures LastHit(ts, h, key, i + 1) == if Hit(ts, h, key, i) then i else LastHit(ts, h, key, i)
  {
    hide Hit;
  }

  lemma {:induction false} ScannedAre(ts: seq<Token>, h: string, found: bool, start: int, end: int)
    requires Scanned(ts, h, |ts|, found, start, end)
    ensures start == LastHeaderAt(ts, h, |ts|) && found == (0 <= start) && (found ==> end == EndAt(ts, start + 1))
  {
    hide EndAt, LastHeaderAt;
  }

  /** Where there is a line with the key there is a section with the header. */
  lemma {:induction false} HitInSection(ts: seq<Token>, h: string, key: string)
    ensures 0 <= FirstHit(ts, h, key, |ts|) ==> 0 <= LastHeaderAt(ts, h, |ts|)
  {
    hide FirstHit, LastHeaderAt;
    var k := FirstHit(ts, h, key, |ts|);
    if 0 <= k {
      WhereInForce(ts, h, k);
    }
  }

  lemma {:induction false} InsertedAre(was: seq<string>, p: nat, text: string, now: seq<string>)
    requires p <= |was| && |now| == |was| + 1 && now[p] == text
    requires (forall j :: 0 <= j < p ==> now[j] == was[j]) && (forall j :: p <= j < |was| ==> now[j + 1] == was[j])
    ensures now == Inserted(was, p, text)
  {
    assert now[..p] == was[..p] && now[p + 1..] == was[p..];
    assert now == now[..p] + [now[p]] + now[p + 1..];
  }

  lemma {:induction false} BlankIsEmpty(line: string)
    ensures Parse(line) == Blank <==> Trimmed(line) == ""
  {
  }

  lemma {:induction false} AppendTwo(file: seq<string>, now: seq<string>, a: string, b: string)
    requires now == (if file == [] then file else file + ["\n"]) + [a] + [b]
    ensures now == file + (if file == [] then [] else ["\n"]) + [a, b]
  {
  }
}
