/** The lines of a configuration file: trimming, what kind of line each is, and the lines
    the editor writes. */
module IniLines {
  import opened Common

  // ---------------------------------------------------------------------
  // Trimming
  // ---------------------------------------------------------------------

  /** isspace in the C locale. */
  predicate IsSpace(c: char) {
    c == ' ' || 9 <= c as int <= 13
  }

  function LeftTrimmed(s: string): string {
    if s == "" then "" else if IsSpace(s[0]) then LeftTrimmed(s[1..]) else s
  }

  function RightTrimmed(s: string): string {
    if s == "" then "" else if IsSpace(s[|s| - 1]) then RightTrimmed(s[..|s| - 1]) else s
  }

  function Trimmed(s: string): string {
    RightTrimmed(LeftTrimmed(s))
  }

  predicate IsTrimmed(s: string) {
    s != "" ==> !IsSpace(s[0]) && !IsSpace(s[|s| - 1])
  }

  predicate AllSpace(s: string) {
    forall i :: 0 <= i < |s| ==> IsSpace(s[i])
  }

  /** The two loops of trim over one buffer. */
  method Trim(s: string) returns (t: string)
    ensures t == Trimmed(s)
  {
    hide LeftTrimmed, RightTrimmed;
    var from := 0;
    while from < |s| && IsSpace(s[from])
      invariant 0 <= from <= |s| && AllSpace(s[..from])
    {
      from := from + 1;
    }
    LeftIs(s, from);
    if from == |s| {
      RightIs("", 0);
      return "";
    }
    var to := TrimEnd(s[from..]);
    return s[from..][..to];
  }

  method TrimEnd(s: string) returns (n: nat)
    requires s != "" && !IsSpace(s[0])
    ensures n <= |s| && RightTrimmed(s) == s[..n]
  {
    hide RightTrimmed;
    var to := |s| - 1;
    while to > 0 && IsSpace(s[to])
      invariant 0 <= to < |s| && AllSpace(s[to + 1..])
    {
      to := to - 1;
    }
    RightIs(s, to + 1);
    return to + 1;
  }

  /** How much is cut off determines the result. */
  lemma {:induction false} LeftIs(s: string, n: nat)
    requires n <= |s| && AllSpace(s[..n]) && (n < |s| ==> !IsSpace(s[n]))
    ensures LeftTrimmed(s) == s[n..]
  {
    if n == 0 {
    } else {
      assert s[..n][0] == s[0] && s[1..][..n - 1] == s[..n][1..];
      LeftIs(s[1..], n - 1);
    }
  }

  lemma {:induction false} RightIs(s: string, n: nat)
    requires n <= |s| && AllSpace(s[n..]) && (0 < n ==> !IsSpace(s[n - 1]))
    ensures RightTrimmed(s) == s[..n]
  {
    if n == |s| {
    } else {
      var front := s[..|s| - 1];
      assert s[n..][|s| - 1 - n] == s[|s| - 1] && front[n..] == s[n..][..|s| - 1 - n];
      RightIs(front, n);
    }
  }

  /** Where the trimmed text begins, and where it ends. */
  lemma {:induction false} LeftAt(s: string) returns (n: nat)
    ensures n <= |s| && AllSpace(s[..n]) && (n < |s| ==> !IsSpace(s[n])) && LeftTrimmed(s) == s[n..]
  {
    n := 0;
    if s != "" && IsSpace(s[0]) {
      var m := LeftAt(s[1..]);
      n := m + 1;
      assert s[..n] == [s[0]] + s[1..][..m];
    }
  }

  lemma {:induction false} RightAt(s: string) returns (n: nat)
    ensures n <= |s| && AllSpace(s[n..]) && (0 < n ==> !IsSpace(s[n - 1])) && RightTrimmed(s) == s[..n]
  {
    n := |s|;
    if s != "" && IsSpace(s[|s| - 1]) {
      var front := s[..|s| - 1];
      n := RightAt(front);
      assert s[n..] == front[n..] + [s[|s| - 1]];
    }
  }

  lemma {:induction false} RightTrimAppend(a: string, b: string)
    requires !AllSpace(b)
    ensures RightTrimmed(a + b) == a + RightTrimmed(b)
  {
    hide RightTrimmed;
    var n := RightAt(b);
    var s := a + b;
    assert b[0..] == b;
    assert s[|a| + n..] == b[n..] && s[..|a| + n] == a + b[..n];
    RightIs(s, |a| + n);
  }

  lemma {:induction false} LeftTrimAppend(a: string, b: string)
    requires !AllSpace(a)
    ensures LeftTrimmed(a + b) == LeftTrimmed(a) + b
  {
    hide LeftTrimmed;
    var n := LeftAt(a);
    var s := a + b;
    assert a[..|a|] == a;
    assert s[..n] == a[..n] && s[n..] == a[n..] + b;
    LeftIs(s, n);
  }

  lemma {:induction false} RightTrimSpace(l: string, b: string)
    requires AllSpace(b)
    ensures RightTrimmed(l + b) == RightTrimmed(l)
  {
    hide RightTrimmed;
    var n := RightAt(l);
    var s := l + b;
    assert s[n..] == l[n..] + b && s[..n] == l[..n];
    RightIs(s, n);
  }

  lemma {:induction false} LeftTrimSpace(a: string, s: string)
    requires AllSpace(a)
    ensures LeftTrimmed(a + s) == LeftTrimmed(s)
  {
    hide LeftTrimmed;
    var n := LeftAt(s);
    var all := a + s;
    assert all[..|a| + n] == a + s[..n] && all[|a| + n..] == s[n..];
    LeftIs(all, |a| + n);
  }

  /** Space around a text does not matter. */
  lemma {:induction false} TrimIgnoresSpace(a: string, s: string, b: string)
    requires AllSpace(a) && AllSpace(b)
    ensures Trimmed(a + s) == Trimmed(s) && Trimmed(s + b) == Trimmed(s)
  {
    hide LeftTrimmed, RightTrimmed;
    LeftTrimSpace(a, s);
    if AllSpace(s) {
      LeftIs(s, |s|);
      LeftIs(s + b, |s + b|);
    } else {
      LeftTrimAppend(s, b);
      RightTrimSpace(LeftTrimmed(s), b);
    }
  }

  lemma {:induction false} TrimmedIsTrimmed(s: string)
    ensures IsTrimmed(Trimmed(s)) && (IsTrimmed(s) ==> Trimmed(s) == s)
    ensures Trimmed(s) == "" <==> AllSpace(s)
  {
    hide LeftTrimmed, RightTrimmed;
    var n := LeftAt(s);
    var l := s[n..];
    var m := RightAt(l);
    assert n < |s| ==> l[0] == s[n] && l[0..] == l;
    assert n == |s| ==> s[..n] == s;
    if IsTrimmed(s) {
      LeftIs(s, 0);
      RightIs(s, |s|);
    }
  }

  // ---------------------------------------------------------------------
  // Kinds of lines
  // ---------------------------------------------------------------------

  /** What a line means to the three scanners. A header is cut behind its first closing
      bracket; a pair has the text before and behind its first equals sign. */
  datatype Token = Blank | Comment | Header(text: string) | Pair(key: string, value: string) | Other

  /** The first position of c in s, or the length of s. */
  function Find(s: string, c: char): (n: nat)
    ensures n <= |s| && c !in s[..n] && (n < |s| ==> s[n] == c)
  {
    if s == "" then 0 else if s[0] == c then 0 else
      var n := Find(s[1..], c);
      assert s[..n + 1] == [s[0]] + s[1..][..n];
      n + 1
  }

  lemma {:induction false} FindIs(s: string, c: char, n: nat)
    requires n <= |s| && c !in s[..n] && (n < |s| ==> s[n] == c)
    ensures Find(s, c) == n
  {
    if n == 0 {
    } else {
      assert s[..n][0] == s[0] && s[1..][..n - 1] == s[..n][1..];
      FindIs(s[1..], c, n - 1);
    }
  }

  function Parse(line: string): Token {
    var t := Trimmed(line);
    if t == "" then Blank
    else if t[0] == '#' || t[0] == ';' then Comment
    else if t[0] == '[' then
      var b := Find(t, ']');
      Header(if b < |t| then t[..b + 1] else t)
    else
      var e := Find(t, '=');
      if e == |t| then Other else Pair(Trimmed(t[..e]), Trimmed(t[e + 1..]))
  }

  /** The part of a value before a comment. */
  function Uncommented(v: string): string {
    var a, b := Find(v, '#'), Find(v, ';');
    v[..if a < b then a else b]
  }

  /** What get prints for the text behind the equals sign. */
  function Shown(v: string): string {
    Trimmed(Uncommented(v))
  }

  // ---------------------------------------------------------------------
  // The lines set writes
  // ---------------------------------------------------------------------

  const MISC_LENGTH := 128
  const MAX_LINE_LENGTH := 4096

  function SectionHeader(section: string): string {
    "[" + section + "]"
  }

  /** What snprintf leaves of a text in a buffer of a given size. */
  function CutTo(text: string, size: nat): (r: string)
    requires 0 < size
    ensures r <= text && |r| == if |text| < size then |text| else size - 1
  {
    if |text| < size then text else text[..size - 1]
  }

  /** The header the scanners compare with, which has a shorter buffer than the lines. */
  function SearchedHeader(section: string): string {
    CutTo(SectionHeader(section), MISC_LENGTH)
  }

  /** The header a scanner sees on the line that set writes for a new section. */
  function WrittenHeader(section: string): string {
    SectionHeader(section[..Find(section, ']')])
  }

  function PairLine(key: string, value: string, comment: Option<string>): string {
    if comment.Some? && comment.value != "" then key + " = " + value + " # " + comment.value + "\n"
    else key + " = " + value + "\n"
  }

  /** A key the scanners can find again. */
  predicate GoodKey(key: string) {
    && IsTrimmed(key) && '=' !in key
    && (key != "" ==> key[0] != '#' && key[0] != ';' && key[0] != '[')
  }

  /** A key whose pair line is taken for a header. */
  predicate LooksLikeHeader(key: string) {
    Trimmed(key) != "" && Trimmed(key)[0] == '['
  }

  /** A section whose header, as it is searched for, can stand on a line. */
  predicate GoodSection(section: string) {
    if |section| <= MISC_LENGTH - 3 then ']' !in section
    else ']' !in section[..MISC_LENGTH - 3] && !IsSpace(section[MISC_LENGTH - 3])
  }

  /** A section whose header is searched for as it is written: it fits in the buffer and has no
      bracket, or has its first one where the buffer ends. */
  predicate Readable(section: string) {
    (|section| <= MISC_LENGTH - 3 && ']' !in section) || Find(section, ']') == MISC_LENGTH - 3 < |section|
  }

  /** The text behind the equals sign of a pair line, without its newline. */
  function Behind(value: string, comment: Option<string>): string {
    if comment.Some? && comment.value != "" then value + " # " + comment.value else value
  }

  lemma {:induction false} HeaderLineParses(section: string)
    ensures Parse(SectionHeader(section) + "\n") == Header(WrittenHeader(section))
  {
    hide SectionHeader, Trimmed, Find;
    HeaderIsTrimmed(section);
    HeaderEnds(section);
  }

  lemma {:induction false} HeaderIsTrimmed(section: string)
    ensures Trimmed(SectionHeader(section) + "\n") == SectionHeader(section)
  {
    hide Trimmed;
    var h := SectionHeader(section);
    assert AllSpace("\n");
    TrimIgnoresSpace("", h, "\n");
    TrimmedIsTrimmed(h);
  }

  lemma {:induction false} HeaderEnds(section: string)
    ensures var h := SectionHeader(section);
            h != "" && h[0] == '[' && Find(h, ']') == Find(section, ']') + 1 < |h| && h[..Find(h, ']') + 1] ==
                WrittenHeader(section)
  {
    hide Find;
    var h, b := SectionHeader(section), Find(section, ']');
    assert h[..b + 1] == "[" + section[..b] && h[..b + 2] == h[..b + 1] + [h[b + 1]];
    FindIs(h, ']', b + 1);
  }

  /** The header is found again exactly for those sections. */
  lemma {:induction false} WrittenIsSearched(section: string)
    ensures WrittenHeader(section) == SearchedHeader(section) <==> Readable(section)
  {
    hide Find;
    var h, b := SectionHeader(section), Find(section, ']');
    HeaderEnds(section);
    assert section[..|section|] == section;
    assert b < |section| ==> section[b] in section;
    assert h[..|h|] == h;
  }

  /** What a header on a line looks like: at most one closing bracket, its last character. */
  predicate IsHeader(h: string) {
    h != "" && h[0] == '[' && ']' !in h[..|h| - 1] && !IsSpace(h[|h| - 1])
  }

  lemma {:induction false} ParsedHeaderIsHeader(line: string)
    ensures Parse(line).Header? ==> IsHeader(Parse(line).text)
  {
    hide Trimmed, Find;
    var t := Trimmed(line);
    TrimmedIsTrimmed(line);
    if Parse(line).Header? {
      var b := Find(t, ']');
      assert b < |t| ==> t[..b + 1][..b] == t[..b];
      assert b == |t| ==> t[..b] == t && forall i :: 0 <= i < |t| - 1 ==> t[..|t| - 1][i] == t[i];
    }
  }

  lemma {:induction false} HeaderParses(h: string)
    requires IsHeader(h)
    ensures Parse(h + "\n") == Header(h)
  {
    hide Trimmed, Find;
    assert AllSpace("\n");
    TrimIgnoresSpace("", h, "\n");
    TrimmedIsTrimmed(h);
    var last := |h| - 1;
    assert h == h[..last] + [h[last]] && h[..|h|] == h;
    FindIs(h, ']', if h[last] == ']' then last else |h|);
  }

  lemma {:induction false} SearchedIsHeader(section: string)
    ensures IsHeader(SearchedHeader(section)) <==> GoodSection(section)
  {
    var h, s := SectionHeader(section), SearchedHeader(section);
    if |section| <= MISC_LENGTH - 3 {
      assert s == h && h[..|h| - 1] == "[" + section;
    } else {
      var n := MISC_LENGTH - 3;
      assert s == "[" + section[..n + 1] && s[..|s| - 1] == "[" + section[..n] && s[|s| - 1] == section[n];
    }
  }

  lemma {:induction false} BlankLineParses()
    ensures Parse("\n") == Blank
  {
    assert AllSpace("\n");
    TrimmedIsTrimmed("\n");
  }

  /** Trimming a line of the form left = right, for a left side that is trimmed. */
  lemma {:induction false} TrimAround(key: string, right: string)
    requires IsTrimmed(key)
    ensures var left := if key == "" then "" else key + " ";
            Trimmed(key + " =" + right) == left + "=" + RightTrimmed(right)
  {
    hide LeftTrimmed, RightTrimmed;
    var left := if key == "" then "" else key + " ";
    assert !IsSpace("="[0]);
    if key == "" {
      assert AllSpace(" ");
      assert key + " =" + right == " " + ("=" + right);
      LeftTrimSpace(" ", "=" + right);
    } else {
      assert key + " =" + right == left + ("=" + right);
    }
    LeftIs(left + ("=" + right), 0);
    EqualsStays(right);
    RightTrimAppend(left, "=" + right);
  }

  lemma {:induction false} EqualsStays(right: string)
    ensures !AllSpace("=" + right) && RightTrimmed("=" + right) == "=" + RightTrimmed(right)
  {
    hide RightTrimmed;
    assert ("=" + right)[0] == '=';
    if AllSpace(right) {
      RightIs(right, 0);
      assert ("=" + right)[1..] == right;
      RightIs("=" + right, 1);
    } else {
      RightTrimAppend("=", right);
    }
  }

  /** The line set writes is a pair with the key and the text it was given. */
  lemma {:induction false} PairLineParses(key: string, value: string, comment: Option<string>)
    requires GoodKey(key)
    ensures Parse(PairLine(key, value, comment)) == Pair(key, Trimmed(Behind(value, comment)))
  {
    hide LeftTrimmed, RightTrimmed;
    var text := Behind(value, comment);
    var right := " " + text + "\n";
    var left := if key == "" then "" else key + " ";
    assert PairLine(key, value, comment) == key + " =" + right;
    TrimAround(key, right);
    var t := left + "=" + RightTrimmed(right);
    assert t[..|left|] == left && t[|left| + 1..] == RightTrimmed(right);
    FindIs(t, '=', |left|);
    assert AllSpace(" ") && AllSpace("\n");
    TrimIgnoresSpace("", key, " ");
    TrimmedIsTrimmed(key);
    BehindIsTrimmed(text);
    assert key != "" ==> t[0] == key[0];
  }

  lemma {:induction false} BehindIsTrimmed(text: string)
    ensures Trimmed(RightTrimmed(" " + text + "\n")) == Trimmed(text)
  {
    hide LeftTrimmed, RightTrimmed;
    var right := " " + text + "\n";
    var n := RightAt(right);
    assert AllSpace(" ") && AllSpace("\n");
    assert right == right[..n] + right[n..];
    TrimIgnoresSpace("", right[..n], right[n..]);
    TrimIgnoresSpace(" ", text, "\n");
    TrimIgnoresSpace("", " " + text, "\n");
  }

  /** Every key the scanners see is one of the good ones. */
  lemma {:induction false} ParsedKeyIsGood(line: string)
    ensures Parse(line).Pair? ==> GoodKey(Parse(line).key)
  {
    hide LeftTrimmed, RightTrimmed;
    var t := Trimmed(line);
    TrimmedIsTrimmed(line);
    var e := Find(t, '=');
    if Parse(line).Pair? {
      var left := t[..e];
      TrimmedIsTrimmed(left);
      TrimmedIsInside(left);
      if 0 < e {
        FirstStays(left);
      }
    }
  }

  /** Trimming takes nothing but what was there. */
  lemma {:induction false} TrimmedIsInside(s: string)
    ensures forall c :: c in Trimmed(s) ==> c in s
  {
    hide LeftTrimmed, RightTrimmed;
    var n := LeftAt(s);
    var m := RightAt(s[n..]);
    assert forall c :: c in s[n..][..m] ==> c in s[n..];
    assert forall c :: c in s[n..] ==> c in s;
  }

  lemma {:induction false} FirstStays(s: string)
    requires s != "" && !IsSpace(s[0])
    ensures Trimmed(s) != "" && Trimmed(s)[0] == s[0]
  {
    hide LeftTrimmed, RightTrimmed;
    LeftIs(s, 0);
    assert s[0..] == s;
    var m := RightAt(s);
  }

  /** A line that set writes is a header exactly if its key looks like one. */
  lemma {:induction false} HeaderKeys(key: string, value: string, comment: Option<string>)
    ensures Parse(PairLine(key, value, comment)).Header? <==> LooksLikeHeader(key)
  {
    hide Parse, PairLine, Trimmed, LeftTrimmed, AllSpace;
    var line, rest := PairLine(key, value, comment), "= " + Behind(value, comment) + "\n";
    HeaderByFirst(line);
    PairLineIs(key, value, comment);
    if AllSpace(key) {
      OneMoreSpace(key);
      TrimmedIsTrimmed(key);
      FirstBehindSpace(key + " ", rest);
    } else {
      var n := LeftAt(key);
      WhereTextStarts(key, n, " " + rest);
      FirstBehindSpace(key[..n], key[n..]);
      FirstBehindSpace(key[..n], key[n..] + (" " + rest));
    }
  }

  lemma {:induction false} HeaderByFirst(line: string)
    ensures Parse(line).Header? <==> Trimmed(line) != "" && Trimmed(line)[0] == '['
  {
    hide Trimmed, Find;
  }

  lemma {:induction false} PairLineIs(key: string, value: string, comment: Option<string>)
    ensures var rest := "= " + Behind(value, comment) + "\n";
            PairLine(key, value, comment) == (key + " ") + rest == key + (" " + rest)
  {
  }

  lemma {:induction false} OneMoreSpace(s: string)
    requires AllSpace(s)
    ensures AllSpace(s + " ")
  {
  }

  lemma {:induction false} WhereTextStarts(key: string, n: nat, more: string)
    requires n <= |key| && AllSpace(key[..n]) && !AllSpace(key)
    ensures n < |key| && key[..n] + key[n..] == key && key[..n] + (key[n..] + more) == key + more
  {
    assert key[..|key|] == key;
  }

  lemma {:induction false} FirstBehindSpace(a: string, text: string)
    requires AllSpace(a) && text != "" && !IsSpace(text[0])
    ensures Trimmed(a + text) != "" && Trimmed(a + text)[0] == text[0]
  {
    hide Trimmed;
    assert AllSpace("");
    TrimIgnoresSpace(a, text, "");
    FirstStays(text);
  }

  // ---------------------------------------------------------------------
  // What get shows of a value that set wrote
  // ---------------------------------------------------------------------

  predicate StartsComment(c: char) {
    c == '#' || c == ';'
  }

  predicate NoComment(s: string) {
    forall i :: 0 <= i < |s| ==> !StartsComment(s[i])
  }

  lemma {:induction false} CommentAt(v: string) returns (n: nat)
    ensures n <= |v| && NoComment(v[..n]) && (n < |v| ==> StartsComment(v[n])) && Uncommented(v) == v[..n]
  {
    var a, b := Find(v, '#'), Find(v, ';');
    n := if a < b then a else b;
    forall i | 0 <= i < n ensures !StartsComment(v[..n][i]) {
      assert v[..a][i] == v[i] == v[..b][i];
    }
  }

  lemma {:induction false} UncommentedIs(v: string, n: nat)
    requires n <= |v| && NoComment(v[..n]) && (n < |v| ==> StartsComment(v[n]))
    ensures Uncommented(v) == v[..n]
  {
    if n == 0 {
    } else {
      assert v[..n][0] == v[0] && v[1..][..n - 1] == v[..n][1..];
      UncommentedIs(v[1..], n - 1);
      assert v == [v[0]] + v[1..];
    }
  }

  lemma {:induction false} SpaceIsNoComment(a: string)
    requires AllSpace(a)
    ensures NoComment(a)
  {
  }

  lemma {:induction false} NoCommentAppend(a: string, b: string)
    requires NoComment(a) && NoComment(b)
    ensures NoComment(a + b)
  {
  }

  /** Cutting a comment off and trimming can be done in either order. */
  lemma {:induction false} ShownOfTrimmed(v: string)
    ensures Shown(Trimmed(v)) == Shown(v)
  {
    hide LeftTrimmed, RightTrimmed, Uncommented;
    var k := LeftAt(v);
    var l := v[k..];
    var m := RightAt(l);
    var t := l[..m];
    SpaceIsNoComment(v[..k]);
    SpaceIsNoComment(l[m..]);
    var n := CommentAt(t);
    assert v[..k + n] == v[..k] + t[..n];
    NoCommentAppend(v[..k], t[..n]);
    TrimIgnoresSpace(v[..k], t[..n], "");
    if n < |t| {
      assert v[k + n] == t[n];
      UncommentedIs(v, k + n);
    } else {
      assert v == (v[..k] + t[..n]) + l[m..];
      NoCommentAppend(v[..k] + t[..n], l[m..]);
      assert v[..|v|] == v;
      UncommentedIs(v, |v|);
      TrimIgnoresSpace("", v[..k] + t[..n], l[m..]);
    }
  }

  /** Whatever the value and the comment, get shows the value up to its first comment
      sign; a trimmed value without one is shown as it is. */
  lemma {:induction false} ShownIsTheValue(value: string, comment: Option<string>)
    ensures Shown(Trimmed(Behind(value, comment))) == Shown(value)
    ensures IsTrimmed(value) && NoComment(value) ==> Shown(value) == value
  {
    hide LeftTrimmed, RightTrimmed, Uncommented;
    var text := Behind(value, comment);
    ShownOfTrimmed(text);
    var n := CommentAt(value);
    if text != value {
      if n < |value| {
        assert text[..n] == value[..n] && text[n] == value[n];
        UncommentedIs(text, n);
      } else {
        assert value[..n] == value && text[..n + 1] == value + " " && text[n + 1] == '#';
        NoCommentAppend(value, " ");
        UncommentedIs(text, n + 1);
        assert AllSpace(" ");
        TrimIgnoresSpace("", value, " ");
      }
    }
    if IsTrimmed(value) && NoComment(value) {
      assert value[..|value|] == value;
      UncommentedIs(value, |value|);
      TrimmedIsTrimmed(value);
    }
  }

  // ---------------------------------------------------------------------
  // In plain characters
  // ---------------------------------------------------------------------

  /** White space is a blank, a tab, a newline, a vertical tab, a form feed or a return. */
  lemma {:induction false} SpaceIs(c: char)
    ensures IsSpace(c) <==> c in [' ', '\t', '\n', '\U{0B}', '\U{0C}', '\r']
  {
  }

  /** What get shows has neither sign of a comment, and a trimmed text without them is shown as
      it is. */
  lemma {:induction false} ShownIsPlain(v: string)
    ensures '#' !in Shown(v) && ';' !in Shown(v) && IsTrimmed(Shown(v))
    ensures '#' !in v && ';' !in v && IsTrimmed(v) ==> Shown(v) == v
  {
    hide Trimmed, Find;
    var u := Uncommented(v);
    TrimmedIsInside(u);
    TrimmedIsTrimmed(u);
    var a, b := Find(v, '#'), Find(v, ';');
    assert forall c :: c in u ==> c in v[..a] && c in v[..b];
    assert v[..|v|] == v;
    assert '#' !in v && ';' !in v ==> u == v;
  }

  /** The text of a pair line: the key, an equals sign between blanks, and the value; then a
      comment, if there is one, behind its sign; and a newline. */
  lemma {:induction false} PairLineText(key: string, value: string, comment: Option<string>)
    ensures var line, n := PairLine(key, value, comment), |key| + 3 + |value|;
            && n < |line| && line[..|key|] == key && line[|key|..|key| + 3] == " = " && line[|key| + 3..n] == value
            && line[|line| - 1] == '\n'
            && (if comment == None || comment == Some("") then |line| == n + 1
                else
                  && |line| == n + 4 + |comment.value|
                  && line[n..n + 3] == " # " && line[n + 3..|line| - 1] == comment.value)
  {
  }

  /** The text of a header line. */
  lemma {:induction false} HeaderLineText(section: string)
    ensures var line := SectionHeader(section) + "\n";
            && |line| == |section| + 3 && line[0] == '['
            && line[1..|section| + 1] == section && line[|section| + 1..] == "]\n"
  {
  }

  /** Sections of up to 125 characters without a bracket are searched for as they are. */
  lemma {:induction false} ShortSections(section: string)
    requires |section| <= 125 && ']' !in section
    ensures Readable(section) && SearchedHeader(section) == "[" + section + "]"
  {
  }

  /** Of a longer one the first 127 characters of the header are searched for. */
  lemma {:induction false} LongSections(section: string)
    requires |section| >= 126
    ensures |SearchedHeader(section)| == 127 && SearchedHeader(section) == "[" + section[..126]
  {
    assert ("[" + section + "]")[..127] == "[" + section[..126];
  }
}
