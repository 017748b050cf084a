/** How get, set and del fit together. */
module IniLaws {
  import opened Common
  import opened IniLines
  import opened IniFile

  // ---------------------------------------------------------------------
  // Tokens of changed files
  // ---------------------------------------------------------------------

  lemma {:induction false} TokensOfUpdate(lines: seq<string>, k: nat, text: string)
    requires k < |lines|
    ensures Tokens(lines[k := text]) == Tokens(lines)[..k] + [Parse(text)] + Tokens(lines)[k + 1..]
    ensures Tokens(lines) == Tokens(lines)[..k] + [Tokens(lines)[k]] + Tokens(lines)[k + 1..]
  {
    hide Parse;
  }

  lemma {:induction false} TokensOfInsert(lines: seq<string>, p: nat, text: string)
    requires p <= |lines|
    ensures Tokens(Inserted(lines, p, text)) == Inserted(Tokens(lines), p, Parse(text))
    ensures Tokens(lines) == Tokens(lines)[..p] + Tokens(lines)[p..]
  {
    hide Parse;
  }

  lemma {:induction false} TokensOfDrop(lines: seq<string>, i: nat, j: nat)
    requires i <= j <= |lines|
    ensures Tokens(Dropped(lines, i, j)) == Dropped(Tokens(lines), i, j)
  {
    hide Parse;
  }

  lemma {:induction false} TokensOfAppend(lines: seq<string>, more: seq<string>)
    ensures Tokens(lines + more) == Tokens(lines) + Tokens(more)
  {
    hide Parse;
  }

  /** What a first section and key add to a file. */
  function NewSection(lines: seq<string>, h: string, x: Token): seq<Token> {
    (if lines == [] then [] else [Blank]) + [Header(h), x]
  }

  lemma {:induction false} TokensOfNewSection(lines: seq<string>, section: string, text: string)
    ensures Tokens(Appended(lines, SectionHeader(section) + "\n", text)) ==
            Tokens(lines) + NewSection(lines, WrittenHeader(section), Parse(text))
  {
    hide Parse, SectionHeader, WrittenHeader;
    HeaderLineParses(section);
    BlankLineParses();
    var sep, two := if lines == [] then [] else ["\n"], [SectionHeader(section) + "\n", text];
    TokensOfAppend(lines, sep + two);
    assert lines + sep + two == lines + (sep + two);
    assert Tokens(sep + two) == NewSection(lines, WrittenHeader(section), Parse(text));
  }

  // ---------------------------------------------------------------------
  // What set does to the tokens
  // ---------------------------------------------------------------------

  /** The lines set writes fit in their buffers. */
  predicate LinesFit(section: string, key: string, value: string, comment: Option<string>) {
    |section| + 3 < MAX_LINE_LENGTH && |PairLine(key, value, comment)| < MAX_LINE_LENGTH
  }

  /** Where the pair goes if there is a section with the header. */
  function PutAt(ts: seq<Token>, h: string, key: string): (p: nat)
    requires 0 <= LastHeaderAt(ts, h, |ts|)
    ensures p <= |ts|
  {
    var s, k := LastHeaderAt(ts, h, |ts|), FirstHit(ts, h, key, |ts|);
    var e := EndAt(ts, s + 1);
    if 0 <= k then k else InsertAt(ts, s + 1, e, e)
  }

  /** What follows it. */
  function Following(ts: seq<Token>, h: string, key: string): seq<Token>
    requires 0 <= LastHeaderAt(ts, h, |ts|)
  {
    var p := PutAt(ts, h, key);
    if 0 <= FirstHit(ts, h, key, |ts|) then ts[p + 1..] else ts[p..]
  }

  /** The first p tokens, then x, then the rest. */
  function WithLine(ts: seq<Token>, p: nat, x: Token, post: seq<Token>): seq<Token>
    requires p <= |ts|
  {
    ts[..p] + [x] + post
  }

  /** The two ways a set can change the tokens. */
  lemma {:induction false} SetTokens(lines: seq<string>, section: string, key: string, value: string,
                                     comment: Option<string>)
    requires LinesFit(section, key, value, comment)
    ensures var ts, h, x := Tokens(lines), SearchedHeader(section), Parse(PairLine(key, value, comment));
            var r := Set(lines, section, key, value, comment);
            r.Done? ==>
              Tokens(r.lines) ==
              if LastHeaderAt(ts, h, |ts|) < 0 then ts + NewSection(lines, WrittenHeader(section), x)
              else WithLine(ts, PutAt(ts, h, key), x, Following(ts, h, key))
  {
    hide Parse, PairLine, SearchedHeader, WrittenHeader, Tokens, LastHeaderAt, FirstHit, EndAt, InsertAt, NoHeaderIn,
         NoHitIn, NotIn,
         Hit, Appended, NewSection;
    var ts, h, text := Tokens(lines), SearchedHeader(section), PairLine(key, value, comment);
    assert NewPair(key, value, comment) == text && NewHeader(section) == SectionHeader(section) + "\n";
    if LastHeaderAt(ts, h, |ts|) < 0 {
      TokensOfNewSection(lines, section, text);
    } else if 0 <= FirstHit(ts, h, key, |ts|) {
      TokensOfUpdate(lines, PutAt(ts, h, key), text);
    } else {
      TokensOfInsert(lines, PutAt(ts, h, key), text);
    }
  }

  /** The place is in a section with the header, and the key is in none before it. What is
      replaced there is a line with the key. */
  lemma {:induction false} PlaceOfPair(ts: seq<Token>, h: string, key: string)
    requires 0 <= LastHeaderAt(ts, h, |ts|)
    ensures var p := PutAt(ts, h, key);
            && 0 <= HeaderAt(ts, h, 0) < p
            && InForce(ts, p) == Some(h) && NoHitIn(ts, h, key, 0, p)
            && (0 <= FirstHit(ts, h, key, |ts|) ==> p < |ts| && IsKey(ts[p], key))
  {
    hide HeaderAt, LastHeaderAt, FirstHit, EndAt, InsertAt;
    var s, k := LastHeaderAt(ts, h, |ts|), FirstHit(ts, h, key, |ts|);
    NotBefore(ts, h);
    if 0 <= k {
      WhereInForce(ts, h, k);
    } else {
      InForceIn(ts, h, s, PutAt(ts, h, key));
    }
  }

  // ---------------------------------------------------------------------
  // What set does to the lines, and when it fails
  // ---------------------------------------------------------------------

  /** Some line has the key in a section with the header. */
  ghost predicate HasHit(ts: seq<Token>, h: string, key: string) {
    exists i :: 0 <= i < |ts| && Hit(ts, h, key, i)
  }

  /** set fails exactly for want of room: for one line in a section that is there, and for four
      lines otherwise. A key that is there needs none. */
  lemma {:induction false} WhenSetFails(lines: seq<string>, section: string, key: string, value: string,
                                        comment: Option<string>)
    ensures var ts, h := Tokens(lines), SearchedHeader(section);
            Set(lines, section, key, value, comment).Failed? <==>
              && !HasHit(ts, h, key)
              && if Header(h) in ts then |lines| >= 8192 else |lines| + 3 >= 8192
  {
    hide Tokens, SearchedHeader, FirstHit, LastHeaderAt, HeaderAt, EndAt, InsertAt, NewPair, NewHeader, Hit, Appended;
    var ts, h := Tokens(lines), SearchedHeader(section);
    NotBefore(ts, h);
    HitNeedsHeader(ts, h, key);
  }

  lemma {:induction false} HitNeedsHeader(ts: seq<Token>, h: string, key: string)
    ensures 0 <= FirstHit(ts, h, key, |ts|) <==> HasHit(ts, h, key)
    ensures HasHit(ts, h, key) ==> 0 <= LastHeaderAt(ts, h, |ts|)
  {
    hide FirstHit, LastHeaderAt, InForce;
    var k := FirstHit(ts, h, key, |ts|);
    if 0 <= k {
      WhereInForce(ts, h, k);
    }
  }

  /** A line that set writes: as much of the pair line as 4095 characters hold. */
  predicate IsNewPair(line: string, key: string, value: string, comment: Option<string>) {
    var text := PairLine(key, value, comment);
    line <= text && |line| == if |text| <= 4095 then |text| else 4095
  }

  /** A key that is there: its first line is written anew and every other line stays. */
  lemma {:induction false} SetReplacesOneLine(lines: seq<string>, section: string, key: string, value: string,
                                              comment: Option<string>)
    returns (k: nat)
    requires HasHit(Tokens(lines), SearchedHeader(section), key)
    ensures var ts, h := Tokens(lines), SearchedHeader(section);
            k < |lines| && Hit(ts, h, key, k) && NoHitIn(ts, h, key, 0, k)
    ensures var r := Set(lines, section, key, value, comment);
            && r.Done? && |r.lines| == |lines|
            && r.lines == lines[k := r.lines[k]] && IsNewPair(r.lines[k], key, value, comment)
  {
    hide Tokens, SearchedHeader, FirstHit, LastHeaderAt, EndAt, InsertAt, Hit, PairLine, HasHit, NewPair, IsNewPair,
         NoHitIn;
    var ts, h := Tokens(lines), SearchedHeader(section);
    HitNeedsHeader(ts, h, key);
    k := FirstHit(ts, h, key, |ts|);
    NewPairIs(key, value, comment);
  }

  /** Where a new line goes in the section from i to e: behind its last line that is not blank,
      or behind all of them if there is none. */
  ghost predicate IsPlace(ts: seq<Token>, i: nat, e: nat, p: nat)
    requires i <= e <= |ts|
  {
    if forall j :: i <= j < e ==> ts[j] == Blank then p == e
    else i < p <= e && ts[p - 1] != Blank && forall j :: p <= j < e ==> ts[j] == Blank
  }

  lemma {:induction false} InsertAtIsPlace(ts: seq<Token>, i: nat, j: nat, e: nat)
    requires i <= j <= e <= |ts| && forall k :: j <= k < e ==> ts[k] == Blank
    ensures IsPlace(ts, i, e, InsertAt(ts, i, j, e))
  {
    if i == j {
    } else if ts[j - 1] == Blank {
      InsertAtIsPlace(ts, i, j - 1, e);
    } else {
    }
  }

  /** A key that is not there, in a section that is: one line is added to the last such section,
      behind its last line that is not blank, and every other line stays. */
  lemma {:induction false} SetInsertsOneLine(lines: seq<string>, section: string, key: string, value: string,
                                             comment: Option<string>)
    returns (s: nat, p: nat)
    requires !HasHit(Tokens(lines), SearchedHeader(section), key) && Header(SearchedHeader(section)) in Tokens(lines)
    requires |lines| < 8192
    ensures var ts, h := Tokens(lines), SearchedHeader(section);
            && s < |ts| && ts[s] == Header(h) && NotIn(ts, h, s + 1, |ts|)
            && s < p <= |lines| && IsPlace(ts, s + 1, EndAt(ts, s + 1), p)
    ensures var r := Set(lines, section, key, value, comment);
            && r.Done? && |r.lines| == |lines| + 1 && IsNewPair(r.lines[p], key, value, comment)
            && r.lines[..p] == lines[..p] && r.lines[p + 1..] == lines[p..]
  {
    hide Tokens, SearchedHeader, FirstHit, LastHeaderAt, HeaderAt, EndAt, InsertAt, Hit, PairLine, IsPlace, NotIn,
         Inserted, NoHitIn, NoHeaderIn, HasHit, NewPair, NewHeader, Appended, IsNewPair;
    var ts, h := Tokens(lines), SearchedHeader(section);
    NotBefore(ts, h);
    HitNeedsHeader(ts, h, key);
    s := LastHeaderAt(ts, h, |ts|);
    var e := EndAt(ts, s + 1);
    p := InsertAt(ts, s + 1, e, e);
    InsertAtIsPlace(ts, s + 1, e, e);
    InsertedLines(lines, p, NewPair(key, value, comment));
    NewPairIs(key, value, comment);
  }

  lemma {:induction false} NewPairIs(key: string, value: string, comment: Option<string>)
    ensures IsNewPair(NewPair(key, value, comment), key, value, comment)
  {
    hide PairLine;
  }

  lemma {:induction false} InsertedLines(lines: seq<string>, p: nat, text: string)
    requires p <= |lines|
    ensures var r := Inserted(lines, p, text);
            |r| == |lines| + 1 && r[..p] == lines[..p] && r[p] == text && r[p + 1..] == lines[p..]
  {
  }

  /** A section that is not there: the file stays, and behind it come an empty line, unless the
      file is empty, the header and the pair. */
  lemma {:induction false} SetAppendsASection(lines: seq<string>, section: string, key: string, value: string,
                                              comment: Option<string>)
    requires Header(SearchedHeader(section)) !in Tokens(lines) && |lines| + 3 < 8192
    ensures var r, gap := Set(lines, section, key, value, comment), if lines == [] then 0 else 1;
            && r.Done? && |r.lines| == |lines| + gap + 2
            && r.lines[..|lines|] == lines && (gap == 1 ==> r.lines[|lines|] == "\n")
            && IsNewPair(r.lines[|lines| + gap + 1], key, value, comment)
            && (|section| <= 4092 ==> r.lines[|lines| + gap] == "[" + section + "]\n")
  {
    hide Tokens, SearchedHeader, FirstHit, LastHeaderAt, HeaderAt, EndAt, InsertAt, Hit, PairLine;
    var ts, h := Tokens(lines), SearchedHeader(section);
    NotBefore(ts, h);
    assert IsNewPair(NewPair(key, value, comment), key, value, comment);
    assert |section| <= 4092 ==> NewHeader(section) == "[" + section + "]\n";
  }

  /** del of a key takes out one line, the last with the key; del of a section takes out the
      last section with the header, up to the next header. Every other line stays. */
  lemma {:induction false} DelTakesOut(lines: seq<string>, section: string, key: Option<string>)
    ensures var ts, h, r := Tokens(lines), SearchedHeader(section), Del(lines, section, key);
            && (r.Failed? <==> Header(h) !in ts || (key.Some? && !HasHit(ts, h, key.value)))
            && (r.Done? ==>
                  exists i, j :: 0 <= i < j <= |lines| && r.lines == lines[..i] + lines[j..]
                                 && IsTakenOut(ts, h, key, i, j))
  {
    hide Tokens, SearchedHeader, LastHit, LastHeaderAt, HeaderAt, EndAt, Hit, NotIn, InForce;
    var ts, h := Tokens(lines), SearchedHeader(section);
    var s := LastHeaderAt(ts, h, |ts|);
    NotBefore(ts, h);
    if 0 <= s {
      if key.None? {
        assert IsTakenOut(ts, h, key, s, EndAt(ts, s + 1));
      } else {
        var k := LastHit(ts, h, key.value, |ts|);
        assert k < 0 <==> !HasHit(ts, h, key.value);
        assert 0 <= k ==> IsTakenOut(ts, h, key, k, k + 1);
      }
    }
  }

  ghost predicate IsTakenOut(ts: seq<Token>, h: string, key: Option<string>, i: nat, j: nat)
    requires i < j <= |ts|
  {
    match key
    case None =>
      && ts[i] == Header(h) && NotIn(ts, h, i + 1, |ts|)
      && NoHeaderIn(ts, i + 1, j) && (j < |ts| ==> ts[j].Header?)
    case Some(name) => j == i + 1 && Hit(ts, h, name, i) && NoHitIn(ts, h, name, j, |ts|)
  }

  // ---------------------------------------------------------------------
  // get after set
  // ---------------------------------------------------------------------

  /** Between a header and the place where get gives up there is no key if there is no hit. */
  lemma {:induction false} NoKeyWithoutHit(ts: seq<Token>, h: string, key: string, f: nat, n: nat)
    requires f < n <= |ts| && ts[f] == Header(h) && SameSection(ts, h, f + 1, n) && NoHitIn(ts, h, key, f + 1, n)
    ensures NoKeyIn(ts, key, f + 1, n)
  {
    hide InForce;
    forall i | f < i < n ensures !IsKey(ts[i], key) {
      InForceIn(ts, h, f, i);
      assert !Hit(ts, h, key, i);
    }
  }

  /** A pair at a place before which the key does not occur is found exactly if get does not
      give up before that place. */
  lemma {:induction false} PutIsFound(ts: seq<Token>, h: string, x: Token, p: nat, post: seq<Token>)
    requires 0 <= HeaderAt(ts, h, 0) < p <= |ts| && x.Pair? && NoHitIn(ts, h, x.key, 0, p)
    ensures Get(WithLine(ts, p, x, post), h, x.key, false) ==
            if p <= StopAt(ts, h, HeaderAt(ts, h, 0) + 1) then Some(Shown(x.value)) else None
  {
    hide Get, HeaderAt, StopAt, Hit;
    var f, now := HeaderAt(ts, h, 0), WithLine(ts, p, x, post);
    var stop := StopAt(ts, h, f + 1);
    var n := if p <= stop then p else stop;
    NotBefore(ts, h);
    NoKeyWithoutHit(ts, h, x.key, f, n);
    assert forall i :: 0 <= i < p ==> now[i] == ts[i];
    assert now[..f] == ts[..f];
    ScanReaches(now, h, x.key, f, n);
    OnKey(now[n..], h, x.key);
  }

  lemma {:induction false} NewSectionIsFound(lines: seq<string>, ts: seq<Token>, h: string, x: Token)
    requires Header(h) !in ts && x.Pair?
    ensures Get(ts + NewSection(lines, h, x), h, x.key, false) == Some(Shown(x.value))
  {
    hide Get;
    var sep: seq<Token> := if lines == [] then [] else [Blank];
    var n, now := |ts| + |sep|, ts + NewSection(lines, h, x);
    assert now[n] == Header(h) && now[n + 1] == x && now[..n] == ts + sep;
    ScanReaches(now, h, x.key, n, n + 1);
    OnKey(now[n + 1..], h, x.key);
  }

  lemma {:induction false} NewSectionIsMissed(lines: seq<string>, ts: seq<Token>, h: string, x: Token, h': string,
                                              key: string)
    requires Header(h') !in ts && h' != h && !x.Header?
    ensures Get(ts + NewSection(lines, h, x), h', key, false) == None
  {
    hide Get;
    var now := ts + NewSection(lines, h, x);
    SkipBefore(now, [], h', key);
    assert now + [] == now;
    NothingInEmpty(h', key);
  }

  /** Whether get will come to the line that set writes: with a section that has the header,
      if no other header stands between the first of them and the line; without one, if the
      header that is written is the one that is searched for. */
  predicate Reached(lines: seq<string>, section: string, key: string) {
    var ts, h := Tokens(lines), SearchedHeader(section);
    if LastHeaderAt(ts, h, |ts|) < 0 then Readable(section)
    else PutAt(ts, h, key) <= StopAt(ts, h, HeaderAt(ts, h, 0) + 1)
  }

  /** get after set shows the value that was set, up to its first comment sign, exactly if
      the key is one that a line can have and get comes to the line. Otherwise it shows
      nothing. A trimmed value without comment signs is shown as it is, whatever the
      comment. */
  lemma {:induction false} GetAfterSet(lines: seq<string>, section: string, key: string, value: string,
                                       comment: Option<string>)
    requires LinesFit(section, key, value, comment)
    ensures var r := Set(lines, section, key, value, comment);
            r.Done? ==>
              Lookup(r.lines, section, key) ==
              if GoodKey(key) && Reached(lines, section, key) then Some(Shown(value)) else None
    ensures Set(lines, section, key, value, comment).Failed? <==>
              && !HasHit(Tokens(lines), SearchedHeader(section), key)
              && if Header(SearchedHeader(section)) in Tokens(lines) then |lines| >= 8192 else |lines| + 3 >= 8192
    ensures IsTrimmed(value) && NoComment(value) ==> Shown(value) == value
  {
    hide Set, Tokens, Get, Shown, Parse, PairLine, GoodKey, SearchedHeader, WrittenHeader, Readable, NewSection,
         IsTrimmed, NoComment,
         PutAt, Following, WithLine, LastHeaderAt, HeaderAt, StopAt, LinesFit, NoHitIn, NotIn, InForce, FirstHit,
         SameSection, HasHit;
    WhenSetFails(lines, section, key, value, comment);
    var ts, h := Tokens(lines), SearchedHeader(section);
    var r := Set(lines, section, key, value, comment);
    ShownIsTheValue(value, comment);
    if r.Done? {
      if !GoodKey(key) {
        BadNamesAreNeverFound(r.lines, section, key);
      } else {
        var x := Parse(PairLine(key, value, comment));
        PairLineParses(key, value, comment);
        SetTokens(lines, section, key, value, comment);
        if LastHeaderAt(ts, h, |ts|) < 0 {
          FoundInNewSection(lines, section, x);
        } else {
          PlaceOfPair(ts, h, key);
          PutIsFound(ts, h, x, PutAt(ts, h, key), Following(ts, h, key));
        }
      }
    }
  }

  lemma {:induction false} FoundInNewSection(lines: seq<string>, section: string, x: Token)
    requires LastHeaderAt(Tokens(lines), SearchedHeader(section), |lines|) < 0 && x.Pair?
    ensures Get(Tokens(lines) + NewSection(lines, WrittenHeader(section), x), SearchedHeader(section), x.key, false) ==
            if Readable(section) then Some(Shown(x.value)) else None
  {
    hide Tokens, Get, SearchedHeader, WrittenHeader, Readable, LastHeaderAt, HeaderAt, NewSection;
    var ts, h := Tokens(lines), SearchedHeader(section);
    NotBefore(ts, h);
    WrittenIsSearched(section);
    if Readable(section) {
      NewSectionIsFound(lines, ts, h, x);
    } else {
      NewSectionIsMissed(lines, ts, WrittenHeader(section), x, h, x.key);
    }
  }

  predicate GoodNames(section: string, key: string) {
    GoodSection(section) && GoodKey(key)
  }

  /** Under other names nothing is ever found, whatever the file. */
  lemma {:induction false} BadNamesAreNeverFound(lines: seq<string>, section: string, key: string)
    requires !GoodNames(section, key)
    ensures Lookup(lines, section, key) == None
  {
    hide Parse, Get, GoodKey, GoodSection, SearchedHeader;
    var ts, h := Tokens(lines), SearchedHeader(section);
    if !GoodKey(key) {
      forall i | 0 <= i < |ts| ensures !IsKey(ts[i], key) {
        ParsedKeyIsGood(lines[i]);
      }
      NoSuchKey(ts, h, key, false);
    } else {
      SearchedIsHeader(section);
      forall i | 0 <= i < |ts| ensures ts[i] != Header(h) {
        ParsedHeaderIsHeader(lines[i]);
      }
      SkipBefore(ts, [], h, key);
      assert ts + [] == ts;
      NothingInEmpty(h, key);
    }
  }

  /** Under every good name something can be found. */
  lemma {:induction false} GoodNamesCanBeFound(section: string, key: string, value: string)
    requires GoodNames(section, key)
    ensures Lookup([SearchedHeader(section) + "\n", PairLine(key, value, None)], section, key) == Some(Shown(value))
  {
    hide Parse, Get, GoodKey, GoodSection, SearchedHeader, Shown, PairLine;
    var h := SearchedHeader(section);
    var lines := [h + "\n", PairLine(key, value, None)];
    var ts := Tokens(lines);
    SearchedIsHeader(section);
    HeaderParses(h);
    PairLineParses(key, value, None);
    ShownIsTheValue(value, None);
    assert ts[0] == Header(h) && ts[..0] == [] && IsKey(ts[1], key);
    ScanReaches(ts, h, key, 0, 1);
    OnKey(ts[1..], h, key);
  }

  lemma {:induction false} NoSuchKey(ts: seq<Token>, h: string, key: string, inside: bool)
    requires forall i :: 0 <= i < |ts| ==> !IsKey(ts[i], key)
    ensures Get(ts, h, key, inside) == None
  {
    if ts == [] {
    } else {
      NoSuchKey(ts[1..], h, key, true);
      NoSuchKey(ts[1..], h, key, false);
    }
  }

  /** With unique headers get comes to every line in a section that is there. */
  lemma {:induction false} UniqueIsReached(lines: seq<string>, section: string, key: string)
    requires Unique(Tokens(lines))
    ensures Reached(lines, section, key) <==>
            Readable(section) || 0 <= HeaderAt(Tokens(lines), SearchedHeader(section), 0)
  {
    hide Tokens, SearchedHeader, Readable, HeaderAt, LastHeaderAt, EndAt, StopAt, InsertAt, FirstHit;
    var ts, h := Tokens(lines), SearchedHeader(section);
    NotBefore(ts, h);
    if 0 <= LastHeaderAt(ts, h, |ts|) {
      PlaceOfPair(ts, h, key);
      UniqueStops(ts, h, PutAt(ts, h, key));
    }
  }

  lemma {:induction false} UniqueStops(ts: seq<Token>, h: string, p: nat)
    requires Unique(ts) && 0 <= HeaderAt(ts, h, 0) < p <= |ts| && InForce(ts, p) == Some(h)
    ensures p <= StopAt(ts, h, HeaderAt(ts, h, 0) + 1)
  {
    hide HeaderAt, LastHeaderAt, EndAt, StopAt;
    WhereInForce(ts, h, p);
  }

  // ---------------------------------------------------------------------
  // Every other lookup
  // ---------------------------------------------------------------------

  /** A line in a section with header h that is no header does not matter to other lookups. */
  lemma {:induction false} OtherLookup(ts: seq<Token>, h: string, p: nat, x: Token, post: seq<Token>, h': string,
                                       key': string)
    requires p <= |ts| && InForce(ts, p) == Some(h) && !x.Header?
    requires h' != h || !IsKey(x, key')
    ensures Get(WithLine(ts, p, x, post), h', key', false) == Get(ts[..p] + post, h', key', false)
  {
    hide Get;
    InForcePrefix(ts, ts[..p], p);
    PairElsewhere(ts[..p], x, post, h', key', false);
  }

  /** What a scan would find nothing in can be added to the end. */
  lemma {:induction false} NothingInMore(ts: seq<Token>, more: seq<Token>, h: string, key: string, inside: bool)
    requires Get(more, h, key, false) == None && Get(more, h, key, true) == None
    ensures Get(ts + more, h, key, inside) == Get(ts, h, key, inside)
  {
    if ts == [] {
      assert ts + more == more;
    } else {
      assert (ts + more)[1..] == ts[1..] + more;
      NothingInMore(ts[1..], more, h, key, false);
      NothingInMore(ts[1..], more, h, key, true);
    }
  }

  lemma {:induction false} NewSectionElsewhere(lines: seq<string>, ts: seq<Token>, h: string, x: Token, h': string,
                                               key': string)
    requires !x.Header? && (h' != h || !IsKey(x, key'))
    ensures Get(ts + NewSection(lines, h, x), h', key', false) == Get(ts, h', key', false)
  {
    var more := NewSection(lines, h, x);
    assert if lines == [] then more == [Header(h), x] else more[0] == Blank && more[1..] == [Header(h), x];
    assert [Header(h), x][1..] == [x] && [x][1..] == [];
    assert Get([x], h', key', false) == None;
    assert h' == h ==> Get([x], h', key', true) == None;
    assert Get([Header(h), x], h', key', false) == None && Get([Header(h), x], h', key', true) == None;
    NothingInMore(ts, more, h', key', false);
  }

  /** The header of the section that the line of a set ends up in. */
  function Landing(lines: seq<string>, section: string): string {
    var h := SearchedHeader(section);
    if LastHeaderAt(Tokens(lines), h, |lines|) < 0 then WrittenHeader(section) else h
  }

  /** set changes no lookup but those of its key, or of the key the scanners see on its
      line, in the section the line ends up in. */
  lemma {:induction false} SetKeepsOthers(lines: seq<string>, section: string, key: string, value: string,
                                          comment: Option<string>,
                                          section': string, key': string)
    requires LinesFit(section, key, value, comment) && !LooksLikeHeader(key)
    requires SearchedHeader(section') != Landing(lines, section)
             || (key' != key && !IsKey(Parse(PairLine(key, value, comment)), key'))
    ensures var r := Set(lines, section, key, value, comment);
            r.Done? ==> Lookup(r.lines, section', key') == Lookup(lines, section', key')
  {
    hide Set, Tokens, Get, Parse, PairLine, SearchedHeader, WrittenHeader, NewSection, LooksLikeHeader, LinesFit,
         LastHeaderAt, HeaderAt, NoHitIn, NotIn, InForce, FirstHit, EndAt, InsertAt, NoHeaderIn;
    if Set(lines, section, key, value, comment).Done? {
      var ts, h, h' := Tokens(lines), SearchedHeader(section), SearchedHeader(section');
      var x := Parse(PairLine(key, value, comment));
      HeaderKeys(key, value, comment);
      SetTokens(lines, section, key, value, comment);
      if LastHeaderAt(ts, h, |ts|) < 0 {
        NewSectionElsewhere(lines, ts, WrittenHeader(section), x, h', key');
      } else {
        var p, post := PutAt(ts, h, key), Following(ts, h, key);
        PlaceOfPair(ts, h, key);
        OtherLookup(ts, h, p, x, post, h', key');
        if 0 <= FirstHit(ts, h, key, |ts|) {
          OtherLookup(ts, h, p, ts[p], post, h', key');
          assert WithLine(ts, p, ts[p], post) == ts;
        } else {
          assert ts[..p] + post == ts;
        }
      }
    }
  }

  /** What get shows once a header t stands at position p, in a section with header h: in the
      section of t, if it has not begun before, what follows; of a key of h that get would have
      come to behind p, nothing. */
  function WithHeader(ts: seq<Token>, h: string, p: nat, t: string, h': string, key': string): Option<string>
    requires p <= |ts|
  {
    var f := HeaderAt(ts, h', 0);
    if h' == t && !(0 <= f < p) then Get(ts[p..], t, key', true)
    else if h' != t && h' == h && 0 <= f < p <= StopAt(ts, h, f + 1) && FirstKey(ts, key', f + 1, p) < 0 then None
    else Get(ts, h', key', false)
  }

  lemma {:induction false} HeaderInserted(ts: seq<Token>, h: string, p: nat, t: string, h': string, key': string)
    requires p <= |ts| && InForce(ts, p) == Some(h)
    ensures Get(WithLine(ts, p, Header(t), ts[p..]), h', key', false) == WithHeader(ts, h, p, t, h', key')
  {
    hide Get, HeaderAt, StopAt, FirstKey, InForce;
    var f, now := HeaderAt(ts, h', 0), WithLine(ts, p, Header(t), ts[p..]);
    NotBefore(ts, h');
    assert now[..p] == ts[..p] && now[p..] == [Header(t)] + ts[p..];
    if 0 <= f < p {
      HeaderBehind(ts, h, p, t, h', key', now);
    } else {
      assert Header(h') !in ts[..p];
      SkipBefore(ts[..p], now[p..], h', key');
      SkipBefore(ts[..p], ts[p..], h', key');
      assert ts == ts[..p] + ts[p..] && now == ts[..p] + now[p..];
      HeaderThen(t, ts[p..], h', key');
    }
  }

  lemma {:induction false} HeaderThen(t: string, post: seq<Token>, h: string, key: string)
    ensures Get([Header(t)] + post, h, key, false) == Get(post, h, key, h == t)
    ensures Get([Header(t)] + post, h, key, true) == if h == t then Get(post, h, key, true) else None
  {
    assert ([Header(t)] + post)[1..] == post;
  }

  /** The section began before the new header. */
  lemma {:induction false} HeaderBehind(ts: seq<Token>, h: string, p: nat, t: string, h': string, key': string,
                                        now: seq<Token>)
    requires p <= |ts| && InForce(ts, p) == Some(h) && 0 <= HeaderAt(ts, h', 0) < p
    requires now == WithLine(ts, p, Header(t), ts[p..]) && now[..p] == ts[..p] && now[p..] == [Header(t)] + ts[p..]
    ensures Get(now, h', key', false) == WithHeader(ts, h, p, t, h', key')
  {
    hide Get, HeaderAt, StopAt, FirstKey, InForce;
    var f := HeaderAt(ts, h', 0);
    var stop, k := StopAt(ts, h', f + 1), FirstKey(ts, key', f + 1, p);
    NotBefore(ts, h');
    if stop < p {
      SameUpTo(ts, now, h', key', p);
    } else {
      InForceIn(ts, h', f, p);
      if 0 <= k {
        FirstKeyIs(ts, key', f + 1, k, stop);
        SameUpTo(ts, now, h', key', p);
      } else {
        ScanReaches(ts, h', key', f, p);
        ScanLike(ts, now, h', key', f, p);
        HeaderThen(t, ts[p..], h', key');
      }
    }
  }

  lemma {:induction false} ScanLike(a: seq<Token>, b: seq<Token>, h: string, key: string, f: nat, p: nat)
    requires f < p <= |a| && p <= |b| && a[..p] == b[..p]
    requires a[f] == Header(h) && Header(h) !in a[..f] && SameSection(a, h, f + 1, p) && NoKeyIn(a, key, f + 1, p)
    ensures Get(b, h, key, false) == Get(b[p..], h, key, true)
  {
    hide Get;
    assert forall i :: 0 <= i < p ==> a[i] == a[..p][i] == b[i];
    assert a[..f] == b[..f];
    ScanReaches(b, h, key, f, p);
  }

  lemma {:induction false} FirstKeyIs(ts: seq<Token>, key: string, i: nat, k: nat, j: nat)
    requires i <= k < j <= |ts| && IsKey(ts[k], key) && NoKeyIn(ts, key, i, k)
    ensures FirstKey(ts, key, i, j) == k
  {
    hide FirstKey;
  }

  /** set with a key that is taken for a header puts a header into the section; this is what
      it does to the lookups. Without the section it changes none. */
  lemma {:induction false} SetWithHeaderKey(lines: seq<string>, section: string, key: string, value: string,
                                            comment: Option<string>, section': string, key': string)
    requires LinesFit(section, key, value, comment) && LooksLikeHeader(key)
    ensures var ts, h, h' := Tokens(lines), SearchedHeader(section), SearchedHeader(section');
            var r, x := Set(lines, section, key, value, comment), Parse(PairLine(key, value, comment));
            r.Done? ==>
              && x.Header?
              && Lookup(r.lines, section', key') ==
                 if LastHeaderAt(ts, h, |ts|) < 0 then Lookup(lines, section', key')
                 else WithHeader(ts, h, PutAt(ts, h, key), x.text, h', key')
  {
    hide Set, Tokens, Get, Parse, PairLine, SearchedHeader, WrittenHeader, LooksLikeHeader, LinesFit, LastHeaderAt,
         HeaderAt,
         NoHitIn, NotIn, InForce, FirstHit, EndAt, InsertAt, NoHeaderIn, NewSection, WithHeader, WithLine;
    if Set(lines, section, key, value, comment).Done? {
      var ts, h, h' := Tokens(lines), SearchedHeader(section), SearchedHeader(section');
      var x := Parse(PairLine(key, value, comment));
      HeaderKeys(key, value, comment);
      SetTokens(lines, section, key, value, comment);
      if LastHeaderAt(ts, h, |ts|) < 0 {
        TwoHeaders(lines, ts, WrittenHeader(section), x, h', key');
      } else {
        PlaceOfPair(ts, h, key);
        HeaderKeyIsNew(lines, h, key);
        HeaderInserted(ts, h, PutAt(ts, h, key), x.text, h', key');
      }
    }
  }

  /** No line has such a key. */
  lemma {:induction false} HeaderKeyIsNew(lines: seq<string>, h: string, key: string)
    requires LooksLikeHeader(key)
    ensures FirstHit(Tokens(lines), h, key, |lines|) < 0
  {
    hide FirstHit, Parse, Trimmed;
    var k := FirstHit(Tokens(lines), h, key, |lines|);
    if 0 <= k {
      ParsedKeyIsGood(lines[k]);
      TrimmedIsTrimmed(key);
    }
  }

  lemma {:induction false} TwoHeaders(lines: seq<string>, ts: seq<Token>, h: string, x: Token, h': string, key': string)
    requires x.Header?
    ensures Get(ts + NewSection(lines, h, x), h', key', false) == Get(ts, h', key', false)
  {
    var more := NewSection(lines, h, x);
    forall i | 0 <= i < |more| ensures !IsKey(more[i], key') {
    }
    NoSuchKey(more, h', key', false);
    NoSuchKey(more, h', key', true);
    NothingInMore(ts, more, h', key', false);
  }

  // ---------------------------------------------------------------------
  // del of a key
  // ---------------------------------------------------------------------

  /** What del of a key does to the tokens. */
  lemma {:induction false} DelKeyTokens(lines: seq<string>, section: string, key: string)
    ensures var ts, r := Tokens(lines), Del(lines, section, Some(key));
            var k := LastHit(ts, SearchedHeader(section), key, |ts|);
            && (r.Failed? <==> k < 0)
            && (0 <= k ==> Tokens(r.lines) == Dropped(ts, k, k + 1))
  {
    hide Tokens, LastHeaderAt, LastHit, SearchedHeader, Dropped;
    var ts, h := Tokens(lines), SearchedHeader(section);
    var k := LastHit(ts, h, key, |ts|);
    if 0 <= k {
      WhereInForce(ts, h, k);
      NotBefore(ts, h);
      TokensOfDrop(lines, k, k + 1);
    }
  }

  lemma {:induction false} InForceInserted(ts: seq<Token>, p: nat, x: Token, i: nat)
    requires p <= i <= |ts| && !x.Header?
    ensures InForce(Inserted(ts, p, x), i + 1) == InForce(ts, i)
  {
    var now := Inserted(ts, p, x);
    if i == p {
      assert now[p] == x;
      InForcePrefix(now, ts, p);
    } else {
      assert now[i] == ts[i - 1];
      InForceInserted(ts, p, x, i - 1);
    }
  }

  lemma {:induction false} LastHitIs(ts: seq<Token>, h: string, key: string, i: nat, k: nat)
    requires k < i <= |ts| && Hit(ts, h, key, k) && NoHitIn(ts, h, key, k + 1, i)
    ensures LastHit(ts, h, key, i) == k
  {
    hide LastHit, Hit;
  }

  /** The pair that set inserts is the last one for del. */
  lemma {:induction false} InsertedIsLast(ts: seq<Token>, h: string, x: Token, p: nat)
    requires p <= |ts| && x.Pair? && InForce(ts, p) == Some(h) && NoHitIn(ts, h, x.key, 0, |ts|)
    ensures LastHit(Inserted(ts, p, x), h, x.key, |ts| + 1) == p
  {
    hide InForce;
    var now := Inserted(ts, p, x);
    InForcePrefix(now, ts, p);
    forall j | p < j < |now| ensures !Hit(now, h, x.key, j) {
      InForceInserted(ts, p, x, j - 1);
      assert now[j] == ts[j - 1] && !Hit(ts, h, x.key, j - 1);
    }
    LastHitIs(now, h, x.key, |ts| + 1, p);
  }

  lemma {:induction false} DropInserted<T>(s: seq<T>, k: nat, x: T)
    requires k <= |s|
    ensures Dropped(Inserted(s, k, x), k, k + 1) == s
  {
    var now := Inserted(s, k, x);
    assert now[..k] == s[..k] && now[k + 1..] == s[k..];
  }

  /** A key that set adds to a section that is there is taken out again by del, and the
      file is what it was, line by line. */
  lemma {:induction false} DelUndoesInsertion(lines: seq<string>, section: string, key: string, value: string,
                                              comment: Option<string>)
    requires LinesFit(section, key, value, comment) && GoodKey(key)
    requires var ts, h := Tokens(lines), SearchedHeader(section);
             0 <= LastHeaderAt(ts, h, |ts|) && FirstHit(ts, h, key, |ts|) < 0
    ensures var r := Set(lines, section, key, value, comment);
            r.Done? ==> |r.lines| == |lines| + 1 && Del(r.lines, section, Some(key)) == Done(lines)
    ensures Set(lines, section, key, value, comment).Done? <==> |lines| < MAX_LINES
  {
    hide Parse, PairLine, SearchedHeader, Tokens, LastHeaderAt, FirstHit, LastHit, EndAt, InsertAt, Inserted, Dropped,
         Trimmed, Behind,
         NoHeaderIn, NoHitIn, NotIn, InForce, GoodKey, HeaderAt, Hit;
    var ts, h, text := Tokens(lines), SearchedHeader(section), PairLine(key, value, comment);
    var p := PutAt(ts, h, key);
    PairLineParses(key, value, comment);
    PlaceOfPair(ts, h, key);
    TokensOfInsert(lines, p, text);
    InsertedIsLast(ts, h, Parse(text), p);
    LongerByOne(lines, p, text);
    DelDrops(Inserted(lines, p, text), section, key, p);
    DropInserted(lines, p, text);
  }

  lemma {:induction false} LongerByOne(lines: seq<string>, p: nat, text: string)
    requires p <= |lines|
    ensures |Inserted(lines, p, text)| == |lines| + 1
  {
  }

  lemma {:induction false} DelDrops(lines: seq<string>, section: string, key: string, p: nat)
    requires p < |lines| && LastHit(Tokens(lines), SearchedHeader(section), key, |lines|) == p
    ensures Del(lines, section, Some(key)) == Done(Dropped(lines, p, p + 1))
  {
    hide Tokens, LastHeaderAt, LastHit, SearchedHeader, Dropped, HeaderAt;
    var ts, h := Tokens(lines), SearchedHeader(section);
    WhereInForce(ts, h, p);
    NotBefore(ts, h);
  }

  /** Two files that agree up to a place behind the one where get gives up. */
  lemma {:induction false} SameUpTo(a: seq<Token>, b: seq<Token>, h: string, key: string, m: nat)
    requires m <= |a| && m <= |b| && a[..m] == b[..m]
    requires 0 <= HeaderAt(a, h, 0) < m
    requires var f := HeaderAt(a, h, 0);
             StopAt(a, h, f + 1) < m || 0 <= FirstKey(a, key, f + 1, StopAt(a, h, f + 1)) < m
    ensures Get(a, h, key, false) == Get(b, h, key, false)
  {
    hide Get, HeaderAt, StopAt, FirstKey;
    var f := HeaderAt(a, h, 0);
    var e := StopAt(a, h, f + 1);
    var k := FirstKey(a, key, f + 1, e);
    var n := if k < 0 then e else k;
    NotBefore(a, h);
    ScanReaches(a, h, key, f, n);
    ScanAgrees(a, b, h, key, f, n, m);
    OnKey(a[n..], h, key);
    OnKey(b[n..], h, key);
  }

  lemma {:induction false} ScanAgrees(a: seq<Token>, b: seq<Token>, h: string, key: string, f: nat, n: nat, m: nat)
    requires m <= |a| && m <= |b| && a[..m] == b[..m] && f < n < m
    requires a[f] == Header(h) && Header(h) !in a[..f] && SameSection(a, h, f + 1, n) && NoKeyIn(a, key, f + 1, n)
    ensures Get(b, h, key, false) == Get(b[n..], h, key, true) && a[n..][0] == b[n..][0]
  {
    hide Get;
    assert a[..n] == a[..m][..n] == b[..n] && a[n] == a[..m][n] == b[n];
    ScanLike(a, b, h, key, f, n);
  }

  /** del takes out the last line with the key, and get shows the first: the key is gone if
      there was one such line. Otherwise get shows what it showed before. */
  lemma {:induction false} DelKeyRemoves(lines: seq<string>, section: string, key: string)
    ensures var ts, h := Tokens(lines), SearchedHeader(section);
            var f, k := FirstHit(ts, h, key, |ts|), LastHit(ts, h, key, |ts|);
            var r := Del(lines, section, Some(key));
            && (r.Failed? <==> k < 0)
            && (r.Done? ==> Lookup(r.lines, section, key) == if f == k then None else Lookup(lines, section, key))
  {
    hide Tokens, Get, FirstHit, LastHit, SearchedHeader, Del, Dropped, NoHitIn;
    var ts, h := Tokens(lines), SearchedHeader(section);
    DelKeyTokens(lines, section, key);
    if 0 <= LastHit(ts, h, key, |ts|) {
      DropLastHit(ts, h, key);
    }
  }

  lemma {:induction false} DropLastHit(ts: seq<Token>, h: string, key: string)
    requires 0 <= LastHit(ts, h, key, |ts|)
    ensures var f, k := FirstHit(ts, h, key, |ts|), LastHit(ts, h, key, |ts|);
            0 <= f <= k &&
            Get(Dropped(ts, k, k + 1), h, key, false) == if f == k then None else Get(ts, h, key, false)
  {
    hide Get, FirstHit, LastHit, Hit, InForce, HeaderAt, StopAt, FirstKey, Dropped;
    var f, k, s := FirstHit(ts, h, key, |ts|), LastHit(ts, h, key, |ts|), HeaderAt(ts, h, 0);
    HitIsBehind(ts, h, key, k);
    HitIsBehind(ts, h, key, f);
    if f < k {
      FirstHitIsFirst(ts, h, key, f);
      DropBehind(ts, k);
      SameUpTo(ts, Dropped(ts, k, k + 1), h, key, k);
    } else {
      DropOnlyHit(ts, h, key, k);
    }
  }

  lemma {:induction false} HitIsBehind(ts: seq<Token>, h: string, key: string, k: nat)
    requires k < |ts| && Hit(ts, h, key, k)
    ensures 0 <= HeaderAt(ts, h, 0) < k
  {
    hide HeaderAt, LastHeaderAt;
    WhereInForce(ts, h, k);
  }

  lemma {:induction false} DropBehind(ts: seq<Token>, k: nat)
    requires k < |ts|
    ensures var now := Dropped(ts, k, k + 1);
            && |now| == |ts| - 1 && now[..k] == ts[..k]
            && (forall i :: 0 <= i < k ==> now[i] == ts[i]) && (forall i :: k <= i < |now| ==> now[i] == ts[i + 1])
  {
  }

  /** get gives up, or finds the key, no later than at the first hit that has another behind it. */
  lemma {:induction false} FirstHitIsFirst(ts: seq<Token>, h: string, key: string, f: nat)
    requires f < |ts| && Hit(ts, h, key, f) && NoHitIn(ts, h, key, 0, f) && 0 <= HeaderAt(ts, h, 0) < f
    ensures var s := HeaderAt(ts, h, 0);
            var e := StopAt(ts, h, s + 1);
            e <= f || FirstKey(ts, key, s + 1, e) == f
  {
    hide HeaderAt, StopAt, FirstKey, InForce;
    var s := HeaderAt(ts, h, 0);
    var e := StopAt(ts, h, s + 1);
    if f < e {
      NoKeyWithoutHit(ts, h, key, s, f);
    }
  }

  lemma {:induction false} DropOnlyHit(ts: seq<Token>, h: string, key: string, k: nat)
    requires k < |ts| && Hit(ts, h, key, k) && NoHitIn(ts, h, key, 0, k) && NoHitIn(ts, h, key, k + 1, |ts|)
    requires 0 <= HeaderAt(ts, h, 0) < k
    ensures Get(Dropped(ts, k, k + 1), h, key, false) == None
  {
    hide Get, HeaderAt, StopAt, InForce, Dropped;
    var now, s := Dropped(ts, k, k + 1), HeaderAt(ts, h, 0);
    var e := StopAt(ts, h, s + 1);
    var n := if e <= k then e else e - 1;
    NotBefore(ts, h);
    DropBehind(ts, k);
    NoOtherKey(ts, h, key, s, e, k);
    assert now[..s] == ts[..s];
    ScanReaches(now, h, key, s, n);
    OnKey(now[n..], h, key);
  }

  lemma {:induction false} NoOtherKey(ts: seq<Token>, h: string, key: string, s: nat, e: nat, k: nat)
    requires s < e <= |ts| && ts[s] == Header(h) && SameSection(ts, h, s + 1, e)
    requires k < |ts| && NoHitIn(ts, h, key, 0, k) && NoHitIn(ts, h, key, k + 1, |ts|)
    ensures forall i :: s < i < e && i != k ==> !IsKey(ts[i], key)
  {
    hide InForce;
    forall i | s < i < e && i != k ensures !IsKey(ts[i], key) {
      InForceIn(ts, h, s, i);
      assert !Hit(ts, h, key, i);
    }
  }

  /** del of a key changes no other lookup. */
  lemma {:induction false} DelKeyKeepsOthers(lines: seq<string>, section: string, key: string, section': string,
                                             key': string)
    requires SearchedHeader(section') != SearchedHeader(section) || key' != key
    ensures var r := Del(lines, section, Some(key));
            r.Done? ==> Lookup(r.lines, section', key') == Lookup(lines, section', key')
  {
    hide Tokens, Get, LastHit, SearchedHeader, Del, InForce, NoHitIn;
    var ts, h := Tokens(lines), SearchedHeader(section);
    var k := LastHit(ts, h, key, |ts|);
    DelKeyTokens(lines, section, key);
    if 0 <= k {
      OtherLookup(ts, h, k, ts[k], ts[k + 1..], SearchedHeader(section'), key');
      assert WithLine(ts, k, ts[k], ts[k + 1..]) == ts;
    }
  }

  // ---------------------------------------------------------------------
  // del of a section
  // ---------------------------------------------------------------------

  lemma {:induction false} DelSectionTokens(lines: seq<string>, section: string)
    ensures var ts, r := Tokens(lines), Del(lines, section, None);
            var s := LastHeaderAt(ts, SearchedHeader(section), |ts|);
            && (r.Failed? <==> s < 0)
            && (0 <= s ==> Tokens(r.lines) == Dropped(ts, s, EndAt(ts, s + 1)))
  {
    hide Tokens, LastHeaderAt, SearchedHeader, Dropped, EndAt;
    var ts := Tokens(lines);
    var s := LastHeaderAt(ts, SearchedHeader(section), |ts|);
    if 0 <= s {
      TokensOfDrop(lines, s, EndAt(ts, s + 1));
    }
  }

  /** A file that goes on with another section has nothing more to offer. */
  lemma {:induction false} OtherSectionBehind(pre: seq<Token>, post: seq<Token>, h: string, key: string)
    requires Header(h) !in post && (post == [] || post[0].Header?)
    ensures Get(pre + post, h, key, false) == Get(pre, h, key, false)
  {
    hide Get;
    SkipBefore(post, [], h, key);
    assert post + [] == post;
    NothingInEmpty(h, key);
    OnKey(post, h, key);
    assert post != [] ==> post[0] in post;
    NothingInMore(pre, post, h, key, false);
  }

  /** After del of a section a key is found exactly if it is found in what comes before the
      section; so if the header was there once, no key is. */
  lemma {:induction false} DelSectionHides(lines: seq<string>, section: string, key: string)
    ensures var ts, h := Tokens(lines), SearchedHeader(section);
            var s := LastHeaderAt(ts, h, |ts|);
            var r := Del(lines, section, None);
            && (r.Failed? <==> s < 0)
            && (r.Done? ==>
                  && Lookup(r.lines, section, key) == Lookup(lines[..s], section, key)
                  && (HeaderAt(ts, h, 0) == s ==> Lookup(r.lines, section, key) == None))
  {
    hide Get, LastHeaderAt, HeaderAt, EndAt, SearchedHeader, Del, Parse;
    var ts, h := Tokens(lines), SearchedHeader(section);
    var s := LastHeaderAt(ts, h, |ts|);
    DelSectionTokens(lines, section);
    if 0 <= s {
      var e := EndAt(ts, s + 1);
      assert Tokens(lines[..s]) == ts[..s];
      OtherSectionBehind(ts[..s], ts[e..], h, key);
      if HeaderAt(ts, h, 0) == s {
        NotBefore(ts, h);
        SkipBefore(ts[..s], [], h, key);
        assert ts[..s] + [] == ts[..s];
        NothingInEmpty(h, key);
      }
    }
  }

  /** The section between s and e is what makes get give up on h. */
  predicate Ends(ts: seq<Token>, h: string, s: nat) {
    0 <= HeaderAt(ts, h, 0) && StopAt(ts, h, HeaderAt(ts, h, 0) + 1) == s
  }

  /** del of a section leaves every lookup in another section as it is, unless the section was
      what made get give up on the other one, without having found the key, and the other
      one goes on behind it: then get shows what it finds there. */
  lemma {:induction false} DelSectionKeepsOthers(lines: seq<string>, section: string, section': string, key': string)
    requires SearchedHeader(section') != SearchedHeader(section)
    ensures var ts, h' := Tokens(lines), SearchedHeader(section');
            var s := LastHeaderAt(ts, SearchedHeader(section), |ts|);
            var r, was := Del(lines, section, None), Lookup(lines, section', key');
            r.Done? ==>
              Lookup(r.lines, section', key') ==
              if was == None && Ends(ts, h', s) then Get(ts[EndAt(ts, s + 1)..], h', key', true) else was
  {
    hide Get, LastHeaderAt, EndAt, SearchedHeader, Del, Ends, Tokens, Dropped;
    var ts, h, h' := Tokens(lines), SearchedHeader(section), SearchedHeader(section');
    var s := LastHeaderAt(ts, h, |ts|);
    DelSectionTokens(lines, section);
    if 0 <= s {
      var e := EndAt(ts, s + 1);
      if Ends(ts, h', s) {
        DropEnding(ts, h', key', s, e);
      } else {
        DropElsewhere(ts, h, h', key', s, e);
      }
    }
  }

  lemma {:induction false} DropEnding(ts: seq<Token>, h: string, key: string, s: nat, e: nat)
    requires s < e <= |ts| && Ends(ts, h, s)
    ensures var was, now := Get(ts, h, key, false), Get(Dropped(ts, s, e), h, key, false);
            now == if was == None then Get(ts[e..], h, key, true) else was
  {
    hide Get, HeaderAt, StopAt, FirstKey;
    var f, now := HeaderAt(ts, h, 0), Dropped(ts, s, e);
    var k := FirstKey(ts, key, f + 1, s);
    NotBefore(ts, h);
    GetIsFirst(ts, h, key);
    assert now[..s] == ts[..s] && now[s..] == ts[e..];
    assert forall i :: 0 <= i < s ==> now[i] == ts[i];
    if 0 <= k {
      SameUpTo(ts, now, h, key, s);
    } else {
      assert now[..f] == ts[..f];
      ScanReaches(now, h, key, f, s);
    }
  }

  lemma {:induction false} DropElsewhere(ts: seq<Token>, h: string, h': string, key: string, s: nat, e: nat)
    requires s < e <= |ts| && ts[s] == Header(h) && h' != h && NoHeaderIn(ts, s + 1, e) && !Ends(ts, h', s)
    ensures Get(Dropped(ts, s, e), h', key, false) == Get(ts, h', key, false)
  {
    hide Get, HeaderAt, StopAt, FirstKey;
    var f, now := HeaderAt(ts, h', 0), Dropped(ts, s, e);
    NotBefore(ts, h');
    assert now[..s] == ts[..s];
    if 0 <= f < s {
      assert IsOtherHeader(ts[s], h') && !SameSection(ts, h', f + 1, s + 1);
      SameUpTo(ts, now, h', key, s);
    } else {
      NotAmong(ts, h', s, e);
      SkipBefore(ts[..s], ts[e..], h', key);
      SkipBefore(ts[..e], ts[e..], h', key);
      assert ts == ts[..e] + ts[e..];
    }
  }

  lemma {:induction false} NotAmong(ts: seq<Token>, h: string, s: nat, e: nat)
    requires s < e <= |ts| && ts[s] != Header(h) && NoHeaderIn(ts, s + 1, e)
    requires HeaderAt(ts, h, 0) < 0 || s <= HeaderAt(ts, h, 0)
    ensures Header(h) !in ts[..s] && Header(h) !in ts[..e]
  {
    hide HeaderAt;
  }

  // ---------------------------------------------------------------------
  // What every edit keeps
  // ---------------------------------------------------------------------

  /** An edited file has unique headers again exactly if there was a section with the header,
      or none with the header that is written; and it has no more lines than fit. */
  lemma {:induction false} SetKeepsUnique(lines: seq<string>, section: string, key: string, value: string,
                                          comment: Option<string>)
    requires LinesFit(section, key, value, comment) && !LooksLikeHeader(key) && Unique(Tokens(lines))
             && |lines| <= MAX_LINES
    ensures var ts, r := Tokens(lines), Set(lines, section, key, value, comment);
            r.Done? ==>
              && (Unique(Tokens(r.lines)) <==>
                  0 <= HeaderAt(ts, SearchedHeader(section), 0) || HeaderAt(ts, WrittenHeader(section), 0) < 0)
              && |r.lines| <= MAX_LINES
  {
    hide Tokens, Parse, PairLine, SearchedHeader, WrittenHeader, LooksLikeHeader, LinesFit, LastHeaderAt, HeaderAt,
         FirstHit, EndAt,
         InsertAt, NoHeaderIn, NoHitIn, NotIn, InForce, Unique, NewSection;
    var r := Set(lines, section, key, value, comment);
    if r.Done? {
      var ts, h, x := Tokens(lines), SearchedHeader(section), Parse(PairLine(key, value, comment));
      HeaderKeys(key, value, comment);
      SetTokens(lines, section, key, value, comment);
      NotBefore(ts, h);
      if LastHeaderAt(ts, h, |ts|) < 0 {
        NotBefore(ts, WrittenHeader(section));
        UniqueAppend(lines, ts, WrittenHeader(section), x);
      } else {
        PlaceOfPair(ts, h, key);
        UniquePair(ts, PutAt(ts, h, key), x, Following(ts, h, key));
      }
    }
  }

  lemma {:induction false} UniqueAppend(lines: seq<string>, ts: seq<Token>, h: string, x: Token)
    requires Unique(ts) && !x.Header?
    ensures Unique(ts + NewSection(lines, h, x)) <==> Header(h) !in ts
  {
    var now := ts + NewSection(lines, h, x);
    if Header(h) in ts {
      var i :| 0 <= i < |ts| && ts[i] == Header(h);
      assert now[i] == now[|now| - 2];
    }
  }

  lemma {:induction false} UniquePair(ts: seq<Token>, p: nat, x: Token, post: seq<Token>)
    requires Unique(ts) && p <= |ts| && !x.Header? && (post == ts[p..] || (p < |ts| && post == ts[p + 1..]))
    ensures Unique(WithLine(ts, p, x, post))
  {
    var now := WithLine(ts, p, x, post);
    var gap := if post == ts[p..] then 1 else 0;
    forall i, j | 0 <= i < j < |now| && now[i].Header? && now[j].Header? ensures now[i] != now[j] {
      assert i != p && j != p;
      assert now[i] == if i < p then ts[i] else ts[i - gap];
      assert now[j] == if j < p then ts[j] else ts[j - gap];
    }
  }

  lemma {:induction false} DelKeepsUnique(lines: seq<string>, section: string, key: Option<string>)
    requires Unique(Tokens(lines))
    ensures var r := Del(lines, section, key);
            r.Done? ==> Unique(Tokens(r.lines)) && |r.lines| < |lines|
  {
    hide Tokens, LastHeaderAt, EndAt, LastHit, SearchedHeader, Unique;
    var ts, h := Tokens(lines), SearchedHeader(section);
    var s := LastHeaderAt(ts, h, |ts|);
    if 0 <= s {
      var k := if key.Some? then LastHit(ts, h, key.value, |ts|) else s;
      if 0 <= k {
        var j := if key.Some? then k + 1 else EndAt(ts, s + 1);
        TokensOfDrop(lines, k, j);
        UniqueDrop(ts, k, j);
      }
    }
  }

  lemma {:induction false} UniqueDrop(ts: seq<Token>, i: nat, j: nat)
    requires Unique(ts) && i <= j <= |ts|
    ensures Unique(Dropped(ts, i, j))
  {
    var now := Dropped(ts, i, j);
    forall a, b | 0 <= a < b < |now| && now[a].Header? && now[b].Header? ensures now[a] != now[b] {
      assert now[a] == ts[if a < i then a else a + (j - i)];
      assert now[b] == ts[if b < i then b else b + (j - i)];
    }
  }
}
