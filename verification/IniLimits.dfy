/** Files and names for which get, set and del do not do what one would expect. */
module IniLimits {
  import opened Common
  import opened IniLines
  import opened IniFile
  import opened IniLaws

  /** The line of a section with a short name. */
  lemma {:induction false} ShortHeader(section: string)
    requires |section| <= MISC_LENGTH - 3 && ']' !in section
    ensures Parse(SectionHeader(section) + "\n") == Header(SectionHeader(section))
    ensures SearchedHeader(section) == SectionHeader(section)
  {
    hide Parse;
    HeaderLineParses(section);
    WrittenIsSearched(section);
  }

  /** A section of 126 letters is written in full and searched for without its bracket: get
      does not find what set wrote, and a second set writes the header again. */
  lemma {:induction false} LongSectionIsLost(section: string)
    requires |section| == MISC_LENGTH - 2 && ']' !in section
    ensures var r := Set([], section, "k", "v", None);
            && r.Done? && Lookup(r.lines, section, "k") == None
            && var again := Set(r.lines, section, "k", "v", None);
            again.Done? && !Unique(Tokens(again.lines))
  {
    hide Get, Parse, SearchedHeader, WrittenHeader, Readable, GoodKey, Unique, Shown;
    var r := Set([], section, "k", "v", None);
    var h, w := SearchedHeader(section), WrittenHeader(section);
    assert PairLine("k", "v", None) == "k = v\n";
    WrittenIsSearched(section);
    NotReadable(section);
    GetAfterSet([], section, "k", "v", None);
    HeaderLineParses(section);
    NoHeaderKey("k");
    HeaderKeys("k", "v", None);
    var ts := Tokens(r.lines);
    assert ts[0] == Header(w) && !ts[1].Header?;
    NotBefore(ts, h);
    NotBefore(ts, w);
    assert Header(w) in ts && Header(h) !in ts;
    assert Unique(ts) by {
      OneHeader(ts);
    }
    SetKeepsUnique(r.lines, section, "k", "v", None);
  }

  lemma {:induction false} NotReadable(section: string)
    requires |section| == MISC_LENGTH - 2 && ']' !in section
    ensures !Readable(section)
  {
    assert section[..|section|] == section;
    FindIs(section, ']', |section|);
  }

  lemma {:induction false} NoHeaderKey(key: string)
    requires key == "k"
    ensures !LooksLikeHeader(key)
  {
    TrimmedIsTrimmed(key);
  }

  lemma {:induction false} OneHeader(ts: seq<Token>)
    requires forall i :: 0 < i < |ts| ==> !ts[i].Header?
    ensures Unique(ts)
  {
  }

  /** What the scanners see in files made of headers and pairs. */
  lemma {:induction false} SeenLines()
    ensures Parse("[a]\n") == Header("[a]") && Parse("[b]\n") == Header("[b]") && Parse("[c]\n") == Header("[c]")
    ensures Parse("k = v\n") == Pair("k", "v") && Parse("k = w\n") == Pair("k", "w")
    ensures SearchedHeader("a") == "[a]" && SearchedHeader("b") == "[b]"
    ensures Shown("v") == "v" && Shown("w") == "w"
    ensures PairLine("k", "v", None) == "k = v\n"
  {
    hide Parse, Shown, Trimmed;
    ShortHeader("a");
    ShortHeader("b");
    ShortHeader("c");
    assert SectionHeader("a") == "[a]" && SectionHeader("b") == "[b]" && SectionHeader("c") == "[c]";
    assert "[a]" + "\n" == "[a]\n" && "[b]" + "\n" == "[b]\n" && "[c]" + "\n" == "[c]\n";
    PairLineParses("k", "v", None);
    PairLineParses("k", "w", None);
    assert PairLine("k", "v", None) == "k = v\n" && PairLine("k", "w", None) == "k = w\n";
    assert Behind("v", None) == "v" && Behind("w", None) == "w";
    TrimmedIsTrimmed("v");
    TrimmedIsTrimmed("w");
    ShownIsTheValue("v", None);
    ShownIsTheValue("w", None);
  }

  /** A section in two parts, with another between them: set adds the key to the second part
      and get gives up before it. */
  lemma {:induction false} SplitSectionIsMissed()
    ensures var r := Set(["[a]\n", "[b]\n", "[a]\n"], "a", "k", "v", None);
            r.Done? && Lookup(r.lines, "a", "k") == None
  {
    hide Parse, Shown, PairLine, SearchedHeader, Lookup;
    var lines := ["[a]\n", "[b]\n", "[a]\n"];
    SeenLines();
    var ts := Tokens(lines);
    assert ts == [Header("[a]"), Header("[b]"), Header("[a]")];
    assert HeaderAt(ts, "[a]", 0) == 0 && StopAt(ts, "[a]", 1) == 1;
    assert LastHeaderAt(ts, "[a]", 3) == 2 && FirstHit(ts, "[a]", "k", 3) == -1 && EndAt(ts, 3) == 3;
    GetAfterSet(lines, "a", "k", "v", None);
  }

  /** del takes out the second of two lines with the key, and get shows the first. */
  lemma {:induction false} DuplicateKeySurvives()
    ensures var lines := ["[a]\n", "k = v\n", "k = w\n"];
            var r := Del(lines, "a", Some("k"));
            && Unique(Tokens(lines)) && r.Done? && Lookup(r.lines, "a", "k") == Some("v")
  {
    hide Parse, Shown, SearchedHeader, Get, Del;
    var lines := ["[a]\n", "k = v\n", "k = w\n"];
    SeenLines();
    var ts := Tokens(lines);
    assert ts == [Header("[a]"), Pair("k", "v"), Pair("k", "w")] && ts[..0] == [];
    assert InForce(ts, 1) == Some("[a]") && InForce(ts, 2) == Some("[a]");
    assert Hit(ts, "[a]", "k", 2) && Hit(ts, "[a]", "k", 1);
    assert LastHit(ts, "[a]", "k", 3) == 2 && FirstHit(ts, "[a]", "k", 3) <= 1;
    DelKeyRemoves(lines, "a", "k");
    ScanReaches(ts, "[a]", "k", 0, 1);
    OnKey(ts[1..], "[a]", "k");
  }

  /** del takes out the second part of a section, and the keys of the first stay. */
  lemma {:induction false} FirstPartSurvives()
    ensures var r := Del(["[a]\n", "k = v\n", "[a]\n"], "a", None);
            r.Done? && Lookup(r.lines, "a", "k") == Some("v")
  {
    hide Parse, Shown, SearchedHeader, Get, Del;
    var lines := ["[a]\n", "k = v\n", "[a]\n"];
    SeenLines();
    var ts, pre := Tokens(lines), Tokens(lines[..2]);
    assert ts == [Header("[a]"), Pair("k", "v"), Header("[a]")] && pre == [Header("[a]"), Pair("k", "v")]
           && pre[..0] == [];
    assert LastHeaderAt(ts, "[a]", 3) == 2;
    DelSectionHides(lines, "a", "k");
    ScanReaches(pre, "[a]", "k", 0, 1);
    OnKey(pre[1..], "[a]", "k");
  }

  /** del of a section between the two parts of another joins them. */
  lemma {:induction false} PartsAreJoined()
    ensures var lines := ["[b]\n", "[a]\n", "[b]\n", "k = v\n"];
            var r := Del(lines, "a", None);
            r.Done? && Lookup(lines, "b", "k") == None && Lookup(r.lines, "b", "k") == Some("v")
  {
    hide Parse, Shown, SearchedHeader, Get, Del;
    var lines := ["[b]\n", "[a]\n", "[b]\n", "k = v\n"];
    SeenLines();
    var ts := Tokens(lines);
    assert ts == [Header("[b]"), Header("[a]"), Header("[b]"), Pair("k", "v")] && ts[..0] == [];
    assert LastHeaderAt(ts, "[a]", 4) == 1 && EndAt(ts, 2) == 2 && HeaderAt(ts, "[b]", 0) == 0
           && StopAt(ts, "[b]", 1) == 1;
    DelSectionKeepsOthers(lines, "a", "b", "k");
    DelSectionHides(lines, "a", "k");
    ScanReaches(ts, "[b]", "k", 0, 1);
    OnKey(ts[1..], "[b]", "k");
    InsideGoesOn(ts[2..]);
  }

  lemma {:induction false} InsideGoesOn(ts: seq<Token>)
    requires ts == [Header("[b]"), Pair("k", "v")]
    ensures Get(ts, "[b]", "k", true) == Some(Shown("v"))
  {
    hide Shown;
    assert ts[1..] == [Pair("k", "v")];
  }

  /** A key that looks like a header hides the keys of a section behind it. */
  lemma {:induction false} HeaderKeyHides()
    ensures var lines := ["[a]\n", "[c]\n", "[b]\n", "k = v\n"];
            var r := Set(lines, "a", "[b]", "v", None);
            r.Done? && Lookup(lines, "b", "k") == Some("v") && Lookup(r.lines, "b", "k") == None
  {
    hide Parse, Shown, SearchedHeader, Get, Set;
    var lines := ["[a]\n", "[c]\n", "[b]\n", "k = v\n"];
    SeenLines();
    HeaderKeyTokens(lines);
    var ts, now := Tokens(lines), Tokens(Set(lines, "a", "[b]", "v", None).lines);
    assert ts == [Header("[a]"), Header("[c]"), Header("[b]"), Pair("k", "v")];
    ScanReaches(ts, "[b]", "k", 2, 3);
    OnKey(ts[3..], "[b]", "k");
    ScanReaches(now, "[b]", "k", 1, 2);
    OnKey(now[2..], "[b]", "k");
  }

  lemma {:induction false} HeaderKeyTokens(lines: seq<string>)
    requires lines == ["[a]\n", "[c]\n", "[b]\n", "k = v\n"]
    ensures var r := Set(lines, "a", "[b]", "v", None);
            r.Done? && Tokens(r.lines) == [Header("[a]"), Header("[b]"), Header("[c]"), Header("[b]"), Pair("k", "v")]
  {
    hide Parse, Shown, SearchedHeader, Get, PairLine;
    SeenLines();
    BracketLine();
    var ts := Tokens(lines);
    assert ts == [Header("[a]"), Header("[c]"), Header("[b]"), Pair("k", "v")];
    LoneHeader(ts);
    SetTokens(lines, "a", "[b]", "v", None);
  }

  lemma {:induction false} LoneHeader(ts: seq<Token>)
    requires ts == [Header("[a]"), Header("[c]"), Header("[b]"), Pair("k", "v")]
    ensures LastHeaderAt(ts, "[a]", 4) == 0 && FirstHit(ts, "[a]", "[b]", 4) == -1 && EndAt(ts, 1) == 1
  {
    hide LastHeaderAt, FirstHit;
    assert ts[0] == Header("[a]") && ts[1] != ts[0] && ts[2] != ts[0] && ts[3] != ts[0];
    assert forall i :: 0 <= i < 4 ==> !IsKey(ts[i], "[b]");
  }

  lemma {:induction false} BracketLine()
    ensures var line := PairLine("[b]", "v", None);
            Parse(line) == Header("[b]") && |line| < MAX_LINE_LENGTH
  {
    hide LeftTrimmed, RightTrimmed;
    var t := "[b] = v";
    assert PairLine("[b]", "v", None) == t + "\n" && AllSpace("\n");
    TrimIgnoresSpace("", t, "\n");
    TrimmedIsTrimmed(t);
    FindIs(t, ']', 2);
    assert t[..3] == "[b]";
  }

  /** A key with an equals sign sets another key. */
  lemma {:induction false} BadKeySetsAnother()
    ensures var r := Set(["[a]\n"], "a", "k=l", "v", None);
            r.Done? && Lookup(["[a]\n"], "a", "k") == None && Lookup(r.lines, "a", "k") == Some("l = v")
  {
    hide Parse, Shown, SearchedHeader, Get, PairLine, Set;
    var lines := ["[a]\n"];
    SeenLines();
    EqualsTokens(lines);
    var ts, now := Tokens(lines), Tokens(Set(lines, "a", "k=l", "v", None).lines);
    assert ts == [Header("[a]")] && ts[..0] == [] && now[..0] == [];
    ScanReaches(ts, "[a]", "k", 0, 1);
    OnKey(ts[1..], "[a]", "k");
    ScanReaches(now, "[a]", "k", 0, 1);
    OnKey(now[1..], "[a]", "k");
    ShownIsTheValue("l = v", None);
  }

  lemma {:induction false} EqualsTokens(lines: seq<string>)
    requires lines == ["[a]\n"]
    ensures var r := Set(lines, "a", "k=l", "v", None);
            r.Done? && Tokens(r.lines) == [Header("[a]"), Pair("k", "l = v")]
  {
    hide Parse, Shown, SearchedHeader, Get, PairLine;
    SeenLines();
    EqualsLine();
    var ts := Tokens(lines);
    assert ts == [Header("[a]")];
    assert LastHeaderAt(ts, "[a]", 1) == 0 && FirstHit(ts, "[a]", "k=l", 1) == -1 && EndAt(ts, 1) == 1;
    SetTokens(lines, "a", "k=l", "v", None);
  }

  lemma {:induction false} EqualsLine()
    ensures var line := PairLine("k=l", "v", None);
            Parse(line) == Pair("k", "l = v") && |line| < MAX_LINE_LENGTH
  {
    hide LeftTrimmed, RightTrimmed;
    var t := "k=l = v";
    assert PairLine("k=l", "v", None) == t + "\n" && AllSpace("\n");
    TrimIgnoresSpace("", t, "\n");
    TrimmedIsTrimmed(t);
    FindIs(t, '=', 1);
    assert t[..1] == "k" && t[2..] == "l = v";
    TrimmedIsTrimmed("k");
    TrimmedIsTrimmed("l = v");
  }
}
