/** The text of a configuration file and the lines the editor reads from it. */
module IniText {
  import opened Common
  import opened IniLines
  import opened IniFile
  import opened IniLaws

  /** How much one read takes: up to a newline, and no more than the buffer holds. */
  function LineEnd(text: string): (n: nat)
    ensures n <= |text| && n < MAX_LINE_LENGTH && (text != "" ==> 0 < n)
  {
    var n := Find(text, '\n');
    if n + 1 < MAX_LINE_LENGTH then (if n < |text| then n + 1 else n)
    else if |text| < MAX_LINE_LENGTH then |text| else MAX_LINE_LENGTH - 1
  }

  function ReadLines(text: string): seq<string>
    decreases |text|
  {
    if text == "" then [] else [text[..LineEnd(text)]] + ReadLines(text[LineEnd(text)..])
  }

  /** What is read at once: up to and with a newline, and at most 4095 characters; less than
      that without a newline only at the end of the file. */
  lemma {:induction false} PiecesAre(text: string, i: nat)
    requires i < |ReadLines(text)|
    ensures var ps := ReadLines(text);
            var p := ps[i];
            && 0 < |p| <= 4095 && '\n' !in p[..|p| - 1]
            && (|p| < 4095 && p[|p| - 1] != '\n' ==> i == |ps| - 1)
    decreases |text|
  {
    hide Find;
    var n := LineEnd(text);
    FirstPiece(text);
    if i == 0 {
      assert n == |text| ==> text[n..] == "";
    } else {
      PiecesAre(text[n..], i - 1);
    }
  }

  lemma {:induction false} FirstPiece(text: string)
    requires text != ""
    ensures var n := LineEnd(text);
            && 0 < n <= 4095 && '\n' !in text[..n][..n - 1]
            && (n < 4095 && text[n - 1] != '\n' ==> n == |text|)
  {
    hide Find;
    var n, f := LineEnd(text), Find(text, '\n');
    assert n - 1 <= f;
    assert text[..n][..n - 1] == text[..f][..n - 1];
  }

  /** The lines written one after the other. */
  function Joined(lines: seq<string>): string {
    if lines == [] then "" else lines[0] + Joined(lines[1..])
  }

  /** A line that ends in its only newline and fits in the buffer. */
  predicate IsLine(line: string) {
    0 < |line| < MAX_LINE_LENGTH && Find(line, '\n') == |line| - 1
  }

  predicate AreLines(lines: seq<string>) {
    forall i :: 0 <= i < |lines| ==> IsLine(lines[i])
  }

  /** The first read of a text takes its first line. */
  lemma {:induction false} FirstRead(line: string, rest: string)
    requires IsLine(line)
    ensures LineEnd(line + rest) == |line| && (line + rest)[..|line|] == line && (line + rest)[|line|..] == rest
  {
    hide Find;
    var text, n := line + rest, |line| - 1;
    assert text[..n] == line[..n] && text[n] == line[n];
    FindIs(text, '\n', n);
  }

  /** What is written is read back line by line. */
  lemma {:induction false} ReadBack(lines: seq<string>)
    requires AreLines(lines)
    ensures ReadLines(Joined(lines)) == lines
  {
    hide Find, LineEnd;
    if lines == [] {
    } else {
      FirstRead(lines[0], Joined(lines[1..]));
      ReadBack(lines[1..]);
    }
  }

  lemma {:induction false} OneNewline(body: string)
    requires '\n' !in body && |body| + 1 < MAX_LINE_LENGTH
    ensures IsLine(body + "\n")
  {
    assert (body + "\n")[..|body|] == body;
    FindIs(body + "\n", '\n', |body|);
  }

  /** The names and texts of a set have no newline and fit in a line. */
  predicate FitsInLine(section: string, key: string, value: string, comment: Option<string>) {
    && '\n' !in section && '\n' !in key && '\n' !in value && (comment.Some? ==> '\n' !in comment.value)
    && LinesFit(section, key, value, comment)
  }

  lemma {:induction false} NewLinesAreLines(section: string, key: string, value: string, comment: Option<string>)
    requires FitsInLine(section, key, value, comment)
    ensures IsLine(PairLine(key, value, comment)) && IsLine(SectionHeader(section) + "\n") && IsLine("\n")
  {
    hide IsLine;
    OneNewline(SectionHeader(section));
    OneNewline("");
    assert "" + "\n" == "\n";
    OneNewline(key + " = " + Behind(value, comment));
    assert PairLine(key, value, comment) == key + " = " + Behind(value, comment) + "\n";
  }

  /** A file that set has written is read back as the lines set made. */
  lemma {:induction false} SetKeepsLines(lines: seq<string>, section: string, key: string, value: string,
                                         comment: Option<string>)
    requires AreLines(lines) && FitsInLine(section, key, value, comment)
    ensures var r := Set(lines, section, key, value, comment);
            r.Done? ==> AreLines(r.lines) && ReadLines(Joined(r.lines)) == r.lines
  {
    hide IsLine, PairLine, SectionHeader, SearchedHeader, Tokens, LastHeaderAt, EndAt, FirstHit, InsertAt, NotIn,
         NoHeaderIn, NoHitIn,
         Joined, ReadLines;
    NewLinesAreLines(section, key, value, comment);
    assert NewPair(key, value, comment) == PairLine(key, value, comment);
    assert NewHeader(section) == SectionHeader(section) + "\n" by {
      HeaderLineFits(section);
    }
    var r := Set(lines, section, key, value, comment);
    if r.Done? {
      ReadBack(r.lines);
    }
  }

  lemma {:induction false} HeaderLineFits(section: string)
    requires |section| + 3 < MAX_LINE_LENGTH
    ensures NewHeader(section) == SectionHeader(section) + "\n"
  {
  }

  lemma {:induction false} DelKeepsLines(lines: seq<string>, section: string, key: Option<string>)
    requires AreLines(lines)
    ensures var r := Del(lines, section, key);
            r.Done? ==> AreLines(r.lines) && ReadLines(Joined(r.lines)) == r.lines
  {
    hide IsLine, Tokens, LastHeaderAt, EndAt, LastHit, SearchedHeader, NotIn, NoHeaderIn, NoHitIn, Joined, ReadLines;
    var r := Del(lines, section, key);
    if r.Done? {
      ReadBack(r.lines);
    }
  }

  // ---------------------------------------------------------------------
  // The three commands, from text to text
  // ---------------------------------------------------------------------

  /** The lines set and del work on. A file that is not there is an empty text. */
  function Loaded(text: string): (lines: seq<string>)
    ensures lines <= ReadLines(text) && |lines| <= MAX_LINES
    ensures lines != ReadLines(text) ==> |lines| == 8192
  {
    var lines := ReadLines(text);
    if |lines| <= MAX_LINES then lines else lines[..MAX_LINES]
  }

  function Stored(r: Outcome): Option<string> {
    match r
    case Done(lines) => Some(Joined(lines))
    case Failed => None
  }

  function GetIn(text: string, section: string, key: string): Option<string> {
    Lookup(ReadLines(text), section, key)
  }

  /** The file after set and del, or None if they fail and leave it alone. */
  function SetIn(text: string, section: string, key: string, value: string, comment: Option<string>): Option<string> {
    Stored(Set(Loaded(text), section, key, value, comment))
  }

  function DelIn(text: string, section: string, key: Option<string>): Option<string> {
    Stored(Del(Loaded(text), section, key))
  }

  /** Every line ends in a newline and fits in the buffer. */
  predicate IsFile(text: string) {
    AreLines(ReadLines(text))
  }

  lemma {:induction false} LoadedAreLines(text: string)
    requires IsFile(text)
    ensures AreLines(Loaded(text))
  {
    hide IsLine, ReadLines;
  }

  /** What is read and written back is the same text. */
  lemma {:induction false} WriteBack(text: string)
    ensures Joined(ReadLines(text)) == text
    decreases |text|
  {
    hide LineEnd;
    if text == "" {
    } else {
      var n := LineEnd(text);
      var first, rest := text[..n], text[n..];
      WriteBack(rest);
      JoinedFirst(first, ReadLines(rest));
      assert first + rest == text;
    }
  }

  lemma {:induction false} JoinedFirst(line: string, lines: seq<string>)
    ensures Joined([line] + lines) == line + Joined(lines)
  {
    assert ([line] + lines)[1..] == lines;
  }

  /** get after set, on the text of the file: the value that was set, up to its first comment
      sign, exactly if a line can have the key and get comes to the line. */
  lemma {:induction false} GetInAfterSetIn(text: string, section: string, key: string, value: string,
                                           comment: Option<string>)
    requires IsFile(text) && FitsInLine(section, key, value, comment)
    ensures var r := SetIn(text, section, key, value, comment);
            r.Some? ==>
              && IsFile(r.value)
              && GetIn(r.value, section, key) ==
                 if GoodKey(key) && Reached(Loaded(text), section, key) then Some(Shown(value)) else None
    ensures var lines, h := Loaded(text), SearchedHeader(section);
            SetIn(text, section, key, value, comment) == None <==>
              && !HasHit(Tokens(lines), h, key)
              && if Header(h) in Tokens(lines) then |lines| >= 8192 else |lines| + 3 >= 8192
    ensures IsTrimmed(value) && NoComment(value) ==> Shown(value) == value
  {
    hide Set, Lookup, Loaded, Joined, ReadLines, AreLines, Reached, GoodKey, Shown, IsTrimmed, NoComment, PairLine,
         HasHit, SearchedHeader, Tokens;
    var lines := Loaded(text);
    LoadedAreLines(text);
    SetKeepsLines(lines, section, key, value, comment);
    GetAfterSet(lines, section, key, value, comment);
  }

  /** Every other lookup is what it was, if set could load the whole file. */
  lemma {:induction false} SetInKeepsOthers(text: string, section: string, key: string, value: string,
                                            comment: Option<string>,
                                            section': string, key': string)
    requires IsFile(text) && |ReadLines(text)| <= MAX_LINES && FitsInLine(section, key, value, comment)
             && !LooksLikeHeader(key)
    requires SearchedHeader(section') != Landing(ReadLines(text), section) ||
             (key' != key && !IsKey(Parse(PairLine(key, value, comment)), key'))
    ensures var r := SetIn(text, section, key, value, comment);
            r.Some? ==> GetIn(r.value, section', key') == GetIn(text, section', key')
  {
    hide Set, Lookup, Joined, ReadLines, AreLines, SearchedHeader, Landing, LooksLikeHeader, PairLine, Parse;
    var lines := ReadLines(text);
    SetKeepsLines(lines, section, key, value, comment);
    SetKeepsOthers(lines, section, key, value, comment, section', key');
  }

  /** Deleting a key just inserted restores the text. */
  lemma {:induction false} DelInUndoesSetIn(text: string, section: string, key: string, value: string,
                                            comment: Option<string>)
    requires IsFile(text) && |ReadLines(text)| < MAX_LINES && FitsInLine(section, key, value, comment) && GoodKey(key)
    requires var ts, h := Tokens(ReadLines(text)), SearchedHeader(section);
             0 <= LastHeaderAt(ts, h, |ts|) && FirstHit(ts, h, key, |ts|) < 0
    ensures var r := SetIn(text, section, key, value, comment);
            r.Some? && DelIn(r.value, section, Some(key)) == Some(text)
  {
    hide Set, Del, Joined, ReadLines, AreLines, SearchedHeader, Tokens, LastHeaderAt, FirstHit, GoodKey, PairLine;
    var lines := ReadLines(text);
    SetKeepsLines(lines, section, key, value, comment);
    DelUndoesInsertion(lines, section, key, value, comment);
    WriteBack(text);
  }

  /** After del of a key or of a section, on the text: what get shows of the key. */
  lemma {:induction false} DelInRemoves(text: string, section: string, key: string)
    requires IsFile(text)
    ensures var ts, h := Tokens(Loaded(text)), SearchedHeader(section);
            && (var r := DelIn(text, section, Some(key));
                r.Some? ==>
                  GetIn(r.value, section, key) ==
                  if FirstHit(ts, h, key, |ts|) == LastHit(ts, h, key, |ts|) then None
                  else Lookup(Loaded(text), section, key))
            && (var r := DelIn(text, section, None);
                r.Some? ==>
                  GetIn(r.value, section, key) ==
                  if HeaderAt(ts, h, 0) == LastHeaderAt(ts, h, |ts|) then None
                  else Lookup(Loaded(text)[..LastHeaderAt(ts, h, |ts|)], section, key))
  {
    hide Del, Lookup, Loaded, Joined, ReadLines, AreLines, SearchedHeader, Tokens, HeaderAt, LastHeaderAt, FirstHit,
         LastHit;
    var lines := Loaded(text);
    LoadedAreLines(text);
    DelKeepsLines(lines, section, Some(key));
    DelKeepsLines(lines, section, None);
    DelKeyRemoves(lines, section, key);
    DelSectionHides(lines, section, key);
  }
}
