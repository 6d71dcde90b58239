/** The display configuration file: its keyword lines, the loop that reads them, and which line decides. */
module DisplayConfig {
  import opened Basics
  import opened Tokenizer

  datatype DisplayType = Unknown | Tablet | Mbox | Tv | Repeater

  datatype Settings = Settings(displayType: DisplayType, socType: string, defaultUI: string)

  // ----- What the lines of a file mean -----

  function KeywordType(word: string): Option<DisplayType> {
    if word == "MBOX" then Some(Mbox)
    else if word == "TV" then Some(Tv)
    else if word == "MID" then Some(Tablet)
    else None
  }

  function At(line: seq<string>, k: nat): string {
    if k < |line| then line[k] else ""
  }

  /** Nothing but white space, or a remark. */
  predicate Ignored(line: seq<string>) {
    At(line, 0) == "" || At(line, 0)[0] == '#'
  }

  predicate HasKeyword(line: seq<string>) {
    !Ignored(line) && KeywordType(line[0]).Some?
  }

  /** A line with a keyword sets everything; words that it lacks become empty. */
  function LineSettings(line: seq<string>, lcdExists: bool): Settings
    requires HasKeyword(line)
  {
    Settings(if lcdExists then KeywordType(line[0]).value else Mbox, At(line, 1), At(line, 2))
  }

  /** The settings after the lines of a file; reading stops at a word that is not a keyword. */
  function Applied(lines: seq<seq<string>>, lcdExists: bool, s: Settings): Settings {
    if lines == [] then s
    else if Ignored(lines[0]) then Applied(lines[1..], lcdExists, s)
    else if HasKeyword(lines[0]) then Applied(lines[1..], lcdExists, LineSettings(lines[0], lcdExists))
    else s
  }

  function Adapted(s: Settings, tvAsMbox: bool): Settings {
    if s.displayType == Tv && tvAsMbox then s.(displayType := Repeater) else s
  }

  /** Line `k` is the last one with a keyword before the first that is neither a keyword line nor ignored. */
  predicate Decides(lines: seq<seq<string>>, k: nat, stop: nat) {
    && k < stop <= |lines| && HasKeyword(lines[k])
    && (forall i :: 0 <= i < k ==> Ignored(lines[i]) || HasKeyword(lines[i]))
    && (forall i :: k < i < stop ==> Ignored(lines[i]))
    && (stop < |lines| ==> !Ignored(lines[stop]) && !HasKeyword(lines[stop]))
  }

  /** That line alone decides the settings. */
  lemma {:induction false} LastKeywordDecides(lines: seq<seq<string>>, k: nat, stop: nat, lcdExists: bool, s: Settings)
    requires Decides(lines, k, stop)
    ensures Applied(lines, lcdExists, s) == LineSettings(lines[k], lcdExists)
  {
    if k > 0 {
      var t := if Ignored(lines[0]) then s else LineSettings(lines[0], lcdExists);
      LastKeywordDecides(lines[1..], k - 1, stop - 1, lcdExists, t);
    } else {
      IgnoredChangeNothing(lines[1..], stop - 1, lcdExists, LineSettings(lines[0], lcdExists));
    }
  }

  lemma {:induction false} IgnoredChangeNothing(lines: seq<seq<string>>, stop: nat, lcdExists: bool, s: Settings)
    requires stop <= |lines| && (forall i :: 0 <= i < stop ==> Ignored(lines[i]))
    requires stop < |lines| ==> !Ignored(lines[stop]) && !HasKeyword(lines[stop])
    ensures Applied(lines, lcdExists, s) == s
  {
    if stop > 0 {
      IgnoredChangeNothing(lines[1..], stop - 1, lcdExists, s);
    }
  }

  /** A file that prints the keyword, SoC name and UI value of some settings is read back, whatever keyword lines
      and remarks come before and remarks after; without an LCD the type becomes that of a box. */
  lemma PrintedSettingsAreRead(lines: seq<Line>, k: nat, lcdExists: bool, s: Settings)
    requires forall l :: l in lines ==> Printable(l.words, WHITESPACE, true) && AllDelimiters(l.end, WHITESPACE)
    requires Decides(LineTexts(lines), k, |LineTexts(lines)|)
    ensures Applied(ReadLines(Print(lines), WHITESPACE), lcdExists, s)
            == LineSettings(LineTexts(lines)[k], lcdExists)
  {
    PrintedIsReadBack(lines, WHITESPACE);
    LastKeywordDecides(LineTexts(lines), k, |LineTexts(lines)|, lcdExists, s);
  }

  // ----- In the words of the file -----

  /** The lines that are passed over, and the keywords. */
  lemma WordsAre(line: seq<string>)
    ensures Ignored(line) <==> line == [] || line[0] == "" || line[0][0] == '#'
    ensures HasKeyword(line) <==> line != [] && line[0] in {"MBOX", "TV", "MID"}
  {}

  /** What the service ends with when a line decides that has the words `word`, `soc` and `ui`, and maybe more: a box
      without an LCD; with one what the word says, except that a TV may be used as a box. */
  lemma DecidingWordsSet(lines: seq<seq<string>>, k: nat, stop: nat, lcdExists: bool, tvAsMbox: bool, s: Settings,
                         word: string, soc: string, ui: string)
    requires Decides(lines, k, stop) && [word, soc, ui] <= lines[k]
    ensures word in {"MBOX", "TV", "MID"}
    ensures Adapted(Applied(lines, lcdExists, s), tvAsMbox)
            == Settings(if !lcdExists || word == "MBOX" then Mbox
                        else if word == "MID" then Tablet
                        else if tvAsMbox then Repeater else Tv, soc, ui)
  {
    LastKeywordDecides(lines, k, stop, lcdExists, s);
    assert lines[k][0] == word && lines[k][1] == soc && lines[k][2] == ui;
  }

  /** The same for a file as printed: its text is enough. */
  lemma PrintedWordsSet(lines: seq<Line>, k: nat, lcdExists: bool, tvAsMbox: bool, s: Settings,
                        word: string, soc: string, ui: string)
    requires forall l :: l in lines ==> Printable(l.words, WHITESPACE, true) && AllDelimiters(l.end, WHITESPACE)
    requires Decides(LineTexts(lines), k, |LineTexts(lines)|) && [word, soc, ui] <= LineTexts(lines)[k]
    ensures Adapted(Applied(ReadLines(Print(lines), WHITESPACE), lcdExists, s), tvAsMbox)
            == Settings(if !lcdExists || word == "MBOX" then Mbox
                        else if word == "MID" then Tablet
                        else if tvAsMbox then Repeater else Tv, soc, ui)
  {
    hide Applied, Adapted, Decides;
    PrintedIsReadBack(lines, WHITESPACE);
    DecidingWordsSet(LineTexts(lines), k, |LineTexts(lines)|, lcdExists, tvAsMbox, s, word, soc, ui);
  }

  /** A keyword line of fewer words leaves the rest empty. */
  lemma FewWordsSet(line: seq<string>, lcdExists: bool)
    requires HasKeyword(line)
    ensures LineSettings(line, lcdExists).socType == if |line| == 1 then "" else line[1]
    ensures LineSettings(line, lcdExists).defaultUI == if |line| <= 2 then "" else line[2]
  {}

  /** Without a keyword line, only a TV used as a box changes. */
  lemma NoKeywordKeeps(lines: seq<seq<string>>, stop: nat, lcdExists: bool, tvAsMbox: bool, s: Settings)
    requires stop <= |lines| && (forall i :: 0 <= i < stop ==> Ignored(lines[i]))
    requires stop < |lines| ==> !Ignored(lines[stop]) && !HasKeyword(lines[stop])
    ensures Adapted(Applied(lines, lcdExists, s), tvAsMbox)
            == Settings(if s.displayType == Tv && tvAsMbox then Repeater else s.displayType, s.socType, s.defaultUI)
  {
    IgnoredChangeNothing(lines, stop, lcdExists, s);
  }

  // ----- Reading a line word by word -----

  function NextWord(s: string): string {
    var ahead := s[GapLength(s, WHITESPACE)..];
    ahead[..TokenLength(ahead, WHITESPACE)]
  }

  /** The text after the next word. */
  function PastWord(s: string): string {
    var ahead := s[GapLength(s, WHITESPACE)..];
    ahead[TokenLength(ahead, WHITESPACE)..]
  }

  function PastLine(s: string): string {
    s[LineLength(s)..]
  }

  lemma {:induction false} WithinLine(s: string, k: nat)
    requires k <= |s| && NoNewline(s[..k])
    ensures PastLine(s[k..]) == PastLine(s)
  {
    if k == 0 {
      assert s[0..] == s;
    } else {
      assert s[0] == s[..k][0];
      assert s[1..][..k - 1] == s[..k][1..];
      WithinLine(s[1..], k - 1);
      assert s[1..][k - 1..] == s[k..];
    }
  }

  /** Skipping a gap or reading a word stays on the line. */
  lemma SkippingStaysOnLine(s: string)
    ensures PastLine(s[GapLength(s, WHITESPACE)..]) == PastLine(s)
  {
    GapIsDelimiters(s, WHITESPACE);
    WithinLine(s, GapLength(s, WHITESPACE));
  }

  lemma ReadingStaysOnLine(s: string)
    ensures PastLine(s[TokenLength(s, WHITESPACE)..]) == PastLine(s)
  {
    TokenIsMaximal(s, WHITESPACE);
    WithinLine(s, TokenLength(s, WHITESPACE));
  }

  lemma WordStaysOnLine(s: string)
    ensures PastLine(PastWord(s)) == PastLine(s)
  {
    SkippingStaysOnLine(s);
    ReadingStaysOnLine(s[GapLength(s, WHITESPACE)..]);
  }

  // ----- The words that are read -----

  const FIELD_LEN := 64

  /** The first word of a line fits the tokenizer's buffer, and the two after a keyword their fields. */
  predicate LineFits(s: string) {
    !IgnoresLine(s) ==>
      && |NextWord(s)| < MAX_STR_LEN
      && (KeywordType(NextWord(s)).Some? ==>
            |NextWord(PastWord(s))| < FIELD_LEN && |NextWord(PastWord(PastWord(s)))| < FIELD_LEN)
  }

  predicate GoesOn(s: string) {
    IgnoresLine(s) || KeywordType(NextWord(s)).Some?
  }

  /** So it is for every line that is read. */
  predicate WordsFit(s: string)
    decreases |s|
  {
    s != "" ==> LineFits(s) && (GoesOn(s) ==> WordsFit(PastLine(s)))
  }

  /** The words of a line are those met one after the other. */
  lemma LineOfWords(s: string)
    ensures At(ReadLine(s, WHITESPACE).0, 0) == NextWord(s)
    ensures forall k: nat :: At(ReadLine(s, WHITESPACE).0, k + 1) == At(ReadLine(PastWord(s), WHITESPACE).0, k)
  {
    hide TokenLength, GapLength;
    var ahead := s[GapLength(s, WHITESPACE)..];
    if EndsLine(ahead) {
      NothingAtEnd(ahead);
      assert ahead[0..] == ahead;
    }
  }

  lemma NothingAtEnd(s: string)
    requires EndsLine(s)
    ensures TokenLength(s, WHITESPACE) == 0 && ReadLine(s, WHITESPACE) == ([], 0)
  {}

  lemma {:induction false} LineStaysOnLine(s: string)
    ensures PastLine(s[ReadLine(s, WHITESPACE).1..]) == PastLine(s)
    decreases |s|
  {
    hide TokenLength, GapLength, LineLength;
    var gap := GapLength(s, WHITESPACE);
    var ahead := s[gap..];
    SkippingStaysOnLine(s);
    if !EndsLine(ahead) {
      var n := TokenLength(ahead, WHITESPACE);
      ReadingStaysOnLine(ahead);
      LineStaysOnLine(ahead[n..]);
      assert s[ReadLine(s, WHITESPACE).1..] == ahead[n..][ReadLine(ahead[n..], WHITESPACE).1..];
    }
  }

  /** The lines of a text are its first and those of the rest. */
  lemma LinesSplit(s: string)
    requires s != ""
    ensures ReadLines(s, WHITESPACE) == [ReadLine(s, WHITESPACE).0] + ReadLines(PastLine(s), WHITESPACE)
    ensures |PastLine(s)| < |s|
  {
    LineStaysOnLine(s);
  }

  lemma NoLines()
    ensures ReadLines("", WHITESPACE) == []
  {}

  /** What a round meets on its line. */
  lemma WordsOfRound(s: string)
    ensures var line := ReadLine(s, WHITESPACE).0;
            && (Ignored(line) <==> IgnoresLine(s))
            && At(line, 0) == NextWord(s) && At(line, 1) == NextWord(PastWord(s))
            && At(line, 2) == NextWord(PastWord(PastWord(s)))
    ensures PastLine(s[GapLength(s, WHITESPACE)..]) == PastLine(PastWord(PastWord(PastWord(s)))) == PastLine(s)
  {
    hide TokenLength, GapLength, ReadLine, PastLine, NextWord, PastWord;
    var t := PastWord(s);
    LineOfWords(s);
    LineOfWords(t);
    LineOfWords(PastWord(t));
    assert At(ReadLine(s, WHITESPACE).0, 2) == At(ReadLine(t, WHITESPACE).0, 1)
        == At(ReadLine(PastWord(t), WHITESPACE).0, 0);
    assert At(ReadLine(s, WHITESPACE).0, 1) == At(ReadLine(t, WHITESPACE).0, 0);
    WordStaysOnLine(s);
    WordStaysOnLine(t);
    WordStaysOnLine(PastWord(t));
    SkippingStaysOnLine(s);
    FirstWord(s);
  }

  /** The test of the loop, after a gap is skipped. */
  predicate IgnoresLine(s: string) {
    var ahead := s[GapLength(s, WHITESPACE)..];
    EndsLine(ahead) || ahead[0] == '#'
  }

  lemma KeywordLine(line: seq<string>)
    requires !Ignored(line)
    ensures |line| > 0 && line[0] == At(line, 0) && (HasKeyword(line) <==> KeywordType(line[0]).Some?)
  {}

  lemma FirstWord(s: string)
    ensures var ahead := s[GapLength(s, WHITESPACE)..];
            && (EndsLine(ahead) <==> NextWord(s) == "") && (!EndsLine(ahead) ==> NextWord(s)[0] == ahead[0])
  {}
}
