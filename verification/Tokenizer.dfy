/** A cursor over a text file that hands out tokens line by line. */
module Tokenizer {

  const MAX_STR_LEN := 4096
  const NUL := '\0'

  /** What separates the tokens of the service's configuration files. */
  const WHITESPACE := " \t\r"

  /** The search runs through the terminator of the delimiter string, so NUL is always a delimiter. */
  predicate IsDelimiter(ch: char, delimiters: string) {
    ch in delimiters || ch == NUL
  }

  // ----- How far each operation moves, on the text ahead of the cursor -----

  /** The length of the token at the start of `s`. */
  function TokenLength(s: string, delimiters: string): (n: nat)
    ensures n <= |s|
    ensures s != "" && s[0] != '\n' && !IsDelimiter(s[0], delimiters) ==> n > 0
  {
    if s == "" || s[0] == '\n' || IsDelimiter(s[0], delimiters) then 0 else 1 + TokenLength(s[1..], delimiters)
  }

  /** The length of the run of delimiters at the start of `s`. */
  function GapLength(s: string, delimiters: string): (n: nat)
    ensures n <= |s|
    ensures n < |s| ==> s[n] == '\n' || !IsDelimiter(s[n], delimiters)
  {
    if s == "" || s[0] == '\n' || !IsDelimiter(s[0], delimiters) then 0 else 1 + GapLength(s[1..], delimiters)
  }

  /** The length of the rest of the line, its newline included. */
  function LineLength(s: string): (n: nat)
    ensures n <= |s| && (s != "" ==> n > 0)
  {
    if s == "" then 0 else if s[0] == '\n' then 1 else 1 + LineLength(s[1..])
  }

  /** A token holds no newline and no delimiter, NUL included, and ends at one or at the end of the text. */
  lemma {:induction false} TokenIsMaximal(s: string, delimiters: string)
    ensures var n := TokenLength(s, delimiters);
            && (forall i :: 0 <= i < n ==> s[i] != '\n' && !IsDelimiter(s[i], delimiters))
            && (n < |s| ==> s[n] == '\n' || IsDelimiter(s[n], delimiters))
  {
    if TokenLength(s, delimiters) > 0 {
      TokenIsMaximal(s[1..], delimiters);
    }
  }

  lemma {:induction false} GapIsDelimiters(s: string, delimiters: string)
    ensures AllDelimiters(s[..GapLength(s, delimiters)], delimiters)
  {
    var n := GapLength(s, delimiters);
    if n > 0 {
      GapIsDelimiters(s[1..], delimiters);
      assert s[..n] == [s[0]] + s[1..][..n - 1];
    }
  }

  /** The rest of a line ends after its first newline, or at the end of the text. */
  lemma {:induction false} LineEndsAtNewline(s: string)
    ensures var n := LineLength(s);
            && (forall i :: 0 <= i < n - 1 ==> s[i] != '\n')
            && (0 < n < |s| ==> s[n - 1] == '\n')
  {
    if LineLength(s) > 1 {
      LineEndsAtNewline(s[1..]);
    }
  }

  function Newlines(s: string): nat {
    if s == "" then 0 else Newlines(s[..|s| - 1]) + if s[|s| - 1] == '\n' then 1 else 0
  }

  predicate NoNewline(s: string) {
    '\n' !in s
  }

  predicate AllDelimiters(s: string, delimiters: string) {
    forall i :: 0 <= i < |s| ==> s[i] != '\n' && IsDelimiter(s[i], delimiters)
  }

  predicate IsToken(s: string, delimiters: string) {
    s != "" && forall i :: 0 <= i < |s| ==> s[i] != '\n' && !IsDelimiter(s[i], delimiters)
  }

  lemma WhitespaceIs(ch: char)
    ensures IsDelimiter(ch, WHITESPACE) <==> ch == ' ' || ch == '\t' || ch == '\r' || ch == '\0'
  {}

  lemma {:induction false} NewlinesAre(s: string)
    ensures Newlines(s) == multiset(s)['\n']
  {
    if s != "" {
      NewlinesAre(s[..|s| - 1]);
      assert s == s[..|s| - 1] + [s[|s| - 1]];
    }
  }

  /** A zero-terminated string in a buffer. */
  ghost predicate HoldsString(buffer: seq<char>, s: string) {
    |s| < |buffer| && buffer[|s|] == NUL && forall i :: 0 <= i < |s| ==> buffer[i] == s[i] && s[i] != NUL
  }

  lemma OneFurther(s: string, i: nat)
    requires i < |s|
    ensures s[i..][1..] == s[i + 1..] && s[i..][0] == s[i]
    ensures Newlines(s[..i + 1]) == Newlines(s[..i]) + if s[i] == '\n' then 1 else 0
  {
    assert s[..i + 1][..i] == s[..i];
  }

  lemma GapStarts(s: string, delimiters: string)
    ensures GapLength(s, delimiters)
            == if s == "" || s[0] == '\n' || !IsDelimiter(s[0], delimiters) then 0
               else 1 + GapLength(s[1..], delimiters)
  {}

  class SysTokenizer {
    const buffer: string
    var current: nat
    var lineNumber: nat
    const strs: array<char>

    ghost predicate Valid()
      reads this
    {
      && strs.Length == MAX_STR_LEN
      && current <= |buffer|
      && lineNumber == 1 + Newlines(buffer[..current])
    }

    ghost function Ahead(): string
      reads this
      requires Valid()
    {
      buffer[current..]
    }

    constructor (contents: string)
      ensures Valid() && buffer == contents && current == 0 && lineNumber == 1 && fresh(strs)
    {
      buffer, current, lineNumber := contents, 0, 1;
      strs := new char[MAX_STR_LEN];
    }

    predicate IsEof()
      reads this
    {
      current == |buffer|
    }

    predicate IsEol()
      requires Valid()
      reads this
    {
      IsEof() || buffer[current] == '\n'
    }

    function PeekChar(): char
      requires Valid()
      reads this
    {
      if IsEof() then NUL else buffer[current]
    }

    /** The token is handed out in the tokenizer's own buffer. */
    method NextToken(delimiters: string)
      requires Valid() && TokenLength(Ahead(), delimiters) < MAX_STR_LEN
      modifies this`current, strs
      ensures Valid()
      ensures Ahead() == old(Ahead())[TokenLength(old(Ahead()), delimiters)..]
      ensures current == old(current) + TokenLength(old(Ahead()), delimiters)
      ensures HoldsString(strs[..], old(Ahead())[..TokenLength(old(Ahead()), delimiters)])
    {
      hide TokenLength;
      var tokenStart := current;
      PassToken(delimiters);
      TokenIsMaximal(buffer[tokenStart..], delimiters);
      assert buffer[tokenStart..][..current - tokenStart] == buffer[tokenStart..current];
      StoreToken(buffer[tokenStart..current]);
    }

    /** Move the cursor past the token. */
    method PassToken(delimiters: string)
      requires Valid()
      modifies this`current
      ensures Valid() && current == old(current) + TokenLength(old(Ahead()), delimiters)
    {
      hide Newlines;
      while current != |buffer|
        invariant Valid()
        invariant TokenLength(old(Ahead()), delimiters) == current - old(current) + TokenLength(Ahead(), delimiters)
        decreases |buffer| - current
      {
        var ch := buffer[current];
        if ch == '\n' || IsDelimiter(ch, delimiters) {
          break;
        }
        OneFurther(buffer, current);
        current := current + 1;
      }
    }

    /** Clear the token buffer and copy the token to its front. */
    method StoreToken(token: string)
      requires |token| < strs.Length && NUL !in token
      modifies strs
      ensures HoldsString(strs[..], token)
    {
      for i := 0 to strs.Length
        invariant forall j :: 0 <= j < i ==> strs[j] == NUL
      {
        strs[i] := NUL;
      }
      for i := 0 to |token|
        invariant strs[..i] == token[..i] && forall j :: i <= j < strs.Length ==> strs[j] == NUL
      {
        strs[i] := token[i];
      }
    }

    method NextLine()
      requires Valid()
      modifies this`current, this`lineNumber
      ensures Valid() && current == old(current) + LineLength(old(Ahead()))
    {
      hide Newlines;
      while current != |buffer|
        invariant Valid()
        invariant LineLength(old(Ahead())) == current - old(current) + LineLength(Ahead())
        decreases |buffer| - current
      {
        var ch := buffer[current];
        OneFurther(buffer, current);
        current := current + 1;
        if ch == '\n' {
          lineNumber := lineNumber + 1;
          break;
        }
      }
    }

    method SkipDelimiters(delimiters: string)
      requires Valid()
      modifies this`current
      ensures Valid() && current == old(current) + GapLength(old(Ahead()), delimiters)
      ensures Ahead() == old(Ahead())[GapLength(old(Ahead()), delimiters)..]
    {
      hide Newlines, GapLength;
      GapStarts("", delimiters);
      while current != |buffer|
        invariant Valid()
        invariant GapLength(old(Ahead()), delimiters) == current - old(current) + GapLength(Ahead(), delimiters)
        decreases |buffer| - current
      {
        var ch := buffer[current];
        GapStarts(Ahead(), delimiters);
        if ch == '\n' || !IsDelimiter(ch, delimiters) {
          break;
        }
        OneFurther(buffer, current);
        current := current + 1;
      }
    }
  }

  /** Read the zero-terminated string in a buffer. */
  method CString(buffer: array<char>, ghost s: string) returns (r: string)
    requires HoldsString(buffer[..], s)
    ensures r == s
  {
    var i := 0;
    while i < buffer.Length && buffer[i] != NUL
      invariant 0 <= i <= |s|
    {
      i := i + 1;
    }
    r := buffer[..i];
  }

  // ----- Printed text is read back -----

  /** A token is read whole when a delimiter, a newline or the end follows it. */
  lemma {:induction false} TokenRead(token: string, rest: string, delimiters: string)
    requires forall i :: 0 <= i < |token| ==> token[i] != '\n' && !IsDelimiter(token[i], delimiters)
    requires rest == "" || rest[0] == '\n' || IsDelimiter(rest[0], delimiters)
    ensures TokenLength(token + rest, delimiters) == |token|
  {
    if token == "" {
      assert token + rest == rest;
    } else {
      TokenRead(token[1..], rest, delimiters);
      assert (token + rest)[1..] == token[1..] + rest;
    }
  }

  /** A gap is skipped whole when a newline, the end or another character follows it. */
  lemma {:induction false} GapSkipped(gap: string, rest: string, delimiters: string)
    requires AllDelimiters(gap, delimiters)
    requires rest == "" || rest[0] == '\n' || !IsDelimiter(rest[0], delimiters)
    ensures GapLength(gap + rest, delimiters) == |gap|
  {
    if gap == "" {
      assert gap + rest == rest;
    } else {
      GapSkipped(gap[1..], rest, delimiters);
      assert (gap + rest)[1..] == gap[1..] + rest;
    }
  }

  /** The text at the end of a line: none, or a newline and more. */
  predicate EndsLine(tail: string) {
    tail == "" || tail[0] == '\n'
  }

  function EndLength(tail: string): nat {
    if tail == "" then 0 else 1
  }

  lemma {:induction false} LineFinished(text: string, tail: string)
    requires NoNewline(text) && EndsLine(tail)
    ensures LineLength(text + tail) == |text| + EndLength(tail)
  {
    if text == "" {
      assert text + tail == tail;
    } else {
      LineFinished(text[1..], tail);
      assert (text + tail)[1..] == text[1..] + tail;
    }
  }

  /** A token and the delimiters printed before it. */
  datatype Word = Word(gap: string, text: string)

  /** A line of tokens and the delimiters printed at its end. */
  datatype Line = Line(words: seq<Word>, end: string)

  function WordsText(words: seq<Word>): string {
    if words == [] then "" else words[0].gap + words[0].text + WordsText(words[1..])
  }

  function Print(lines: seq<Line>): string {
    if lines == [] then "" else WordsText(lines[0].words) + lines[0].end + "\n" + Print(lines[1..])
  }

  function Texts(words: seq<Word>): seq<string> {
    if words == [] then [] else [words[0].text] + Texts(words[1..])
  }

  function LineTexts(lines: seq<Line>): seq<seq<string>> {
    if lines == [] then [] else [Texts(lines[0].words)] + LineTexts(lines[1..])
  }

  /** Tokens are not empty and set apart from each other; the first may start the line. */
  predicate Printable(words: seq<Word>, delimiters: string, first: bool) {
    words == [] || (
      && AllDelimiters(words[0].gap, delimiters) && (first || words[0].gap != "")
      && IsToken(words[0].text, delimiters)
      && Printable(words[1..], delimiters, false))
  }

  /** Skip and read until the end of the line: the tokens of the line, and how much of `s` they take. */
  function ReadLine(s: string, delimiters: string): (r: (seq<string>, nat))
    ensures r.1 <= |s|
    decreases |s|
  {
    hide TokenLength, GapLength;
    var gap := GapLength(s, delimiters);
    var ahead := s[gap..];
    if ahead == "" || ahead[0] == '\n' then ([], gap)
    else
      var n := TokenLength(ahead, delimiters);
      var (texts, used) := ReadLine(ahead[n..], delimiters);
      ([ahead[..n]] + texts, gap + n + used)
  }

  /** Read lines until the end of the file. */
  function ReadLines(s: string, delimiters: string): seq<seq<string>>
    decreases |s|
  {
    if s == "" then []
    else
      var (texts, used) := ReadLine(s, delimiters);
      var ahead := s[used..];
      [texts] + ReadLines(ahead[LineLength(ahead)..], delimiters)
  }

  lemma FirstWordRead(s: string, delimiters: string)
    ensures var ahead := s[GapLength(s, delimiters)..];
            var n := TokenLength(ahead, delimiters);
            !EndsLine(ahead) ==>
              var (texts, used) := ReadLine(ahead[n..], delimiters);
              ReadLine(s, delimiters) == ([ahead[..n]] + texts, GapLength(s, delimiters) + n + used)
  {
    hide GapLength, TokenLength, IsDelimiter;
  }

  /** After a gap, a token is read and the rest of the line follows. */
  lemma WordRead(w: Word, tail: string, delimiters: string)
    requires AllDelimiters(w.gap, delimiters) && IsToken(w.text, delimiters)
    requires tail == "" || tail[0] == '\n' || IsDelimiter(tail[0], delimiters)
    ensures var (texts, used) := ReadLine(tail, delimiters);
            ReadLine(w.gap + w.text + tail, delimiters) == ([w.text] + texts, |w.gap| + |w.text| + used)
  {
    hide GapLength, TokenLength, ReadLine;
    var s := w.gap + w.text + tail;
    var ahead := w.text + tail;
    assert GapLength(s, delimiters) == |w.gap| && s[|w.gap|..] == ahead by {
      assert s == w.gap + ahead;
      GapSkipped(w.gap, ahead, delimiters);
    }
    assert TokenLength(ahead, delimiters) == |w.text| by {
      TokenRead(w.text, tail, delimiters);
    }
    assert ahead[..|w.text|] == w.text && ahead[|w.text|..] == tail;
    assert ahead[0] == w.text[0] != '\n';
    FirstWordRead(s, delimiters);
  }

  /** What follows a word starts with a delimiter or a newline, or is empty. */
  lemma TailIsApart(words: seq<Word>, end: string, rest: string, delimiters: string)
    requires Printable(words, delimiters, false) && AllDelimiters(end, delimiters)
    requires rest == "" || rest[0] == '\n'
    ensures var tail := WordsText(words) + end + rest;
            tail == "" || tail[0] == '\n' || IsDelimiter(tail[0], delimiters)
  {
    var tail := WordsText(words) + end + rest;
    if words != [] {
      assert tail[0] == words[0].gap[0];
    } else if end != "" {
      assert tail[0] == end[0];
    } else {
      assert tail == rest;
    }
  }

  lemma {:induction false} WordsRead(s: string, words: seq<Word>, end: string, rest: string, delimiters: string,
                                     first: bool)
    requires Printable(words, delimiters, first) && AllDelimiters(end, delimiters)
    requires rest == "" || rest[0] == '\n'
    requires s == WordsText(words) + end + rest
    ensures ReadLine(s, delimiters).0 == Texts(words) && ReadLine(s, delimiters).1 == |s| - |rest|
    decreases words
  {
    if words == [] {
      EndRead(end, rest, delimiters);
      assert s == end + rest;
    } else {
      var tail := WordsText(words[1..]) + end + rest;
      FirstWordSplits(words, end, rest);
      WordsRead(tail, words[1..], end, rest, delimiters, false);
      assert s == words[0].gap + words[0].text + tail;
      assert ReadLine(s, delimiters).0 == [words[0].text] + ReadLine(tail, delimiters).0
          && ReadLine(s, delimiters).1 == |words[0].gap| + |words[0].text| + ReadLine(tail, delimiters).1 by {
        TailIsApart(words[1..], end, rest, delimiters);
        WordRead(words[0], tail, delimiters);
      }
    }
  }

  lemma FirstWordSplits(words: seq<Word>, end: string, rest: string)
    requires words != []
    ensures WordsText(words) + end + rest
            == words[0].gap + words[0].text + (WordsText(words[1..]) + end + rest)
  {}

  lemma EndRead(end: string, rest: string, delimiters: string)
    requires AllDelimiters(end, delimiters)
    requires rest == "" || rest[0] == '\n'
    ensures ReadLine(end + rest, delimiters) == ([], |end|)
  {
    GapSkipped(end, rest, delimiters);
    assert (end + rest)[|end|..] == rest;
  }

  lemma LineRead(line: Line, more: string, delimiters: string)
    requires Printable(line.words, delimiters, true) && AllDelimiters(line.end, delimiters)
    ensures ReadLines(WordsText(line.words) + line.end + "\n" + more, delimiters)
            == [Texts(line.words)] + ReadLines(more, delimiters)
  {
    var text := WordsText(line.words) + line.end;
    var rest := "\n" + more;
    var s := WordsText(line.words) + line.end + "\n" + more;
    assert s == text + rest;
    WordsRead(s, line.words, line.end, rest, delimiters, true);
    assert s[|text|..] == rest;
    LineFinished("", rest);
    assert "" + rest == rest && rest[1..] == more;
  }

  /** Reading back any printed lines yields their tokens, line by line. */
  lemma {:induction false} PrintedIsReadBack(lines: seq<Line>, delimiters: string)
    requires forall l :: l in lines ==> Printable(l.words, delimiters, true) && AllDelimiters(l.end, delimiters)
    ensures ReadLines(Print(lines), delimiters) == LineTexts(lines)
  {
    if lines != [] {
      assert lines[0] in lines;
      LineRead(lines[0], Print(lines[1..]), delimiters);
      PrintedIsReadBack(lines[1..], delimiters);
    }
  }
}
