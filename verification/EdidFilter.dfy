/** The list of filtered sinks: its file format, its parser, and the decision taken from it. */
module EdidFilter {
  import opened Basics
  import opened Tokenizer

  // ----- The parser, one round of its loop at a time, on the text ahead of the cursor -----

  /** The entries found so far and the one being collected. */
  datatype Parse = Parse(list: seq<string>, edid: string)

  function FirstIs(s: string, ch: char): bool {
    s != "" && s[0] == ch
  }

  /** What one round does to the parse, and how many characters it consumes. */
  function Round(s: string, p: Parse): (r: (Parse, nat))
    ensures r.1 <= |s| && (s != "" ==> r.1 > 0)
  {
    var gap := GapLength(s, WHITESPACE);
    var ahead := s[gap..];
    var p1 := if FirstIs(ahead, '*') then Parse(p.list + [p.edid], "") else p;
    if ahead != "" && ahead[0] !in {'\n', '*', '#'} then
      var n := TokenLength(ahead, WHITESPACE);
      (Parse(p1.list, p1.edid + ahead[..n]), gap + n + LineLength(ahead[n..]))
    else (p1, gap + LineLength(ahead))
  }

  function ParseText(s: string, p: Parse): Parse
    decreases |s|
  {
    if s == "" then p
    else
      var (q, n) := Round(s, p);
      ParseText(s[n..], q)
  }

  const NOTHING := Parse([], "")

  /** Every word that the parser reads fits the tokenizer's buffer with its terminator; remarks are not read. */
  predicate WordsFit(s: string, p: Parse)
    decreases |s|
  {
    s != "" ==>
      var (q, n) := Round(s, p);
      WordFits(s) && WordsFit(s[n..], q)
  }

  predicate WordFits(s: string) {
    var ahead := s[GapLength(s, WHITESPACE)..];
    ahead != "" && ahead[0] !in {'\n', '*', '#'} ==> TokenLength(ahead, WHITESPACE) < MAX_STR_LEN
  }

  /** The map of the entries under the keys 0, 1, ..., over what was there before. */
  function Numbered(list: seq<string>, base: map<int, string>): (m: map<int, string>)
    ensures forall k :: k in m <==> k in base || 0 <= k < |list|
    ensures forall k :: 0 <= k < |list| ==> m[k] == list[k]
    ensures forall k :: k in base && !(0 <= k < |list|) ==> m[k] == base[k]
  {
    base + map k | 0 <= k < |list| :: list[k]
  }

  lemma NumberedGrows(list: seq<string>, edid: string, base: map<int, string>)
    ensures Numbered(list, base)[|list| := edid] == Numbered(list + [edid], base)
  {}

  /** The keys of the list are 0, 1, ..., up to its size. */
  ghost predicate Contiguous(m: map<int, string>) {
    forall k :: k in m <==> 0 <= k < |m|
  }

  lemma NumberedIsContiguous(list: seq<string>, base: map<int, string>)
    requires Contiguous(base)
    ensures Contiguous(Numbered(list, base))
    ensures |Numbered(list, base)| == if |list| < |base| then |base| else |list|
  {
    KeysCount(Numbered(list, base).Keys, if |list| < |base| then |base| else |list|);
  }

  lemma {:induction false} KeysCount(s: set<int>, n: nat)
    requires forall k :: k in s <==> 0 <= k < n
    ensures |s| == n
  {
    if n == 0 {
      assert forall k :: k !in s;
    } else {
      KeysCount(s - {n - 1}, n - 1);
    }
  }

  // ----- The deep-colour decision -----

  const EDID_SIZE := 1025

  function CharAt(s: string): char {
    if s == "" then NUL else s[0]
  }

  /** strncmp(a, b, n) == 0, for strings that end at their first NUL. */
  predicate SamePrefix(a: string, b: string, n: nat) {
    n == 0 || (CharAt(a) == CharAt(b) &&
      (CharAt(a) == NUL || SamePrefix(a[1..], b[1..], n - 1)))
  }

  /** Strings without NUL of which one is shorter than the bound agree on the bound exactly if they are equal. */
  lemma {:induction false} SamePrefixIsEquality(a: string, b: string, n: nat)
    requires NUL !in a && NUL !in b && |b| < n
    ensures SamePrefix(a, b, n) <==> a == b
  {
    if a == "" || b == "" {
      if a != "" { assert a[0] in a; }
      if b != "" { assert b[0] in b; }
    } else {
      assert a[0] in a && b[0] in b;
      assert a == [a[0]] + a[1..] && b == [b[0]] + b[1..];
      SamePrefixIsEquality(a[1..], b[1..], n - 1);
    }
  }

  ghost predicate Filtered(list: map<int, string>, raw: string) {
    exists k :: 0 <= k < |list| && k in list && SamePrefix(list[k], raw, EDID_SIZE)
  }

  class FormatColorDepth {
    var filterEdid: map<int, string>
    /** The modes the driver was asked about. */
    var asked: seq<string>

    constructor ()
      ensures filterEdid == map[] && asked == []
    {
      filterEdid, asked := map[], [];
    }

    method SetFilterEdidList(list: map<int, string>)
      modifies this`filterEdid
      ensures filterEdid == list
    {
      filterEdid := list;
    }

    method StrnCmpIsZero(a: string, b: string, n: nat) returns (same: bool)
      ensures same <==> SamePrefix(a, b, n)
    {
      var i := 0;
      var x, y := a, b;
      while i < n
        invariant 0 <= i <= n
        invariant SamePrefix(a, b, n) <==> SamePrefix(x, y, n - i)
      {
        if CharAt(x) != CharAt(y) {
          return false;
        }
        if CharAt(x) == NUL {
          return true;
        }
        x, y, i := x[1..], y[1..], i + 1;
      }
      return true;
    }

    method IsFilterEdid(raw: string) returns (filtered: bool)
      requires Contiguous(filterEdid)
      ensures filtered <==> Filtered(filterEdid, raw)
    {
      var edidNumber := 0;
      while edidNumber < |filterEdid|
        invariant 0 <= edidNumber <= |filterEdid|
        invariant forall k :: 0 <= k < edidNumber ==> !SamePrefix(filterEdid[k], raw, EDID_SIZE)
      {
        var same := StrnCmpIsZero(filterEdid[edidNumber], raw, EDID_SIZE);
        if same {
          return true;
        }
        edidNumber := edidNumber + 1;
      }
      return false;
    }

    /** `raw` is the raw EDID of the sink, `driver` what the driver answers for a mode written to it. */
    method IsModeSupportDeepColorAttr(mode: string, color: string, raw: string, driver: string -> int)
      returns (supported: bool)
      requires Contiguous(filterEdid)
      modifies this`asked
      ensures supported == Supported(filterEdid, raw, mode, color, driver)
      ensures asked == if Filtered(filterEdid, raw) && !Mentions(color, "8bit")
                       then old(asked) else old(asked) + [mode + color]
    {
      var outputmode := mode + color;
      var filtered := IsFilterEdid(raw);
      var is8bit := Contains(color, "8bit");
      if filtered && !is8bit {
        return false;
      }
      asked := asked + [outputmode];
      return driver(outputmode) != 0;
    }
  }

  ghost predicate Supported(list: map<int, string>, raw: string, mode: string, color: string, driver: string -> int) {
    !(Filtered(list, raw) && !Mentions(color, "8bit")) && driver(mode + color) != 0
  }

  // ----- The file format -----

  /** A line of the file: nothing, a remark, the end of an entry, or a piece of one. */
  datatype Line =
    | Blank(gap: string)
    | Comment(gap: string, text: string)
    | Star(gap: string, text: string)
    | Piece(gap: string, piece: string, text: string)

  function LineText(l: Line): string {
    match l
    case Blank(gap) => gap
    case Comment(gap, text) => gap + "#" + text
    case Star(gap, text) => gap + "*" + text
    case Piece(gap, piece, text) => gap + piece + text
  }

  /** Gaps are white space; a piece is a token that does not start like a remark or an end. What follows on
      the line is arbitrary, but set apart from a piece. */
  predicate IsLine(l: Line) {
    && AllDelimiters(l.gap, WHITESPACE)
    && (l.Blank? || NoNewline(l.text))
    && (l.Piece? ==>
          && IsToken(l.piece, WHITESPACE) && l.piece[0] !in {'*', '#'}
          && (l.text == "" || IsDelimiter(l.text[0], WHITESPACE)))
  }

  /** An entry: the lines it is spread over, and the line that closes it. */
  datatype Entry = Entry(lines: seq<Line>, close: Line)

  predicate IsBody(lines: seq<Line>) {
    forall l :: l in lines ==> IsLine(l) && !l.Star?
  }

  predicate IsEntry(e: Entry) {
    IsBody(e.lines) && IsLine(e.close) && e.close.Star?
  }

  function Edid(lines: seq<Line>): string {
    if lines == [] then "" else (if lines[0].Piece? then lines[0].piece else "") + Edid(lines[1..])
  }

  function Edids(entries: seq<Entry>): seq<string> {
    if entries == [] then [] else [Edid(entries[0].lines)] + Edids(entries[1..])
  }

  function PrintLines(lines: seq<Line>): string {
    if lines == [] then "" else LineText(lines[0]) + "\n" + PrintLines(lines[1..])
  }

  /** The file: the entries, more lines after the last of them, and a last line that no newline ends. */
  function PrintFile(entries: seq<Entry>, rest: seq<Line>, last: Line): string {
    if entries == [] then PrintLines(rest) + LineText(last)
    else PrintLines(entries[0].lines) + (LineText(entries[0].close) + "\n" + PrintFile(entries[1..], rest, last))
  }

  /** The EDID of an entry is its pieces one after the other. */
  lemma {:induction false} EdidJoins(a: seq<Line>, b: seq<Line>)
    ensures Edid(a + b) == Edid(a) + Edid(b)
  {
    if a == [] {
      assert a + b == b;
    } else {
      var piece := if a[0].Piece? then a[0].piece else "";
      assert Edid(a) == piece + Edid(a[1..]);
      assert Edid(a + b) == piece + Edid(a[1..] + b) by {
        assert (a + b)[1..] == a[1..] + b && (a + b)[0] == a[0];
      }
      hide Edid;
      EdidJoins(a[1..], b);
      Associates(piece, Edid(a[1..]), Edid(b));
    }
  }

  lemma EdidOfLine(l: Line)
    ensures Edid([l]) == if l.Piece? then l.piece else ""
  {
    assert [l][1..] == [];
  }

  lemma {:induction false} EdidsAre(entries: seq<Entry>)
    ensures |Edids(entries)| == |entries|
    ensures forall i :: 0 <= i < |entries| ==> Edids(entries)[i] == Edid(entries[i].lines)
  {
    if entries != [] {
      EdidsAre(entries[1..]);
    }
  }

  /** The parse after a line. */
  function After(l: Line, p: Parse): Parse {
    match l
    case Star(_, _) => Parse(p.list + [p.edid], "")
    case Piece(_, piece, _) => Parse(p.list, p.edid + piece)
    case _ => p
  }

  /** What is listed: the entries, and one more when the file ends in a closing line without a newline. */
  function Listed(entries: seq<Entry>, rest: seq<Line>, last: Line): seq<string> {
    Edids(entries) + if last.Star? then [Edid(rest)] else []
  }

  // ----- The parser reads what was printed -----

  lemma GapThenLine(gap: string, text: string, tail: string)
    requires AllDelimiters(gap, WHITESPACE) && NoNewline(text) && EndsLine(tail)
    requires text == "" || !IsDelimiter(text[0], WHITESPACE)
    ensures var s := gap + text + tail;
            GapLength(s, WHITESPACE) == |gap| && s[|gap|..] == text + tail
            && LineLength(text + tail) == |text| + EndLength(tail)
  {
    hide GapLength, LineLength, AllDelimiters, IsDelimiter, NoNewline;
    var rest := text + tail;
    assert gap + text + tail == gap + rest;
    assert rest != "" ==> rest[0] == if text == "" then '\n' else text[0];
    GapSkipped(gap, rest, WHITESPACE);
    LineFinished(text, tail);
  }

  lemma PieceRead(piece: string, text: string, tail: string)
    requires IsToken(piece, WHITESPACE) && NoNewline(text) && (text == "" || IsDelimiter(text[0], WHITESPACE))
    requires EndsLine(tail)
    ensures var s := piece + text + tail;
            TokenLength(s, WHITESPACE) == |piece| && s[..|piece|] == piece && s[|piece|..] == text + tail
            && LineLength(s[|piece|..]) == |text| + EndLength(tail)
  {
    hide TokenLength, LineLength, IsDelimiter, NoNewline;
    var rest := text + tail;
    assert piece + text + tail == piece + rest;
    assert rest != "" ==> rest[0] == if text == "" then '\n' else text[0];
    TokenRead(piece, rest, WHITESPACE);
    LineFinished(text, tail);
  }

  /** One round of the loop consumes exactly one line and takes exactly its meaning; the last line need not end
      in a newline. */
  lemma RoundReadsLine(l: Line, tail: string, p: Parse)
    requires IsLine(l) && EndsLine(tail)
    ensures Round(LineText(l) + tail, p) == (After(l, p), |LineText(l)| + EndLength(tail))
  {
    hide GapLength, TokenLength, LineLength, Round, AllDelimiters, IsDelimiter, NoNewline, IsToken;
    match l {
      case Blank(gap) =>
        RoundReadsBlank(gap, tail, p);
      case Comment(gap, text) =>
        RoundReadsMark(gap, "#", text, tail, p);
      case Star(gap, text) =>
        RoundReadsMark(gap, "*", text, tail, p);
      case Piece(gap, piece, text) =>
        RoundReadsPiece(gap, piece, text, tail, p);
    }
  }

  lemma RoundReadsBlank(gap: string, tail: string, p: Parse)
    requires AllDelimiters(gap, WHITESPACE) && EndsLine(tail)
    ensures Round(gap + tail, p) == (p, |gap| + EndLength(tail))
  {
    hide GapLength, TokenLength, LineLength;
    GapThenLine(gap, "", tail);
    assert gap + "" == gap && "" + tail == tail;
  }

  lemma RoundReadsMark(gap: string, mark: string, text: string, tail: string, p: Parse)
    requires AllDelimiters(gap, WHITESPACE) && mark in {"#", "*"} && NoNewline(text) && EndsLine(tail)
    ensures Round(gap + mark + text + tail, p)
            == (if mark == "*" then Parse(p.list + [p.edid], "") else p, |gap| + 1 + |text| + EndLength(tail))
  {
    hide GapLength, TokenLength, LineLength;
    GapThenLine(gap, mark + text, tail);
    assert gap + (mark + text) == gap + mark + text;
  }

  lemma RoundReadsPiece(gap: string, piece: string, text: string, tail: string, p: Parse)
    requires IsLine(Piece(gap, piece, text)) && EndsLine(tail)
    ensures Round(gap + piece + text + tail, p)
            == (Parse(p.list, p.edid + piece), |gap| + |piece| + |text| + EndLength(tail))
  {
    hide GapLength, TokenLength, LineLength;
    var shown := piece + text;
    assert gap + shown == gap + piece + text;
    assert shown[0] == piece[0];
    GapThenLine(gap, shown, tail);
    PieceRead(piece, text, tail);
  }

  lemma LineParsed(s: string, l: Line, more: string, p: Parse)
    requires IsLine(l) && s == LineText(l) + "\n" + more
    ensures ParseText(s, p) == ParseText(more, After(l, p))
  {
    assert s == LineText(l) + ("\n" + more);
    RoundReadsLine(l, "\n" + more, p);
    assert s[|LineText(l)| + 1..] == more;
  }

  lemma LastLineParsed(l: Line, p: Parse)
    requires IsLine(l)
    ensures ParseText(LineText(l), p) == After(l, p)
  {
    var s := LineText(l);
    assert s + "" == s;
    RoundReadsLine(l, "", p);
    assert ParseText("", After(l, p)) == After(l, p);
    assert s[|s|..] == "";
  }

  lemma FirstLineParsed(lines: seq<Line>, more: string, p: Parse)
    requires lines != [] && IsLine(lines[0])
    ensures ParseText(PrintLines(lines) + more, p) == ParseText(PrintLines(lines[1..]) + more, After(lines[0], p))
  {
    hide ParseText, IsLine, LineText, After;
    var rest := PrintLines(lines[1..]) + more;
    assert PrintLines(lines) + more == LineText(lines[0]) + "\n" + rest;
    LineParsed(PrintLines(lines) + more, lines[0], rest, p);
  }

  lemma EdidGrows(lines: seq<Line>, p: Parse)
    requires lines != [] && !lines[0].Star?
    ensures var q := After(lines[0], p); q.list == p.list && q.edid + Edid(lines[1..]) == p.edid + Edid(lines)
  {
    hide After;
    var piece := if lines[0].Piece? then lines[0].piece else "";
    assert Edid(lines) == piece + Edid(lines[1..]);
    hide Edid;
    AfterOther(lines[0], p);
    Associates(p.edid, piece, Edid(lines[1..]));
  }

  lemma AfterOther(l: Line, p: Parse)
    requires !l.Star?
    ensures After(l, p) == Parse(p.list, p.edid + if l.Piece? then l.piece else "")
  {}

  lemma Associates(a: string, b: string, c: string)
    ensures (a + b) + c == a + (b + c)
  {}

  lemma {:induction false} BodyParsed(lines: seq<Line>, more: string, p: Parse)
    requires IsBody(lines)
    ensures ParseText(PrintLines(lines) + more, p) == ParseText(more, Parse(p.list, p.edid + Edid(lines)))
    decreases lines
  {
    hide ParseText, IsLine, After;
    if lines == [] {
      assert PrintLines(lines) + more == more && p.edid + Edid(lines) == p.edid;
    } else {
      assert lines[0] in lines;
      hide PrintLines, Edid;
      BodyParsed(lines[1..], more, After(lines[0], p));
      FirstLineParsed(lines, more, p);
      EdidGrows(lines, p);
    }
  }

  lemma EntryParsed(e: Entry, more: string, list: seq<string>)
    requires IsEntry(e)
    ensures ParseText(PrintLines(e.lines) + (LineText(e.close) + "\n" + more), Parse(list, ""))
            == ParseText(more, Parse(list + [Edid(e.lines)], ""))
  {
    var closing := LineText(e.close) + "\n" + more;
    BodyParsed(e.lines, closing, Parse(list, ""));
    assert "" + Edid(e.lines) == Edid(e.lines);
    LineParsed(closing, e.close, more, Parse(list, Edid(e.lines)));
  }

  lemma EndParsed(rest: seq<Line>, last: Line, list: seq<string>)
    requires IsBody(rest) && IsLine(last)
    ensures ParseText(PrintLines(rest) + LineText(last), Parse(list, "")).list
            == list + if last.Star? then [Edid(rest)] else []
  {
    BodyParsed(rest, LineText(last), Parse(list, ""));
    assert "" + Edid(rest) == Edid(rest);
    LastLineParsed(last, Parse(list, Edid(rest)));
  }

  lemma {:induction false} FileParsed(entries: seq<Entry>, rest: seq<Line>, last: Line, list: seq<string>)
    requires (forall e :: e in entries ==> IsEntry(e)) && IsBody(rest) && IsLine(last)
    ensures ParseText(PrintFile(entries, rest, last), Parse(list, "")).list == list + Listed(entries, rest, last)
  {
    hide Round, LineText, PrintLines, IsEntry, ParseText;
    if entries == [] {
      EndParsed(rest, last, list);
    } else {
      var e := entries[0];
      assert e in entries;
      EntryParsed(e, PrintFile(entries[1..], rest, last), list);
      FileParsed(entries[1..], rest, last, list + [Edid(e.lines)]);
      assert list + [Edid(e.lines)] + Listed(entries[1..], rest, last) == list + Listed(entries, rest, last);
    }
  }

  /** Round trip: the parser finds exactly the entries of the file, in order, whatever remarks, blank lines,
      white space and unfinished entry are around them, and whether or not the last line ends in a newline. */
  lemma FileRoundTrip(entries: seq<Entry>, rest: seq<Line>, last: Line)
    requires (forall e :: e in entries ==> IsEntry(e)) && IsBody(rest) && IsLine(last)
    ensures ParseText(PrintFile(entries, rest, last), NOTHING).list == Listed(entries, rest, last)
  {
    FileParsed(entries, rest, last, []);
  }

  // ----- Every file is of this format -----

  /** A text without newlines is a line. */
  lemma TextIsLine(s: string) returns (l: Line)
    requires NoNewline(s)
    ensures IsLine(l) && LineText(l) == s
  {
    var n := GapLength(s, WHITESPACE);
    var gap, shown := s[..n], s[n..];
    GapIsDelimiters(s, WHITESPACE);
    assert gap + shown == s;
    assert NoNewline(shown);
    hide GapLength, AllDelimiters, NoNewline;
    if shown == "" {
      l := Blank(gap);
    } else if shown[0] in {'#', '*'} {
      l := TextIsMarked(gap, shown);
    } else {
      l := TextIsPiece(gap, shown);
    }
  }

  lemma TextIsMarked(gap: string, shown: string) returns (l: Line)
    requires AllDelimiters(gap, WHITESPACE) && NoNewline(shown) && shown != "" && shown[0] in {'#', '*'}
    ensures IsLine(l) && LineText(l) == gap + shown
  {
    hide AllDelimiters;
    l := if shown[0] == '#' then Comment(gap, shown[1..]) else Star(gap, shown[1..]);
    assert gap + [shown[0]] + shown[1..] == gap + shown;
  }

  lemma TextIsPiece(gap: string, shown: string) returns (l: Line)
    requires AllDelimiters(gap, WHITESPACE) && NoNewline(shown)
    requires shown != "" && shown[0] !in {'*', '#'} && (shown[0] == '\n' || !IsDelimiter(shown[0], WHITESPACE))
    ensures IsLine(l) && LineText(l) == gap + shown
  {
    var n := TokenLength(shown, WHITESPACE);
    TokenIsMaximal(shown, WHITESPACE);
    l := Piece(gap, shown[..n], shown[n..]);
    assert shown[..n][0] == shown[0];
    assert gap + shown[..n] + shown[n..] == gap + shown;
  }

  /** Every text is a file: some entries, more lines, and a last line. */
  lemma {:induction false} EveryTextIsAFile(s: string) returns (entries: seq<Entry>, rest: seq<Line>, last: Line)
    ensures (forall e :: e in entries ==> IsEntry(e)) && IsBody(rest) && IsLine(last)
    ensures s == PrintFile(entries, rest, last)
    decreases |s|
  {
    if NoNewline(s) {
      last := TextIsLine(s);
      entries, rest := [], [];
      assert "" + s == s;
    } else {
      var n := FirstNewline(s);
      var l := TextIsLine(s[..n]);
      var more := s[n + 1..];
      entries, rest, last := EveryTextIsAFile(more);
      assert s == s[..n] + "\n" + more;
      entries, rest := LinePrepended(l, entries, rest, last);
    }
  }

  lemma {:induction false} FirstNewline(s: string) returns (n: nat)
    requires !NoNewline(s)
    ensures n < |s| && s[n] == '\n' && NoNewline(s[..n])
  {
    if s[0] == '\n' {
      n := 0;
    } else {
      n := FirstNewline(s[1..]);
      n := n + 1;
      assert s[..n] == [s[0]] + s[1..][..n - 1];
    }
  }

  /** A line before a file gives a file: a closing line closes an empty entry, any other belongs to the first
      entry, or to the lines after the last if there is none. */
  lemma LinePrepended(l: Line, entries: seq<Entry>, rest: seq<Line>, last: Line)
    returns (entries': seq<Entry>, rest': seq<Line>)
    requires IsLine(l) && (forall e :: e in entries ==> IsEntry(e)) && IsBody(rest)
    ensures (forall e :: e in entries' ==> IsEntry(e)) && IsBody(rest')
    ensures PrintFile(entries', rest', last) == LineText(l) + "\n" + PrintFile(entries, rest, last)
  {
    hide LineText, IsLine;
    entries', rest' := entries, rest;
    if l.Star? {
      entries' := [Entry([], l)] + entries;
      assert entries'[1..] == entries;
    } else if entries != [] {
      assert entries[0] in entries;
      var e := Entry([l] + entries[0].lines, entries[0].close);
      entries' := [e] + entries[1..];
      EntryGrows(e, l, entries, rest, last);
    } else {
      rest' := [l] + rest;
      assert rest'[1..] == rest;
    }
  }

  lemma EntryGrows(e: Entry, l: Line, entries: seq<Entry>, rest: seq<Line>, last: Line)
    requires entries != [] && e == Entry([l] + entries[0].lines, entries[0].close)
    ensures PrintFile([e] + entries[1..], rest, last) == LineText(l) + "\n" + PrintFile(entries, rest, last)
  {
    hide LineText;
    assert ([e] + entries[1..])[1..] == entries[1..] && e.lines[1..] == entries[0].lines;
    assert PrintLines(e.lines) == LineText(l) + "\n" + PrintLines(entries[0].lines);
  }

  lemma {:induction false} EdidHasNoNul(lines: seq<Line>)
    requires IsBody(lines)
    ensures NUL !in Edid(lines)
  {
    if lines != [] {
      assert lines[0] in lines;
      EdidHasNoNul(lines[1..]);
    }
  }

  lemma {:induction false} EdidsHaveNoNul(entries: seq<Entry>)
    requires forall e :: e in entries ==> IsEntry(e)
    ensures forall s :: s in Edids(entries) ==> NUL !in s
  {
    if entries != [] {
      assert entries[0] in entries;
      EdidHasNoNul(entries[0].lines);
      EdidsHaveNoNul(entries[1..]);
    }
  }

  /** End to end: once the file is parsed, a mode is refused against the driver's answer exactly when the
      colour is not an 8-bit one and the raw EDID of the sink is listed in the file. */
  lemma FilterEndToEnd(entries: seq<Entry>, rest: seq<Line>, last: Line, raw: string, mode: string, color: string,
                       driver: string -> int)
    requires (forall e :: e in entries ==> IsEntry(e)) && IsBody(rest) && IsLine(last)
    requires |raw| < EDID_SIZE && NUL !in raw
    ensures var list := Numbered(ParseText(PrintFile(entries, rest, last), NOTHING).list, map[]);
            && Contiguous(list)
            && Supported(list, raw, mode, color, driver)
               == if raw in Listed(entries, rest, last) && !Mentions(color, "8bit") then false
                  else driver(mode + color) != 0
  {
    hide Round, LineText, ParseText, PrintFile, Edid, Edids, IsBody, IsEntry;
    FileRoundTrip(entries, rest, last);
    EdidsHaveNoNul(entries);
    EdidHasNoNul(rest);
    var edids := Listed(entries, rest, last);
    var list := Numbered(edids, map[]);
    NumberedIsContiguous(edids, map[]);
    forall k | 0 <= k < |edids| ensures SamePrefix(list[k], raw, EDID_SIZE) <==> edids[k] == raw {
      assert edids[k] in edids;
      SamePrefixIsEquality(edids[k], raw, EDID_SIZE);
    }
  }
}
