/** The display mode service reads its two configuration files. */
module DisplayService {
  import opened Basics
  import opened Tokenizer
  import opened DisplayConfig
  import EdidFilter

  /** The part of the service that these files set. */
  class DisplayMode {
    var displayType: DisplayType
    var socType: string
    var defaultUI: string
    var filterEdid: string
    var filterEdidList: map<int, string>
    const deepColor: EdidFilter.FormatColorDepth

    ghost function View(): Settings
      reads this
    {
      Settings(displayType, socType, defaultUI)
    }

    constructor (depth: EdidFilter.FormatColorDepth)
      ensures View() == Settings(Unknown, "", "")
      ensures filterEdidList == map[] && deepColor == depth
    {
      displayType, socType, defaultUI := Unknown, "", "";
      filterEdid, filterEdidList, deepColor := "", map[], depth;
    }

    // ----- The display configuration -----

    /** Read the word after the gap at the start of `s`. */
    method ReadWord(tokenizer: SysTokenizer, ghost s: string) returns (word: string)
      requires tokenizer.Valid() && |NextWord(s)| < MAX_STR_LEN
      requires tokenizer.Ahead() == s[GapLength(s, WHITESPACE)..]
      modifies tokenizer`current, tokenizer.strs
      ensures tokenizer.Valid()
      ensures word == NextWord(s) && tokenizer.Ahead() == PastWord(s)
    {
      hide TokenLength, GapLength;
      ghost var ahead := tokenizer.Ahead();
      tokenizer.NextToken(WHITESPACE);
      word := CString(tokenizer.strs, ahead[..TokenLength(ahead, WHITESPACE)]);
    }

    method SkipAndRead(tokenizer: SysTokenizer) returns (word: string)
      requires tokenizer.Valid() && |NextWord(tokenizer.Ahead())| < FIELD_LEN
      modifies tokenizer`current, tokenizer.strs
      ensures tokenizer.Valid() && word == NextWord(old(tokenizer.Ahead()))
      ensures tokenizer.Ahead() == PastWord(old(tokenizer.Ahead()))
    {
      hide TokenLength, GapLength;
      ghost var s := tokenizer.Ahead();
      tokenizer.SkipDelimiters(WHITESPACE);
      word := ReadWord(tokenizer, s);
    }

    method ReadValues(tokenizer: SysTokenizer)
      requires tokenizer.Valid()
      requires var s := tokenizer.Ahead();
               && |NextWord(s)| < FIELD_LEN
               && |NextWord(PastWord(s))| < FIELD_LEN
      modifies this`socType, this`defaultUI, tokenizer`current, tokenizer.strs
      ensures tokenizer.Valid()
      ensures var s := old(tokenizer.Ahead());
              && socType == NextWord(s)
              && defaultUI == NextWord(PastWord(s))
              && tokenizer.Ahead() == PastWord(PastWord(s))
    {
      hide NextWord, PastWord;
      socType := SkipAndRead(tokenizer);
      defaultUI := SkipAndRead(tokenizer);
    }

    /** What follows the first word of a line, if that is a keyword. */
    method ReadKeywordLine(tokenizer: SysTokenizer, token: string, lcdExists: bool) returns (known: bool)
      requires tokenizer.Valid()
      requires var s := tokenizer.Ahead();
               KeywordType(token).Some? ==>
                 && |NextWord(s)| < FIELD_LEN
                 && |NextWord(PastWord(s))| < FIELD_LEN
      modifies this`displayType, this`socType, this`defaultUI, tokenizer`current, tokenizer.strs
      ensures tokenizer.Valid() && known == KeywordType(token).Some?
      ensures !known ==> View() == old(View())
      ensures known ==>
                var s := old(tokenizer.Ahead());
                && displayType == (if lcdExists then KeywordType(token).value else Mbox)
                && socType == NextWord(s)
                && defaultUI == NextWord(PastWord(s))
                && tokenizer.Ahead() == PastWord(PastWord(s))
    {
      hide NextWord, PastWord;
      if token == "MBOX" {
        displayType := Mbox;
        ReadValues(tokenizer);
      } else if token == "TV" {
        displayType := Tv;
        ReadValues(tokenizer);
      } else if token == "MID" {
        displayType := Tablet;
        ReadValues(tokenizer);
      } else {
        return false;
      }
      if !lcdExists {
        displayType := Mbox;
      }
      return true;
    }

    /** One round of the loop; `known` is false at a word that is not a keyword. */
    method ConfigRound(tokenizer: SysTokenizer, lcdExists: bool) returns (known: bool)
      requires tokenizer.Valid() && !tokenizer.IsEof() && LineFits(tokenizer.Ahead())
      modifies this`displayType, this`socType, this`defaultUI
      modifies tokenizer`current, tokenizer`lineNumber, tokenizer.strs
      ensures tokenizer.Valid() && known == GoesOn(old(tokenizer.Ahead()))
      ensures var line := ReadLine(old(tokenizer.Ahead()), WHITESPACE).0;
              && known == (Ignored(line) || HasKeyword(line))
              && View() == if HasKeyword(line) then LineSettings(line, lcdExists) else old(View())
      ensures known ==> tokenizer.Ahead() == PastLine(old(tokenizer.Ahead()))
    {
      hide TokenLength, GapLength, LineLength, ReadLine, Newlines;
      hide KeywordType, PastLine, Ignored, At, NextWord, PastWord;
      ghost var s := tokenizer.Ahead();
      WordsOfRound(s);
      known := true;
      tokenizer.SkipDelimiters(WHITESPACE);
      assert (tokenizer.IsEol() || tokenizer.PeekChar() == '#') == IgnoresLine(s);
      hide IgnoresLine;
      if !tokenizer.IsEol() && tokenizer.PeekChar() != '#' {
        KeywordLine(ReadLine(s, WHITESPACE).0);
        var token := ReadWord(tokenizer, s);
        known := ReadKeywordLine(tokenizer, token, lcdExists);
        if !known {
          return;
        }
      }
      PassLine(tokenizer);
    }

    method PassLine(tokenizer: SysTokenizer)
      requires tokenizer.Valid()
      modifies tokenizer`current, tokenizer`lineNumber
      ensures tokenizer.Valid() && tokenizer.Ahead() == PastLine(old(tokenizer.Ahead()))
    {
      hide LineLength;
      ghost var s := tokenizer.Ahead();
      tokenizer.NextLine();
      assert tokenizer.Ahead() == s[LineLength(s)..];
    }

    /** `contents` is the text of the file, None if it cannot be opened. */
    method ParseConfigFile(contents: Option<string>, lcdExists: bool, tvAsMbox: bool) returns (ok: bool)
      requires contents.Some? ==> WordsFit(contents.value)
      modifies this`displayType, this`socType, this`defaultUI
      ensures ok == contents.Some?
      ensures View() == Adapted(if ok then Applied(ReadLines(contents.value, WHITESPACE), lcdExists, old(View()))
                                else old(View()), tvAsMbox)
    {
      hide ReadLine, ReadLines, LineLength, PastLine, LineFits, GoesOn;
      ok := contents.Some?;
      if ok {
        var tokenizer := new SysTokenizer(contents.value);
        assert tokenizer.Ahead() == contents.value;
        ghost var all := Applied(ReadLines(contents.value, WHITESPACE), lcdExists, View());
        while !tokenizer.IsEof()
          invariant tokenizer.Valid() && fresh(tokenizer) && fresh(tokenizer.strs)
          invariant tokenizer.buffer == contents.value && WordsFit(tokenizer.Ahead())
          invariant all == Applied(ReadLines(tokenizer.Ahead(), WHITESPACE), lcdExists, View())
          decreases |tokenizer.Ahead()|
        {
          LinesSplit(tokenizer.Ahead());
          var known := ConfigRound(tokenizer, lcdExists);
          if !known {
            break;
          }
        }
        NoLines();
      }
      if displayType == Tv && tvAsMbox {
        displayType := Repeater;
      }
    }

    // ----- The filtered sinks -----

    /** One round of the parsing loop: `list` and `edid` are the parse so far, over what was listed before. */
    method FilterRound(tokenizer: SysTokenizer, edidCount: nat, edid: string,
                       ghost list: seq<string>, ghost base: map<int, string>)
      returns (count: nat, next: string)
      requires tokenizer.Valid() && !tokenizer.IsEof() && EdidFilter.WordFits(tokenizer.Ahead())
      requires edidCount == |list| && filterEdidList == EdidFilter.Numbered(list, base)
      modifies this`filterEdid, this`filterEdidList, tokenizer`current, tokenizer`lineNumber, tokenizer.strs
      ensures tokenizer.Valid()
      ensures var (p, n) := EdidFilter.Round(old(tokenizer.Ahead()), EdidFilter.Parse(list, edid));
              && tokenizer.Ahead() == old(tokenizer.Ahead())[n..]
              && next == p.edid && count == |p.list| && filterEdidList == EdidFilter.Numbered(p.list, base)
    {
      hide TokenLength, GapLength, LineLength, NextWord, PastWord, PastLine, Newlines;
      hide EdidFilter.Round, EdidFilter.Numbered, EdidFilter.WordFits;
      ghost var s := tokenizer.Ahead();
      RoundIs(s, EdidFilter.Parse(list, edid));
      count, next := edidCount, edid;
      tokenizer.SkipDelimiters(WHITESPACE);
      if tokenizer.PeekChar() == '*' {
        filterEdid := next;
        filterEdidList := filterEdidList[count := filterEdid];
        EdidFilter.NumberedGrows(list, edid, base);
        count := count + 1;
        next := "";
      }
      if !tokenizer.IsEol() && tokenizer.PeekChar() != '*' && tokenizer.PeekChar() != '#' {
        var token := ReadWord(tokenizer, s);
        next := next + token;
      }
      PassLine(tokenizer);
    }

    /** `contents` is the text of the file, None if it cannot be opened. */
    method ParseFilterEdidConfigFile(contents: Option<string>) returns (ok: bool)
      requires contents.Some? ==> EdidFilter.WordsFit(contents.value, EdidFilter.NOTHING)
      modifies this`filterEdid, this`filterEdidList, deepColor`filterEdid
      ensures ok == contents.Some?
      ensures !ok ==> filterEdidList == old(filterEdidList)
      ensures ok ==> var p := EdidFilter.ParseText(contents.value, EdidFilter.NOTHING);
                     filterEdidList == EdidFilter.Numbered(p.list, old(filterEdidList))
      ensures deepColor.filterEdid == filterEdidList
      ensures old(EdidFilter.Contiguous(filterEdidList)) ==> EdidFilter.Contiguous(filterEdidList)
    {
      hide EdidFilter.Round, EdidFilter.Contiguous, EdidFilter.WordFits;
      ok := contents.Some?;
      if ok {
        var edidCount, edid := 0, "";
        var tokenizer := new SysTokenizer(contents.value);
        ghost var p := EdidFilter.NOTHING;
        assert tokenizer.Ahead() == contents.value;
        while !tokenizer.IsEof()
          invariant tokenizer.Valid() && fresh(tokenizer) && fresh(tokenizer.strs)
          invariant EdidFilter.WordsFit(tokenizer.Ahead(), p)
          invariant tokenizer.buffer == contents.value && edidCount == |p.list| && edid == p.edid
          invariant filterEdidList == EdidFilter.Numbered(p.list, old(filterEdidList))
          invariant EdidFilter.ParseText(contents.value, EdidFilter.NOTHING)
                    == EdidFilter.ParseText(tokenizer.Ahead(), p)
          decreases |tokenizer.buffer| - tokenizer.current
        {
          ghost var s := tokenizer.Ahead();
          edidCount, edid := FilterRound(tokenizer, edidCount, edid, p.list, old(filterEdidList));
          p := EdidFilter.Round(s, p).0;
        }
      }
      deepColor.SetFilterEdidList(filterEdidList);
      if ok && EdidFilter.Contiguous(old(filterEdidList)) {
        EdidFilter.NumberedIsContiguous(EdidFilter.ParseText(contents.value, EdidFilter.NOTHING).list,
                                        old(filterEdidList));
      }
    }
  }

  /** What a round of the parser does, in terms of words and lines. */
  lemma RoundIs(s: string, p: EdidFilter.Parse)
    ensures var ahead := s[GapLength(s, WHITESPACE)..];
            var (q, n) := EdidFilter.Round(s, p);
            if ahead == "" || ahead[0] in {'\n', '#'} then q == p && s[n..] == PastLine(ahead)
            else if ahead[0] == '*' then q == EdidFilter.Parse(p.list + [p.edid], "") && s[n..] == PastLine(ahead)
            else
              && q == EdidFilter.Parse(p.list, p.edid + NextWord(s)) && s[n..] == PastLine(PastWord(s))
              && (EdidFilter.WordFits(s) ==> |NextWord(s)| < MAX_STR_LEN)
  {
    hide TokenLength, GapLength, LineLength;
  }
}
