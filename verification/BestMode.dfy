/** The choice of the highest HDMI mode among those a sink advertises, one on a line. */
module BestMode {
  import opened Basics

  const DEFAULT_OUTPUT_MODE := "480p60hz"
  const MODE_2160P30 := "2160p30hz"
  const MODE_LEN := 64

  /** The tables of mode names: all modes, the two orders of preference, and the VESA modes. */
  datatype Tables = Tables(modes: seq<string>, resolutionFirst: seq<string>, framerateFirst: seq<string>,
                           vesa: set<string>)

  datatype Platform = Platform(support4k: bool, supportOver4k30: bool, framerateFirst: bool)

  // ----- Lines -----

  function NewlineAt(text: string): (n: nat)
    ensures n <= |text| && (n < |text| ==> text[n] == '\n') && forall i :: 0 <= i < n ==> text[i] != '\n'
  {
    if text == "" || text[0] == '\n' then 0 else 1 + NewlineAt(text[1..])
  }

  /** The lines of the text that are ended by a newline. */
  function Lines(text: string): seq<string> {
    var n := NewlineAt(text);
    if n == |text| then [] else [text[..n]] + Lines(text[n + 1..])
  }

  method FindNewline(text: string) returns (n: nat)
    ensures n == NewlineAt(text)
  {
    n := 0;
    while n < |text| && text[n] != '\n'
      invariant n <= |text| && NewlineAt(text) == n + NewlineAt(text[n..])
    {
      assert text[n..][1..] == text[n + 1..];
      n := n + 1;
    }
  }

  // ----- The value of a mode -----

  /** The least index of a name in a table, or -1. */
  function IndexIn(table: seq<string>, mode: string): (i: int)
    ensures -1 <= i < |table|
    ensures i >= 0 <==> mode in table
    ensures i >= 0 ==> table[i] == mode && mode !in table[..i]
  {
    if table == [] then -1
    else if table[0] == mode then 0
    else
      var i := IndexIn(table[1..], mode);
      assert i >= 0 ==> table[..i + 1] == [table[0]] + table[1..][..i];
      assert table == [table[0]] + table[1..];
      if i < 0 then -1 else i + 1
  }

  function Value(t: Tables, p: Platform, mode: string): int {
    if mode == "" || mode !in t.modes then -1
    else IndexIn(if p.framerateFirst then t.framerateFirst else t.resolutionFirst, mode)
  }

  method Search(table: seq<string>, mode: string) returns (i: int)
    ensures i == IndexIn(table, mode)
  {
    var k := 0;
    while k < |table|
      invariant 0 <= k <= |table|
      invariant IndexIn(table, mode) == if IndexIn(table[k..], mode) < 0 then -1 else k + IndexIn(table[k..], mode)
    {
      if table[k] == mode {
        return k;
      }
      assert table[k..][1..] == table[k + 1..];
      k := k + 1;
    }
    return -1;
  }

  method ResolveResolutionValue(t: Tables, p: Platform, mode: string) returns (v: int)
    ensures v == Value(t, p, mode)
  {
    var validMode := false;
    if |mode| != 0 {
      var known := Search(t.modes, mode);
      validMode := known >= 0;
    }
    if !validMode {
      return -1;
    }
    if p.framerateFirst {
      v := Search(t.framerateFirst, mode);
    } else {
      v := Search(t.resolutionFirst, mode);
    }
  }

  // ----- Which lines count -----

  function WithoutStar(line: string): string {
    if line != "" && line[|line| - 1] == '*' then line[..|line| - 1] else line
  }

  /** A platform without 4K refuses a line outright. */
  ghost predicate Refused4k(p: Platform, line: string) {
    !p.support4k && (Mentions(line, "2160") || Mentions(line, "smpte"))
  }

  ghost predicate Allowed(t: Tables, p: Platform, line: string) {
    && !Refused4k(p, line)
    && (p.supportOver4k30
        || (Value(t, p, WithoutStar(line)) <= Value(t, p, MODE_2160P30) && !Mentions(WithoutStar(line), "smpte")))
  }

  /** What is left in the buffer after a line. */
  ghost function LastMode(p: Platform, line: string): string {
    if Refused4k(p, line) then line else WithoutStar(line)
  }

  ghost predicate SoleVesa(t: Tables, p: Platform, lines: seq<string>) {
    |lines| == 1 && LastMode(p, lines[0]) in t.vesa && LastMode(p, lines[0]) in t.modes
  }

  /** `mode` is the default or an allowed line without its star, and none of these has a greater value; of equal
      ones, it is the first, the default before all. */
  ghost predicate IsBest(t: Tables, p: Platform, lines: seq<string>, mode: string) {
    && Value(t, p, mode) >= Value(t, p, DEFAULT_OUTPUT_MODE)
    && (forall i :: 0 <= i < |lines| && Allowed(t, p, lines[i]) ==>
          Value(t, p, WithoutStar(lines[i])) <= Value(t, p, mode))
    && (mode == DEFAULT_OUTPUT_MODE || exists i :: 0 <= i < |lines| && FirstOfValue(t, p, lines, i, mode))
  }

  ghost predicate FirstOfValue(t: Tables, p: Platform, lines: seq<string>, i: nat, mode: string)
    requires i < |lines|
  {
    && Allowed(t, p, lines[i]) && mode == WithoutStar(lines[i])
    && Value(t, p, DEFAULT_OUTPUT_MODE) < Value(t, p, mode)
    && forall j :: 0 <= j < i && Allowed(t, p, lines[j]) ==> Value(t, p, WithoutStar(lines[j])) < Value(t, p, mode)
  }

  // ----- The search -----

  method AllowedMode(t: Tables, p: Platform, line: string) returns (allowed: bool, mode: string)
    requires line != ""
    ensures allowed <==> Allowed(t, p, line)
    ensures mode == LastMode(p, line)
  {
    mode := line;
    if !p.support4k {
      var is2160 := Contains(mode, "2160");
      var isSmpte := Contains(mode, "smpte");
      if is2160 || isSmpte {
        return false, mode;
      }
    }
    if mode[|mode| - 1] == '*' {
      mode := mode[..|mode| - 1];
    }
    if !p.supportOver4k30 {
      var v := ResolveResolutionValue(t, p, mode);
      var limit := ResolveResolutionValue(t, p, MODE_2160P30);
      var isSmpte := Contains(mode, "smpte");
      if v > limit || isSmpte {
        return false, mode;
      }
    }
    return true, mode;
  }

  lemma BestGrows(t: Tables, p: Platform, lines: seq<string>, line: string, value: string)
    requires IsBest(t, p, lines, value)
    ensures var mode := WithoutStar(line);
            IsBest(t, p, lines + [line],
                   if Allowed(t, p, line) && Value(t, p, mode) > Value(t, p, value) then mode else value)
  {
    hide Value, Allowed, WithoutStar;
    var all := lines + [line];
    var mode := WithoutStar(line);
    if Allowed(t, p, line) && Value(t, p, mode) > Value(t, p, value) {
      forall j | 0 <= j < |lines| && Allowed(t, p, all[j])
        ensures Value(t, p, WithoutStar(all[j])) < Value(t, p, mode)
      {
        assert all[j] == lines[j];
      }
      assert all[|lines|] == line && FirstOfValue(t, p, all, |lines|, mode);
    } else if value != DEFAULT_OUTPUT_MODE {
      var i :| 0 <= i < |lines| && FirstOfValue(t, p, lines, i, value);
      assert FirstOfValue(t, p, all, i, value);
    }
  }

  /** One line of the search. */
  method Consider(t: Tables, p: Platform, line: string, value: string, ghost lines: seq<string>)
    returns (tempMode: string, next: string)
    requires line != "" && IsBest(t, p, lines, value)
    ensures tempMode == LastMode(p, line) && IsBest(t, p, lines + [line], next)
  {
    hide Value, IsBest;
    next := value;
    var allowed;
    allowed, tempMode := AllowedMode(t, p, line);
    BestGrows(t, p, lines, line, value);
    if allowed {
      var v := ResolveResolutionValue(t, p, tempMode);
      var best := ResolveResolutionValue(t, p, value);
      if v > best {
        next := tempMode;
      }
    }
  }

  lemma HeadTaken<T>(all: seq<T>, done: seq<T>, x: T, rest: seq<T>)
    requires all == done + ([x] + rest)
    ensures |done| < |all| && all[|done|] == x && all == done + [x] + rest
  {}

  lemma LineTaken(lines: seq<string>, done: seq<string>, text: string)
    requires lines == done + Lines(text) && NewlineAt(text) < |text|
    ensures var n := NewlineAt(text);
            |done| < |lines| && lines[|done|] == text[..n] && lines == done + [text[..n]] + Lines(text[n + 1..])
  {
    hide NewlineAt;
    var n := NewlineAt(text);
    HeadTaken(lines, done, text[..n], Lines(text[n + 1..]));
  }

  lemma NoLineLeft(lines: seq<string>, done: seq<string>, text: string)
    requires lines == done + Lines(text) && NewlineAt(text) == |text|
    ensures lines == done
  {}

  /** The lines are not empty and fit the mode buffer. */
  method GetHighestHdmiMode(t: Tables, p: Platform, edid: string) returns (mode: string)
    requires forall i :: 0 <= i < |Lines(edid)| ==> 0 < |Lines(edid)[i]| < MODE_LEN
    ensures var lines := Lines(edid);
            if SoleVesa(t, p, lines) then mode == LastMode(p, lines[0]) else IsBest(t, p, lines, mode)
  {
    hide IsBest, Lines, LastMode, NewlineAt;
    var value := DEFAULT_OUTPUT_MODE;
    var tempMode := "";
    var resolutionNum := 0;
    var startpos := edid;
    ghost var done: seq<string> := [];
    DefaultIsBest(t, p);
    while |startpos| > 0
      invariant Lines(edid) == done + Lines(startpos)
      invariant IsBest(t, p, done, value)
      invariant resolutionNum == |done|
      invariant done != [] ==> tempMode == LastMode(p, done[|done| - 1])
      decreases |startpos|
    {
      var n := FindNewline(startpos);
      if n == |startpos| {
        break;
      }
      LineTaken(Lines(edid), done, startpos);
      var line := startpos[..n];
      startpos := startpos[n + 1..];
      resolutionNum := resolutionNum + 1;
      tempMode, value := Consider(t, p, line, value, done);
      done := done + [line];
    }
    NoLineLeft(Lines(edid), done, startpos);
    mode := value;
    if resolutionNum == 1 {
      var index := Search(t.modes, tempMode);
      if index >= 0 && tempMode in t.vesa {
        mode := tempMode;
      }
    }
  }

  lemma DefaultIsBest(t: Tables, p: Platform)
    ensures IsBest(t, p, [], DEFAULT_OUTPUT_MODE)
  {}

  /** Any other best mode has the same value: the choice is maximal, and unique. */
  lemma BestIsUnique(t: Tables, p: Platform, lines: seq<string>, a: string, b: string)
    requires IsBest(t, p, lines, a) && IsBest(t, p, lines, b)
    ensures a == b
  {
    hide Value, Allowed, WithoutStar;
    if a != DEFAULT_OUTPUT_MODE && b != DEFAULT_OUTPUT_MODE {
      var i :| 0 <= i < |lines| && FirstOfValue(t, p, lines, i, a);
      var j :| 0 <= j < |lines| && FirstOfValue(t, p, lines, j, b);
      assert i == j;
    }
  }
  // ----- In the places of the tables -----

  /** The first place of a name in a table. */
  predicate FoundAt(table: seq<string>, mode: string, i: nat) {
    i < |table| && table[i] == mode && forall j :: 0 <= j < i ==> table[j] != mode
  }

  /** A known mode stands at its first place in the table for the preferred order. */
  predicate StandsAt(t: Tables, p: Platform, mode: string, i: nat) {
    mode != "" && mode in t.modes && FoundAt(if p.framerateFirst then t.framerateFirst else t.resolutionFirst, mode, i)
  }

  lemma ValueIs(t: Tables, p: Platform, mode: string)
    ensures forall i: nat :: mode != "" && mode in t.modes && !p.framerateFirst && FoundAt(t.resolutionFirst, mode, i)
                             ==> Value(t, p, mode) == i
    ensures forall i: nat :: mode != "" && mode in t.modes && p.framerateFirst && FoundAt(t.framerateFirst, mode, i)
                             ==> Value(t, p, mode) == i
    ensures Value(t, p, mode) == -1
            <==> mode == "" || mode !in t.modes
                 || mode !in (if p.framerateFirst then t.framerateFirst else t.resolutionFirst)
  {
    IndexIsPlace(t.resolutionFirst, mode);
    IndexIsPlace(t.framerateFirst, mode);
  }

  lemma IndexIsPlace(table: seq<string>, mode: string)
    ensures forall i: nat :: FoundAt(table, mode, i) <==> i == IndexIn(table, mode)
  {
    var k := IndexIn(table, mode);
    hide IndexIn;
    if k >= 0 {
      forall j | 0 <= j < k ensures table[j] != mode {
        assert table[j] == table[..k][j];
      }
      assert FoundAt(table, mode, k);
    }
    forall i: nat ensures FoundAt(table, mode, i) <==> i == k {
      assert FoundAt(table, mode, i) ==> mode in table;
    }
  }

  lemma StandsAtIsValue(t: Tables, p: Platform, mode: string)
    ensures forall i: nat :: StandsAt(t, p, mode, i) <==> i == Value(t, p, mode)
  {
    ValueIs(t, p, mode);
    IndexIsPlace(t.resolutionFirst, mode);
    IndexIsPlace(t.framerateFirst, mode);
  }

  /** One mode stands in the table, and the other stands before it or not at all. */
  ghost predicate Behind(t: Tables, p: Platform, a: string, b: string) {
    exists i: nat :: StandsAt(t, p, a, i) && forall j: nat :: StandsAt(t, p, b, j) ==> j < i
  }

  lemma BehindIs(t: Tables, p: Platform, a: string, b: string)
    ensures Behind(t, p, a, b) <==> Value(t, p, a) > Value(t, p, b)
  {
    StandsAtIsValue(t, p, a);
    StandsAtIsValue(t, p, b);
    hide StandsAt;
    assert Value(t, p, a) >= -1 && Value(t, p, b) >= -1;
    hide Value;
    assert Value(t, p, a) >= 0 ==> StandsAt(t, p, a, Value(t, p, a));
    assert Value(t, p, b) >= 0 ==> StandsAt(t, p, b, Value(t, p, b));
  }

  /** A line is a mode, or a mode and a star. */
  predicate Names(line: string, mode: string) {
    line == mode + "*" || (line == mode && (line == "" || line[|line| - 1] != '*'))
  }

  lemma NamesIs(line: string, mode: string)
    ensures Names(line, mode) <==> mode == WithoutStar(line)
  {
    if line != "" && line[|line| - 1] == '*' {
      assert line == line[..|line| - 1] + "*";
      assert line == mode + "*" ==> mode == line[..|line| - 1];
    }
  }

  /** A mode may be used: the platform has 4K or the line does not speak of it; and the platform goes over 2160p30hz,
      or the mode does not stand behind that and is not an SMPTE mode. */
  ghost predicate Usable(t: Tables, p: Platform, line: string, mode: string) {
    && Names(line, mode)
    && (p.support4k || !(Mentions(line, "2160") || Mentions(line, "smpte")))
    && (p.supportOver4k30 || !(Behind(t, p, mode, "2160p30hz") || Mentions(mode, "smpte")))
  }

  lemma UsableIs(t: Tables, p: Platform, line: string, mode: string)
    ensures Usable(t, p, line, mode) <==> mode == WithoutStar(line) && Allowed(t, p, line)
  {
    NamesIs(line, mode);
    BehindIs(t, p, mode, "2160p30hz");
    hide Names, Behind, WithoutStar, Value, Mentions;
  }

  ghost predicate Offers(t: Tables, p: Platform, lines: seq<string>, mode: string) {
    exists k :: 0 <= k < |lines| && Usable(t, p, lines[k], mode)
  }

  /** The best mode is the default or a usable one behind it, and neither the default nor a usable mode stands
      behind it. */
  lemma BestStandsLast(t: Tables, p: Platform, lines: seq<string>, mode: string)
    requires IsBest(t, p, lines, mode)
    ensures mode == "480p60hz" || (Offers(t, p, lines, mode) && Behind(t, p, mode, "480p60hz"))
    ensures !Behind(t, p, "480p60hz", mode)
    ensures forall other :: Offers(t, p, lines, other) ==> !Behind(t, p, other, mode)
  {
    hide Value, Allowed, WithoutStar, Usable, Behind;
    BehindIs(t, p, mode, "480p60hz");
    BehindIs(t, p, "480p60hz", mode);
    if mode != "480p60hz" {
      var i :| 0 <= i < |lines| && FirstOfValue(t, p, lines, i, mode);
      UsableIs(t, p, lines[i], mode);
    }
    forall other | Offers(t, p, lines, other) ensures !Behind(t, p, other, mode) {
      var k :| 0 <= k < |lines| && Usable(t, p, lines[k], other);
      UsableIs(t, p, lines[k], other);
      BehindIs(t, p, other, mode);
    }
  }

  /** A sole line is returned as it is if it is a known VESA mode: without its star, unless the platform refused it. */
  lemma SoleVesaIs(t: Tables, p: Platform, line: string, mode: string)
    requires Names(line, mode)
    ensures var refused := !p.support4k && (Mentions(line, "2160") || Mentions(line, "smpte"));
            var left := if refused then line else mode;
            (SoleVesa(t, p, [line]) <==> left in t.vesa && left in t.modes) && LastMode(p, line) == left
  {
    NamesIs(line, mode);
  }

  /** Lines are ended by newlines; what follows the last newline is none. */
  lemma LinesAre(line: string, more: string)
    requires '\n' !in line
    ensures Lines(line) == [] && Lines(line + "\n" + more) == [line] + Lines(more)
  {
    NewlineFound(line, line);
    NewlineFound(line + "\n" + more, line);
    assert (line + "\n" + more)[|line| + 1..] == more && (line + "\n" + more)[..|line|] == line;
  }

  lemma NewlineFound(text: string, line: string)
    requires '\n' !in line && line <= text && (|line| < |text| ==> text[|line|] == '\n')
    ensures NewlineAt(text) == |line|
  {
    hide NewlineAt;
    forall i | 0 <= i < |line| ensures text[i] != '\n' {
      assert text[i] == line[i] && line[i] in line;
    }
  }
}
