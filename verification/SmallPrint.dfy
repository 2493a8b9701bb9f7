/** No line that is published is in the bot's own voice: small print broken by the line reader is not put
    together again by the cut, the commits, the links or the closing of what was left open. */
module SmallPrint {
  import opened Text
  import opened Fences
  import opened LineRules
  import opened DrawnLines
  import opened RichText
  import opened LinkTheorems
  import opened Pipeline
  import opened LineByLine
  import opened RichTextTheorems
  import JoinTheorems
  import LineTheorems
  import Drawn

  // ----- What a line opens on -----

  /** Everything the opening of a line of small print or of a heading can be made of. */
  predicate Opens(c: char) {
    LooseChar(c) || (DiscordSpace(c) && c != '\n') || c == '#'
  }

  function Opening(line: string): (opening: string)
    ensures opening <= line
  {
    line[..RunOf(Opens, line, 0)]
  }

  lemma LooseOpens(s: string)
    ensures forall i :: 0 <= i < LooseEnd(s, 0) ==> Opens(s[i])
  {
    hide LooseChar, LooseEnd;
    LooseIsLoose(s, 0);
  }

  /** Small print is what its opening is: any line that opens the same is small print too. */
  lemma OpeningDecides(s: string, t: string)
    requires LooksLikeSubtext(s) && Opening(s) <= t
    ensures LooksLikeSubtext(t)
  {
    var end := LooseEnd(s, 0);
    LooseOpens(s);
    assert Opens('-') && Opens('#');
    assert |Opening(s)| >= end + 2;
    SameSubtext(s, t, end);
  }

  lemma SameSubtext(s: string, t: string, end: nat)
    requires LooksLikeSubtext(s) && end == LooseEnd(s, 0)
    requires end + 2 <= |t| && forall i :: 0 <= i < end + 2 ==> s[i] == t[i]
    ensures LooksLikeSubtext(t)
  {
    hide LooseEnd;
    assert t[end] == '-' && t[end + 1] == '#';
    assert LooseToken(t, end) == 0;
    SameOpening(s, t, 0, end);
  }

  /** And what comes after its hash does not matter. */
  lemma NoHashAfter(line: string, more: string)
    requires '#' !in more
    ensures LooksLikeSubtext(line + more) ==> LooksLikeSubtext(line)
  {
    hide LooseEnd;
    var s := line + more;
    forall i | |line| <= i < |s| ensures s[i] != '#' {
      assert s[i] == more[i - |line|];
    }
    if LooksLikeSubtext(s) {
      var end := LooseEnd(s, 0);
      assert s[end + 1] == '#';
      SameSubtext(s, line, end);
    }
  }

  lemma LooseTokenBehind(s: string, at: nat, k: nat)
    requires at <= |s| && k <= |s| - at
    ensures LooseToken(s, at + k) == LooseToken(s[at..], k)
  {
    hide LooseSpace, Digit;
    RunBehind(Digit, s, at, k);
    var rest := s[at..];
    CharBehind(s, at, k);
    CharBehind(s, at, k + 1);
    var d := RunOf(Digit, rest, k);
    CharBehind(s, at, k + d);
    CharBehind(s, at, k + d + 1);
  }

  lemma {:induction false} LooseEndBehind(s: string, at: nat, k: nat)
    requires at <= |s| && k <= |s| - at
    ensures LooseEnd(s, at + k) == at + LooseEnd(s[at..], k)
    decreases |s| - at - k
  {
    hide LooseToken;
    LooseTokenBehind(s, at, k);
    var n := LooseToken(s[at..], k);
    if n > 0 {
      LooseEndBehind(s, at, k + n);
    }
  }

  /** Space in front makes no difference. */
  lemma SpaceInFront(c: char, line: string)
    requires LooseSpace(c)
    ensures LooksLikeSubtext(line) == LooksLikeSubtext([c] + line)
  {
    hide PythonSpace;
    var s := [c] + line;
    assert s[1..] == line;
    LooseEndBehind(s, 1, 0);
    assert LooseToken(s, 0) == 1;
    assert LooseEnd(s, 0) == LooseEnd(s, 1);
  }

  // ----- A text with none -----

  /** No line of it is small print. */
  predicate Clean(text: string) {
    forall i :: 0 <= i < |Split(text)| ==> !LooksLikeSubtext(Split(text)[i])
  }

  predicate PrefixesOf(cut: seq<string>, whole: seq<string>) {
    |cut| <= |whole| && forall i :: 0 <= i < |cut| ==> cut[i] <= whole[i]
  }

  lemma {:induction false} PrefixLines(s: string, n: nat)
    requires n <= |s|
    ensures PrefixesOf(Split(s[..n]), Split(s))
    decreases n
  {
    hide Split;
    if n == 0 {
      assert s[..0] == "";
      NoLines();
    } else {
      var cut, whole := Split(s[1..][..n - 1]), Split(s[1..]);
      PrefixLines(s[1..], n - 1);
      assert s[..n][1..] == s[1..][..n - 1] && s[..n][0] == s[0];
      SplitFirst(s);
      SplitFirst(s[..n]);
      assert cut[0] <= whole[0];
      assert [s[0]] + cut[0] <= [s[0]] + whole[0];
    }
  }

  lemma PrefixIsClean(s: string, n: nat)
    requires n <= |s| && Clean(s)
    ensures Clean(s[..n])
  {
    hide LooksLikeSubtext, Split;
    PrefixLines(s, n);
    var cut, whole := Split(s[..n]), Split(s);
    forall i | 0 <= i < |cut| ensures !LooksLikeSubtext(cut[i]) {
      assert cut[i] <= whole[i];
      if LooksLikeSubtext(cut[i]) {
        OpeningDecides(cut[i], whole[i]);
      }
    }
  }

  lemma {:induction false} BehindSpaceIsClean(s: string, n: nat)
    requires n <= |s| && Clean(s) && forall i :: 0 <= i < n ==> PythonSpace(s[i])
    ensures Clean(s[n..])
    decreases n
  {
    hide LooksLikeSubtext, PythonSpace;
    if n > 0 {
      OneSpaceLess(s);
      BehindSpaceIsClean(s[1..], n - 1);
      assert s[1..][n - 1..] == s[n..];
    } else {
      assert s[n..] == s;
    }
  }

  lemma OneSpaceLess(s: string)
    requires s != [] && PythonSpace(s[0]) && Clean(s)
    ensures Clean(s[1..])
  {
    hide LooksLikeSubtext, PythonSpace;
    var lines, rest := Split(s), Split(s[1..]);
    if s[0] == '\n' {
      assert forall i :: 0 <= i < |rest| ==> rest[i] == lines[i + 1];
    } else {
      assert lines[0] == [s[0]] + rest[0];
      SpaceInFront(s[0], rest[0]);
      assert forall i :: 0 < i < |rest| ==> rest[i] == lines[i];
    }
  }

  /** The lines with more at the end of the last. */
  function Longer(lines: seq<string>, more: string): seq<string>
    requires lines != []
  {
    lines[..|lines| - 1] + [lines[|lines| - 1] + more]
  }

  lemma LongerBehind(first: string, rest: seq<string>, more: string)
    requires rest != []
    ensures Longer([first] + rest, more) == [first] + Longer(rest, more)
  {
  }

  lemma LongerInFront(c: char, lines: seq<string>, more: string)
    requires lines != []
    ensures Longer([[c] + lines[0]] + lines[1..], more) == [[c] + Longer(lines, more)[0]] + Longer(lines, more)[1..]
  {
    if |lines| == 1 {
      assert [c] + (lines[0] + more) == [c] + lines[0] + more;
    }
  }

  lemma {:induction false} SplitMore(s: string, more: string)
    requires '\n' !in more
    ensures Split(s + more) == Longer(Split(s), more)
  {
    hide Split, Longer;
    if s == [] {
      assert s + more == more;
      SplitOneLine(more);
      NoLines();
      OneLineLonger(more);
    } else {
      SplitMore(s[1..], more);
      assert (s + more)[0] == s[0] && (s + more)[1..] == s[1..] + more;
      SplitFirst(s);
      SplitFirst(s + more);
      LongerBehind("", Split(s[1..]), more);
      LongerInFront(s[0], Split(s[1..]), more);
    }
  }

  lemma OneLineLonger(more: string)
    ensures Longer([""], more) == [more]
  {
    assert "" + more == more;
  }

  /** Nothing put at the end of a text makes small print of its last line but a hash. */
  lemma MoreIsClean(s: string, more: string)
    requires Clean(s) && '\n' !in more && '#' !in more
    ensures Clean(s + more)
  {
    hide LooksLikeSubtext, Split;
    SplitMore(s, more);
    var lines := Split(s);
    NoHashAfter(lines[|lines| - 1], more);
  }

  lemma {:induction false} SplitLast(s: string, last: string)
    requires '\n' !in last
    ensures Split(s + "\n" + last) == Split(s) + [last]
  {
    if s == [] {
      SplitAtBreak("", last);
      SplitOneLine(last);
    } else {
      SplitLast(s[1..], last);
      assert (s + "\n" + last)[0] == s[0] && (s + "\n" + last)[1..] == s[1..] + "\n" + last;
      var rest := Split(s[1..]);
      if s[0] == '\n' {
        assert [[]] + (rest + [last]) == [[]] + rest + [last];
      } else {
        assert (rest + [last])[0] == rest[0] && (rest + [last])[1..] == rest[1..] + [last];
      }
    }
  }

  // ----- The cut, the blank runs and the closing -----

  lemma CutIsClean(text: string, limit: nat)
    requires Clean(text)
    ensures Clean(Cut(text, limit))
  {
    hide Clean, PythonSpace, DropFront, DropBack;
    var front := DropFront(PythonSpace, text);
    BehindSpaceIsClean(text, |text| - |front|);
    var stripped := DropBack(PythonSpace, front);
    PrefixIsClean(front, |stripped|);
    if |stripped| > limit {
      PrefixIsClean(stripped, limit);
      var kept := DropBack(PythonSpace, stripped[..limit]);
      PrefixIsClean(stripped[..limit], |kept|);
      MoreIsClean(kept, [ELLIPSIS]);
    }
  }

  lemma BreakInFront(s: string)
    ensures Split("\n" + s) == [[]] + Split(s)
  {
    assert ("\n" + s)[1..] == s;
  }

  lemma RunIsBreaks(s: string) returns (run: nat)
    ensures run == RunOf(IsBreak, s, 0) && run <= |s| && forall i :: 0 <= i < run ==> s[i] == '\n'
    ensures s != [] && run < 3 ==> WithoutBlankRuns(s) == [s[0]] + WithoutBlankRuns(s[1..])
    ensures run >= 3 ==> WithoutBlankRuns(s) == "\n\n" + WithoutBlankRuns(s[run..])
  {
    run := RunOf(IsBreak, s, 0);
  }

  /** The first line is the first, and each other one of the others or blank. */
  predicate LinesFrom(left: seq<string>, lines: seq<string>) {
    && left != [] && lines != [] && left[0] == lines[0]
    && forall i :: 0 < i < |left| ==> left[i] == "" || left[i] in lines[1..]
  }

  /** Every line left when runs of blank ones are cut short is one of the text's, or blank. */
  lemma {:induction false} RunsAreLines(s: string)
    ensures LinesFrom(Split(WithoutBlankRuns(s)), Split(s))
    decreases |s|
  {
    if s != [] {
      var run := RunIsBreaks(s);
      hide WithoutBlankRuns, RunOf, LinesFrom, Split;
      if run >= 3 {
        RunsAreLines(s[run..]);
        LongRun(s, run);
      } else {
        var rest := WithoutBlankRuns(s[1..]);
        RunsAreLines(s[1..]);
        assert WithoutBlankRuns(s)[0] == s[0] && WithoutBlankRuns(s)[1..] == rest;
        SplitFirst(s);
        SplitFirst(WithoutBlankRuns(s));
        OneMoreLine(s[0], Split(rest), Split(s[1..]));
      }
    }
  }

  lemma LongRun(s: string, run: nat)
    requires 3 <= run <= |s| && s[0] == '\n' && s[run - 1] == '\n'
    requires WithoutBlankRuns(s) == "\n\n" + WithoutBlankRuns(s[run..])
    requires LinesFrom(Split(WithoutBlankRuns(s[run..])), Split(s[run..]))
    ensures LinesFrom(Split(WithoutBlankRuns(s)), Split(s))
  {
    hide WithoutBlankRuns, Split, LinesFrom, CountOf;
    TwoBreaks(WithoutBlankRuns(s[run..]));
    SplitFirst(s);
    SplitBehind(s, run - 1);
    assert s[run - 1 + 1..] == s[run..];
    BlankOnTop(Split(WithoutBlankRuns(s[run..])), Split(s[run..]), Split(s), CountOf('\n', s[..run - 1]) + 1);
  }

  lemma TwoBreaks(s: string)
    ensures Split("\n\n" + s) == [[]] + ([[]] + Split(s))
  {
    hide Split;
    BreakInFront(s);
    BreakInFront("\n" + s);
    assert "\n" + ("\n" + s) == "\n\n" + s;
  }

  lemma BlankOnTop(left: seq<string>, behind: seq<string>, lines: seq<string>, n: nat)
    requires LinesFrom(left, behind) && 1 <= n <= |lines| && lines[n..] == behind && lines[0] == ""
    ensures LinesFrom([[]] + ([[]] + left), lines)
  {
    forall line | line in behind ensures line in lines[1..] {
      var i :| 0 <= i < |behind| && behind[i] == line;
      assert lines[1..][n - 1 + i] == line;
    }
    forall i | 0 <= i < |left| ensures left[i] == "" || left[i] in lines[1..] {
      assert i == 0 ==> left[i] == behind[0];
    }
  }

  lemma OneMoreLine(c: char, left: seq<string>, lines: seq<string>)
    requires LinesFrom(left, lines)
    ensures LinesFrom([[]] + left, [[]] + lines)
    ensures LinesFrom([[c] + left[0]] + left[1..], [[c] + lines[0]] + lines[1..])
  {
    assert ([[]] + lines)[1..] == lines;
    assert ([[c] + lines[0]] + lines[1..])[1..] == lines[1..];
    assert forall i :: 0 < i < |left| ==> left[i] == "" || left[i] in lines;
  }

  lemma RunsAreClean(text: string)
    requires Clean(text)
    ensures Clean(WithoutBlankRuns(text))
  {
    hide WithoutBlankRuns, Split, LooksLikeSubtext;
    RunsAreLines(text);
    FenceIsNoSmallPrint();
    var left, lines := Split(WithoutBlankRuns(text)), Split(text);
    forall i | 0 <= i < |left| ensures !LooksLikeSubtext(left[i]) {
      assert left[i] == "" || left[i] in lines;
    }
  }

  lemma ClosedIsClean(text: string)
    requires Clean(text)
    ensures Clean(Balanced(text))
  {
    hide Clean, Split;
    MoreIsClean(text, "**");
    var bold := ClosedWith(text, BOLD, "**");
    FenceIsClean(bold);
  }

  lemma FenceIsClean(text: string)
    requires Clean(text)
    ensures Clean(text + "\n```")
  {
    hide LooksLikeSubtext, Split;
    assert text + "\n```" == text + "\n" + "```";
    SplitLast(text, "```");
    FenceIsNoSmallPrint();
  }

  lemma FenceIsNoSmallPrint()
    ensures !LooksLikeSubtext("```") && !LooksLikeSubtext("")
  {
    assert LooseToken("```", 0) == 0;
  }

  // ----- A text read for what its lines open on -----

  /** What a line opens on, and whether that is all of it. */
  datatype Line = Line(opening: string, whole: bool)

  /** What each line above is, and this one so far. */
  datatype Reading = Reading(above: seq<Line>, line: Line)

  function Turned(r: Reading, c: char): Reading {
    if c == '\n' then Reading(r.above + [r.line], Line("", true))
    else if r.line.whole && Opens(c) then Reading(r.above, Line(r.line.opening + [c], true))
    else Reading(r.above, Line(r.line.opening, false))
  }

  function Read(r: Reading, s: string): Reading
    decreases |s|
  {
    if s == [] then r else Read(Turned(r, s[0]), s[1..])
  }

  const UNREAD: Reading := Reading([], Line("", true))

  function LineOf(line: string): Line { Line(Opening(line), Opening(line) == line) }

  function LinesRead(lines: seq<string>): (read: seq<Line>)
    ensures |read| == |lines| && forall i :: 0 <= i < |lines| ==> read[i] == LineOf(lines[i])
  {
    seq(|lines|, i requires 0 <= i < |lines| => LineOf(lines[i]))
  }

  lemma {:induction false} ReadAppend(r: Reading, a: string, b: string)
    ensures Read(r, a + b) == Read(Read(r, a), b)
    decreases |a|
  {
    hide Turned;
    if a == [] {
      assert a + b == b;
    } else {
      assert (a + b)[0] == a[0] && (a + b)[1..] == a[1..] + b;
      ReadAppend(Turned(r, a[0]), a[1..], b);
    }
  }

  lemma OpeningGoes(c: char, line: string)
    ensures Opening("") == ""
    ensures Opening([c] + line) == if Opens(c) then [c] + Opening(line) else ""
    ensures Opening([c] + line) == [c] + line <==> Opens(c) && Opening(line) == line
  {
    hide Opens;
    RunBehind(Opens, [c] + line, 1, 0);
    assert ([c] + line)[1..] == line;
    assert |Opening([c] + line)| == if Opens(c) then 1 + |Opening(line)| else 0;
  }

  /** A line begun, with the rest of it behind. */
  function Continued(line: Line, rest: string): Line {
    if line.whole then Line(line.opening + Opening(rest), Opening(rest) == rest) else line
  }

  lemma BegunGoes(line: Line, c: char, rest: string)
    requires c != '\n'
    ensures Continued(Turned(Reading([], line), c).line, rest) == Continued(line, [c] + rest)
    ensures Continued(line, "") == line
    ensures Continued(Line("", true), rest) == LineOf(rest)
  {
    hide Opens, Opening;
    OpeningGoes(c, rest);
    assert line.opening + [c] + Opening(rest) == line.opening + ([c] + Opening(rest));
    assert line.opening + "" == line.opening && "" + Opening(rest) == Opening(rest);
  }

  lemma TurnedInALine(r: Reading, c: char)
    requires c != '\n'
    ensures Turned(r, c).above == r.above && Turned(r, c).line == Turned(Reading([], r.line), c).line
  {
  }

  /** The lines of a text, read in front of the rest of a line already begun. */
  function Begun(r: Reading, lines: seq<string>): seq<Line>
    requires lines != []
  {
    r.above + [Continued(r.line, lines[0])] + LinesRead(lines[1..])
  }

  lemma FirstOf(rest: seq<string>)
    requires rest != []
    ensures LinesRead(rest) == [LineOf(rest[0])] + LinesRead(rest[1..])
  {
    hide LineOf;
  }

  lemma BegunAtABreak(r: Reading, rest: seq<string>)
    requires rest != []
    ensures Begun(Turned(r, '\n'), rest) == Begun(r, [[]] + rest)
  {
    hide Opens, LinesRead, Continued, LineOf;
    BegunGoes(r.line, 'x', rest[0]);
    FirstOf(rest);
    assert ([[]] + rest)[1..] == rest;
    Regrouped(r.above, [r.line], [LineOf(rest[0])], LinesRead(rest[1..]));
  }

  lemma Regrouped(a: seq<Line>, b: seq<Line>, c: seq<Line>, d: seq<Line>)
    ensures a + b + c + d == a + b + (c + d)
  {
  }

  lemma BegunInALine(r: Reading, c: char, rest: seq<string>)
    requires rest != [] && c != '\n'
    ensures Begun(Turned(r, c), rest) == Begun(r, [[c] + rest[0]] + rest[1..])
  {
    hide Turned, LinesRead, Continued;
    TurnedInALine(r, c);
    BegunGoes(r.line, c, rest[0]);
    assert ([[c] + rest[0]] + rest[1..])[1..] == rest[1..];
  }

  lemma {:induction false} ReadsTheLines(r: Reading, s: string)
    ensures var end := Read(r, s); end.above + [end.line] == Begun(r, Split(s))
    decreases |s|
  {
    hide Turned, Begun, Split;
    if s == [] {
      NoLines();
      NothingBegun(r);
    } else {
      SplitFirst(s);
      ReadsTheLines(Turned(r, s[0]), s[1..]);
      if s[0] == '\n' {
        BegunAtABreak(r, Split(s[1..]));
      } else {
        BegunInALine(r, s[0], Split(s[1..]));
      }
    }
  }

  lemma NothingBegun(r: Reading)
    ensures Begun(r, [""]) == r.above + [r.line]
  {
    BegunGoes(r.line, 'x', "");
    assert [""][1..] == [] && LinesRead([]) == [];
  }

  lemma ReadIsTheLines(s: string)
    ensures var end := Read(UNREAD, s); end.above + [end.line] == LinesRead(Split(s))
  {
    hide Split, Read, LineOf, LinesRead, Continued;
    ReadsTheLines(UNREAD, s);
    BegunGoes(Line("", true), 'x', Split(s)[0]);
    FirstOf(Split(s));
  }

  // ----- Opening on no more than another -----

  /** A line that opens on a leading part of what another does, and on all of that and nothing else is it. */
  predicate NoMoreThan(a: Line, b: Line) { a.opening <= b.opening && (a.whole ==> a == b) }

  predicate NoMore(a: Reading, b: Reading) {
    && |a.above| == |b.above| && (forall i :: 0 <= i < |a.above| ==> NoMoreThan(a.above[i], b.above[i]))
    && NoMoreThan(a.line, b.line)
  }

  lemma NoMoreIsTransitive(a: Reading, b: Reading, c: Reading)
    requires NoMore(a, b) && NoMore(b, c)
    ensures NoMore(a, c)
  {
    forall i | 0 <= i < |a.above| ensures NoMoreThan(a.above[i], c.above[i]) {
      assert NoMoreThan(b.above[i], c.above[i]);
    }
  }

  lemma NoMoreTurned(a: Reading, b: Reading, c: char)
    requires NoMore(a, b)
    ensures NoMore(Turned(a, c), Turned(b, c))
  {
    hide Opens;
  }

  lemma {:induction false} NoMoreRead(a: Reading, b: Reading, s: string)
    requires NoMore(a, b)
    ensures NoMore(Read(a, s), Read(b, s))
    decreases |s|
  {
    hide NoMore, Turned;
    if s != [] {
      NoMoreTurned(a, b, s[0]);
      NoMoreRead(Turned(a, s[0]), Turned(b, s[0]), s[1..]);
    }
  }

  /** Words no opening can be made of: not empty, on one line, and opening on nothing of it. */
  predicate Closing(words: string) { words != "" && '\n' !in words && !Opens(words[0]) }

  lemma {:induction false} OneLineRead(r: Reading, s: string)
    requires '\n' !in s
    ensures Read(r, s).above == r.above && r.line.opening <= Read(r, s).line.opening
    ensures !r.line.whole ==> Read(r, s) == r
    decreases |s|
  {
    hide Opens;
    if s != [] {
      assert s[0] in s;
      OneLineRead(Turned(r, s[0]), s[1..]);
    }
  }

  lemma ClosingRead(r: Reading, words: string)
    requires Closing(words)
    ensures Read(r, words) == Reading(r.above, Line(r.line.opening, false))
  {
    assert words[0] in words;
    OneLineRead(Turned(r, words[0]), words[1..]);
  }

  /** Such words in place of any on the line open on no more. */
  lemma ClosingIsNoMore(a: Reading, b: Reading, words: string, others: string)
    requires NoMore(a, b) && Closing(words) && '\n' !in others
    ensures NoMore(Read(a, words), Read(b, others))
  {
    hide Closing;
    ClosingRead(a, words);
    OneLineRead(b, others);
  }

  /** Line by line the one text opens on no more than the other. */
  predicate LinesOpenOnNoMore(lines: seq<string>, others: seq<string>) {
    |lines| == |others| && forall i :: 0 <= i < |lines| ==> NoMoreThan(LineOf(lines[i]), LineOf(others[i]))
  }

  lemma NoMoreByLine(text: string, than: string)
    requires NoMore(Read(UNREAD, text), Read(UNREAD, than))
    ensures LinesOpenOnNoMore(Split(text), Split(than))
  {
    hide Split, Read, LineOf, NoMoreThan;
    ReadIsTheLines(text);
    ReadIsTheLines(than);
    var lines, others := Split(text), Split(than);
    var a, b := Read(UNREAD, text), Read(UNREAD, than);
    forall i | 0 <= i < |lines| ensures NoMoreThan(LineOf(lines[i]), LineOf(others[i])) {
      assert LinesRead(lines)[i] == if i < |a.above| then a.above[i] else a.line;
      assert LinesRead(others)[i] == if i < |b.above| then b.above[i] else b.line;
    }
  }

  /** A text that opens on no more than one with no small print has none either. */
  lemma NoMoreIsClean(text: string, than: string)
    requires NoMore(Read(UNREAD, text), Read(UNREAD, than)) && Clean(than)
    ensures Clean(text)
  {
    hide Split, Read, Opening, LooksLikeSubtext;
    NoMoreByLine(text, than);
    var lines, others := Split(text), Split(than);
    forall i | 0 <= i < |lines| ensures !LooksLikeSubtext(lines[i]) {
      assert NoMoreThan(LineOf(lines[i]), LineOf(others[i]));
      assert Opening(lines[i]) <= Opening(others[i]) <= others[i];
      if LooksLikeSubtext(lines[i]) {
        OpeningDecides(lines[i], others[i]);
      }
    }
  }

  lemma HashesOpen(s: string, at: nat)
    requires at <= |s|
    ensures forall i :: at <= i < at + RunOf(Drawn.Hash, s, at) ==> Opens(s[i])
  {
  }

  lemma SameHeading(s: string, t: string, end: nat, hashes: nat)
    requires end == LooseEnd(s, 0) && hashes == RunOf(Drawn.Hash, s, end) && 1 <= hashes <= 3
    requires end + hashes < |t| && end + hashes < |s| && DiscordSpace(s[end + hashes])
    requires forall i :: 0 <= i <= end + hashes ==> s[i] == t[i]
    ensures LooksLikeHeading(t)
  {
    hide LooseEnd, DiscordSpace;
    assert s[end] == '#' && t[end] == '#';
    assert LooseToken(t, end) == 0;
    SameOpening(s, t, 0, end);
    assert Drawn.Hash(s[end + hashes]) == Drawn.Hash(t[end + hashes]);
    RunIs(Drawn.Hash, t, end, hashes);
  }

  /** A line that opens on no more than another looks like a heading only where the other does. */
  lemma NoMoreOfAHeading(line: string, other: string)
    requires NoMoreThan(LineOf(line), LineOf(other)) && LooksLikeHeading(line) && '\n' !in line
    ensures LooksLikeHeading(other)
  {
    hide LooseEnd, Opens, DiscordSpace;
    if Opening(line) == line {
      assert other == line by {
        assert LineOf(line) == LineOf(other);
      }
    } else {
      var end := LooseEnd(line, 0);
      var hashes := RunOf(Drawn.Hash, line, end);
      LooseOpens(line);
      HashesOpen(line, end);
      var n := |Opening(line)|;
      assert n >= end + hashes;
      HeadingGoesOn(line, end, hashes);
      assert Opening(line) <= other;
      assert forall i :: 0 <= i < n ==> line[i] == other[i];
      SameHeading(line, other, end, hashes);
    }
  }

  /** What follows the hashes of a heading, where it has anything behind them, is in its opening too. */
  lemma HeadingGoesOn(line: string, end: nat, hashes: nat)
    requires '\n' !in line && Opening(line) != line && end + hashes <= |Opening(line)|
    requires end + hashes < |line| ==> DiscordSpace(line[end + hashes])
    ensures end + hashes < |Opening(line)|
  {
    hide DiscordSpace;
    var n := |Opening(line)|;
    assert n < |line| && !Opens(line[n]) && line[n] in line;
  }

  // ----- The links -----

  lemma {:induction false} BrokenReadsAlike(r: Reading, s: string, rule: (string, nat) -> bool, at: nat)
    requires at <= |s| && BehindNoTick(rule, s)
    ensures Read(r, Broken(s, rule, at)) == Read(r, s[at..])
    decreases |s| - at
  {
    hide Turned, Opens;
    if at < |s| {
      assert s[at..][1..] == s[at + 1..];
      var out := Broken(s, rule, at);
      var next := Turned(r, s[at]);
      BrokenReadsAlike(next, s, rule, at + 1);
      if rule(s, at) {
        assert out[1..][1..] == Broken(s, rule, at + 1);
        BreakTurnsNothing(r, s[at]);
      } else {
        assert out[1..] == Broken(s, rule, at + 1);
      }
    }
  }

  lemma BreakTurnsNothing(r: Reading, c: char)
    requires c == '@' || c == '<' || c == ']'
    ensures Turned(Turned(r, c), ZERO_WIDTH_SPACE) == Turned(r, c)
  {
  }

  lemma DefusedReadsAlike(lib: Library, r: Reading, s: string)
    ensures Read(r, Defused(lib, s)) == Read(r, s)
  {
    hide MentionAt, Turned;
    var live := (t: string, i: nat) => i < |t| && t[i] == '@' && lib.live(t, i);
    var mention := (t: string, i: nat) => MentionAt(lib.decimal, t, i);
    var escaped := Broken(s, live, 0);
    BrokenReadsAlike(r, s, live, 0);
    assert BehindNoTick(mention, escaped) by {
      forall i | 0 <= i < |escaped| && mention(escaped, i) ensures escaped[i] == '<' {
        MentionOpens(lib.decimal, escaped, i);
      }
    }
    BrokenReadsAlike(r, escaped, mention, 0);
    assert escaped[0..] == escaped && s[0..] == s;
  }

  lemma InertReadsAlike(lib: Library, r: Reading, s: string)
    ensures Read(r, Inert(lib, s)) == Read(r, s)
  {
    hide Turned, Defused;
    DefusedReadsAlike(lib, r, s);
    BrokenReadsAlike(r, Defused(lib, s), JoinAt, 0);
    assert Defused(lib, s)[0..] == Defused(lib, s);
  }

  /** Whatever opens a mark opens none put back as words. */
  lemma WordsAreClosing(words: string)
    requires words != "" && '\n' !in words
    ensures Closing(AsWords(words)) && Closing(AsWords(words) + [ZERO_WIDTH_SPACE])
  {
  }

  lemma BracketCloses(words: string)
    requires '\n' !in words
    ensures Closing("[" + words)
  {
  }

  lemma TitleStaysOnItsLine(lib: Library, title: string)
    requires '\n' !in title
    ensures '\n' !in Defused(lib, title)
  {
    DefusedAddsNothingElse(lib, title, '\n');
  }

  lemma KeptIsClosing(lib: Library, words: string)
    requires '\n' !in words
    ensures Closing(Inert(lib, "[" + words))
  {
    hide Defused;
    var text := "[" + words;
    TitleStaysOnItsLine(lib, text);
    var defused := Defused(lib, text);
    BrokenAddsNothingElse(defused, JoinAt, 0, '\n');
    assert defused[0..] == defused;
    JoinTheorems.InertEnds(lib, text);
  }

  lemma LinkIsClosing(lib: Library, title: string, url: string)
    requires NameIsWords(lib, title, url) && '\n' !in title && '\n' !in url
    ensures Closing(Render(lib, Linked(title, url)))
  {
    hide Defused, Inert, IsGitHub, FencesIn, AsWords, Closing, FateOf;
    var said, name := Defused(lib, title), NameOf(lib, url);
    TitleStaysOnItsLine(lib, title);
    DefusedIsEmpty(lib, title);
    LinkComesTo(lib, title, url);
    match FateOf(lib, url)
    case Kept =>
      Bracketed(said, url);
      KeptIsClosing(lib, said + "](" + url + ")");
    case ToGitHub =>
      var words := if title == [] then name else said;
      Bracketed(words, url);
      BracketCloses(words + "](" + url + ")");
    case Named =>
      WordsOffHold(said, name);
      WordsAreClosing(WordsOff(said, name));
  }

  lemma Bracketed(words: string, url: string)
    ensures "[" + words + "](" + url + ")" == "[" + (words + "](" + url + ")")
    ensures '\n' !in words && '\n' !in url ==> '\n' !in words + "](" + url + ")"
  {
  }

  lemma LinkOnItsLine(s: string, from: nat)
    requires NextLink(s, from).Some?
    ensures var link := NextLink(s, from).value;
            && from <= link.start < link.end <= |s|
            && '\n' !in s[link.start..link.end] && '\n' !in link.title && '\n' !in link.url
  {
    hide NextLink;
    LinkFound(s, from);
    var link := NextLink(s, from).value;
    Bracketed(link.title, link.url);
  }

  lemma OneLinkReadsNoMore(lib: Library, a: Reading, b: Reading, typed: string, linked: Piece, written: string)
    requires linked.Linked? && NameIsWords(lib, linked.title, linked.url) && '\n' !in linked.title && '\n' !in linked.url
    requires '\n' !in written && NoMore(a, b)
    ensures NoMore(Read(a, Render(lib, Typed(typed)) + Render(lib, linked)), Read(b, typed + written))
  {
    hide Inert, Destination, Defused, Render, NoMore, NameIsWords, Closing, Read;
    ReadAppend(a, Render(lib, Typed(typed)), Render(lib, linked));
    ReadAppend(b, typed, written);
    TypedReadsAlike(lib, a, typed);
    NoMoreRead(a, b, typed);
    LinkIsClosing(lib, linked.title, linked.url);
    ClosingIsNoMore(Read(a, typed), Read(b, typed), Render(lib, linked), written);
  }

  lemma {:induction false} PiecesReadNoMore(lib: Library, a: Reading, b: Reading, s: string, from: nat)
    requires from <= |s| && NamesAreWords(lib, Pieces(s, from)) && NoMore(a, b)
    ensures NoMore(Read(a, RenderAll(lib, Pieces(s, from))), Read(b, s[from..]))
    decreases |s| - from
  {
    hide *;
    match NextLink(s, from)
    case None =>
      LastPiece(lib, s, from);
      TypedReadsAlike(lib, a, s[from..]);
      NoMoreRead(a, b, s[from..]);
    case Some(link) =>
      LinkOnItsLine(s, from);
      NamesBehind(lib, s, from);
      OneLinkOn(lib, s, from);
      var typed, linked := s[from..link.start], Linked(link.title, link.url);
      var written, rest := s[link.start..link.end], s[link.end..];
      var rendered := Render(lib, Typed(typed)) + Render(lib, linked);
      OneLinkReadsNoMore(lib, a, b, typed, linked, written);
      ReadAppend(a, rendered, RenderAll(lib, Pieces(s, link.end)));
      ReadAppend(b, typed + written, rest);
      assert s[from..] == typed + written + rest;
      PiecesReadNoMore(lib, Read(a, rendered), Read(b, typed + written), s, link.end);
  }

  lemma ReadThree(r: Reading, a: string, b: string, c: string)
    ensures Read(r, a + b + c) == Read(Read(Read(r, a), b), c)
  {
    ReadAppend(r, a + b, c);
    ReadAppend(r, a, b);
  }

  lemma TypedReadsAlike(lib: Library, r: Reading, text: string)
    ensures Read(r, Render(lib, Typed(text))) == Read(r, text)
  {
    InertReadsAlike(lib, r, text);
  }

  lemma NoMoreAtFirst()
    ensures NoMore(UNREAD, UNREAD)
  {
  }

  lemma LinksAreNoMore(lib: Library, text: string)
    requires NamesAreWords(lib, Pieces(text, 0))
    ensures NoMore(Read(UNREAD, Relinked(lib, text)), Read(UNREAD, text))
  {
    hide Read, Pieces, NamesAreWords, NoMore;
    NoMoreAtFirst();
    PiecesReadNoMore(lib, UNREAD, UNREAD, text, 0);
    assert text[0..] == text;
  }

  // ----- The commits -----

  /** Each hash is on one line, and its link opens on a bracket. */
  predicate BracketedCommits(text: string, commits: seq<Commit>) {
    forall c <- commits ::
      && c.start <= c.end <= |text| && '\n' !in text[c.start..c.end]
      && (c.link.Some? ==> "[" <= c.link.value && '\n' !in c.link.value)
  }

  lemma LinkCloses(link: string)
    requires "[" <= link && '\n' !in link
    ensures Closing(link)
  {
    assert link[0] == '[';
  }

  lemma {:induction false} CommitsReadNoMore(a: Reading, b: Reading, text: string, from: nat, commits: seq<Commit>)
    requires from <= |text| && InOrder(commits, from, |text|) && BracketedCommits(text, commits) && NoMore(a, b)
    ensures NoMore(Read(a, Spliced(text, from, commits)), Read(b, text[from..]))
    decreases |commits|
  {
    hide NoMore, Read, Closing;
    if commits == [] {
      NoMoreRead(a, b, text[from..]);
    } else {
      var first := commits[0];
      assert first in commits && forall c <- commits[1..] :: c in commits;
      var before, hash := text[from..first.start], text[first.start..first.end];
      var spliced, rest := Spliced(text, first.end, commits[1..]), text[first.end..];
      assert text[from..] == before + hash + rest && text[from..first.end] == before + hash;
      ReadThree(b, before, hash, rest);
      NoMoreRead(a, b, before);
      if first.link.None? {
        ReadThree(a, before, hash, spliced);
        NoMoreRead(Read(a, before), Read(b, before), hash);
        CommitsReadNoMore(Read(Read(a, before), hash), Read(Read(b, before), hash), text, first.end, commits[1..]);
      } else {
        var link := first.link.value;
        LinkCloses(link);
        ReadThree(a, before, link, spliced);
        ClosingIsNoMore(Read(a, before), Read(b, before), link, hash);
        CommitsReadNoMore(Read(Read(a, before), link), Read(Read(b, before), hash), text, first.end, commits[1..]);
      }
    }
  }

  lemma CommitsAreNoMore(lib: Library, text: string)
    requires InOrder(lib.commits(text), 0, |text|) && BracketedCommits(text, lib.commits(text))
    ensures NoMore(Read(UNREAD, WithCommits(lib, text)), Read(UNREAD, text))
  {
    hide Read, NoMore;
    var commits := Take(lib.commits(text), COMMIT_LINK_LIMIT);
    InOrderPrefix(lib.commits(text), 0, |text|, COMMIT_LINK_LIMIT);
    assert BracketedCommits(text, commits);
    NoMoreAtFirst();
    CommitsReadNoMore(UNREAD, UNREAD, text, 0, commits);
    assert text[0..] == text;
  }

  /** From the cut on, commits and links written, every line opens on no more than it did. */
  lemma LinkedIsNoMore(lib: Library, body: string, limit: nat, images: Images, repository: bool)
    requires var text := CutText(body, limit, images);
             repository ==> InOrder(lib.commits(text), 0, |text|) && BracketedCommits(text, lib.commits(text))
    requires NamesAreWords(lib, Pieces(ToBeLinked(lib, body, limit, images, repository), 0))
    ensures NoMore(Read(UNREAD, LinkedText(lib, body, limit, images, repository)), Read(UNREAD, CutText(body, limit, images)))
  {
    hide CutText, Relinked, WithCommits, Pieces, NamesAreWords, NoMore, Read;
    var text, whole := CutText(body, limit, images), ToBeLinked(lib, body, limit, images, repository);
    LinksAreNoMore(lib, whole);
    if repository {
      CommitsAreNoMore(lib, text);
      NoMoreIsTransitive(
        Read(UNREAD, LinkedText(lib, body, limit, images, repository)), Read(UNREAD, whole), Read(UNREAD, text));
    }
  }

  // ----- What is published -----

  lemma RewrittenIsClean(written: string, shown: Option<string>)
    requires Fits(written, shown)
    ensures Clean(Rewritten(written, shown))
  {
    hide Split, LooksLikeSubtext, Rewritten, ImagesOf, LostAbove, LooksLikeHeading, LineTheorems.Shows, DiscordLevel, FencesIn, Join;
    OutputIsSaid(written, shown);
    FenceIsNoSmallPrint();
    var kept := DrawnLines.Kept(ImagesOf(written, shown));
    forall k | 0 <= k < |kept| ensures !LooksLikeSubtext(Split(Rewritten(written, shown))[k]) {
      NoSmallPrintWhateverIsShown(written, shown, k);
    }
  }

  /** No line that is published is small print, whatever a body, its cut, its commits and its links come
      to. */
  lemma NoSmallPrintIsPublished(lib: Library, body: string, limit: nat, images: Images, repository: bool)
    requires var text := CutText(body, limit, images);
             repository ==> InOrder(lib.commits(text), 0, |text|) && BracketedCommits(text, lib.commits(text))
    requires NamesAreWords(lib, Pieces(ToBeLinked(lib, body, limit, images, repository), 0))
    ensures var lines := Split(Balanced(LinkedText(lib, body, limit, images, repository)));
            forall i :: 0 <= i < |lines| ==> !LooksLikeSubtext(lines[i])
  {
    hide Clean, Written, ToBeShown, Fits, Rewritten, Cut, WithoutBlankRuns, Relinked, WithCommits, Balanced, Pieces;
    hide NamesAreWords, NoMore, Read;
    WhatIsShownFits(body, images);
    var written := Written(body);
    var rewritten := Rewritten(written, Some(ToBeShown(written, images)));
    RewrittenIsClean(written, Some(ToBeShown(written, images)));
    RunsAreClean(rewritten);
    CutIsClean(WithoutBlankRuns(rewritten), limit);
    LinkedIsNoMore(lib, body, limit, images, repository);
    NoMoreIsClean(LinkedText(lib, body, limit, images, repository), CutText(body, limit, images));
    ClosedIsClean(LinkedText(lib, body, limit, images, repository));
    CleanIs(Balanced(LinkedText(lib, body, limit, images, repository)));
  }

  lemma CleanIs(text: string)
    requires Clean(text)
    ensures forall i :: 0 <= i < |Split(text)| ==> !LooksLikeSubtext(Split(text)[i])
  {
  }

  // ----- Headings -----

  /** No line of the one looks like a heading where the same line of the other does not, nor any past its
      end. */
  predicate NoNewHeading(lines: seq<string>, others: seq<string>) {
    && |others| <= |lines| <= |others| + 1
    && forall i :: 0 <= i < |lines| && LooksLikeHeading(lines[i]) ==> i < |others| && LooksLikeHeading(others[i])
  }

  /** Stars at the end of a line make no heading of it. */
  lemma StarsMakeNoHeading(line: string)
    ensures LooksLikeHeading(line + BOLD) ==> LooksLikeHeading(line)
  {
    hide LooseEnd, DiscordSpace;
    var s := line + BOLD;
    if LooksLikeHeading(s) {
      var end := LooseEnd(s, 0);
      var hashes := RunOf(Drawn.Hash, s, end);
      assert s[end + hashes - 1] == '#' && s[|line|] == '*' && s[|line| + 1] == '*';
      StarsAreNoSpace();
      assert end + hashes < |line|;
      SameHeading(s, line, end, hashes);
    }
  }

  lemma StarsAreNoSpace()
    ensures !DiscordSpace('*')
  {
  }

  lemma BoldClosedMakesNoHeading(text: string)
    ensures NoNewHeading(Split(ClosedWith(text, BOLD, BOLD)), Split(text))
  {
    hide LooksLikeHeading, Split, Count, Odd;
    var lines := Split(text);
    if Odd(Count(BOLD, text)) {
      SplitMore(text, BOLD);
      StarsMakeNoHeading(lines[|lines| - 1]);
    }
  }

  lemma FenceIsNoHeading()
    ensures !LooksLikeHeading("```")
  {
    assert LooseToken("```", 0) == 0;
    assert RunOf(Drawn.Hash, "```", 0) == 0;
  }

  lemma ClosingMakesNoHeading(text: string)
    ensures NoNewHeading(Split(Balanced(text)), Split(text))
  {
    hide LooksLikeHeading, Split, Count, Odd;
    BoldClosedMakesNoHeading(text);
    var bold := ClosedWith(text, BOLD, "**");
    if Odd(Count(BOLD, text)) {
      SplitMore(text, BOLD);
    }
    if Odd(Count(FENCE, bold)) {
      assert bold + "\n```" == bold + "\n" + "```";
      SplitLast(bold, "```");
      FenceIsNoHeading();
    }
  }

  /** Line by line a published text looks like a heading only where the text that was cut does: no commit,
      no link and no closing makes one. */
  lemma HeadingsArePublishedWhereTheyWereCut(lib: Library, body: string, limit: nat, images: Images, repository: bool)
    requires var text := CutText(body, limit, images);
             repository ==> InOrder(lib.commits(text), 0, |text|) && BracketedCommits(text, lib.commits(text))
    requires NamesAreWords(lib, Pieces(ToBeLinked(lib, body, limit, images, repository), 0))
    ensures NoNewHeading(
              Split(Balanced(LinkedText(lib, body, limit, images, repository))), Split(CutText(body, limit, images)))
  {
    hide CutText, LinkedText, Balanced, Pieces, NamesAreWords, NoMore, Read, Split, LooksLikeHeading, NoMoreThan, LineOf;
    var text, linked := CutText(body, limit, images), LinkedText(lib, body, limit, images, repository);
    LinkedIsNoMore(lib, body, limit, images, repository);
    NoMoreByLine(linked, text);
    ClosingMakesNoHeading(linked);
    var lines, before, others := Split(Balanced(linked)), Split(linked), Split(text);
    forall i | 0 <= i < |lines| && LooksLikeHeading(lines[i])
      ensures i < |others| && LooksLikeHeading(others[i])
    {
      assert i < |before| && LooksLikeHeading(before[i]);
      NoMoreOfAHeading(before[i], others[i]);
    }
  }
}
