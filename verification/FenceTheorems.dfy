/** What a line starts, each kind by its own characters, and which lines outside every container open a
    fence, close one, or are code by their indent. */
module FenceTheorems {
  import opened Text
  import opened Drawn
  import opened Marks
  import opened MarkTheorems
  import opened Reader
  import opened ReaderTheorems
  import Html

  // ----- What the words of a line start -----

  lemma RunOfHashes(words: string, hashes: nat)
    requires HeadingAt(words, hashes)
    ensures RunOf(Hash, words, 0) == hashes
  {
    RunIs(Hash, words, 0, hashes);
  }

  lemma HtmlOpensOnAnAngle(words: string)
    requires Html.Opens(words).Some?
    ensures words != [] && words[0] == '<'
  {
    hide Html.AnyCaseAt, Html.TagEndsAt, Html.BlockTagAt, Html.RAW_TAGS;
    if Html.AnyCaseAt(words, 0, "<![CDATA[") {
      AnyCaseOpens(words);
    }
  }

  lemma OneStart(words: string)
    ensures OpeningFence(words).Some? ==> words != [] && (words[0] == '`' || words[0] == '~')
    ensures Html.Opens(words).Some? ==> words != [] && words[0] == '<'
    ensures Html.TagAlone(words) ==> words != [] && words[0] == '<'
  {
    hide Html.Opens, Html.ClosesAt, Html.AttributesEnd;
    if Html.Opens(words).Some? {
      HtmlOpensOnAnAngle(words);
    }
  }

  lemma AnyCaseOpens(words: string)
    requires Html.AnyCaseAt(words, 0, "<![CDATA[")
    ensures words != [] && words[0] == '<'
  {
    assert Html.AsciiLower(words[0 + 0]) == Html.AsciiLower("<![CDATA["[0]);
  }

  /** Words that start something: not a blank line, behind fewer than four spaces, and no break. */
  predicate Starting(columns: string, at: nat, blank: bool)
    requires at <= |columns|
  {
    !blank && !SpacesAt(columns, at, 4) && !ThematicBreak(columns, at)
  }

  /** A heading is what opens on one to six hashes; a fence, on its marks; and a block of HTML, on what
      opens one or, where no paragraph is carried on, on one tag alone. A line of words is none of them. */
  lemma StartsExactly(columns: string, at: nat, blank: bool, code: bool, tag: bool)
    requires at <= |columns|
    ensures var (start, words) := (StartAt(columns, at, blank, code, tag), WordsFrom(columns, at));
            && (start.BlankLine? <==> blank)
            && (start.Code? <==> !blank && SpacesAt(columns, at, 4) && code)
            && (start.Break? <==> !blank && !SpacesAt(columns, at, 4) && ThematicBreak(columns, at))
            && (forall hashes: nat :: start == StartsHeading(hashes)
                  <==> Starting(columns, at, blank) && HeadingAt(words, hashes))
            && (forall mark: char, width: nat :: start == StartsBlock(Fenced(mark, width))
                  <==> Starting(columns, at, blank) && IsOpeningFence(words, mark, width))
            && (forall end: Option<Html.End> :: start == StartsBlock(OfHtml(end))
                  <==> Starting(columns, at, blank)
                       && (Html.Opens(words) == Some(end)
                           || (end.None? && tag && Html.Opens(words).None? && Html.TagAlone(words))))
  {
    hide Html.Opens, Html.TagAlone, OpeningFence, IsOpeningFence, ThematicBreak, SpacesAt, WordsFrom, HeadingAt;
    var start, words := StartAt(columns, at, blank, code, tag), WordsFrom(columns, at);
    OneStart(words);
    forall hashes: nat ensures HeadingAt(words, hashes) ==> RunOf(Hash, words, 0) == hashes && words != [] && words[0] == '#' {
      if HeadingAt(words, hashes) {
        RunOfHashes(words, hashes);
        HeadingOpensOnAHash(words, hashes);
      }
    }
    forall mark: char, width: nat
      ensures OpeningFence(words) == Some(Some(Fenced(mark, width))) <==> IsOpeningFence(words, mark, width)
    {
      OpeningFencesExactly(words, mark, width);
    }
    FencesAreFenced(words);
  }

  lemma FencesAreFenced(words: string)
    ensures var fence := OpeningFence(words); fence.Some? && fence.value.Some? ==> fence.value.value.Fenced?
  {
  }

  // ----- Outside every container -----

  /** What a line outside every container starts, and what is left of it: nothing it opens comes between. */
  lemma TopLine(s: State, written: string)
    requires s.open == [] && s.block == None && Next(s, written).0.open == []
    ensures var columns := Columns(written);
            var start := StartAt(columns, 0, BlankFrom(columns) == 0, !s.paragraph, !s.paragraph);
            && Opened(columns, 0, s.paragraph) == ([], 0)
            && Next(s, written) == Settled(s.(empty := s.empty && BlankFrom(columns) == 0), Lead(written), columns, 0, start, s.paragraph)
  {
    hide StartAt, Opened, Columns, Lead, BlankFrom, Settled;
    var columns := Columns(written);
    NoContainers(s, columns);
    var (added, from) := Opened(columns, 0, s.paragraph);
    var blank := from >= BlankFrom(columns);
    var carriesOn := s.paragraph && added == [];
    var start := StartAt(columns, from, blank, !s.paragraph || added != [], !carriesOn);
    SettledOpen(Contained(s, 0, added, blank), Lead(written), columns, from, start, carriesOn);
    assert Next(s, written) == Settled(Contained(s, 0, added, blank), Lead(written), columns, from, start, carriesOn);
    assert added == [];
    OpenedNothing(columns, 0, s.paragraph);
    assert s.open[..0] + [] == s.open;
  }

  lemma SettledBlock(s: State, lead: string, columns: string, at: nat, start: Start, carriesOn: bool)
    requires at <= |columns| && s.block == None
    ensures var (after, drawn) := Settled(s, lead, columns, at, start, carriesOn);
            && (forall mark: char, width: nat :: after.block == Some(Fenced(mark, width)) <==> start == StartsBlock(Fenced(mark, width)))
            && (drawn == AsCode <==> start == Code)
  {
    hide Html.EndsFrom, WordsFrom, Cells, Underline, DelimiterRow, SpacesAt;
  }

  lemma FenceIsTheLine(s: State, written: string, mark: char, width: nat)
    requires s.open == [] && s.block == None
    requires Next(s, written).0.open == [] && Next(s, written).0.block == Some(Fenced(mark, width))
    ensures TopFence(written, |Lead(written)|, mark, width)
  {
    hide StartAt, Next, Opened, Columns, Lead, BlankFrom, Settled, WordsFrom, SpacesAt, IsOpeningFence, ThematicBreak;
    var columns := Columns(written);
    var blank := BlankFrom(columns) == 0;
    var start := StartAt(columns, 0, blank, !s.paragraph, !s.paragraph);
    TopLine(s, written);
    SettledBlock(s.(empty := s.empty && blank), Lead(written), columns, 0, start, s.paragraph);
    StartsExactly(columns, 0, blank, !s.paragraph, !s.paragraph);
    WordsOfAFence(WordsFrom(columns, 0), mark, width);
    LeadOfAHeading(written);
    WordsFollowTheLead(written, 0);
    FenceBehindItsLead(written, Lead(written), WordsFrom(columns, 0), mark, width);
  }

  lemma WordsOfAFence(words: string, mark: char, width: nat)
    requires IsOpeningFence(words, mark, width)
    ensures words != [] && words[0] == mark && (mark == '`' || mark == '~') && !OpeningChar(words[0])
  {
  }

  lemma FenceBehindItsLead(written: string, lead: string, words: string, mark: char, width: nat)
    requires written == lead + words && IsOpeningFence(words, mark, width)
    requires |lead| <= 3 && forall i :: 0 <= i < |lead| ==> lead[i] == ' '
    ensures TopFence(written, |lead|, mark, width)
  {
    assert written[|lead| + width..] == words[width..];
    assert forall i :: |lead| <= i < |lead| + width ==> written[i] == words[i - |lead|];
    assert |lead| + width < |written| ==> written[|lead| + width] == words[width];
  }

  /** Outside every quote, item and block, whatever else is open, a line opens a fence of so many marks if
      and only if it is three spaces at most and then so many of them, three or more. */
  lemma TopFencesExactly(s: State, written: string, mark: char, width: nat)
    requires s.open == [] && s.block == None
    ensures Next(s, written).0.open == [] && Next(s, written).0.block == Some(Fenced(mark, width))
            <==> exists indent :: TopFence(written, indent, mark, width)
  {
    hide Next, TopFence;
    if Next(s, written).0.open == [] && Next(s, written).0.block == Some(Fenced(mark, width)) {
      FenceIsTheLine(s, written, mark, width);
    }
    if indent :| TopFence(written, indent, mark, width) {
      TopFenceOpens(s, written, indent, mark, width);
    }
  }

  // ----- What closes a fence -----

  /** A line as written: up to three spaces, the mark as often as it opened and at least three times, and
      then nothing but spaces and tabs. */
  predicate TopCloser(written: string, indent: nat, mark: char, count: nat, width: nat) {
    && indent <= 3 && Run(written, 0, ' ', indent)
    && count >= 3 && count >= width && Run(written, indent, mark, count)
    && forall i :: indent + count <= i < |written| ==> written[i] == ' ' || written[i] == '	'
  }

  lemma CloserIndented(written: string, indent: nat, mark: char, count: nat, width: nat)
    requires TopCloser(written, indent, mark, count, width) && (mark == '`' || mark == '~')
    ensures Columns(written) == written
  {
    assert written[indent] == mark;
    IndentedColumns(written, indent);
  }

  /** The columns a line is read in are the line wherever a fence closes in them. */
  lemma ClosedInColumns(written: string, n: nat, mark: char, count: nat, width: nat)
    requires IsClosingFence(Columns(written), 0, n, mark, count, width) && (mark == '`' || mark == '~')
    ensures Columns(written) == written
  {
    hide Lead;
    ColumnsSplit(written);
    var lead, columns := Expanded(Lead(written), 0), Columns(written);
    assert columns[n] == mark;
    assert !OpeningChar(mark);
    assert n == |lead|;
    ShortExpansionIsNoTab(Lead(written), 0);
    assert written == Lead(written) + written[|Lead(written)|..];
  }

  /** So exactly these lines end a fence opened outside every quote and item. */
  lemma ClosesExactly(mark: char, width: nat, written: string)
    requires mark == '`' || mark == '~'
    ensures Closes(mark, width, written) <==> exists indent, count :: TopCloser(written, indent, mark, count, width)
  {
    hide Columns, ClosingFence, TopCloser, IsClosingFence;
    var columns := Columns(written);
    ClosingFencesExactly(mark, width, columns, 0);
    if n, count :| IsClosingFence(columns, 0, n, mark, count, width) {
      ClosedInColumns(written, n, mark, count, width);
      SameCloser(written, n, mark, count, width);
    }
    if indent, count :| TopCloser(written, indent, mark, count, width) {
      CloserIndented(written, indent, mark, count, width);
      SameCloser(written, indent, mark, count, width);
    }
  }

  lemma SameCloser(written: string, n: nat, mark: char, count: nat, width: nat)
    ensures IsClosingFence(written, 0, n, mark, count, width) <==> TopCloser(written, n, mark, count, width)
  {
  }

  // ----- Code by its indent -----

  lemma SpacesOpenNothing(columns: string, interrupting: bool)
    requires SpacesAt(columns, 0, 4)
    ensures Opened(columns, 0, interrupting) == ([], 0)
  {
    assert columns[0] == columns[1] == columns[2] == columns[3] == ' ';
    assert RunOf(Space, columns, 0) >= 4;
    hide BlankFrom;
  }

  lemma SpacesLeaveNothingOpen(s: State, written: string)
    requires s.open == [] && s.block == None && SpacesAt(Columns(written), 0, 4)
    ensures Next(s, written).0.open == []
  {
    hide StartAt, Opened, Columns, Lead, BlankFrom, Settled, SpacesAt;
    var columns := Columns(written);
    NoContainers(s, columns);
    SpacesOpenNothing(columns, s.paragraph);
    var blank := 0 >= BlankFrom(columns);
    var start := StartAt(columns, 0, blank, !s.paragraph, !s.paragraph);
    SettledOpen(Contained(s, 0, [], blank), Lead(written), columns, 0, start, s.paragraph);
    assert s.open[..0] + [] == [];
  }

  /** Outside every quote, item and block a line is code, in nothing it opens itself, if and only if no
      paragraph is open and it has four columns of space in front of something. */
  lemma TopCodeExactly(s: State, written: string)
    requires s.open == [] && s.block == None
    ensures Next(s, written).0.open == [] && Next(s, written).1 == AsCode
            <==> !s.paragraph && BlankFrom(Columns(written)) > 0 && SpacesAt(Columns(written), 0, 4)
  {
    hide StartAt, Next, Opened, Columns, Lead, BlankFrom, Settled, SpacesAt;
    var columns := Columns(written);
    var blank := BlankFrom(columns) == 0;
    if SpacesAt(columns, 0, 4) {
      SpacesLeaveNothingOpen(s, written);
    }
    if Next(s, written).0.open == [] {
      TopLine(s, written);
      StartsExactly(columns, 0, blank, !s.paragraph, !s.paragraph);
      SettledBlock(s.(empty := s.empty && blank), Lead(written), columns, 0,
                   StartAt(columns, 0, blank, !s.paragraph, !s.paragraph), s.paragraph);
    }
  }
}
