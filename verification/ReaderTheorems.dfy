/** What GitHub's reading keeps true, line after line. */
module ReaderTheorems {
  import opened Text
  import opened Drawn
  import opened Marks
  import opened Reader
  import Html

  // ----- The invariant -----

  /** An empty item is innermost and holds nothing; a paragraph and a table are never both open; an open
      block is all there is. */
  predicate Healthy(s: State) {
    && (s.empty ==> s.open != [] && s.open[|s.open| - 1] > 0 && !s.paragraph && !s.table && s.block.None?)
    && !(s.paragraph && s.table)
    && (s.block.Some? ==> !s.paragraph && !s.table && !s.empty)
  }

  lemma StartOfBlank(columns: string, at: nat, blank: bool, code: bool, tag: bool)
    requires at <= |columns|
    ensures StartAt(columns, at, blank, code, tag).BlankLine? <==> blank
  {
    hide Html.Opens, Html.TagAlone, OpeningFence, ThematicBreak;
  }

  lemma SettledIsHealthy(s: State, lead: string, columns: string, at: nat, start: Start, carriesOn: bool)
    requires at <= |columns| && s.block.None? && !(s.paragraph && s.table)
    requires carriesOn ==> s.paragraph
    requires s.empty ==> s.open != [] && s.open[|s.open| - 1] > 0 && start.BlankLine?
    ensures Healthy(Settled(s, lead, columns, at, start, carriesOn).0)
  {
  }

  lemma ContainedIsSound(s: State, matched: nat, added: seq<nat>, blank: bool)
    requires Healthy(s) && matched <= |s.open|
    ensures var c := Contained(s, matched, added, blank);
            && c.block.None? && !(c.paragraph && c.table)
            && (c.empty ==> c.open != [] && c.open[|c.open| - 1] > 0 && blank)
  {
    if added == [] && matched == |s.open| {
      assert s.open[..matched] + added == s.open;
    }
  }

  lemma {:induction false} NextIsHealthy(s: State, written: string)
    requires Healthy(s)
    ensures Healthy(Next(s, written).0)
  {
    hide StartAt, Settled, Opened, CarriedOn, Columns, Lead, Ends;
    var columns := Columns(written);
    var (matched, at) := CarriedOn(s.open, s.empty, columns, 0, 0);
    var everything := matched == |s.open|;
    var (added, from) := Opened(columns, at, everything && s.paragraph);
    var blank := from >= BlankFrom(columns);
    var carriesOn := everything && s.paragraph && added == [];
    var start := StartAt(columns, from, blank, !s.paragraph || added != [], !carriesOn);
    StartOfBlank(columns, from, blank, !s.paragraph || added != [], !carriesOn);
    ContainedIsSound(s, matched, added, blank);
    SettledIsHealthy(Contained(s, matched, added, blank), Lead(written), columns, from, start, carriesOn);
  }

  lemma {:induction false} ReadAllIsHealthy(s: State, lines: seq<string>)
    requires Healthy(s)
    ensures Healthy(ReadAll(s, lines))
    decreases |lines|
  {
    if lines != [] {
      NextIsHealthy(s, lines[0]);
      ReadAllIsHealthy(Next(s, lines[0]).0, lines[1..]);
    }
  }

  lemma {:induction false} ReadAllAppend(s: State, a: seq<string>, b: seq<string>)
    ensures ReadAll(s, a + b) == ReadAll(ReadAll(s, a), b)
    decreases |a|
  {
    if a == [] {
      assert a + b == b;
    } else {
      assert (a + b)[1..] == a[1..] + b;
      ReadAllAppend(Next(s, a[0]).0, a[1..], b);
    }
  }

  // ----- Where a line's opening ends -----

  /** Everything before `at` is something a quote or list mark is made of. */
  predicate InOpening(columns: string, at: nat) {
    at <= |columns| && forall i :: 0 <= i < at ==> OpeningChar(columns[i])
  }

  lemma QuoteInOpening(columns: string, at: nat)
    requires InOpening(columns, at) && QuoteMark(columns, at).Some?
    ensures InOpening(columns, QuoteMark(columns, at).value)
  {
  }

  lemma MarkInOpening(columns: string, at: nat)
    requires InOpening(columns, at)
    ensures MarkAt(columns, at).Quote? ==> InOpening(columns, MarkAt(columns, at).end)
    ensures MarkAt(columns, at).Item? ==> InOpening(columns, MarkAt(columns, at).end)
  {
  }

  lemma {:induction false} OpenedInOpening(columns: string, at: nat, interrupting: bool)
    requires InOpening(columns, at)
    ensures InOpening(columns, Opened(columns, at, interrupting).1)
    decreases |columns| - at
  {
    if !ThematicBreak(columns, at) {
      MarkInOpening(columns, at);
      match MarkAt(columns, at)
      case NoMark =>
      case Quote(end) => OpenedInOpening(columns, end, false);
      case Item(_, end, _) => OpenedInOpening(columns, end, false);
    }
  }

  lemma ColumnsSplit(written: string)
    ensures var lead, columns := Expanded(Lead(written), 0), Columns(written);
            && columns == lead + written[|Lead(written)|..]
            && (|lead| < |columns| ==> !OpeningChar(columns[|lead|]))
            && forall i :: 0 <= i < |lead| ==> OpeningChar(columns[i]) && columns[i] != '\t'
  {
    hide Lead, OpeningChar;
    var lead, columns := Expanded(Lead(written), 0), Columns(written);
    forall i | 0 <= i < |lead| ensures OpeningChar(columns[i]) && columns[i] != '\t' {
      assert columns[i] == lead[i] && lead[i] in lead;
    }
  }

  /** A line an opening leaves nothing of is nothing but an opening, its tabs all laid out. */
  lemma AllSpaces(written: string, at: nat)
    requires InOpening(Columns(written), at) && at >= BlankFrom(Columns(written))
    ensures InOpening(Columns(written), |Columns(written)|)
    ensures forall i :: BlankFrom(Columns(written)) <= i < |Columns(written)| ==> Columns(written)[i] == ' '
  {
    ColumnsSplit(written);
    var lead, columns := Expanded(Lead(written), 0), Columns(written);
    assert |lead| < |columns| ==> !Blank(columns[|lead|]);
  }

  lemma {:induction false} CarriedOnInOpening(
    open: seq<nat>, empty: bool, written: string, at: nat, count: nat)
    requires count <= |open| && InOpening(Columns(written), at)
    ensures InOpening(Columns(written), CarriedOn(open, empty, Columns(written), at, count).1)
    decreases |open| - count
  {
    var columns := Columns(written);
    if count < |open| {
      if open[count] == 0 {
        if QuoteMark(columns, at).Some? {
          QuoteInOpening(columns, at);
          CarriedOnInOpening(open, empty, written, QuoteMark(columns, at).value, count + 1);
        }
      } else if SpacesAt(columns, at, open[count]) {
        CarriedOnInOpening(open, empty, written, at + open[count], count + 1);
      } else if at >= BlankFrom(columns) && !(empty && count == |open| - 1) {
        AllSpaces(written, at);
        CarriedOnInOpening(open, empty, written, |columns|, count + 1);
      }
    }
  }

  /** The marks a line opens its quotes and items by. */
  function MarksRead(columns: string, at: nat, interrupting: bool): (marks: seq<Mark>)
    requires at <= |columns|
    ensures |marks| == |Opened(columns, at, interrupting).0|
    decreases |columns| - at
  {
    if Opened(columns, at, interrupting).0 == [] then []
    else [MarkAt(columns, at)] + MarksRead(columns, MarkAt(columns, at).end, false)
  }

  lemma FirstOpened(columns: string, at: nat, interrupting: bool)
    requires at <= |columns| && Opened(columns, at, interrupting).0 != []
    ensures var (added, mark) := (Opened(columns, at, interrupting).0, MarkAt(columns, at));
            && !mark.NoMark? && at < mark.end <= |columns|
            && added[1..] == Opened(columns, mark.end, false).0
            && (added[0] == 0 <==> mark.Quote?)
  {
    hide ThematicBreak, BlankFrom, MarkAt;
  }

  lemma FirstRead(columns: string, at: nat, interrupting: bool)
    requires at <= |columns| && Opened(columns, at, interrupting).0 != []
    ensures MarksRead(columns, at, interrupting)[0] == MarkAt(columns, at)
    ensures MarksRead(columns, at, interrupting)[1..] == MarksRead(columns, MarkAt(columns, at).end, false)
  {
    hide Opened, MarkAt;
  }

  predicate QuotesAreNought(added: seq<nat>, marks: seq<Mark>) {
    && |added| == |marks|
    && forall i :: 0 <= i < |added| ==> (added[i] == 0 <==> marks[i].Quote?) && (added[i] > 0 <==> marks[i].Item?)
  }

  lemma OneMoreMark(width: nat, mark: Mark, added: seq<nat>, marks: seq<Mark>)
    requires QuotesAreNought(added, marks) && !mark.NoMark? && (width == 0 <==> mark.Quote?)
    ensures QuotesAreNought([width] + added, [mark] + marks)
  {
  }

  /** A quote is nought and an item is not: neither is ever taken for the other. */
  lemma {:induction false} ItemsHaveWidth(columns: string, at: nat, interrupting: bool)
    requires at <= |columns|
    ensures QuotesAreNought(Opened(columns, at, interrupting).0, MarksRead(columns, at, interrupting))
    decreases |columns| - at
  {
    hide Opened, MarkAt, MarksRead;
    var added, marks := Opened(columns, at, interrupting).0, MarksRead(columns, at, interrupting);
    if added != [] {
      FirstOpened(columns, at, interrupting);
      FirstRead(columns, at, interrupting);
      var end := MarkAt(columns, at).end;
      ItemsHaveWidth(columns, end, false);
      OneMoreMark(added[0], marks[0], added[1..], marks[1..]);
      assert added == [added[0]] + added[1..] && marks == [marks[0]] + marks[1..];
    }
  }

  // ----- Headings -----

  /** Words no mark is made of open only where the opening as written ends. */
  lemma WordsFollowTheLead(written: string, at: nat)
    requires InOpening(Columns(written), at)
    requires var words := WordsFrom(Columns(written), at); words != [] && !OpeningChar(words[0])
    ensures written == Lead(written) + WordsFrom(Columns(written), at)
  {
    hide Lead;
    ColumnsSplit(written);
    var lead, columns := Expanded(Lead(written), 0), Columns(written);
    var from := at + RunOf(Space, columns, at);
    assert !OpeningChar(columns[from]);
    assert from == |lead|;
    assert columns[from..] == written[|Lead(written)|..];
  }

  lemma StartOfHeading(columns: string, at: nat, blank: bool, code: bool, tag: bool)
    requires at <= |columns|
    ensures var start := StartAt(columns, at, blank, code, tag);
            start.StartsHeading? ==> HeadingAt(WordsFrom(columns, at), start.hashes)
  {
    hide Html.Opens, Html.TagAlone, OpeningFence, ThematicBreak;
  }

  lemma SettledHeading(s: State, lead: string, columns: string, at: nat, start: Start, carriesOn: bool)
    requires at <= |columns| && Settled(s, lead, columns, at, start, carriesOn).1.AHeading?
    ensures start.StartsHeading?
    ensures var heading := Settled(s, lead, columns, at, start, carriesOn).1.heading;
            heading.lead == lead && heading.hashes == start.hashes && heading.words == WordsFrom(columns, at)
  {
    hide Paragraph, Html.EndsFrom, WordsFrom;
  }

  /** A heading the reader answers is one: its hashes, and the whole line as its opening and words. */
  lemma HeadingIsTheLine(s: State, written: string)
    requires Next(s, written).1.AHeading?
    ensures Next(s, written).1.heading.Valid()
    ensures Next(s, written).1.heading.lead + Next(s, written).1.heading.words == written
  {
    hide StartAt, Settled, Contained, Opened, CarriedOn, Columns, Lead, BlankFrom, Ends, WordsFrom, HeadingAt;
    var columns := Columns(written);
    CarriedOnInOpening(s.open, s.empty, written, 0, 0);
    var (matched, at) := CarriedOn(s.open, s.empty, columns, 0, 0);
    var everything := matched == |s.open|;
    OpenedInOpening(columns, at, everything && s.paragraph);
    var (added, from) := Opened(columns, at, everything && s.paragraph);
    var blank := from >= BlankFrom(columns);
    var carriesOn := everything && s.paragraph && added == [];
    var start := StartAt(columns, from, blank, !s.paragraph || added != [], !carriesOn);
    StartOfHeading(columns, from, blank, !s.paragraph || added != [], !carriesOn);
    SettledHeading(Contained(s, matched, added, blank), Lead(written), columns, from, start, carriesOn);
    HeadingOpensOnAHash(WordsFrom(columns, from), start.hashes);
    WordsFollowTheLead(written, from);
    LeadIsAnOpening(written);
  }

  lemma HeadingOpensOnAHash(words: string, hashes: nat)
    requires HeadingAt(words, hashes)
    ensures words != [] && words[0] == '#'
  {
  }

  lemma LeadIsAnOpening(written: string)
    ensures forall c <- Lead(written) :: OpeningChar(c)
  {
  }

  lemma {:induction false} NoTabsToLayOut(lead: string, column: nat)
    requires forall i :: 0 <= i < |lead| ==> OpeningChar(lead[i]) && lead[i] != '\t'
    ensures (forall c <- lead :: OpeningChar(c)) && Expanded(lead, column) == lead
  {
    if lead != [] {
      NoTabsToLayOut(lead[1..], column + 1);
    }
  }

  /** A line whose words open on a hash, a backtick or a tilde behind up to three spaces. */
  predicate Indented(written: string, indent: nat) {
    && indent < |written| && indent <= 3 && (forall i :: 0 <= i < indent ==> written[i] == ' ')
    && (written[indent] == '#' || written[indent] == '`' || written[indent] == '~')
  }

  lemma IndentedColumns(written: string, indent: nat)
    requires Indented(written, indent)
    ensures Lead(written) == written[..indent] && Columns(written) == written
    ensures indent < BlankFrom(written)
  {
    RunIs(OpeningChar, written, 0, indent);
    NoTabsToLayOut(written[..indent], 0);
    assert written[..indent] + written[indent..] == written;
  }

  lemma NothingOpensThere(written: string, indent: nat)
    requires Indented(written, indent)
    ensures !ThematicBreak(written, 0) && MarkAt(written, 0).NoMark? && !SpacesAt(written, 0, 4)
    ensures WordsFrom(written, 0) == written[indent..]
  {
    RunIs(Space, written, 0, indent);
    RunIs(Digit, written, indent, 0);
  }

  /** A line as section 4.2 of the GFM specification has a heading: up to three spaces, one to six hashes,
      and then nothing or a space or a tab. */
  predicate TopHeading(written: string, indent: nat, hashes: nat) {
    && indent <= 3 && 1 <= hashes <= 6 && indent + hashes <= |written|
    && (forall i :: 0 <= i < indent ==> written[i] == ' ')
    && (forall i :: indent <= i < indent + hashes ==> written[i] == '#')
    && (indent + hashes < |written| ==> written[indent + hashes] == ' ' || written[indent + hashes] == '\t')
  }

  lemma TopHeadingWords(written: string, indent: nat, hashes: nat)
    requires indent <= |written|
    ensures TopHeading(written, indent, hashes)
       <==> indent <= 3 && (forall i :: 0 <= i < indent ==> written[i] == ' ') && HeadingAt(written[indent..], hashes)
  {
    var words := written[indent..];
    assert forall i :: indent <= i < |written| ==> written[i] == words[i - indent];
  }

  lemma TopHeadingIsFound(s: State, written: string, indent: nat, hashes: nat)
    requires s.open == [] && s.block == None && TopHeading(written, indent, hashes)
    ensures Next(s, written).1 == AHeading(Heading(written[..indent], hashes, written[indent..], 0, false))
  {
    hide Html.Opens, Html.TagAlone, OpeningFence, Lead, Columns, ThematicBreak, MarkAt, SpacesAt, BlankFrom, WordsFrom;
    assert written[indent] == written[indent..][0];
    IndentedColumns(written, indent);
    NothingOpensThere(written, indent);
    NoContainers(s, written);
    assert Opened(written, 0, s.paragraph) == ([], 0);
    var words := written[indent..];
    RunIs(Hash, words, 0, hashes);
    hide HeadingAt, Paragraph;
  }

  lemma {:induction false} ShortExpansionIsNoTab(lead: string, column: nat)
    requires forall c <- lead :: OpeningChar(c)
    requires column + |Expanded(lead, column)| <= 3
    ensures Expanded(lead, column) == lead
  {
    if lead != [] {
      assert lead[0] in lead;
      ShortExpansionIsNoTab(lead[1..], column + 1);
    }
  }

  lemma OpenedNothing(columns: string, at: nat, interrupting: bool)
    requires at <= |columns| && Opened(columns, at, interrupting).0 == []
    ensures Opened(columns, at, interrupting) == ([], at)
  {
    hide ThematicBreak, MarkAt, BlankFrom;
  }

  lemma HeadingIsNoCode(columns: string, at: nat, blank: bool, code: bool, tag: bool)
    requires at <= |columns| && StartAt(columns, at, blank, code, tag).StartsHeading?
    ensures !SpacesAt(columns, at, 4)
  {
    hide Html.Opens, Html.TagAlone, OpeningFence, ThematicBreak, SpacesAt;
  }

  /** Behind fewer than four columns of space there was no tab. */
  lemma LeadOfAHeading(written: string)
    requires var words := WordsFrom(Columns(written), 0); words != [] && !OpeningChar(words[0])
    requires !SpacesAt(Columns(written), 0, 4)
    ensures |Lead(written)| <= 3 && forall i :: 0 <= i < |Lead(written)| ==> Lead(written)[i] == ' '
  {
    hide Lead;
    ColumnsSplit(written);
    var lead, columns := Expanded(Lead(written), 0), Columns(written);
    var from := RunOf(Space, columns, 0);
    assert !OpeningChar(columns[from]);
    assert from == |lead|;
    ShortExpansionIsNoTab(Lead(written), 0);
    assert forall i :: 0 <= i < |lead| ==> lead[i] == columns[i];
  }

  /** A heading of no quote and no item has no container: it is the whole line, behind three spaces. */
  lemma TopHeadingIsTheLine(s: State, written: string)
    requires s.open == [] && s.block == None && Next(s, written).1.AHeading?
    requires var heading := Next(s, written).1.heading; heading.quotes == 0 && !heading.inAnItem
    ensures var heading := Next(s, written).1.heading;
            && |heading.lead| <= 3 && (forall i :: 0 <= i < |heading.lead| ==> heading.lead[i] == ' ')
            && written == heading.lead + heading.words
  {
    hide StartAt, Settled, Opened, CarriedOn, Columns, Lead, BlankFrom, Ends, WordsFrom, HeadingAt, SpacesAt;
    HeadingIsTheLine(s, written);
    HeadingIsInItsContainers(s, written);
    var columns := Columns(written);
    NoContainers(s, columns);
    var (added, from) := Opened(columns, 0, s.paragraph);
    var blank := from >= BlankFrom(columns);
    var carriesOn := s.paragraph && added == [];
    var start := StartAt(columns, from, blank, !s.paragraph || added != [], !carriesOn);
    var contained := Contained(s, 0, added, blank);
    assert contained.open == added;
    SettledHeading(contained, Lead(written), columns, from, start, carriesOn);
    SettledOpen(contained, Lead(written), columns, from, start, carriesOn);
    QuotesCount(added);
    assert added == [];
    OpenedNothing(columns, 0, s.paragraph);
    HeadingIsNoCode(columns, 0, blank, !s.paragraph || added != [], !carriesOn);
    StartOfHeading(columns, 0, blank, !s.paragraph || added != [], !carriesOn);
    HeadingOpensOnAHash(WordsFrom(columns, 0), start.hashes);
    LeadOfAHeading(written);
  }

  lemma SettledOpen(s: State, lead: string, columns: string, at: nat, start: Start, carriesOn: bool)
    requires at <= |columns|
    ensures Settled(s, lead, columns, at, start, carriesOn).0.open == s.open
  {
    hide Html.EndsFrom, WordsFrom, Cells, Underline, DelimiterRow, SpacesAt;
  }

  /** Outside every quote, item and block, whatever else is open, the reader answers a heading with no
      container of its own for exactly the lines that are one. */
  lemma TopHeadingsExactly(s: State, written: string, indent: nat, hashes: nat)
    requires s.open == [] && s.block == None && indent <= |written|
    ensures TopHeading(written, indent, hashes)
       <==> Next(s, written).1 == AHeading(Heading(written[..indent], hashes, written[indent..], 0, false))
  {
    hide Next, HeadingAt, TopHeading;
    TopHeadingWords(written, indent, hashes);
    if TopHeading(written, indent, hashes) {
      TopHeadingIsFound(s, written, indent, hashes);
    }
    if Next(s, written).1 == AHeading(Heading(written[..indent], hashes, written[indent..], 0, false)) {
      HeadingIsTheLine(s, written);
      TopHeadingIsTheLine(s, written);
      assert forall i :: 0 <= i < indent ==> written[..indent][i] == written[i];
    }
  }

  lemma {:induction false} QuotesCount(open: seq<nat>)
    ensures Quotes(open) <= |open|
    ensures Quotes(open) < |open| <==> exists i :: 0 <= i < |open| && open[i] > 0
  {
    if open != [] {
      QuotesCount(open[1..]);
      assert forall i :: 0 < i < |open| ==> open[i] == open[1..][i - 1];
      if i :| 0 <= i < |open[1..]| && open[1..][i] > 0 {
        assert open[i + 1] > 0;
      }
    }
  }

  /** A heading's quotes and its item are those of the containers the line leaves open. */
  lemma HeadingIsInItsContainers(s: State, written: string)
    requires Next(s, written).1.AHeading?
    ensures var (after, drawn) := Next(s, written);
            && drawn.heading.quotes == Quotes(after.open)
            && (drawn.heading.inAnItem <==> exists i :: 0 <= i < |after.open| && after.open[i] > 0)
  {
    QuotesCount(Next(s, written).0.open);
  }

  // ----- Blocks of code and of HTML -----

  /** A line that ends the block, or comes after its end: the last of a block with an end of its own,
      or the blank line under one without. */
  predicate LastLine(block: Block, written: string) { Ends(block, Columns(written), 0) }

  predicate BreaksOff(block: Block, written: string) {
    block == OfHtml(None) && BlankFrom(Columns(written)) == 0
  }

  /** How the reader answers each of `lines` in turn. */
  function Answers(s: State, lines: seq<string>): (drawn: seq<Drawn>)
    ensures |drawn| == |lines|
    decreases |lines|
  {
    if lines == [] then [] else [Next(s, lines[0]).1] + Answers(Next(s, lines[0]).0, lines[1..])
  }

  lemma NoContainers(s: State, columns: string)
    requires s.open == []
    ensures CarriedOn(s.open, s.empty, columns, 0, 0) == (0, 0)
  {
  }

  lemma InsideABlock(s: State, block: Block, written: string)
    requires s.open == [] && s.block == Some(block) && !BreaksOff(block, written)
    ensures Next(s, written) == (if LastLine(block, written) then s.(block := None) else s, AsCode)
  {
    hide Lead, Columns, Opened, StartAt, Settled, Ends;
    NoContainers(s, Columns(written));
  }

  /** Inside a block opened outside every quote and item, every line up to the one that ends it is
      answered as code - and so no heading, whatever it holds. */
  lemma {:induction false} BlockHoldsItsLines(s: State, block: Block, lines: seq<string>)
    requires s.open == [] && s.block == Some(block)
    requires forall i :: 0 <= i < |lines| - 1 ==> !LastLine(block, lines[i])
    requires forall i :: 0 <= i < |lines| ==> !BreaksOff(block, lines[i])
    ensures forall i :: 0 <= i < |lines| ==> Answers(s, lines)[i] == AsCode
    ensures lines != [] && LastLine(block, lines[|lines| - 1]) ==> ReadAll(s, lines) == s.(block := None)
    ensures lines == [] || !LastLine(block, lines[|lines| - 1]) ==> ReadAll(s, lines) == s
    decreases |lines|
  {
    hide Next, LastLine, BreaksOff;
    if lines != [] {
      InsideABlock(s, block, lines[0]);
      if |lines| > 1 {
        BlockHoldsItsLines(s, block, lines[1..]);
        assert lines[1..][|lines| - 2] == lines[|lines| - 1];
      } else {
        assert lines[1..] == [];
      }
    }
  }

  /** An opening fence as section 4.5 of the GFM specification has it: up to three spaces, three backticks
      or more with none after them, or three tildes or more. */
  predicate TopFence(written: string, indent: nat, mark: char, width: nat) {
    && Indented(written, indent) && (mark == '`' || mark == '~')
    && width >= 3 && indent + width <= |written|
    && (forall i :: indent <= i < indent + width ==> written[i] == mark)
    && (indent + width < |written| ==> written[indent + width] != mark)
    && (mark == '`' ==> '`' !in written[indent + width..])
  }

  lemma FenceWords(written: string, indent: nat, mark: char, width: nat)
    requires TopFence(written, indent, mark, width)
    ensures OpeningFence(written[indent..]) == Some(Some(Fenced(mark, width)))
    ensures !HeadingAt(written[indent..], RunOf(Hash, written[indent..], 0))
  {
    var words := written[indent..];
    assert forall i :: 0 <= i < width ==> words[i] == written[indent + i];
    assert words[width..] == written[indent + width..];
    assert words[0] == mark;
    RunIs(Is(mark), words, 0, width);
    RunIs(Hash, words, 0, 0);
  }

  /** Outside every quote, item and block, and whatever paragraph or table is open, such a line opens a
      fence. */
  lemma TopFenceOpens(s: State, written: string, indent: nat, mark: char, width: nat)
    requires s.open == [] && s.block == None && TopFence(written, indent, mark, width)
    ensures var (after, drawn) := Next(s, written);
            after.open == [] && after.block == Some(Fenced(mark, width)) && drawn == AsWords
  {
    hide Html.Opens, Html.TagAlone, OpeningFence, Lead, Columns, ThematicBreak, MarkAt, SpacesAt, BlankFrom, WordsFrom;
    IndentedColumns(written, indent);
    NothingOpensThere(written, indent);
    NoContainers(s, written);
    assert Opened(written, 0, s.paragraph) == ([], 0);
    FenceWords(written, indent, mark, width);
    hide HeadingAt, Paragraph;
  }

  /** Whether a line closes a fence: up to three spaces, its mark again at least as often, and then only
      spaces and tabs. */
  predicate Closes(mark: char, width: nat, written: string) { LastLine(Fenced(mark, width), written) }

  /** So a fence opened outside every quote and item makes code of all that follows it, up to the line
      that closes it, and to the end of the body where none does. */
  lemma FenceHoldsWhatFollows(s: State, opener: string, indent: nat, mark: char, width: nat, lines: seq<string>)
    requires s.open == [] && s.block == None && TopFence(opener, indent, mark, width)
    requires forall i :: 0 <= i < |lines| - 1 ==> !Closes(mark, width, lines[i])
    ensures var answers := Answers(s, [opener] + lines);
            answers[0] == AsWords && forall i :: 0 < i < |answers| ==> answers[i] == AsCode
    ensures lines != [] ==>
              var after := ReadAll(s, [opener] + lines);
              after.block == if Closes(mark, width, lines[|lines| - 1]) then None else Some(Fenced(mark, width))
  {
    hide Next, LastLine, TopFence;
    TopFenceOpens(s, opener, indent, mark, width);
    var inside := Next(s, opener).0;
    BlockHoldsItsLines(inside, Fenced(mark, width), lines);
    assert ([opener] + lines)[1..] == lines;
  }

  /** The blank line under a block with no end of its own ends it, and is no code. */
  lemma BlankLineBreaksOff(s: State, block: Block, written: string)
    requires s.open == [] && s.block == Some(block) && !s.paragraph && BreaksOff(block, written)
    ensures Next(s, written).0.block.None? && Next(s, written).0.open == [] && Next(s, written).1 == AsWords
  {
    hide Lead, Columns;
    NoContainers(s, Columns(written));
  }
}
