/** What the line reader made, read again: where it leaves GitHub's reading of a body as it was, a second
    pass changes nothing. */
module SecondReading {
  import opened Text
  import opened Fences
  import opened Drawn
  import opened Marks
  import opened LineRules
  import opened LineTheorems
  import opened Reader
  import opened ReaderTheorems
  import opened Inserted
  import Html

  // ----- Two readings that differ in a table's header alone -----

  /** Alike but for the line a table's second line would be held against, which has as many cells. */
  predicate Alike(s: State, t: State) {
    t == s.(header := t.header) && Cells(s.header) == Cells(t.header) && OfAFence(s.block)
  }

  lemma StartIsOfAFence(columns: string, at: nat, blank: bool, code: bool, tag: bool)
    requires at <= |columns| && StartAt(columns, at, blank, code, tag).StartsBlock?
    ensures OfAFence(Some(StartAt(columns, at, blank, code, tag).block))
  {
    hide Html.Opens, Html.TagAlone, ThematicBreak, HeadingAt, SpacesAt;
  }

  lemma ContainedAlike(s: State, t: State, matched: nat, added: seq<nat>, blank: bool)
    requires Alike(s, t) && matched <= |s.open|
    ensures Alike(Contained(s, matched, added, blank), Contained(t, matched, added, blank))
  {
    hide Cells;
  }

  lemma ParagraphAlike(s: State, t: State, columns: string, others: string, at: nat, carriesOn: bool)
    requires Alike(s, t) && at <= |columns| && at <= |others|
    requires SpacesAt(columns, at, 4) == SpacesAt(others, at, 4)
    requires var (words, said) := (WordsFrom(columns, at), WordsFrom(others, at));
             Underline(words) == Underline(said) && DelimiterRow(words) == DelimiterRow(said) && Cells(words) == Cells(said)
    ensures Alike(Paragraph(s, columns, at, carriesOn), Paragraph(t, others, at, carriesOn))
  {
    hide Cells, WordsFrom, SpacesAt, Underline, DelimiterRow;
  }

  lemma SettledAlike(s: State, t: State, lead: string, columns: string, at: nat, start: Start, carriesOn: bool)
    requires Alike(s, t) && at <= |columns| && (start.StartsBlock? ==> OfAFence(Some(start.block)))
    ensures var (one, other) := (Settled(s, lead, columns, at, start, carriesOn), Settled(t, lead, columns, at, start, carriesOn));
            one.1 == other.1 && Alike(one.0, other.0)
  {
    hide Cells, WordsFrom, Paragraph, Html.EndsFrom, Quotes;
    ParagraphAlike(s, t, columns, columns, at, carriesOn);
  }

  /** The same line leaves two such readings alike, and is drawn alike. */
  lemma NextAlike(s: State, t: State, line: string)
    requires Alike(s, t)
    ensures Next(s, line).1 == Next(t, line).1 && Alike(Next(s, line).0, Next(t, line).0)
  {
    hide Cells, Columns, Lead, Opened, StartAt, Settled, Contained, CarriedOn, Ends, BlankFrom;
    var columns := Columns(line);
    var (matched, at) := CarriedOn(s.open, s.empty, columns, 0, 0);
    var here := matched == |s.open| && s.paragraph;
    var (added, from) := Opened(columns, at, here);
    var blank, carriesOn := from >= BlankFrom(columns), here && added == [];
    var start := StartAt(columns, from, blank, !s.paragraph || added != [], !carriesOn);
    if start.StartsBlock? {
      StartIsOfAFence(columns, from, blank, !s.paragraph || added != [], !carriesOn);
    }
    ContainedAlike(s, t, matched, added, blank);
    SettledAlike(Contained(s, matched, added, blank), Contained(t, matched, added, blank), Lead(line), columns, from,
                 start, carriesOn);
  }

  // ----- A line with a mark in front of its first hash -----

  lemma SettledPut(s: State, t: State, lead: string, c: string, at: nat, m: char, k: nat, start: Start, carriesOn: bool)
    requires Alike(s, t) && FirstHash(c, at) && Inserted.Mark(m) && k <= at && (start.Code? || start.Words?)
    ensures var (one, other) := (Settled(s, lead, c, k, start, carriesOn), Settled(t, lead, Put(c, at, m), k, start, carriesOn));
            one.1 == other.1 && Alike(one.0, other.0)
  {
    hide Cells, WordsFrom, Paragraph, Html.EndsFrom, Quotes, FirstHash, Put;
    FirstHashIs(c, at);
    WordsPut(c, at, m, k);
    SpacesAtPut(c, at, m, k, 4);
    var words, hash := WordsFrom(c, k), at - k - RunOf(Space, c, k);
    FirstHashIs(words, hash);
    HashBehind(words, hash, m);
    NoRowWithAHash(words, hash);
    NoRowWithAHash(Put(words, hash, m), hash + 1);
    CellsPut(words, hash, m);
    ParagraphAlike(s, t, c, Put(c, at, m), k, carriesOn);
  }

  lemma RestPut(c: string, at: nat, m: char, k: nat)
    requires HashAt(c, at) && Inserted.Mark(m) && k <= at
    ensures Cells(Put(c, at, m)[k..]) == Cells(c[k..])
  {
    hide Cells;
    assert Put(c, at, m)[k..] == Put(c[k..], at - k, m) by {
      assert c[k..][..at - k] == c[k..at] && c[k..][at - k..] == c[at..];
    }
    CellsPut(c[k..], at - k, m);
  }

  /** What a line reads on as that is in no block, from where the containers leave it. */
  function ReadOnFrom(s: State, lead: string, columns: string, matched: nat, at: nat): (State, Drawn)
    requires matched <= |s.open| && at <= |columns|
  {
    var everything := matched == |s.open|;
    var here := everything && s.paragraph;
    var (added, from) := Opened(columns, at, here);
    var blank := from >= BlankFrom(columns);
    var carriesOn := here && added == [];
    var start := StartAt(columns, from, blank, !s.paragraph || added != [], !carriesOn);
    if !everything && s.paragraph && added == [] && start.Words? then
      (s.(block := None, header := columns[from..]), AsWords)
    else
      Settled(Contained(s, matched, added, blank), lead, columns, from, start, carriesOn)
  }

  lemma NextIs(s: State, line: string)
    ensures var columns := Columns(line);
            var (matched, at) := CarriedOn(s.open, s.empty, columns, 0, 0);
            Next(s, line)
            == if s.block.Some? && matched == |s.open| && Holds(s.block.value, columns, at) then
                 (s.(block := if Ends(s.block.value, columns, at) then None else s.block), AsCode)
               else ReadOnFrom(s, Lead(line), columns, matched, at)
  {
    hide Columns, Lead, Opened, StartAt, Settled, Contained, CarriedOn, Ends, BlankFrom;
  }

  lemma SettledIsAHeading(s: State, lead: string, columns: string, at: nat, start: Start, carriesOn: bool)
    requires at <= |columns| && start.StartsHeading?
    ensures Settled(s, lead, columns, at, start, carriesOn).1.AHeading?
  {
    hide WordsFrom, Quotes;
  }

  lemma ReadOnPut(s: State, t: State, lead: string, c: string, at: nat, m: char, matched: nat, k: nat)
    requires Alike(s, t) && FirstHash(c, at) && Inserted.Mark(m) && k <= at && matched <= |s.open|
    requires !ReadOnFrom(s, lead, c, matched, k).1.AHeading?
    ensures var (one, other) := (ReadOnFrom(s, lead, c, matched, k), ReadOnFrom(t, lead, Put(c, at, m), matched, k));
            one.1 == other.1 && Alike(one.0, other.0)
  {
    hide Cells, Opened, StartAt, Settled, Contained, BlankFrom, FirstHash, Put, Inserted.Mark;
    FirstHashIs(c, at);
    var here := matched == |s.open| && s.paragraph;
    OpenedPut(c, at, m, k, here);
    var (added, from) := Opened(c, k, here);
    NeitherIsBlank(c, at, m);
    var carriesOn := here && added == [];
    var code, tag := !s.paragraph || added != [], !carriesOn;
    var start := StartAt(c, from, false, code, tag);
    if start.StartsHeading? {
      SettledIsAHeading(Contained(s, matched, added, false), lead, c, from, start, carriesOn);
    }
    StartPut(c, at, m, from, code, tag);
    ContainedAlike(s, t, matched, added, false);
    SettledPut(Contained(s, matched, added, false), Contained(t, matched, added, false), lead, c, at, m, from, start,
               carriesOn);
    RestPut(c, at, m, from);
  }

  /** A line that is no heading reads on with the mark as it did without. */
  lemma NextPut(s: State, t: State, line: string, at: nat, m: char)
    requires Alike(s, t) && FirstHash(line, at) && Inserted.Mark(m) && !Next(s, line).1.AHeading?
    ensures Next(t, Put(line, at, m)).1 == Next(s, line).1
    ensures Alike(Next(s, line).0, Next(t, Put(line, at, m)).0)
  {
    hide Cells, Columns, Lead, CarriedOn, Ends, BlankFrom, ReadOnFrom, FirstHash, Put, Inserted.Mark, Next, HashColumn;
    FirstHashIs(line, at);
    ColumnsPut(line, at, m);
    var c, hash := Columns(line), HashColumn(line, at);
    FirstHashIs(c, hash);
    NextIs(s, line);
    NextIs(t, Put(line, at, m));
    CarriedOnPut(s.open, s.empty, c, hash, m, 0, 0);
    var (matched, k) := CarriedOn(s.open, s.empty, c, 0, 0);
    NeitherIsBlank(c, hash, m);
    if s.block.Some? && matched == |s.open| {
      EndsPut(s.block.value, c, hash, m, k);
      assert Holds(s.block.value, c, k) && Holds(s.block.value, Put(c, hash, m), k);
    } else {
      ReadOnPut(s, t, Lead(line), c, hash, m, matched, k);
    }
  }

  // ----- A heading as it is redrawn -----

  /** A line as a heading is redrawn: a quote mark or none, one to three hashes, a space, and words. */
  predicate Redrawn(line: string, quoted: string, hashes: nat, words: string) {
    && (quoted == "" || quoted == "> ") && 1 <= hashes <= 3
    && line == quoted + Repeat('#', hashes) + " " + words
  }

  lemma RedrawnIs(line: string, quoted: string, hashes: nat, words: string)
    requires Redrawn(line, quoted, hashes, words)
    ensures var at := |quoted|;
            && at + hashes < |line| && (forall i :: at <= i < at + hashes ==> line[i] == '#') && line[at + hashes] == ' '
            && (quoted == "> " ==> line[0] == '>' && line[1] == ' ')
            && line[at..] == Repeat('#', hashes) + " " + words
  {
    var rest := Repeat('#', hashes) + " " + words;
    assert line == quoted + rest;
    assert forall i :: 0 <= i < |rest| ==> line[|quoted| + i] == rest[i];
  }

  lemma QuotedOpens(line: string, quoted: string)
    requires quoted <= line && (quoted == "" || quoted == "> ") && HashAt(line, |quoted|)
    ensures Lead(line) == quoted && Columns(line) == line && |quoted| < BlankFrom(line)
  {
    assert line[..|quoted|] == quoted;
    assert forall i :: 0 <= i < |quoted| ==> line[i] == quoted[i];
    RunIs(OpeningChar, line, 0, |quoted|);
    NoTabsToLayOut(quoted, 0);
    assert quoted + line[|quoted|..] == line;
    assert !Blank(line[|quoted|]);
  }

  lemma HashesOpen(rest: string, hashes: nat, words: string)
    requires rest == Repeat('#', hashes) + " " + words && 1 <= hashes <= 3
    ensures HeadingAt(rest, hashes) && RunOf(Hash, rest, 0) == hashes
  {
    assert rest[hashes] == ' ';
    RunIs(Hash, rest, 0, hashes);
  }

  lemma RedrawnColumns(line: string, quoted: string, hashes: nat, words: string)
    requires Redrawn(line, quoted, hashes, words)
    ensures quoted <= line && HashAt(line, |quoted|)
    ensures Lead(line) == quoted && Columns(line) == line && |quoted| < BlankFrom(line)
    ensures HeadingAt(line[|quoted|..], hashes) && RunOf(Hash, line[|quoted|..], 0) == hashes
  {
    hide Lead, Columns, BlankFrom, HeadingAt, RunOf;
    RedrawnIs(line, quoted, hashes, words);
    QuotedOpens(line, quoted);
    HashesOpen(line[|quoted|..], hashes, words);
  }

  lemma HashStops(open: seq<nat>, empty: bool, c: string, k: nat, count: nat)
    requires count <= |open| && HashAt(c, k)
    ensures CarriedOn(open, empty, c, k, count) == (count, k)
  {
    assert k < BlankFrom(c);
    hide BlankFrom;
    assert RunOf(Space, c, k) == 0;
  }

  lemma NothingOpensAtAHash(c: string, k: nat, interrupting: bool)
    requires HashAt(c, k)
    ensures Opened(c, k, interrupting) == ([], k) && WordsFrom(c, k) == c[k..]
  {
    NoBreakWithAHash(c, k, k);
    hide ThematicBreak;
    assert RunOf(Space, c, k) == 0 && RunOf(Digit, c, k) == 0;
    assert MarkAt(c, k) == NoMark;
  }

  lemma HeadingStarts(c: string, k: nat, hashes: nat, code: bool, tag: bool)
    requires HashAt(c, k) && HeadingAt(c[k..], hashes) && RunOf(Hash, c[k..], 0) == hashes
    ensures StartAt(c, k, false, code, tag) == StartsHeading(hashes)
  {
    NothingOpensAtAHash(c, k, false);
    NoBreakWithAHash(c, k, k);
    hide ThematicBreak, HeadingAt, Html.Opens, Html.TagAlone, OpeningFence, WordsFrom;
    assert !SpacesAt(c, k, 4);
  }

  /** What a heading leaves: the containers it is in, and nothing else open. */
  function LeftByAHeading(s: State, open: seq<nat>): State {
    State(open, false, None, false, false, s.header, s.tried)
  }

  lemma SettledHeadingLeaves(s: State, matched: nat, added: seq<nat>, lead: string, c: string, at: nat, start: Start, carriesOn: bool)
    requires matched <= |s.open| && at <= |c| && start.StartsHeading?
    ensures Settled(Contained(s, matched, added, false), lead, c, at, start, carriesOn).0
         == LeftByAHeading(s, s.open[..matched] + added)
  {
    hide WordsFrom, Quotes;
  }

  lemma OpenedGoesOn(columns: string, at: nat, interrupting: bool)
    requires at <= |columns|
    ensures at <= Opened(columns, at, interrupting).1
  {
  }

  /** What GitHub's reading of a heading's line came by. */
  lemma HeadingCameBy(s: State, line: string) returns (matched: nat, at: nat, added: seq<nat>)
    requires Next(s, line).1.AHeading?
    ensures matched <= |s.open| && at <= |Columns(line)| && (matched, at) == CarriedOn(s.open, s.empty, Columns(line), 0, 0)
    ensures added == Opened(Columns(line), at, matched == |s.open| && s.paragraph).0
    ensures Next(s, line).0 == LeftByAHeading(s, s.open[..matched] + added)
    ensures s.block.Some? ==> matched < |s.open|
  {
    hide Columns, Lead, Opened, StartAt, Settled, Contained, CarriedOn, Ends, BlankFrom;
    var columns := Columns(line);
    NextIs(s, line);
    matched, at := CarriedOn(s.open, s.empty, columns, 0, 0).0, CarriedOn(s.open, s.empty, columns, 0, 0).1;
    var here := matched == |s.open| && s.paragraph;
    added := Opened(columns, at, here).0;
    var from := Opened(columns, at, here).1;
    var blank, carriesOn := from >= BlankFrom(columns), here && added == [];
    var start := StartAt(columns, from, blank, !s.paragraph || added != [], !carriesOn);
    SettledHeading(Contained(s, matched, added, blank), Lead(line), columns, from, start, carriesOn);
    StartOfBlank(columns, from, blank, !s.paragraph || added != [], !carriesOn);
    SettledHeadingLeaves(s, matched, added, Lead(line), columns, from, start, carriesOn);
    OpenedGoesOn(columns, at, here);
  }

  /** The containers a heading Discord has is in: none, or one quote, carried on or opened. */
  lemma OneQuoteOrNone(s: State, line: string, matched: nat, at: nat, added: seq<nat>)
    requires Next(s, line).1.AHeading? && Next(s, line).1.heading.OnTop()
    requires matched <= |s.open| && at <= |Columns(line)| && (matched, at) == CarriedOn(s.open, s.empty, Columns(line), 0, 0)
    requires added == Opened(Columns(line), at, matched == |s.open| && s.paragraph).0
    requires Next(s, line).0.open == s.open[..matched] + added
    ensures var quoted := Next(s, line).1.heading.quotes > 0;
            if !quoted then matched == 0 && added == []
            else if s.open != [] && s.open[0] == 0 then matched == 1 && added == []
            else matched == 0 && added == [0]
  {
    hide Next, Columns, CarriedOn, Opened, QuoteMark;
    var open := s.open[..matched] + added;
    HeadingIsInItsContainers(s, line);
    QuotesCount(open);
    assert |open| == Quotes(open) <= 1;
    if added != [] {
      FirstOpened(Columns(line), at, matched == |s.open| && s.paragraph);
      QuoteIsAQuoteMark(Columns(line), at);
    }
    if s.open != [] && s.open[0] == 0 {
      FirstOfTheOpen(s.open, s.empty, Columns(line));
    }
    assert matched > 0 ==> open[0] == s.open[0];
    assert matched == 0 ==> open == added;
  }

  lemma QuoteIsAQuoteMark(c: string, at: nat)
    requires at <= |c|
    ensures MarkAt(c, at).Quote? ==> QuoteMark(c, at).Some?
  {
    hide QuoteMark;
  }

  /** A quote open at the bottom is carried on by its mark and by nothing else. */
  lemma FirstOfTheOpen(open: seq<nat>, empty: bool, c: string)
    requires open != [] && open[0] == 0
    ensures QuoteMark(c, 0).None? ==> CarriedOn(open, empty, c, 0, 0) == (0, 0)
    ensures QuoteMark(c, 0).Some? ==>
              CarriedOn(open, empty, c, 0, 0) == CarriedOn(open, empty, c, QuoteMark(c, 0).value, 1)
  {
    hide QuoteMark;
  }

  lemma QuotedMark(c: string)
    requires |c| > 2 && c[0] == '>' && c[1] == ' ' && c[2] == '#'
    ensures QuoteMark(c, 0) == Some(2) && MarkAt(c, 0) == Quote(2) && !ThematicBreak(c, 0) && !SpacesAt(c, 0, 1)
  {
    assert RunOf(Space, c, 0) == 0;
    NoBreakWithAHash(c, 2, 0);
  }

  /** A redrawn line is carried on by as much, and opens as much, as the heading it is of. */
  lemma RedrawnContainers(open: seq<nat>, empty: bool, line: string, quoted: string, hashes: nat, words: string, interrupting: bool)
    requires Redrawn(line, quoted, hashes, words)
    ensures var (matched, at) := CarriedOn(open, empty, line, 0, 0);
            && at <= |line| && Opened(line, at, interrupting).1 == |quoted|
            && var added := Opened(line, at, interrupting).0;
               if quoted == "" then matched == 0 && added == []
               else if open != [] && open[0] == 0 then matched == 1 && added == []
               else matched == 0 && added == [0]
  {
    RedrawnColumns(line, quoted, hashes, words);
    RedrawnIs(line, quoted, hashes, words);
    hide Redrawn, BlankFrom, Lead, Columns, CarriedOn, Opened;
    if quoted == "" {
      HashStops(open, empty, line, 0, 0);
      NothingOpensAtAHash(line, 0, interrupting);
    } else {
      QuotedMark(line);
      NothingOpensAtAHash(line, 2, interrupting);
      NothingOpensAtAHash(line, 2, false);
      if open != [] && open[0] == 0 {
        FirstOfTheOpen(open, empty, line);
        HashStops(open, empty, line, 2, 1);
      } else {
        NoItemOnAQuote(open, empty, line);
        AQuoteOpens(line, interrupting);
      }
    }
  }

  lemma NoItemOnAQuote(open: seq<nat>, empty: bool, c: string)
    requires c != "" && c[0] == '>' && (open == [] || open[0] > 0) && BlankFrom(c) > 0
    ensures CarriedOn(open, empty, c, 0, 0) == (0, 0)
  {
    hide BlankFrom;
  }

  lemma AQuoteOpens(c: string, interrupting: bool)
    requires MarkAt(c, 0) == Quote(2) && !ThematicBreak(c, 0) && |c| >= 2 && Opened(c, 2, false) == ([], 2)
    ensures Opened(c, 0, interrupting) == ([0], 2)
  {
    hide ThematicBreak, MarkAt;
    assert [0] + [] == [0];
  }

  lemma SettledIsTheHeading(s: State, lead: string, c: string, at: nat, hashes: nat, carriesOn: bool)
    requires at <= |c|
    ensures Settled(s, lead, c, at, StartsHeading(hashes), carriesOn).1
         == AHeading(Heading(lead, hashes, WordsFrom(c, at), Quotes(s.open), |s.open| > Quotes(s.open)))
  {
    hide WordsFrom, Quotes;
  }

  lemma ReadOnAHeading(t: State, lead: string, c: string, matched: nat, at: nat, added: seq<nat>, from: nat, hashes: nat)
    requires matched <= |t.open| && at <= |c| && (added, from) == Opened(c, at, matched == |t.open| && t.paragraph)
    requires from < BlankFrom(c)
    requires var carriesOn := matched == |t.open| && t.paragraph && added == [];
             StartAt(c, from, false, !t.paragraph || added != [], !carriesOn) == StartsHeading(hashes)
    ensures var open := t.open[..matched] + added;
            ReadOnFrom(t, lead, c, matched, at)
            == (LeftByAHeading(t, open),
                AHeading(Heading(lead, hashes, WordsFrom(c, from), Quotes(open), |open| > Quotes(open))))
  {
    hide BlankFrom, Opened, StartAt, Settled, WordsFrom, Quotes;
    var carriesOn := matched == |t.open| && t.paragraph && added == [];
    SettledHeadingLeaves(t, matched, added, lead, c, from, StartsHeading(hashes), carriesOn);
    SettledIsTheHeading(Contained(t, matched, added, false), lead, c, from, hashes, carriesOn);
  }

  /** Read on from containers that come to one quote at most, a redrawn line is a heading in them. */
  lemma RedrawnReads(t: State, line: string, quoted: string, hashes: nat, words: string, matched: nat, at: nat)
    requires Redrawn(line, quoted, hashes, words) && (matched, at) == CarriedOn(t.open, t.empty, line, 0, 0)
    requires matched <= |t.open| && at <= |line| && (t.block.Some? ==> matched < |t.open|)
    requires Opened(line, at, matched == |t.open| && t.paragraph).1 == |quoted|
    ensures |quoted| <= |line|
    ensures var open := t.open[..matched] + Opened(line, at, matched == |t.open| && t.paragraph).0;
            Next(t, line)
            == (LeftByAHeading(t, open),
                AHeading(Heading(quoted, hashes, line[|quoted|..], Quotes(open), |open| > Quotes(open))))
  {
    hide *;
    RedrawnColumns(line, quoted, hashes, words);
    NextIs(t, line);
    var here := matched == |t.open| && t.paragraph;
    var added := Opened(line, at, here).0;
    var carriesOn := here && added == [];
    HeadingStarts(line, |quoted|, hashes, !t.paragraph || added != [], !carriesOn);
    NothingOpensAtAHash(line, |quoted|, false);
    ReadOnAHeading(t, quoted, line, matched, at, added, |quoted|, hashes);
  }

  lemma HeadingsQuotes(s: State, line: string)
    requires Next(s, line).1.AHeading? && Next(s, line).1.heading.OnTop()
    ensures var open := Next(s, line).0.open; |open| == Quotes(open) == Next(s, line).1.heading.quotes
  {
    HeadingIsInItsContainers(s, line);
    QuotesCount(Next(s, line).0.open);
    hide Next, Quotes;
  }

  /** Read again, a redrawn heading is the heading it was drawn as, in the same containers. */
  lemma HeadingAgain(s: State, t: State, line: string, again: string, quoted: string, hashes: nat, words: string)
    requires Alike(s, t) && Next(s, line).1.AHeading? && Next(s, line).1.heading.OnTop()
    requires Redrawn(again, quoted, hashes, words) && (quoted == "" <==> Next(s, line).1.heading.quotes == 0)
    ensures Alike(Next(s, line).0, Next(t, again).0)
    ensures Next(t, again).1
         == AHeading(Heading(quoted, hashes, again[|quoted|..], Next(s, line).1.heading.quotes, false))
    ensures |quoted| <= |again|
  {
    hide Next, Columns, CarriedOn, Opened, Redrawn, Cells, Quotes;
    var matched, at, added := HeadingCameBy(s, line);
    OneQuoteOrNone(s, line, matched, at, added);
    HeadingsQuotes(s, line);
    var (reached, from) := CarriedOn(t.open, t.empty, again, 0, 0);
    RedrawnContainers(t.open, t.empty, again, quoted, hashes, words, reached == |t.open| && t.paragraph);
    RedrawnReads(t, again, quoted, hashes, words, reached, from);
  }

  // ----- No heading stands right behind a dash -----

  /** Right behind a space or a quote mark, or where the line begins or ends. */
  predicate BehindASpace(c: string, k: nat) {
    k <= |c| && (k == 0 || k == |c| || c[k - 1] == ' ' || c[k - 1] == '>')
  }

  lemma QuoteMarkEnds(c: string, k: nat)
    requires k <= |c| && QuoteMark(c, k).Some?
    ensures BehindASpace(c, QuoteMark(c, k).value)
  {
  }

  lemma MarkAtEnds(c: string, k: nat)
    requires k <= |c| && !MarkAt(c, k).NoMark?
    ensures BehindASpace(c, MarkAt(c, k).end)
  {
    hide ValueOf, Digit;
  }

  lemma {:induction false} CarriedOnEnds(open: seq<nat>, empty: bool, c: string, k: nat, count: nat)
    requires count <= |open| && BehindASpace(c, k)
    ensures BehindASpace(c, CarriedOn(open, empty, c, k, count).1)
    decreases |open| - count
  {
    hide QuoteMark, BlankFrom;
    if count < |open| {
      if open[count] == 0 {
        if QuoteMark(c, k).Some? {
          QuoteMarkEnds(c, k);
          CarriedOnEnds(open, empty, c, QuoteMark(c, k).value, count + 1);
        }
      } else if SpacesAt(c, k, open[count]) {
        CarriedOnEnds(open, empty, c, k + open[count], count + 1);
      } else if k >= BlankFrom(c) && !(empty && count == |open| - 1) {
        CarriedOnEnds(open, empty, c, |c|, count + 1);
      }
    }
  }

  lemma {:induction false} OpenedEnds(c: string, k: nat, interrupting: bool)
    requires BehindASpace(c, k)
    ensures BehindASpace(c, Opened(c, k, interrupting).1)
    decreases |c| - k
  {
    hide ThematicBreak, MarkAt, BlankFrom;
    match MarkAt(c, k)
    case NoMark =>
    case Quote(end) =>
      MarkAtEnds(c, k);
      OpenedEnds(c, end, false);
    case Item(_, end, _) =>
      MarkAtEnds(c, k);
      OpenedEnds(c, end, false);
  }

  /** A heading's hash stands behind a space or a quote mark, or at the start of the line. */
  lemma HeadingStandsClear(s: State, line: string) returns (hash: nat)
    requires Next(s, line).1.AHeading?
    ensures HashAt(Columns(line), hash) && BehindASpace(Columns(line), hash) && InOpening(Columns(line), hash)
  {
    hide Columns, Lead, Opened, StartAt, Settled, Contained, CarriedOn, Ends, BlankFrom, BehindASpace, HeadingAt;
    var columns := Columns(line);
    NextIs(s, line);
    var (matched, at) := CarriedOn(s.open, s.empty, columns, 0, 0);
    CarriedOnInOpening(s.open, s.empty, line, 0, 0);
    StartsClear(columns);
    CarriedOnEnds(s.open, s.empty, columns, 0, 0);
    var here := matched == |s.open| && s.paragraph;
    OpenedInOpening(columns, at, here);
    OpenedEnds(columns, at, here);
    var (added, from) := Opened(columns, at, here);
    var blank, carriesOn := from >= BlankFrom(columns), here && added == [];
    var start := StartAt(columns, from, blank, !s.paragraph || added != [], !carriesOn);
    SettledHeading(Contained(s, matched, added, blank), Lead(line), columns, from, start, carriesOn);
    StartOfHeading(columns, from, blank, !s.paragraph || added != [], !carriesOn);
    HeadingOpensOnAHash(WordsFrom(columns, from), start.hashes);
    hash := from + RunOf(Space, columns, from);
    SpacesStandClear(columns, from);
  }

  lemma StartsClear(c: string)
    ensures BehindASpace(c, 0)
  {
  }

  lemma SpacesStandClear(c: string, from: nat)
    requires InOpening(c, from) && BehindASpace(c, from)
    requires var words := WordsFrom(c, from); words != "" && words[0] == '#'
    ensures var hash := from + RunOf(Space, c, from); HashAt(c, hash) && BehindASpace(c, hash) && InOpening(c, hash)
  {
  }

  lemma {:induction false} ExpandedEnds(lead: string, column: nat)
    requires (forall c <- lead :: OpeningChar(c)) && lead != [] && lead[|lead| - 1] == '-'
    ensures var columns := Expanded(lead, column); columns != [] && columns[|columns| - 1] == '-'
    decreases |lead|
  {
    if |lead| > 1 {
      ExpandedEnds(lead[1..], if lead[0] == '\t' then column + 4 - column % 4 else column + 1);
    }
  }

  lemma DashIsADash(line: string, at: nat)
    requires FirstHash(line, at) && |Lead(line)| <= at && at > 0 && line[at - 1] == '-'
    ensures var hash := HashColumn(line, at); 0 < hash <= |Columns(line)| && Columns(line)[hash - 1] == '-'
  {
    LeadIsAnOpening(line);
    FirstHashIs(line, at);
    hide OpeningChar, FirstHash;
    var n, lead := |Lead(line)|, Expanded(Lead(line), 0);
    if n == at {
      assert Lead(line)[n - 1] == line[n - 1];
      ExpandedEnds(Lead(line), 0);
    } else {
      assert Columns(line)[HashColumn(line, at) - 1] == line[n..][at - n - 1];
    }
  }

  lemma OneFirstHash(c: string, a: nat, b: nat)
    requires FirstHash(c, a) && HashAt(c, b) && InOpening(c, b)
    ensures a == b
  {
  }

  /** So a line whose first hash stands right behind a dash is none. */
  lemma NoHeadingBehindADash(s: State, line: string, at: nat)
    requires FirstHash(line, at) && at > 0 && line[at - 1] == '-'
    ensures !Next(s, line).1.AHeading?
  {
    hide Next, Columns, FirstHash, HashColumn, InOpening, Put;
    if Next(s, line).1.AHeading? {
      var hash := HeadingStandsClear(s, line);
      FirstHashIs(line, at);
      ColumnsPut(line, at, '\\');
      OneFirstHash(Columns(line), HashColumn(line, at), hash);
      DashIsADash(line, at);
      assert false;
    }
  }
}
