/** Bodies a second pass changes, one for each way a line can be read otherwise than it is said: a heading
    that goes, a plus that becomes a dash, and a heading shown as bold. */
module Rereadings {
  import opened Text
  import opened Fences
  import opened Drawn
  import opened Marks
  import opened LineRules
  import opened LineTheorems
  import opened Reader
  import opened ReaderTheorems
  import opened Inserted
  import opened SecondReading
  import opened DrawnLines
  import opened Twice
  import Html

  // ----- A body without backticks, pass by pass -----

  /** What is said of lines none of which is code on Discord. */
  function SaidOf(answers: seq<Drawn>, lines: seq<string>): seq<string>
    requires |answers| == |lines|
  {
    if lines == [] then []
    else
      var said := Said(answers[0], false, lines[0]);
      (if said.Some? then [said.value] else []) + SaidOf(answers[1..], lines[1..])
  }

  lemma {:induction false} NoCodeWithoutTicks(s: State, lines: seq<string>)
    requires forall i :: 0 <= i < |lines| ==> '`' !in lines[i]
    ensures forall i :: 0 <= i < |lines| ==> !WholeImages(s, false, lines)[i].inCode
    ensures Saids(Kept(WholeImages(s, false, lines))) == SaidOf(Answers(s, lines), lines)
    decreases |lines|
  {
    hide Next, Said, Without, FencesIn, WholeImages, Odd, Kept, Saids;
    if lines == [] {
      NothingKept();
      NothingIsSaid();
    } else {
      FirstImage(s, false, lines);
      NoTickNoFence(lines[0]);
      NoneIsEven();
      NoCodeWithoutTicks(Next(s, lines[0]).0, lines[1..]);
      var images := WholeImages(s, false, lines);
      assert forall i :: 0 < i < |images| ==> images[i] == images[1..][i - 1];
      OutputOfFirst(images);
    }
  }

  lemma NothingIsSaid()
    ensures Saids([]) == []
  {
  }

  lemma NoTickNoFence(line: string)
    requires '`' !in line
    ensures FencesIn(Without(FORM_FEED, line)) == 0
  {
    FenceNone(Without(FORM_FEED, line));
  }

  /** A pass over such a body. */
  lemma PassOver(body: string, lines: seq<string>, said: seq<string>)
    requires Split(body) == lines && said != [] && (forall i :: 0 <= i < |lines| ==> '`' !in lines[i])
    requires SaidOf(Answers(FRESH, lines), lines) == said
    ensures Split(Rewritten(body, None)) == said && Rewritten(body, None) == Join(said)
  {
    hide *;
    WholeFits(body);
    WholeImagesOf(body);
    NoCodeWithoutTicks(FRESH, lines);
    OutputIsSaid(body, None);
    LinesOfTheOutput(Kept(ImagesOf(body, None)));
    JoinOfSplit(Rewritten(body, None));
  }

  /** A pass changes a body that it says anything else for. */
  lemma PassChanges(body: string, lines: seq<string>, said: seq<string>)
    requires Split(body) == lines && said != [] && said != lines && (forall i :: 0 <= i < |lines| ==> '`' !in lines[i])
    requires SaidOf(Answers(FRESH, lines), lines) == said
    ensures Rewritten(body, None) != body
  {
    hide *;
    PassOver(body, lines, said);
  }

  lemma AnswersOfTwo(s: State, a: string, b: string)
    ensures Answers(s, [a, b]) == [Next(s, a).1, Next(Next(s, a).0, b).1]
  {
    hide Next;
    assert [a, b][1..] == [b] && [b][1..] == [];
    assert Answers(Next(s, a).0, [b]) == [Next(Next(s, a).0, b).1];
  }

  lemma AnswersOfThree(s: State, a: string, b: string, c: string)
    ensures Answers(s, [a, b, c])
         == [Next(s, a).1, Next(Next(s, a).0, b).1, Next(Next(Next(s, a).0, b).0, c).1]
  {
    hide Next;
    assert [a, b, c][1..] == [b, c];
    AnswersOfTwo(Next(s, a).0, b, c);
  }

  function OneSaid(said: Option<string>): seq<string> { if said.Some? then [said.value] else [] }

  lemma SaidOfTwo(x: Drawn, y: Drawn, a: string, b: string)
    ensures SaidOf([x, y], [a, b]) == OneSaid(Said(x, false, a)) + OneSaid(Said(y, false, b))
  {
    hide Said;
    assert [a, b][1..] == [b] && [x, y][1..] == [y] && [b][1..] == [] && [y][1..] == [];
    assert SaidOf([y], [b]) == OneSaid(Said(y, false, b));
  }

  lemma SaidOfThree(x: Drawn, y: Drawn, z: Drawn, a: string, b: string, c: string)
    ensures SaidOf([x, y, z], [a, b, c])
         == OneSaid(Said(x, false, a)) + OneSaid(Said(y, false, b)) + OneSaid(Said(z, false, c))
  {
    hide Said;
    assert [a, b, c][1..] == [b, c] && [x, y, z][1..] == [y, z];
    SaidOfTwo(y, z, b, c);
  }

  lemma BothPasses(body: string, first: seq<string>, once: seq<string>, twice: seq<string>)
    requires Split(body) == first && once != [] && twice != [] && twice != once
    requires forall i :: 0 <= i < |first| ==> '`' !in first[i] && '\n' !in first[i]
    requires forall i :: 0 <= i < |once| ==> '`' !in once[i] && '\n' !in once[i]
    requires SaidOf(Answers(FRESH, first), first) == once && SaidOf(Answers(FRESH, once), once) == twice
    ensures Rewritten(body, None) == Join(once) && Rewritten(Rewritten(body, None), None) != Rewritten(body, None)
  {
    hide *;
    PassOver(body, first, once);
    PassChanges(Join(once), once, twice);
  }

  /** A line a hash is nowhere on is said as it is, but for a plus. */
  lemma NoHashNothingSaid(drawn: Drawn, line: string)
    requires !drawn.AHeading? && '#' !in line && FORM_FEED !in line
    ensures Said(drawn, false, line) == Some(if drawn.AsWords? then PlusAsDash(line) else line)
  {
    hide LooksLikeHeading, LooksLikeSubtext, PlusAsDash;
    var from := if drawn.AsWords? then PlusAsDash(line) else line;
    DashAddsNoHash(line);
    NoHashNoMark(from);
    RewritesAdd(line);
    RewritesAdd(from);
    WithoutNone(FORM_FEED, from);
    hide Said, NotAHeading, NotSubtext;
    SaidIs(drawn, line);
  }

  lemma SaidIs(drawn: Drawn, line: string)
    requires !drawn.AHeading?
    ensures Said(drawn, false, line)
         == Some(NotSubtext(NotAHeading(Without(FORM_FEED, if drawn.AsWords? then PlusAsDash(line) else line))))
  {
    hide NotSubtext, NotAHeading, PlusAsDash, Without;
  }

  lemma DashAddsNoHash(line: string)
    requires '#' !in line
    ensures '#' !in PlusAsDash(line)
  {
    hide Blank, RunOf;
  }

  lemma NoHashNoMark(line: string)
    requires '#' !in line
    ensures !LooksLikeHeading(line) && !LooksLikeSubtext(line)
  {
    HashesStandThere(line);
  }

  /** A fence of tildes, whatever it stands behind. */
  const TILDES: string := "~~~"

  lemma TildesStart(columns: string, at: nat, code: bool, tag: bool)
    requires at <= |columns| && columns[at..] == TILDES
    ensures StartAt(columns, at, false, code, tag) == StartsBlock(Fenced('~', 3))
    ensures Opened(columns, at, false) == ([], at) && at < BlankFrom(columns)
  {
    TildesAre(columns, at);
    assert RunOf(Space, columns, at) == 0 && RunOf(Digit, columns, at) == 0;
    assert MarkAt(columns, at) == NoMark && !ThematicBreak(columns, at) && !SpacesAt(columns, at, 4);
    FenceWords(TILDES, 0, '~', 3);
    assert TILDES[0..] == TILDES && WordsFrom(columns, at) == TILDES;
    hide Html.Opens, Html.TagAlone, OpeningFence, ThematicBreak, HeadingAt, MarkAt;
  }

  lemma TildesAre(columns: string, at: nat)
    requires at <= |columns| && columns[at..] == TILDES
    ensures |columns| == at + 3 && columns[at] == '~' && columns[at + 1] == '~' && columns[at + 2] == '~'
    ensures TopFence(TILDES, 0, '~', 3)
  {
    assert columns[at..][0] == columns[at] && columns[at..][1] == columns[at + 1] && columns[at..][2] == columns[at + 2];
  }

  /** Inside a block that holds it a redrawn line is code. */
  lemma HeldIsCode(s: State, line: string, quoted: string, words: string)
    requires Redrawn(line, quoted, 1, words) && s.block == Some(Fenced('~', 3))
    requires if quoted == "" then s.open == [] else s.open == [0]
    ensures Next(s, line).1 == AsCode
  {
    hide Redrawn, Columns, CarriedOn, Opened, Lead, BlankFrom, Ends, ReadOnFrom;
    RedrawnColumns(line, quoted, 1, words);
    RedrawnContainers(s.open, s.empty, line, quoted, 1, words, false);
    NextIs(s, line);
  }

  // ----- Lines whose opening has no tab -----

  lemma PlainLead(line: string, n: nat)
    requires n <= |line| && (forall i :: 0 <= i < n ==> OpeningChar(line[i]) && line[i] != '\t')
    requires n < |line| ==> !OpeningChar(line[n])
    ensures Lead(line) == line[..n] && Columns(line) == line
  {
    RunIs(OpeningChar, line, 0, n);
    NoTabsToLayOut(line[..n], 0);
    assert line[..n] + line[n..] == line;
  }

  /** Words of one letter settle at once. */
  lemma LetterSettles(words: string)
    requires |words| == 1 && 'a' <= words[0] <= 'z'
    ensures WordsOf(words) == words && HeadingWords(words) == words && Strip(Unseen, words) != ""
  {
    LetterIsSeen(words[0]);
    SettledWordsStay(words);
    StripIsEmpty(Unseen, words);
    assert !("#" <= words) && !("-#" <= words);
  }

  lemma LetterIsSeen(c: char)
    requires 'a' <= c <= 'z'
    ensures !DiscordSpace(c) && !Unseen(c) && c != FORM_FEED && c != '#'
  {
  }

  /** Where nothing is open that it goes on in, a redrawn line is its heading, and says itself. */
  lemma TopOfRedrawn(t: State, line: string, quoted: string, words: string)
    requires Redrawn(line, quoted, 1, words) && |words| == 1 && 'a' <= words[0] <= 'z'
    requires (t.block == None && t.open == []) || (quoted == "" && t.open == [2])
    ensures Next(t, line).1.AHeading? && Said(Next(t, line).1, false, line) == Some(line)
    ensures LooksLikeHeading(line)
  {
    hide Redrawn, Columns, CarriedOn, Opened, Lead, BlankFrom, Next, WordsOf, HeadingWords, Said, LooksLikeHeading;
    RedrawnColumns(line, quoted, 1, words);
    var (matched, at) := CarriedOn(t.open, t.empty, line, 0, 0);
    RedrawnContainers(t.open, t.empty, line, quoted, 1, words, matched == |t.open| && t.paragraph);
    RedrawnReads(t, line, quoted, 1, words, matched, at);
    OneQuote(t.open[..matched] + Opened(line, at, matched == |t.open| && t.paragraph).0);
    LetterSettles(words);
    RedrawnIsSaid(line, quoted, 1, words, if quoted == "" then 0 else 1);
    RedrawnLooks(line, quoted, words);
  }

  lemma RedrawnLooks(line: string, quoted: string, words: string)
    requires Redrawn(line, quoted, 1, words) && |words| == 1 && 'a' <= words[0] <= 'z'
    ensures LooksLikeHeading(line)
  {
    LetterIsSeen(words[0]);
    TopLine(quoted, 1, words, "");
  }

  /** And where it is code it no longer says itself. */
  lemma HeldIsMarked(line: string)
    requires LooksLikeHeading(line)
    ensures var said := Said(AsCode, false, line); said.Some? && said != Some(line)
  {
    hide LooksLikeHeading, Said;
    SaidReads(AsCode, false, line, "");
    NotDropped(line);
  }

  lemma NotDropped(line: string)
    ensures Said(AsCode, false, line).Some?
  {
  }

  // ----- A heading that goes -----

  const QUOTED_FENCE: string := "> " + TILDES
  const BARE: string := "#"
  const QUOTED_HEADING: string := "> # x"

  const IN_A_QUOTED_FENCE: State := State([0], false, Some(Fenced('~', 3)), false, false, "", false)

  lemma QuotedFenceIs()
    ensures |QUOTED_FENCE| == 5 && QUOTED_FENCE[0] == '>' && QUOTED_FENCE[1] == ' ' && QUOTED_FENCE[2] == '~'
    ensures QUOTED_FENCE[2..] == TILDES && '#' !in QUOTED_FENCE && '`' !in QUOTED_FENCE && '\n' !in QUOTED_FENCE
    ensures FORM_FEED !in QUOTED_FENCE && PlusAsDash(QUOTED_FENCE) == QUOTED_FENCE
  {
    assert RunOf(Blank, QUOTED_FENCE, 0) == 0;
  }

  lemma ABlockStarts(s: State, lead: string, c: string, matched: nat, at: nat, added: seq<nat>, from: nat)
    requires matched <= |s.open| && at <= |c| && (added, from) == Opened(c, at, matched == |s.open| && s.paragraph)
    requires c[from..] == TILDES && from <= |c|
    ensures ReadOnFrom(s, lead, c, matched, at)
         == (State(s.open[..matched] + added, false, Some(Fenced('~', 3)), false, false, s.header, s.tried), AsWords)
  {
    hide Opened, BlankFrom, StartAt, TILDES;
    var carriesOn := matched == |s.open| && s.paragraph && added == [];
    TildesStart(c, from, !s.paragraph || added != [], !carriesOn);
  }

  lemma QuotedFenceOpens()
    ensures Next(FRESH, QUOTED_FENCE) == (IN_A_QUOTED_FENCE, AsWords)
  {
    QuotedFenceIs();
    hide QUOTED_FENCE, TILDES;
    PlainLead(QUOTED_FENCE, 2);
    hide Columns, Lead, ReadOnFrom, BlankFrom;
    NextIs(FRESH, QUOTED_FENCE);
    NoContainers(FRESH, QUOTED_FENCE);
    TildesStart(QUOTED_FENCE, 2, false, false);
    QuotedTildes(QUOTED_FENCE);
    AQuoteOpens(QUOTED_FENCE, false);
    ABlockStarts(FRESH, "> ", QUOTED_FENCE, 0, 0, [0], 2);
    assert [] + [0] == [0];
  }

  lemma QuotedTildes(c: string)
    requires |c| > 2 && c[0] == '>' && c[1] == ' ' && c[2] == '~'
    ensures MarkAt(c, 0) == Quote(2) && !ThematicBreak(c, 0)
  {
    assert RunOf(Space, c, 0) == 0;
  }

  lemma BareIsRead()
    ensures Next(IN_A_QUOTED_FENCE, BARE) == (FRESH, AHeading(Heading("", 1, BARE, 0, false)))
  {
    assert BARE[..0] == "" && BARE[0..] == BARE && HeadingAt(BARE, 1);
    IndentedColumns(BARE, 0);
    RunIs(Hash, BARE, 0, 1);
    hide Columns, Lead, BlankFrom, BARE, Opened, HeadingAt, RunOf, ReadOnFrom, StartAt, WordsFrom;
    BareIsAHash();
    NextIs(IN_A_QUOTED_FENCE, BARE);
    NoQuoteOnAHash(BARE);
    FirstOfTheOpen([0], false, BARE);
    NothingOpensAtAHash(BARE, 0, false);
    HeadingStarts(BARE, 0, 1, true, true);
    ReadOnAHeading(IN_A_QUOTED_FENCE, "", BARE, 0, 0, [], 0, 1);
    OneQuote([]);
    assert [0][..0] + [] == [];
  }

  lemma BareIsAHash()
    ensures HashAt(BARE, 0)
  {
  }

  lemma NoQuoteOnAHash(c: string)
    requires HashAt(c, 0)
    ensures QuoteMark(c, 0) == None
  {
    assert RunOf(Space, c, 0) == 0;
  }

  lemma QuotedHeadingIs()
    ensures Redrawn(QUOTED_HEADING, "> ", 1, "x")
    ensures '`' !in QUOTED_HEADING && '\n' !in QUOTED_HEADING && '`' !in BARE && '\n' !in BARE
  {
    assert Repeat('#', 1) == "#";
  }

  /** The fence a heading ended, gone from the output, holds the heading behind it. */
  lemma AHeadingThatGoesChangesMore()
    ensures var body := Join([QUOTED_FENCE, BARE, QUOTED_HEADING]);
            && Rewritten(body, None) == Join([QUOTED_FENCE, QUOTED_HEADING])
            && Rewritten(Rewritten(body, None), None) != Rewritten(body, None)
  {
    QuotedFenceIs();
    QuotedHeadingIs();
    hide *;
    var first, once := [QUOTED_FENCE, BARE, QUOTED_HEADING], [QUOTED_FENCE, QUOTED_HEADING];
    QuotedFenceOpens();
    BareIsRead();
    FreshHasNothing();
    TopOfRedrawn(FRESH, QUOTED_HEADING, "> ", "x");
    InAQuotedFence();
    HeldIsCode(IN_A_QUOTED_FENCE, QUOTED_HEADING, "> ", "x");
    AnswersOfThree(FRESH, QUOTED_FENCE, BARE, QUOTED_HEADING);
    AnswersOfTwo(FRESH, QUOTED_FENCE, QUOTED_HEADING);
    NoHashNothingSaid(AsWords, QUOTED_FENCE);
    BareSaysNothing();
    HeldIsMarked(QUOTED_HEADING);
    var bare, heading, held := AHeading(Heading("", 1, BARE, 0, false)), Next(FRESH, QUOTED_HEADING).1, Said(AsCode, false, QUOTED_HEADING);
    SaidOfThree(AsWords, bare, heading, QUOTED_FENCE, BARE, QUOTED_HEADING);
    SaidOfTwo(AsWords, AsCode, QUOTED_FENCE, QUOTED_HEADING);
    OneSaidIs();
    var twice := [QUOTED_FENCE, held.value];
    assert [QUOTED_FENCE] + [] + [QUOTED_HEADING] == once && [QUOTED_FENCE] + [held.value] == twice;
    assert twice[1] != once[1];
    SplitOfJoin(first);
    BothPasses(Join(first), first, once, twice);
  }

  lemma FreshHasNothing()
    ensures FRESH.block == None && FRESH.open == []
  {
  }

  lemma InAQuotedFence()
    ensures IN_A_QUOTED_FENCE.block == Some(Fenced('~', 3)) && IN_A_QUOTED_FENCE.open == [0]
  {
  }

  lemma BareSaysNothing()
    ensures Said(AHeading(Heading("", 1, BARE, 0, false)), false, BARE) == None
  {
    hide AsDrawn;
    NothingIsShown(Heading("", 1, BARE, 0, false));
  }

  lemma OneSaidIs()
    ensures OneSaid(None) == [] && forall line :: OneSaid(Some(line)) == [line]
  {
  }

  // ----- A plus that becomes a dash -----

  const PLUSES: string := "+ - -"
  const DASHES: string := "- - -"
  const INDENTED_FENCE: string := "  " + TILDES
  const HEADING: string := "# z"

  const IN_THREE_ITEMS: State := State([2, 2, 2], true, None, false, false, "", false)
  const IN_AN_ITEMS_FENCE: State := State([2], false, Some(Fenced('~', 3)), false, false, "", false)
  const IN_A_FENCE: State := State([], false, Some(Fenced('~', 3)), false, false, "", false)

  lemma PlusesAre()
    ensures |PLUSES| == 5 && PLUSES[0] == '+' && PLUSES[1] == ' ' && PLUSES[2] == '-' && PLUSES[3] == ' ' && PLUSES[4] == '-'
    ensures '#' !in PLUSES && '`' !in PLUSES && '\n' !in PLUSES && FORM_FEED !in PLUSES
    ensures PlusAsDash(PLUSES) == DASHES
  {
    assert RunOf(Blank, PLUSES, 0) == 0;
    assert PLUSES[..0] + "-" + PLUSES[1..] == DASHES;
  }

  lemma DashesAre()
    ensures |DASHES| == 5 && DASHES[0] == '-' && DASHES[1] == ' ' && DASHES[2] == '-' && DASHES[3] == ' ' && DASHES[4] == '-'
    ensures '#' !in DASHES && '`' !in DASHES && '\n' !in DASHES && FORM_FEED !in DASHES
    ensures PlusAsDash(DASHES) == DASHES
  {
    assert RunOf(Blank, DASHES, 0) == 0;
  }

  lemma IndentedFenceIs()
    ensures |INDENTED_FENCE| == 5 && INDENTED_FENCE[0] == ' ' && INDENTED_FENCE[1] == ' ' && INDENTED_FENCE[2] == '~'
    ensures INDENTED_FENCE[2..] == TILDES && '#' !in INDENTED_FENCE && '`' !in INDENTED_FENCE && '\n' !in INDENTED_FENCE
    ensures FORM_FEED !in INDENTED_FENCE && PlusAsDash(INDENTED_FENCE) == INDENTED_FENCE
  {
    RunIs(Blank, INDENTED_FENCE, 0, 2);
  }

  lemma HeadingIsRedrawn()
    ensures Redrawn(HEADING, "", 1, "z") && '`' !in HEADING && '\n' !in HEADING
  {
    assert Repeat('#', 1) == "#";
  }

  lemma ItemAt(c: string, at: nat)
    requires at + 1 < |c| && (c[at] == '+' || c[at] == '-') && c[at + 1] == ' ' && (at + 2 < |c| ==> c[at + 2] != ' ')
    ensures MarkAt(c, at) == Item(at + 1, at + 2, None)
  {
    assert RunOf(Space, c, at) == 0;
    RunIs(Space, c, at + 1, 1);
  }

  lemma LastItemAt(c: string, at: nat)
    requires at + 1 == |c| && c[at] == '-'
    ensures MarkAt(c, at) == Item(at + 1, at + 1, None) && !ThematicBreak(c, at) && !Blank(c[at])
  {
    assert RunOf(Space, c, at) == 0 && RunOf(Space, c, at + 1) == 0;
    assert c[at..] == "-" && "-"[1..] == "";
  }

  lemma TwoDashesAreNoBreak(c: string, at: nat)
    requires at + 3 == |c| && c[at] == '-' && c[at + 1] == ' ' && c[at + 2] == '-'
    ensures !ThematicBreak(c, at)
  {
    assert RunOf(Space, c, at) == 0;
    assert c[at..] == "- -" && "- -"[1..] == " -" && " -"[1..] == "-" && "-"[1..] == "";
    assert CountOf('-', "- -") == 2;
  }

  lemma NoMarkAtTheEnd(c: string)
    ensures Opened(c, |c|, false) == ([], |c|)
  {
    assert RunOf(Space, c, |c|) == 0;
  }

  lemma AnItemOpens(c: string, at: nat, gap: nat, end: nat)
    requires at <= |c| && MarkAt(c, at) == Item(gap, end, None) && !ThematicBreak(c, at) && at < gap <= end <= |c|
    ensures Opened(c, at, false)
         == ([if end >= BlankFrom(c) then gap - at + 1 else end - at] + Opened(c, end, false).0, Opened(c, end, false).1)
  {
    hide ThematicBreak, MarkAt, BlankFrom;
  }

  lemma LastIsSeen(c: string)
    requires c != "" && !Blank(c[|c| - 1])
    ensures BlankFrom(c) == |c|
  {
  }

  lemma PlusIsNoBreak(c: string)
    requires c != "" && c[0] == '+'
    ensures !ThematicBreak(c, 0)
  {
    assert RunOf(Space, c, 0) == 0;
  }

  lemma PlusesOpen()
    ensures Opened(PLUSES, 0, false) == ([2, 2, 2], 5) && BlankFrom(PLUSES) == 5
  {
    PlusesAre();
    hide PLUSES, ThematicBreak, MarkAt, BlankFrom, Opened;
    ItemAt(PLUSES, 0);
    ItemAt(PLUSES, 2);
    LastItemAt(PLUSES, 4);
    PlusIsNoBreak(PLUSES);
    TwoDashesAreNoBreak(PLUSES, 2);
    LastIsSeen(PLUSES);
    NoMarkAtTheEnd(PLUSES);
    AnItemOpens(PLUSES, 4, 5, 5);
    AnItemOpens(PLUSES, 2, 3, 4);
    AnItemOpens(PLUSES, 0, 1, 2);
    assert [2] + [] == [2] && [2] + [2] == [2, 2] && [2] + [2, 2] == [2, 2, 2];
  }

  lemma NothingStarts(s: State, lead: string, c: string, matched: nat, at: nat, added: seq<nat>, from: nat)
    requires matched <= |s.open| && at <= |c| && (added, from) == Opened(c, at, matched == |s.open| && s.paragraph)
    requires from >= BlankFrom(c)
    ensures ReadOnFrom(s, lead, c, matched, at)
         == (Contained(s, matched, added, true).(paragraph := false, table := false), AsWords)
  {
    hide Opened, BlankFrom, StartAt, Contained;
    var carriesOn := matched == |s.open| && s.paragraph && added == [];
    StartOfBlank(c, from, true, !s.paragraph || added != [], !carriesOn);
  }

  lemma PlusesAreRead()
    ensures Next(FRESH, PLUSES) == (IN_THREE_ITEMS, AsWords)
  {
    PlusesAre();
    assert forall i :: 0 <= i < 5 ==> OpeningChar(PLUSES[i]);
    PlainLead(PLUSES, 5);
    PlusesOpen();
    hide PLUSES, Columns, Lead, ReadOnFrom, BlankFrom, Opened;
    NextIs(FRESH, PLUSES);
    NoContainers(FRESH, PLUSES);
    NothingStarts(FRESH, Lead(PLUSES), PLUSES, 0, 0, [2, 2, 2], 5);
    assert [] + [2, 2, 2] == [2, 2, 2];
  }

  lemma OneItemIsCarriedOn()
    ensures CarriedOn([2, 2, 2], true, INDENTED_FENCE, 0, 0) == (1, 2)
  {
    IndentedFenceIs();
    hide INDENTED_FENCE, TILDES;
    TildesStart(INDENTED_FENCE, 2, false, false);
    hide BlankFrom;
    assert SpacesAt(INDENTED_FENCE, 0, 2) && !SpacesAt(INDENTED_FENCE, 2, 2);
    assert CarriedOn([2, 2, 2], true, INDENTED_FENCE, 2, 1) == (1, 2);
  }

  lemma FenceInAnItem()
    ensures Next(IN_THREE_ITEMS, INDENTED_FENCE) == (IN_AN_ITEMS_FENCE, AsWords)
  {
    IndentedFenceIs();
    PlainLead(INDENTED_FENCE, 2);
    OneItemIsCarriedOn();
    hide INDENTED_FENCE, TILDES, Columns, Lead, ReadOnFrom, BlankFrom, CarriedOn;
    NextIs(IN_THREE_ITEMS, INDENTED_FENCE);
    TildesStart(INDENTED_FENCE, 2, false, false);
    ABlockStarts(IN_THREE_ITEMS, Lead(INDENTED_FENCE), INDENTED_FENCE, 1, 2, [], 2);
    assert [2, 2, 2][..1] + [] == [2];
  }

  lemma BreakIsRead()
    ensures Next(FRESH, DASHES) == (FRESH, AsWords)
  {
    DashesAre();
    assert forall i :: 0 <= i < 5 ==> OpeningChar(DASHES[i]);
    PlainLead(DASHES, 5);
    ThreeDashesAreABreak(DASHES);
    LastIsSeen(DASHES);
    hide DASHES, Columns, Lead, ReadOnFrom, BlankFrom, ThematicBreak;
    NextIs(FRESH, DASHES);
    NoContainers(FRESH, DASHES);
    ABreakStarts(FRESH, Lead(DASHES), DASHES);
  }

  lemma ThreeDashesAreABreak(c: string)
    requires |c| == 5 && c[0] == '-' && c[1] == ' ' && c[2] == '-' && c[3] == ' ' && c[4] == '-'
    ensures ThematicBreak(c, 0) && !SpacesAt(c, 0, 4)
  {
    assert RunOf(Space, c, 0) == 0;
    assert c[0..] == "- - -" && "- - -"[1..] == " - -" && " - -"[1..] == "- -" && "- -"[1..] == " -" && " -"[1..] == "-";
    assert "-"[1..] == "" && CountOf('-', "- - -") == 3;
  }

  lemma ABreakStarts(s: State, lead: string, c: string)
    requires s.open == [] && ThematicBreak(c, 0) && !SpacesAt(c, 0, 4) && BlankFrom(c) > 0
    ensures ReadOnFrom(s, lead, c, 0, 0) == (s.(empty := false, block := None, paragraph := false, table := false), AsWords)
  {
    hide ThematicBreak, SpacesAt, BlankFrom, HeadingAt, Html.Opens, Html.TagAlone, OpeningFence, MarkAt;
    assert s.open[..0] + [] == s.open;
  }

  lemma FenceAtTheTop()
    ensures Next(FRESH, INDENTED_FENCE) == (IN_A_FENCE, AsWords)
  {
    IndentedFenceIs();
    PlainLead(INDENTED_FENCE, 2);
    hide INDENTED_FENCE, TILDES, Columns, Lead, ReadOnFrom, BlankFrom;
    NextIs(FRESH, INDENTED_FENCE);
    NoContainers(FRESH, INDENTED_FENCE);
    AFenceStarts(FRESH, Lead(INDENTED_FENCE), INDENTED_FENCE);
  }

  lemma AFenceStarts(s: State, lead: string, c: string)
    requires s.open == [] && c == "  " + TILDES
    ensures ReadOnFrom(s, lead, c, 0, 0)
         == (State([], false, Some(Fenced('~', 3)), false, false, s.header, s.tried), AsWords)
  {
    TildesIndented(c);
    hide TILDES, BlankFrom, StartAt, Opened;
    assert s.open[..0] + [] == [];
  }

  lemma TildesIndented(c: string)
    requires c == "  " + TILDES
    ensures forall interrupting :: Opened(c, 0, interrupting) == ([], 0)
    ensures BlankFrom(c) == 5
    ensures forall code, tag :: StartAt(c, 0, false, code, tag) == StartsBlock(Fenced('~', 3))
  {
    assert c[2] == '~' && c[4] == '~';
    assert TopFence(c, 2, '~', 3);
    NothingOpensThere(c, 2);
    FenceWords(c, 2, '~', 3);
    LastIsSeen(c);
    hide Html.Opens, Html.TagAlone, OpeningFence, ThematicBreak, HeadingAt, MarkAt, SpacesAt, WordsFrom;
  }

  lemma StatesAre()
    ensures IN_AN_ITEMS_FENCE.open == [2] && IN_A_FENCE.open == [] && IN_A_FENCE.block == Some(Fenced('~', 3))
  {
  }

  /** Three items with nothing in them become a thematic break, so that the fence behind is in none of them
      and holds the heading. */
  lemma APlusThatBecomesADashChangesMore()
    ensures var body := Join([PLUSES, INDENTED_FENCE, HEADING]);
            && Rewritten(body, None) == Join([DASHES, INDENTED_FENCE, HEADING])
            && Rewritten(Rewritten(body, None), None) != Rewritten(body, None)
  {
    PlusesAre();
    DashesAre();
    IndentedFenceIs();
    HeadingIsRedrawn();
    StatesAre();
    hide *;
    var first, once := [PLUSES, INDENTED_FENCE, HEADING], [DASHES, INDENTED_FENCE, HEADING];
    PlusesAreRead();
    FenceInAnItem();
    TopOfRedrawn(IN_AN_ITEMS_FENCE, HEADING, "", "z");
    BreakIsRead();
    FenceAtTheTop();
    HeldIsCode(IN_A_FENCE, HEADING, "", "z");
    AnswersOfThree(FRESH, PLUSES, INDENTED_FENCE, HEADING);
    AnswersOfThree(FRESH, DASHES, INDENTED_FENCE, HEADING);
    NoHashNothingSaid(AsWords, PLUSES);
    NoHashNothingSaid(AsWords, DASHES);
    NoHashNothingSaid(AsWords, INDENTED_FENCE);
    HeldIsMarked(HEADING);
    var heading, held := Next(IN_AN_ITEMS_FENCE, HEADING).1, Said(AsCode, false, HEADING);
    SaidOfThree(AsWords, AsWords, heading, PLUSES, INDENTED_FENCE, HEADING);
    SaidOfThree(AsWords, AsWords, AsCode, DASHES, INDENTED_FENCE, HEADING);
    OneSaidIs();
    var twice := [DASHES, INDENTED_FENCE, held.value];
    assert [DASHES] + [INDENTED_FENCE] + [HEADING] == once && [DASHES] + [INDENTED_FENCE] + [held.value] == twice;
    assert twice[2] != once[2];
    SplitOfJoin(first);
    BothPasses(Join(first), first, once, twice);
  }

  // ----- A heading shown as bold -----

  const NESTED: string := "> > ## y"
  const BOLDED: string := "> > **y**"

  const IN_TWO_QUOTES: State := State([0, 0], false, None, false, false, "", false)
  const WORDS_IN_TWO_QUOTES: State := State([0, 0], false, None, true, false, "**y**", false)

  lemma NestedIs()
    ensures |NESTED| == 8 && NESTED[..4] == "> > " && NESTED[4..] == "## y"
    ensures NESTED[0] == '>' && NESTED[1] == ' ' && NESTED[2] == '>' && NESTED[3] == ' ' && NESTED[4] == '#'
    ensures '`' !in NESTED && '\n' !in NESTED && '`' !in INDENTED && '\n' !in INDENTED
  {
  }

  lemma BoldedIs()
    ensures |BOLDED| == 9 && BOLDED[..4] == "> > " && BOLDED[4..] == "**y**"
    ensures BOLDED[0] == '>' && BOLDED[1] == ' ' && BOLDED[2] == '>' && BOLDED[3] == ' ' && BOLDED[4] == '*' && BOLDED[5] == '*'
    ensures '`' !in BOLDED && '\n' !in BOLDED && '#' !in BOLDED && FORM_FEED !in BOLDED && PlusAsDash(BOLDED) == BOLDED
  {
    assert RunOf(Blank, BOLDED, 0) == 0;
  }

  lemma QuoteAtFront(c: string, at: nat)
    requires at + 2 < |c| && c[at] == '>' && c[at + 1] == ' '
    ensures MarkAt(c, at) == Quote(at + 2) && !ThematicBreak(c, at)
  {
    assert RunOf(Space, c, at) == 0;
  }

  lemma AQuoteOpensAt(c: string, at: nat)
    requires at + 2 < |c| && c[at] == '>' && c[at + 1] == ' '
    ensures Opened(c, at, false) == ([0] + Opened(c, at + 2, false).0, Opened(c, at + 2, false).1)
  {
    QuoteAtFront(c, at);
    hide ThematicBreak, MarkAt, BlankFrom;
  }

  lemma TwoQuotesOpen(c: string)
    requires |c| > 4 && c[0] == '>' && c[1] == ' ' && c[2] == '>' && c[3] == ' ' && Opened(c, 4, false) == ([], 4)
    ensures Opened(c, 0, false) == ([0, 0], 4)
  {
    hide Opened;
    AQuoteOpensAt(c, 0);
    AQuoteOpensAt(c, 2);
    assert [0] + [] == [0] && [0] + [0] == [0, 0];
  }

  lemma NestedIsRead()
    ensures Next(FRESH, NESTED) == (IN_TWO_QUOTES, AHeading(Heading("> > ", 2, "## y", 2, false)))
  {
    NestedIs();
    TwoHashes();
    PlainLead(NESTED, 4);
    HashIsSeen(NESTED, 4);
    hide NESTED, Columns, Lead, ReadOnFrom, BlankFrom, Opened, HeadingAt, RunOf, StartAt;
    NextIs(FRESH, NESTED);
    NoContainers(FRESH, NESTED);
    NothingOpensAtAHash(NESTED, 4, false);
    TwoQuotesOpen(NESTED);
    HeadingStarts(NESTED, 4, 2, true, true);
    ReadOnAHeading(FRESH, "> > ", NESTED, 0, 0, [0, 0], 4, 2);
    TwoQuotes();
    assert [] + [0, 0] == [0, 0];
  }

  lemma HashIsSeen(c: string, at: nat)
    requires HashAt(c, at)
    ensures at < BlankFrom(c)
  {
    assert !Blank(c[at]);
  }

  lemma TwoHashes()
    ensures HeadingAt("## y", 2) && RunOf(Hash, "## y", 0) == 2
  {
    RunIs(Hash, "## y", 0, 2);
  }

  lemma TwoQuotes()
    ensures Quotes([0, 0]) == 2
  {
    assert [0, 0][1..] == [0] && [0][1..] == [];
  }

  lemma BoldOfALetter(words: string)
    requires |words| == 1 && 'a' <= words[0] <= 'z'
    ensures Bold(words) == BOLD + words + BOLD
  {
    assert forall i :: 0 <= i <= 1 ==> !StartsAt(words, i, BOLD);
    assert !("#" <= words) && !("-#" <= words);
  }

  lemma BoldedSaysItself()
    ensures NotAHeading(PlusAsDash(BOLDED)) == BOLDED && NotSubtext(BOLDED) == BOLDED
  {
    BoldedIs();
    hide LooksLikeHeading, LooksLikeSubtext, PlusAsDash, BOLDED;
    NoHashNoMark(BOLDED);
    RewritesAdd(BOLDED);
  }

  lemma NestedIsDrawn(heading: Heading)
    requires heading.lead == "> > " && heading.quotes == 2 && !heading.inAnItem
    ensures AsDrawn(heading, "y") == Some(BOLDED)
  {
    hide WordsOf, Bold, Strip, NotAHeading, PlusAsDash, HeadingWords, BOLDED;
    LetterSettles("y");
    BoldOfALetter("y");
    BoldedSaysItself();
    BoldedIsInTwo(heading.lead);
  }

  lemma BoldedIsInTwo(lead: string)
    requires lead == "> > "
    ensures lead + (BOLD + "y" + BOLD) == BOLDED
  {
  }

  lemma NestedIsShown(heading: Heading)
    requires heading == Heading("> > ", 2, "## y", 2, false)
    ensures ShownAfter(heading, NESTED) == Some("y")
  {
    NestedIs();
    var opening := heading.lead + heading.words[..3];
    assert opening == NESTED[..7] && NESTED[7..] == "y";
  }

  lemma NestedIsSaid()
    ensures Said(AHeading(Heading("> > ", 2, "## y", 2, false)), false, NESTED) == Some(BOLDED)
  {
    hide NESTED, BOLDED, AsDrawn, ShownAfter, NotSubtext;
    var heading := Heading("> > ", 2, "## y", 2, false);
    NestedIsShown(heading);
    NestedIsDrawn(heading);
    BoldedSaysItself();
  }

  lemma StarsOpenNothing(c: string, at: nat)
    requires at + 1 < |c| && c[at] == '*' && c[at + 1] == '*' && c[|c| - 1] == '*' && (exists i :: at < i < |c| && c[i] == 'y')
    ensures Opened(c, at, false) == ([], at) && WordsFrom(c, at) == c[at..] && !ThematicBreak(c, at) && at < BlankFrom(c)
    ensures !SpacesAt(c, at, 4)
  {
    var i :| at < i < |c| && c[i] == 'y';
    assert RunOf(Space, c, at) == 0 && RunOf(Space, c, at + 1) == 0;
    assert c[at..][i - at] == 'y' && 'y' in c[at..];
    assert MarkAt(c, at) == NoMark;
  }

  lemma ALetterInStars()
    ensures BOLDED[6] == 'y' && BOLDED[8] == '*' && StartsNothing("**y**")
    ensures !HeadingAt("**y**", RunOf(Hash, "**y**", 0))
  {
  }

  lemma WordsCarryOn(s: State, lead: string, c: string, added: seq<nat>, from: nat)
    requires s == FRESH && added != [] && (added, from) == Opened(c, 0, false) && from <= |c| && from < BlankFrom(c)
    requires StartAt(c, from, false, true, true) == Words
    ensures ReadOnFrom(s, lead, c, 0, 0) == (State(added, false, None, true, false, WordsFrom(c, from), false), AsWords)
  {
    hide Opened, BlankFrom, StartAt, WordsFrom, Cells, Underline, DelimiterRow;
    assert [] + added == added;
  }

  lemma BoldedIsRead()
    ensures Next(FRESH, BOLDED) == (WORDS_IN_TWO_QUOTES, AsWords)
  {
    BoldedIs();
    ALetterInStars();
    PlainLeadOfStars();
    StarsOpenNothing(BOLDED, 4);
    hide BOLDED, Columns, Lead, ReadOnFrom, BlankFrom, Opened, StartAt, WordsFrom, ThematicBreak, HeadingAt, RunOf, SpacesAt;
    NextIs(FRESH, BOLDED);
    NoContainers(FRESH, BOLDED);
    TwoQuotesOpen(BOLDED);
    StartOfNothing(BOLDED, 4, true, true);
    WordsCarryOn(FRESH, Lead(BOLDED), BOLDED, [0, 0], 4);
  }

  lemma PlainLeadOfStars()
    ensures Columns(BOLDED) == BOLDED
  {
    PlainLead(BOLDED, 6);
  }

  lemma NoQuoteInFourSpaces()
    ensures QuoteMark(INDENTED, 0) == None
  {
    RunIs(Space, INDENTED, 0, 4);
  }

  /** Two quotes down from it the line is code, where no words are open to carry on. */
  lemma IndentedInQuotes()
    ensures Next(IN_TWO_QUOTES, INDENTED).1 == AsCode && Next(WORDS_IN_TWO_QUOTES, INDENTED).1 == AsWords
  {
    IndentedIsFour();
    NoQuoteInFourSpaces();
    hide INDENTED, Columns, Lead, ReadOnFrom, BlankFrom, Opened, SpacesAt, QuoteMark;
    NextIs(IN_TWO_QUOTES, INDENTED);
    NextIs(WORDS_IN_TWO_QUOTES, INDENTED);
    FirstOfTheOpen([0, 0], false, INDENTED);
    CodeOutside(IN_TWO_QUOTES, Lead(INDENTED), INDENTED);
    CodeOutside(WORDS_IN_TWO_QUOTES, Lead(INDENTED), INDENTED);
  }

  lemma CodeOutside(s: State, lead: string, c: string)
    requires |s.open| > 0 && SpacesAt(c, 0, 4) && Opened(c, 0, false) == ([], 0) && BlankFrom(c) > 0
    ensures ReadOnFrom(s, lead, c, 0, 0).1 == if s.paragraph then AsWords else AsCode
  {
    hide SpacesAt, Opened, BlankFrom, WordsFrom, ThematicBreak, HeadingAt, Html.Opens, Html.TagAlone, OpeningFence, Paragraph;
  }

  lemma PlusInside()
    ensures '#' !in INDENTED && FORM_FEED !in INDENTED && PlusAsDash(INDENTED) != INDENTED
  {
    NoPlus();
  }

  /** Words in the place of a heading are carried on by the code behind them. */
  lemma AHeadingShownAsBoldChangesMore()
    ensures var body := Join([NESTED, INDENTED]);
            && Rewritten(body, None) == Join([BOLDED, INDENTED])
            && Rewritten(Rewritten(body, None), None) != Rewritten(body, None)
  {
    NestedIs();
    BoldedIs();
    PlusInside();
    hide *;
    var first, once, twice := [NESTED, INDENTED], [BOLDED, INDENTED], [BOLDED, PlusAsDash(INDENTED)];
    var nested := AHeading(Heading("> > ", 2, "## y", 2, false));
    NestedIsRead();
    NestedIsSaid();
    BoldedIsRead();
    IndentedInQuotes();
    AnswersOfTwo(FRESH, NESTED, INDENTED);
    AnswersOfTwo(FRESH, BOLDED, INDENTED);
    NoHashNothingSaid(AsCode, INDENTED);
    NoHashNothingSaid(AsWords, INDENTED);
    NoHashNothingSaid(AsWords, BOLDED);
    SaidOfTwo(nested, AsCode, NESTED, INDENTED);
    SaidOfTwo(AsWords, AsWords, BOLDED, INDENTED);
    OneSaidIs();
    assert [BOLDED] + [INDENTED] == once && [BOLDED] + [PlusAsDash(INDENTED)] == twice;
    assert twice[1] != once[1];
    SplitOfJoin(first);
    BothPasses(Join(first), first, once, twice);
  }

  // ----- And one it does not change -----

  const PLUS: string := "+ x"
  const DASH: string := "- x"

  lemma ALetterBehindAMark(c: string)
    requires |c| == 3 && (c[0] == '+' || c[0] == '-') && c[1] == ' ' && c[2] == 'x'
    ensures Next(FRESH, c).1 == AsWords
  {
    PlainLead(c, 2);
    XIsSeen();
    LastIsSeen(c);
    ItemAt(c, 0);
    NoBreakWithALetter(c);
    LetterOpensNothing(c);
    hide Columns, Lead, ReadOnFrom, BlankFrom, Opened, StartAt, WordsFrom, ThematicBreak, MarkAt, Blank;
    NextIs(FRESH, c);
    NoContainers(FRESH, c);
    AnItemOpens(c, 0, 1, 2);
    assert [2] + [] == [2];
    WordsCarryOn(FRESH, Lead(c), c, [2], 2);
  }

  lemma XIsSeen()
    ensures !Blank('x') && !OpeningChar('x')
  {
  }

  lemma AnItemIsRead(c: string)
    requires c == PLUS || c == DASH
    ensures Next(FRESH, c).1 == AsWords
  {
    hide Next;
    ALetterBehindAMark(c);
  }

  lemma NoBreakWithALetter(c: string)
    requires |c| == 3 && c[2] == 'x'
    ensures !ThematicBreak(c, 0)
  {
    NoBreakAnywhere(c, 0);
  }

  lemma NoBreakAnywhere(c: string, at: nat)
    requires |c| == 3 && c[2] == 'x' && at <= 2
    ensures !ThematicBreak(c, at)
  {
    RunStops(Space, c, at, 2);
    var from := at + RunOf(Space, c, at);
    assert c[from..][2 - from] == 'x' && 'x' in c[from..];
  }

  lemma LetterIsNoMark(c: string)
    requires |c| == 3 && c[2] == 'x'
    ensures MarkAt(c, 2) == NoMark && WordsFrom(c, 2) == "x" && !SpacesAt(c, 2, 4)
  {
    assert RunOf(Space, c, 2) == 0 && RunOf(Digit, c, 2) == 0;
    assert c[2..] == "x";
  }

  lemma LetterOpensNothing(c: string)
    requires |c| == 3 && c[2] == 'x'
    ensures Opened(c, 2, false) == ([], 2) && StartAt(c, 2, false, true, true) == Words
  {
    hide ThematicBreak, MarkAt, SpacesAt, WordsFrom, HeadingAt, StartAt, RunOf, StartsNothing;
    NoBreakAnywhere(c, 2);
    LetterIsNoMark(c);
    LetterStartsNothing();
    StartOfNothing(c, 2, true, true);
  }

  lemma LetterStartsNothing()
    ensures StartsNothing("x") && !HeadingAt("x", RunOf(Hash, "x", 0))
  {
  }

  lemma PlusIsADash()
    ensures PlusAsDash(PLUS) == DASH && PlusAsDash(DASH) == DASH && PLUS != DASH
    ensures '#' !in PLUS && '#' !in DASH && FORM_FEED !in PLUS && FORM_FEED !in DASH
    ensures '`' !in PLUS && '`' !in DASH && '\n' !in PLUS && '\n' !in DASH
  {
    assert RunOf(Blank, PLUS, 0) == 0 && RunOf(Blank, DASH, 0) == 0;
    assert PLUS[0] == '+' && DASH[0] == '-' && PLUS[..0] + "-" + PLUS[1..] == DASH;
  }

  lemma OneLinePass(line: string, said: string)
    requires '`' !in line && '\n' !in line && Next(FRESH, line).1 == AsWords && Said(AsWords, false, line) == Some(said)
    ensures Rewritten(line, None) == said
  {
    hide Next, Said, Rewritten, Split, ImagesOf;
    SplitOneLine(line);
    assert [line][1..] == [] && Answers(FRESH, [line]) == [AsWords];
    assert SaidOf([AsWords], [line]) == [said];
    PassOver(line, [line], [said]);
  }

  /** A line read otherwise than it is said need not change anything: a list of one plus is a list of one
      dash, and stays one. */
  lemma APlusMayBecomeADash()
    ensures !Idle(Image(Next(FRESH, PLUS).1, false, PLUS, Some(DASH)))
    ensures Rewritten(PLUS, None) == DASH && Rewritten(Rewritten(PLUS, None), None) == DASH
  {
    PlusIsADash();
    hide PLUS, DASH, Next, Said, Rewritten, PlusAsDash;
    AnItemIsRead(PLUS);
    AnItemIsRead(DASH);
    NoHashNothingSaid(AsWords, PLUS);
    NoHashNothingSaid(AsWords, DASH);
    OneLinePass(PLUS, DASH);
    OneLinePass(DASH, DASH);
  }
}
