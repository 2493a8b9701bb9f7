/** Reading a second time what the line reader made: which bodies are left as they are, and one that is not. */
module Twice {
  import opened Text
  import opened Fences
  import opened Drawn
  import opened Marks
  import opened LineRules
  import opened LineTheorems
  import opened Reader
  import opened ReaderTheorems
  import opened DrawnLines
  import opened Inserted
  import opened SecondReading
  import Html

  // ----- Which bodies are left as they are -----

  /** A line shown as it was written. Code holds no form feed and no small print; a heading is written the
      way Discord is sent it; and any other line looks like no heading, and opens on no `+` that GitHub
      read as a bullet. */
  predicate LeftAlone(image: Image) {
    var line := image.line;
    if !image.inCode && image.drawn.AHeading? && ShownAfter(image.drawn.heading, line).Some? then
      var drawn := AsDrawn(image.drawn.heading, ShownAfter(image.drawn.heading, line).value);
      drawn.Some? && NotSubtext(drawn.value) == line
    else
      && FORM_FEED !in line && !LooksLikeSubtext(line)
      && (image.inCode || (!LooksLikeHeading(line) && (image.drawn.AsWords? ==> PlusAsDash(line) == line)))
  }

  lemma InsertedHolds(line: string, at: nat, mark: char, c: char)
    requires at <= |line| && mark != c
    ensures c in line[..at] + [mark] + line[at..] <==> c in line
  {
    assert line == line[..at] + line[at..];
  }

  lemma HeadingAdds(line: string)
    ensures |NotAHeading(line)| == |line| + if LooksLikeHeading(line) then 1 else 0
    ensures !LooksLikeHeading(line) ==> NotAHeading(line) == line
    ensures FORM_FEED in NotAHeading(line) <==> FORM_FEED in line
  {
    hide LooseEnd, HashesAt;
    InsertedHolds(line, LooseEnd(line, 0), '\\', FORM_FEED);
  }

  lemma SubtextAdds(line: string)
    ensures |NotSubtext(line)| == |line| + if LooksLikeSubtext(line) then 1 else 0
    ensures !LooksLikeSubtext(line) ==> NotSubtext(line) == line
    ensures FORM_FEED in NotSubtext(line) <==> FORM_FEED in line
  {
    hide LooseEnd;
    if LooksLikeSubtext(line) {
      InsertedHolds(line, LooseEnd(line, 0) + 1, ZERO_WIDTH_SPACE, FORM_FEED);
    }
  }

  lemma DashAdds(line: string)
    ensures |PlusAsDash(line)| == |line|
    ensures FORM_FEED in PlusAsDash(line) <==> FORM_FEED in line
  {
    hide Blank;
    var n := RunOf(Blank, line, 0);
    if n < |line| && line[n] == '+' {
      SwappedHolds(line, n, '-', FORM_FEED);
    }
  }

  lemma SwappedHolds(line: string, at: nat, mark: char, c: char)
    requires at < |line| && line[at] != c && mark != c
    ensures c in line[..at] + [mark] + line[at + 1..] <==> c in line
  {
    assert line == line[..at] + [line[at]] + line[at + 1..];
  }

  lemma RewritesAdd(line: string)
    ensures |NotAHeading(line)| == |line| + if LooksLikeHeading(line) then 1 else 0
    ensures |NotSubtext(line)| == |line| + if LooksLikeSubtext(line) then 1 else 0
    ensures |PlusAsDash(line)| == |line|
    ensures !LooksLikeHeading(line) ==> NotAHeading(line) == line
    ensures !LooksLikeSubtext(line) ==> NotSubtext(line) == line
    ensures FORM_FEED in NotAHeading(line) <==> FORM_FEED in line
    ensures FORM_FEED in NotSubtext(line) <==> FORM_FEED in line
    ensures FORM_FEED in PlusAsDash(line) <==> FORM_FEED in line
  {
    hide *;
    HeadingAdds(line);
    SubtextAdds(line);
    DashAdds(line);
  }

  lemma SameExactly(line: string, from: string)
    requires |from| == |line| && (FORM_FEED in from <==> FORM_FEED in line)
    ensures NotSubtext(NotAHeading(Without(FORM_FEED, from))) == line
       <==> FORM_FEED !in line && from == line && !LooksLikeHeading(line) && !LooksLikeSubtext(line)
    ensures NotSubtext(Without(FORM_FEED, from)) == line
       <==> FORM_FEED !in line && from == line && !LooksLikeSubtext(line)
  {
    hide NotAHeading, NotSubtext, LooksLikeHeading, LooksLikeSubtext;
    var fed := Without(FORM_FEED, from);
    assert FORM_FEED !in fed;
    RewritesAdd(fed);
    RewritesAdd(NotAHeading(fed));
    if FORM_FEED !in from {
      WithoutNone(FORM_FEED, from);
    }
  }

  lemma LeftAloneExactly(image: Image)
    requires Made(image)
    ensures image.said == Some(image.line) <==> LeftAlone(image)
  {
    hide NotAHeading, NotSubtext, LooksLikeHeading, LooksLikeSubtext, PlusAsDash, AsDrawn, ShownAfter, Without;
    RewritesAdd(image.line);
    SameExactly(image.line, image.line);
    SameExactly(image.line, PlusAsDash(image.line));
  }

  lemma {:induction false} KeptAreFewer(images: seq<Image>)
    ensures |Kept(images)| <= |images|
    ensures |Kept(images)| == |images| ==> Kept(images) == images
    decreases |images|
  {
    if images != [] {
      KeptOfFirst(images);
      KeptAreFewer(images[1..]);
      hide Kept;
      if images[0].said.Some? {
        assert images == [images[0]] + images[1..];
      }
    }
  }

  lemma {:induction false} AllAreKept(images: seq<Image>)
    requires forall i :: 0 <= i < |images| ==> images[i].said.Some?
    ensures Kept(images) == images
    decreases |images|
  {
    if images != [] {
      KeptOfFirst(images);
      AllAreKept(images[1..]);
      assert images == [images[0]] + images[1..];
    }
  }

  lemma AnEmptyBodyIsSaid()
    ensures Kept(ImagesOf("", None)) != []
  {
    hide Said, Next, Split, FencesIn, Without, Kept, Answers;
    AnEmptyLineIsOne();
    FitsIsHeld("", None);
    EveryLineIsAccountedFor("", 0);
    var images := ImagesOf("", None);
    FirstAnswer(FRESH, Split(""));
    if images[0].drawn.AHeading? {
      HeadingIsTheLine(FRESH, "");
      HeadingIsSomething(images[0].drawn.heading);
    }
    KeptOfFirst(images);
  }

  lemma HeadingIsSomething(heading: Heading)
    requires heading.Valid()
    ensures heading.lead + heading.words != ""
  {
  }

  lemma AnEmptyLineIsOne()
    ensures Split("") == [""]
  {
  }

  /** A body comes out as it went in exactly when every line of it is left alone, as GitHub reads it: so a
      second pass over what a first made changes nothing exactly when that holds of its lines. */
  lemma UnchangedExactly(body: string)
    ensures Rewritten(body, None) == body
       <==> forall i :: 0 <= i < |ImagesOf(body, None)| ==> LeftAlone(ImagesOf(body, None)[i])
  {
    hide Split, Join, Said, Next, LeftAlone, Rewritten, ImagesOf, Kept, Saids, Without, FencesIn, Answers, Made;
    var images, lines := ImagesOf(body, None), Split(body);
    OutputIsSaid(body, None);
    ImagesAreOfTheLines(body);
    JoinOfSplit(body);
    JoinOfSplit(Rewritten(body, None));
    forall i | 0 <= i < |images| ensures images[i].said == Some(lines[i]) <==> LeftAlone(images[i]) {
      LeftAloneExactly(images[i]);
    }
    if Rewritten(body, None) == body {
      if Kept(images) == [] {
        assert lines == [""];
        JoinOfOne();
        AnEmptyBodyIsSaid();
      }
      KeptAreFewer(images);
      assert Saids(images) == lines;
    }
    if forall i :: 0 <= i < |images| ==> LeftAlone(images[i]) {
      AllAreKept(images);
      assert images != [];
      assert Saids(images) == lines;
    }
  }

  lemma JoinOfOne()
    ensures Join([""]) == ""
  {
  }

  lemma ImagesAreOfTheLines(body: string)
    ensures |ImagesOf(body, None)| == |Split(body)|
    ensures forall i :: 0 <= i < |Split(body)| ==> ImagesOf(body, None)[i].line == Split(body)[i]
  {
    hide Said, Next, Split, FencesIn, Without, Answers;
    FitsIsHeld(body, None);
    ImagesAreTheLines(FRESH, false, Split(body));
  }

  // ----- A line said again -----

  /** A line the first pass leaves as GitHub will read it: one of code, a heading Discord has and a reader
      sees, or words that open on no plus. */
  predicate Idle(image: Image) {
    || image.inCode
    || match image.drawn
       case AHeading(heading) => heading.OnTop() && Seen(heading)
       case AsWords => PlusAsDash(image.line) == image.line
       case AsCode => true
  }

  /** What a line is said as is said as itself, and read as the line was. */
  predicate SaidAgain(s: State, t: State, inCode: bool, line: string) {
    var (after, drawn) := Next(s, line);
    var said := Said(drawn, inCode, line);
    && said.Some?
    && var (again, read) := Next(t, said.value);
       && Alike(after, again) && Said(read, inCode, said.value) == said
       && FencesIn(Without(FORM_FEED, said.value)) == FencesIn(Without(FORM_FEED, line))
  }

  lemma HeadingIsPut(line: string)
    requires LooksLikeHeading(line)
    ensures FirstHash(line, LooseEnd(line, 0)) && NotAHeading(line) == Put(line, LooseEnd(line, 0), '\\')
  {
    hide LooseEnd, LooseChar;
    LooseIsLoose(line, 0);
    assert line[LooseEnd(line, 0)] == '#';
  }

  lemma SubtextIsPut(line: string)
    requires LooksLikeSubtext(line)
    ensures var at := LooseEnd(line, 0) + 1;
            FirstHash(line, at) && line[at - 1] == '-' && NotSubtext(line) == Put(line, at, ZERO_WIDTH_SPACE)
  {
    hide LooseEnd, LooseChar;
    LooseIsLoose(line, 0);
    assert LooseChar('-') by {
      DashIsLoose();
    }
  }

  lemma DashIsLoose()
    ensures LooseChar('-')
  {
  }

  /** A mark in front of the first hash makes no plus a bullet. */
  lemma PlusPut(line: string, at: nat, m: char)
    requires FirstHash(line, at) && Inserted.Mark(m) && PlusAsDash(line) == line
    ensures PlusAsDash(Put(line, at, m)) == Put(line, at, m)
  {
    FirstHashIs(line, at);
    MarksAreNoSpaces(m);
    RunPut(Blank, line, at, m, 0);
    hide FirstHash, Blank, RunOf, Inserted.Mark;
    var n := RunOf(Blank, line, 0);
    PutAt(line, at, m, n);
    if n < at {
      PutAt(line, at, m, n + 1);
      PlusIsOne(line, n);
    }
  }

  lemma PlusIsOne(line: string, n: nat)
    requires n == RunOf(Blank, line, 0) && PlusAsDash(line) == line
    ensures !(n + 1 < |line| && line[n] == '+' && Blank(line[n + 1]))
  {
    hide Blank, RunOf;
    if n < |line| {
      var dashed := line[..n] + "-" + line[n + 1..];
      assert dashed[n] == '-';
    }
  }

  lemma NoFeedSaid(line: string)
    requires FORM_FEED !in line
    ensures Without(FORM_FEED, line) == line
    ensures FORM_FEED !in NotAHeading(line) && FORM_FEED !in NotSubtext(line)
  {
    WithoutNone(FORM_FEED, line);
    RewritesAdd(line);
  }

  lemma Unmoved(s: State, t: State, inCode: bool, line: string)
    requires Alike(s, t) && FORM_FEED !in line && Said(Next(s, line).1, inCode, line) == Some(line)
    ensures SaidAgain(s, t, inCode, line)
  {
    hide Next, Said, Without, FencesIn, Cells;
    NextAlike(s, t, line);
  }

  lemma CodeAgain(s: State, t: State, line: string)
    requires Alike(s, t) && FORM_FEED !in line
    ensures SaidAgain(s, t, true, line)
  {
    hide Next, Without, FencesIn, Cells, NotSubtext, LooksLikeSubtext, Put, FirstHash, LooksLikeHeading;
    NoFeedSaid(line);
    RewritesAdd(line);
    var said := NotSubtext(line);
    if LooksLikeSubtext(line) {
      SubtextIsPut(line);
      var at := LooseEnd(line, 0) + 1;
      NoHeadingBehindADash(s, line, at);
      NextPut(s, t, line, at, ZERO_WIDTH_SPACE);
      NotSubtextIsNone(line);
      NotSubtextKeepsFences(line);
      NoFeedSaid(said);
      RewritesAdd(said);
    } else {
      Unmoved(s, t, true, line);
    }
  }

  /** Outside code a line that is no heading is said with at most one mark in front of its first hash. */
  lemma WordsAgain(s: State, t: State, line: string)
    requires Alike(s, t) && FORM_FEED !in line && !Next(s, line).1.AHeading?
    requires Next(s, line).1.AsWords? ==> PlusAsDash(line) == line
    ensures SaidAgain(s, t, false, line)
  {
    hide Next, Without, FencesIn, Cells, NotSubtext, NotAHeading, LooksLikeSubtext, LooksLikeHeading, Put, FirstHash, PlusAsDash;
    NoFeedSaid(line);
    RewritesAdd(line);
    RewritesAdd(NotAHeading(line));
    NotAHeadingIsNone(line);
    if LooksLikeHeading(line) {
      HeadingIsPut(line);
      MarkedAgain(s, t, line, LooseEnd(line, 0), '\\', NotAHeading(line));
    } else if LooksLikeSubtext(line) {
      SubtextIsPut(line);
      NotSubtextIsNone(line);
      MarkedAgain(s, t, line, LooseEnd(line, 0) + 1, ZERO_WIDTH_SPACE, NotSubtext(line));
    } else {
      Unmoved(s, t, false, line);
    }
  }

  lemma MarkedAgain(s: State, t: State, line: string, at: nat, m: char, said: string)
    requires Alike(s, t) && FORM_FEED !in line && !Next(s, line).1.AHeading?
    requires Next(s, line).1.AsWords? ==> PlusAsDash(line) == line
    requires FirstHash(line, at) && Inserted.Mark(m) && said == Put(line, at, m)
    requires Said(Next(s, line).1, false, line) == Some(said)
    ensures SaidAgain(s, t, false, line)
  {
    hide Next, Without, FencesIn, Cells, NotSubtext, NotAHeading, LooksLikeSubtext, LooksLikeHeading, Put, FirstHash, PlusAsDash;
    hide Said;
    FirstHashIs(line, at);
    var drawn := Next(s, line).1;
    NextPut(s, t, line, at, m);
    SaidReads(drawn, false, line, "");
    SaidKeepsFences(drawn, false, line);
    NoFeedIn(line, at, m);
    NoFeedSaid(said);
    if drawn.AsWords? {
      PlusPut(line, at, m);
    }
    SaysItself(drawn, said);
  }

  lemma NoFeedIn(line: string, at: nat, m: char)
    requires at <= |line| && FORM_FEED !in line && Inserted.Mark(m)
    ensures FORM_FEED !in Put(line, at, m)
  {
  }

  lemma SaysItself(drawn: Drawn, line: string)
    requires !drawn.AHeading? && FORM_FEED !in line && !LooksLikeHeading(line) && !LooksLikeSubtext(line)
    requires drawn.AsWords? ==> PlusAsDash(line) == line
    ensures Said(drawn, false, line) == Some(line)
  {
    hide Said, LooksLikeHeading, LooksLikeSubtext, PlusAsDash;
    var image := Image(drawn, false, line, Said(drawn, false, line));
    LeftAloneExactly(image);
  }

  // ----- A heading said again -----

  lemma StripOfClear(s: string)
    requires s != "" && !DiscordSpace(s[0]) && !DiscordSpace(s[|s| - 1])
    ensures Strip(DiscordSpace, s) == s
  {
    hide DiscordSpace;
    assert s[0..] == s;
    assert DropFront(DiscordSpace, s) == s;
  }

  /** Words no closing run, no space and no feed can be taken off. */
  predicate Settles(words: string) {
    && words != "" && FORM_FEED !in words
    && !DiscordSpace(words[0]) && !DiscordSpace(words[|words| - 1]) && words[|words| - 1] != '#'
  }

  lemma SettledWordsStay(words: string)
    requires Settles(words)
    ensures WordsOf(words) == words
  {
    hide DiscordSpace;
    BlankIsASpace(words[|words| - 1]);
    assert DropBack(Blank, words) == words;
    assert DropBack(Hash, words) == words;
    WithoutNone(FORM_FEED, words);
    StripOfClear(words);
  }

  lemma BlankIsASpace(c: char)
    ensures Blank(c) ==> DiscordSpace(c)
  {
  }

  lemma StripIsClear(s: string)
    ensures var kept := Strip(DiscordSpace, s);
            kept != "" ==> !DiscordSpace(kept[0]) && !DiscordSpace(kept[|kept| - 1]) && forall c <- kept :: c in s
  {
    hide DiscordSpace;
    var front := DropFront(DiscordSpace, s);
    var back := DropBack(DiscordSpace, front);
    assert forall c <- front :: c in s;
    assert forall c <- back :: c in front;
  }

  /** What a heading says is settled, and is what it says again. */
  lemma HeadingWordsSettle(rest: string)
    requires WordsOf(rest) != ""
    ensures var words := HeadingWords(WordsOf(rest));
            Settles(words) && words != "" && WordsOf(words) == words && HeadingWords(words) == words
  {
    var kept := WordsOf(rest);
    StripIsClear(Without(FORM_FEED, Closed(rest)));
    assert FORM_FEED !in kept;
    hide WordsOf;
    LedSettles(kept);
    SettledWordsStay(HeadingWords(kept));
  }

  lemma LedSettles(words: string)
    requires words != "" && FORM_FEED !in words && !DiscordSpace(words[0]) && !DiscordSpace(words[|words| - 1])
    ensures Settles(HeadingWords(words)) && HeadingWords(HeadingWords(words)) == HeadingWords(words)
  {
    hide DiscordSpace;
    LedOpensClear(words);
    var led := Led(words);
    var said := HeadingWords(words);
    assert said[0] == led[0] && (|led| > 1 ==> said[1] == led[1]);
    MarksAreNoSpace();
  }

  lemma MarksAreNoSpace()
    ensures !DiscordSpace('\\') && !DiscordSpace('-') && !DiscordSpace(ZERO_WIDTH_SPACE)
  {
  }

  lemma OpensOtherwise(words: string)
    requires words != "" && !("#" <= words) && !("-#" <= words)
    ensures words[0] != '#' && (|words| > 1 ==> !(words[0] == '-' && words[1] == '#'))
  {
  }

  lemma LedOpensClear(words: string)
    requires words != "" && FORM_FEED !in words && !DiscordSpace(words[0])
    ensures var led := Led(words);
            && led != "" && led[|led| - 1] == words[|words| - 1] && FORM_FEED !in led && !DiscordSpace(led[0])
            && led[0] != '#' && (|led| > 1 ==> !(led[0] == '-' && led[1] == '#'))
  {
    hide DiscordSpace;
    MarksAreNoSpace();
    if "#" <= words {
      assert words[0] == '#';
    } else if "-#" <= words {
      assert words[0] == '-' && words[1] == '#';
      assert Led(words)[1] == ZERO_WIDTH_SPACE;
    } else {
      OpensOtherwise(words);
    }
  }

  lemma DrawnIsSomething(heading: Heading, rest: string)
    requires AsDrawn(heading, rest).Some?
    ensures WordsOf(rest) != "" && Strip(Unseen, WordsOf(rest)) != ""
  {
    hide WordsOf, Unseen;
  }

  lemma LedHoldsAll(words: string)
    ensures forall c <- words :: c in HeadingWords(words)
  {
  }

  /** What is seen of words is seen of them led. */
  lemma LedIsSeen(words: string)
    requires Strip(Unseen, words) != ""
    ensures Strip(Unseen, HeadingWords(words)) != ""
  {
    hide Unseen, HeadingWords, Strip;
    StripIsEmpty(Unseen, words);
    StripIsEmpty(Unseen, HeadingWords(words));
    LedHoldsAll(words);
    var i :| 0 <= i < |words| && !Unseen(words[i]);
    assert words[i] in HeadingWords(words);
  }

  function QuotedAs(heading: Heading): string { if heading.quotes > 0 then "> " else "" }

  lemma DrawnIsRedrawn(heading: Heading, rest: string)
    requires heading.Valid() && heading.OnTop() && WordsOf(rest) != "" && Strip(Unseen, WordsOf(rest)) != ""
    ensures var hashes := Min(heading.hashes, HEADING_LEVELS);
            var said := QuotedAs(heading) + Repeat('#', hashes) + " " + HeadingWords(WordsOf(rest));
            AsDrawn(heading, rest) == Some(said) && Redrawn(said, QuotedAs(heading), hashes, HeadingWords(WordsOf(rest)))
  {
    hide WordsOf, HeadingWords, Unseen;
  }

  /** Read as the heading it was redrawn as, a line is shown behind its own opening. */
  lemma RedrawnIsShown(line: string, quoted: string, hashes: nat, words: string, quotes: nat)
    requires Redrawn(line, quoted, hashes, words)
    ensures |quoted| <= |line|
    ensures ShownAfter(Heading(quoted, hashes, line[|quoted|..], quotes, false), line) == Some(words)
  {
    RedrawnIs(line, quoted, hashes, words);
    var rest := line[|quoted|..];
    var opening := quoted + rest[..hashes + 1];
    assert rest[..hashes + 1] == Repeat('#', hashes) + " ";
    assert line == opening + words;
  }

  /** A heading Discord has, as it is said, says itself when it is read as that heading again. */
  lemma RedrawnSaysItself(heading: Heading, rest: string, said: string)
    requires heading.Valid() && heading.OnTop() && AsDrawn(heading, rest) == Some(said)
    ensures var (quoted, hashes) := (QuotedAs(heading), Min(heading.hashes, HEADING_LEVELS));
            && Redrawn(said, quoted, hashes, HeadingWords(WordsOf(rest))) && |quoted| <= |said|
            && Said(AHeading(Heading(quoted, hashes, said[|quoted|..], heading.quotes, false)), false, said) == Some(said)
  {
    hide *;
    QuotedOnce(heading);
    DrawnIsSomething(heading, rest);
    DrawnIsRedrawn(heading, rest);
    HeadingWordsSettle(rest);
    LedIsSeen(WordsOf(rest));
    var words := HeadingWords(WordsOf(rest));
    RedrawnIsSaid(said, QuotedAs(heading), Min(heading.hashes, HEADING_LEVELS), words, heading.quotes);
  }

  lemma QuotedOnce(heading: Heading)
    requires heading.OnTop()
    ensures heading.quotes <= 1 && (QuotedAs(heading) == "" <==> heading.quotes == 0)
  {
  }

  lemma RedrawnIsSaid(said: string, quoted: string, hashes: nat, words: string, quotes: nat)
    requires Redrawn(said, quoted, hashes, words) && quotes <= 1 && (quoted == "" <==> quotes == 0)
    requires words != "" && WordsOf(words) == words && HeadingWords(words) == words && Strip(Unseen, words) != ""
    ensures |quoted| <= |said|
    ensures Said(AHeading(Heading(quoted, hashes, said[|quoted|..], quotes, false)), false, said) == Some(said)
  {
    hide WordsOf, HeadingWords, Strip, LooksLikeHeading, DiscordLevel, NotSubtext, HeadingAt, RunOf, Lead, Columns, BlankFrom;
    RedrawnColumns(said, quoted, hashes, words);
    RedrawnIsShown(said, quoted, hashes, words, quotes);
    QuotesAreOpenings(quoted);
    var again := Heading(quoted, hashes, said[|quoted|..], quotes, false);
    DrawnIsRedrawn(again, words);
    SameRedrawn(said, quoted, hashes, words);
    DrawnAtItsLevel(again, words, "");
    NotSubtextIsNone(said);
    hide AsDrawn, ShownAfter;
  }

  lemma SameRedrawn(said: string, quoted: string, hashes: nat, words: string)
    requires Redrawn(said, quoted, hashes, words)
    ensures said == quoted + Repeat('#', Min(hashes, HEADING_LEVELS)) + " " + words
  {
  }

  lemma QuotesAreOpenings(quoted: string)
    requires quoted == "" || quoted == "> "
    ensures forall c <- quoted :: OpeningChar(c)
  {
  }

  lemma SeenIsShown(heading: Heading, line: string)
    requires heading.lead + heading.words == line && Seen(heading)
    ensures heading.hashes < |heading.words| && ShownAfter(heading, line) == Some(HeadingText(heading))
  {
    hide Unseen, Closed;
    NothingIsClosed();
    if heading.hashes < |heading.words| {
      RestIsShown(heading, line);
    }
  }

  lemma NothingIsClosed()
    ensures Closed("") == ""
  {
  }

  lemma HeadingSaidAgain(s: State, t: State, line: string)
    requires Alike(s, t) && FORM_FEED !in line && Next(s, line).1.AHeading?
    requires Next(s, line).1.heading.OnTop() && Seen(Next(s, line).1.heading)
    ensures SaidAgain(s, t, false, line)
  {
    hide Next, Without, FencesIn, Cells, AsDrawn, ShownAfter, NotSubtext, LooksLikeHeading, Redrawn, Seen, HeadingText, Closed;
    var drawn := Next(s, line).1;
    var heading := drawn.heading;
    HeadingIsTheLine(s, line);
    SeenIsShown(heading, line);
    var rest := HeadingText(heading);
    SeenIsDrawn(heading);
    var said := AsDrawn(heading, rest).value;
    DrawnAtItsLevel(heading, rest, "");
    NotSubtextIsNone(said);
    RedrawnSaysItself(heading, rest, said);
    var quoted, hashes := QuotedAs(heading), Min(heading.hashes, HEADING_LEVELS);
    HeadingAgain(s, t, line, said, quoted, hashes, HeadingWords(WordsOf(rest)));
    SaidKeepsFences(drawn, false, line);
    NoFeedDrawn(heading, rest);
    WithoutNone(FORM_FEED, said);
  }

  lemma SeenIsDrawn(heading: Heading)
    requires Seen(heading)
    ensures AsDrawn(heading, HeadingText(heading)).Some?
  {
    hide AsDrawn, HeadingText, Unseen, Closed;
    DroppedWhenUnseen(heading, HeadingText(heading));
  }

  lemma NoFeedDrawn(heading: Heading, rest: string)
    requires heading.Valid() && heading.OnTop() && AsDrawn(heading, rest).Some?
    ensures FORM_FEED !in AsDrawn(heading, rest).value
  {
    hide WordsOf, HeadingWords, Unseen, AsDrawn;
    DrawnIsSomething(heading, rest);
    DrawnIsRedrawn(heading, rest);
    HeadingWordsSettle(rest);
    hide Redrawn;
  }

  lemma LineSaidAgain(s: State, t: State, inCode: bool, line: string)
    requires Alike(s, t) && FORM_FEED !in line
    requires Idle(Image(Next(s, line).1, inCode, line, Said(Next(s, line).1, inCode, line)))
    ensures SaidAgain(s, t, inCode, line)
  {
    hide Next, Said, SaidAgain, Seen, PlusAsDash;
    if inCode {
      CodeAgain(s, t, line);
    } else if Next(s, line).1.AHeading? {
      HeadingSaidAgain(s, t, line);
    } else {
      WordsAgain(s, t, line);
    }
  }

  // ----- A body said again -----

  function WholeImages(s: State, inCode: bool, lines: seq<string>): (images: seq<Image>)
    ensures |images| == |lines|
  {
    HeldByAll(lines);
    Images(s, inCode, lines, AsWritten(lines))
  }

  lemma FirstImage(s: State, inCode: bool, lines: seq<string>)
    requires lines != []
    ensures var (after, drawn) := Next(s, lines[0]);
            && WholeImages(s, inCode, lines)[0] == Image(drawn, inCode, lines[0], Said(drawn, inCode, lines[0]))
            && WholeImages(s, inCode, lines)[1..]
               == WholeImages(after, inCode != Odd(FencesIn(Without(FORM_FEED, lines[0]))), lines[1..])
  {
    hide Next, Said, Without, FencesIn;
    HeldByAll(lines);
    assert AsWritten(lines)[1..] == AsWritten(lines[1..]);
    assert lines[1..1] == [];
  }

  /** The first `n` lines of one reading, said, are the first of the other's, whatever comes behind. */
  predicate SaysAgain(images: seq<Image>, again: seq<string>, n: nat) {
    n <= |again| && n <= |images| && forall i :: 0 <= i < n ==> images[i].said == Some(again[i])
  }

  lemma {:induction false} SecondFold(s: State, t: State, inCode: bool, lines: seq<string>, again: seq<string>, n: nat)
    requires Alike(s, t) && n <= |lines| && n <= |again|
    requires forall i :: 0 <= i < n ==> FORM_FEED !in lines[i] && Idle(WholeImages(s, inCode, lines)[i])
    requires forall i :: 0 <= i < n && WholeImages(s, inCode, lines)[i].said.Some? ==>
               again[i] == WholeImages(s, inCode, lines)[i].said.value
    ensures SaysAgain(WholeImages(s, inCode, lines), again, n) && SaysAgain(WholeImages(t, inCode, again), again, n)
    decreases n
  {
    hide Next, Said, Without, FencesIn, Idle, Alike, WholeImages;
    if n > 0 {
      FirstImage(s, inCode, lines);
      FirstImage(t, inCode, again);
      LineSaidAgain(s, t, inCode, lines[0]);
      var images, others := WholeImages(s, inCode, lines), WholeImages(t, inCode, again);
      var after, more := Next(s, lines[0]).0, Next(t, again[0]).0;
      var inside := inCode != Odd(FencesIn(Without(FORM_FEED, lines[0])));
      var rest, later := lines[1..], again[1..];
      assert WholeImages(after, inside, rest) == images[1..];
      assert WholeImages(more, inside, later) == others[1..];
      forall i | 0 <= i < n - 1
        ensures FORM_FEED !in rest[i] && Idle(images[1..][i])
        ensures images[1..][i].said.Some? ==> later[i] == images[1..][i].said.value
      {
        assert rest[i] == lines[i + 1] && images[1..][i] == images[i + 1] && later[i] == again[i + 1];
      }
      SecondFold(after, more, inside, rest, later, n - 1);
      SaysOneMore(images, again, n);
      SaysOneMore(others, again, n);
    }
  }

  lemma SaysOneMore(images: seq<Image>, again: seq<string>, n: nat)
    requires n > 0 && images != [] && again != [] && images[0].said == Some(again[0])
    requires SaysAgain(images[1..], again[1..], n - 1)
    ensures SaysAgain(images, again, n)
  {
    forall i | 0 < i < n ensures images[i].said == Some(again[i]) {
      assert images[1..][i - 1] == images[i] && again[1..][i - 1] == again[i];
    }
  }

  lemma FreshIsAlike()
    ensures Alike(FRESH, FRESH)
  {
    hide Cells;
  }

  lemma {:induction false} KeptSoFar(images: seq<Image>, n: nat)
    requires n <= |images| && forall i :: 0 <= i < n ==> images[i].said.Some?
    ensures n <= |Kept(images)| && Kept(images)[..n] == images[..n]
    decreases n
  {
    if n > 0 {
      KeptOfFirst(images);
      KeptSoFar(images[1..], n - 1);
      hide Kept;
      assert Kept(images)[..n] == [images[0]] + Kept(images[1..])[..n - 1];
      assert images[..n] == [images[0]] + images[1..][..n - 1];
    }
  }

  lemma {:induction false} NoFeedInLines(s: string)
    requires FORM_FEED !in s
    ensures forall i :: 0 <= i < |Split(s)| ==> FORM_FEED !in Split(s)[i]
  {
    if s != [] {
      NoFeedInLines(s[1..]);
      hide Split;
      SplitFirst(s);
    }
  }

  lemma IdleIsSaid(image: Image)
    requires Made(image) && Whole(image) && Idle(image)
    ensures image.said.Some?
  {
    hide Said, Seen, PlusAsDash;
    ImageReads(image, "");
    if !image.inCode && image.drawn.AHeading? {
      SeenIsShown(image.drawn.heading, image.line);
      SeenIsSeen(image.drawn.heading);
    }
  }

  lemma SeenIsSeen(heading: Heading)
    requires Seen(heading)
    ensures exists c <- Closed(HeadingText(heading)) :: !Unseen(c)
  {
  }

  lemma WholeImagesOf(body: string)
    ensures ImagesOf(body, None) == WholeImages(FRESH, false, Split(body))
    ensures forall i :: 0 <= i < |Split(body)| ==> Made(ImagesOf(body, None)[i]) && Whole(ImagesOf(body, None)[i])
  {
    hide Split, Next, Said, FencesIn, Without, Made, Whole, Answers;
    FitsIsHeld(body, None);
    ImagesAreMade(FRESH, false, Split(body), AsWritten(Split(body)));
    ImagesAreTheLines(FRESH, false, Split(body));
  }

  /** The lines of a body that come before any GitHub does not read as they are said - any heading that has
      no place on Discord or nothing to see, any words that open on a plus - come out of a first pass, each
      as one line, and out of a second as they came out of the first. */
  lemma SecondPassLeaves(body: string, n: nat)
    requires FORM_FEED !in body && n <= |ImagesOf(body, None)|
    requires forall i :: 0 <= i < n ==> Idle(ImagesOf(body, None)[i])
    ensures n == 0 || n <= |Split(Rewritten(body, None))|
    ensures n <= |Split(Rewritten(body, None))| ==>
              var out := Split(Rewritten(body, None));
              SaysAgain(ImagesOf(body, None), out, n) && SaysAgain(ImagesOf(Rewritten(body, None), None), out, n)
  {
    hide Split, Next, Said, FencesIn, Without, Made, Whole, Idle, Kept, Saids, Rewritten, ImagesOf, WholeImages, Alike;
    var lines, images, out := Split(body), ImagesOf(body, None), Split(Rewritten(body, None));
    WholeImagesOf(body);
    WholeImagesOf(Rewritten(body, None));
    NoFeedInLines(body);
    forall i | 0 <= i < n ensures images[i].said.Some? {
      IdleIsSaid(images[i]);
    }
    KeptSoFar(images, n);
    OutputIsSaid(body, None);
    if n > 0 {
      assert out == Saids(Kept(images));
      forall i | 0 <= i < n ensures out[i] == images[i].said.value {
        assert Kept(images)[i] == Kept(images)[..n][i] && images[i] == images[..n][i];
      }
      FreshIsAlike();
      SecondFold(FRESH, FRESH, false, lines, out, n);
    }
  }

  lemma SaidAllOver(body: string)
    requires SaysAgain(ImagesOf(body, None), Split(body), |Split(body)|)
    ensures Rewritten(body, None) == body
  {
    hide Split, Next, Said, FencesIn, Without, Made, Join, Kept, Saids, Rewritten, ImagesOf;
    var images, lines := ImagesOf(body, None), Split(body);
    ImagesAreOfTheLines(body);
    AllAreKept(images);
    OutputIsSaid(body, None);
    SomethingSplit(body);
    assert Saids(images) == lines;
    JoinOfSplit(body);
    JoinOfSplit(Rewritten(body, None));
  }

  lemma SomethingSplit(s: string)
    ensures Split(s) != []
  {
  }

  /** Where all of a body's lines are such, and none holds a form feed, a second pass changes nothing. */
  lemma SecondPassIsIdle(body: string)
    requires FORM_FEED !in body
    requires forall i :: 0 <= i < |ImagesOf(body, None)| ==> Idle(ImagesOf(body, None)[i])
    ensures Rewritten(Rewritten(body, None), None) == Rewritten(body, None)
  {
    hide Split, Next, Said, FencesIn, Without, Idle, Kept, Saids, Rewritten, ImagesOf, Join;
    var images, out := ImagesOf(body, None), Rewritten(body, None);
    var n := |images|;
    SecondPassLeaves(body, n);
    ImagesAreOfTheLines(body);
    SomethingSplit(body);
    AllAreKept(images);
    OutputIsSaid(body, None);
    SaidAllOver(out);
  }

  // ----- Exactly when -----

  /** How a second reading has to answer a line of the output for it to be left alone: a heading where one
      was drawn, and elsewhere none, and words only where they open on no plus. */
  predicate AnsweredAgain(image: Image, said: string, answer: Drawn) {
    || image.inCode
    || (if DiscordHasIt(image.drawn) then answer.AHeading?
        else !answer.AHeading? && (answer.AsWords? ==> PlusAsDash(said) == said))
  }

  /** No hash among the first characters, and another there. */
  predicate NoHashUpTo(s: string, n: nat) { n < |s| && forall i :: 0 <= i <= n ==> s[i] != '#' }

  lemma FrontIsKept(s: string, n: nat, end: nat, mark: char)
    requires NoHashUpTo(s, n) && n < end <= |s|
    ensures NoHashUpTo(s[..end] + [mark] + s[end..], n)
  {
    var t := s[..end] + [mark] + s[end..];
    assert forall i :: 0 <= i <= n ==> t[i] == s[i];
  }

  lemma HeadingKeepsTheFront(s: string, n: nat)
    requires NoHashUpTo(s, n)
    ensures NoHashUpTo(NotAHeading(s), n)
  {
    hide LooseEnd, HashesAt;
    if LooksLikeHeading(s) {
      HashesStandThere(s);
      FrontIsKept(s, n, LooseEnd(s, 0), '\\');
    }
  }

  lemma SubtextKeepsTheFront(s: string, n: nat)
    requires NoHashUpTo(s, n)
    ensures NoHashUpTo(NotSubtext(s), n)
  {
    hide LooseEnd;
    if LooksLikeSubtext(s) {
      HashesStandThere(s);
      FrontIsKept(s, n, LooseEnd(s, 0) + 1, ZERO_WIDTH_SPACE);
    }
  }

  lemma DashKeepsTheFront(s: string, n: nat)
    requires NoHashUpTo(s, n)
    ensures NoHashUpTo(PlusAsDash(s), n)
  {
    hide RunOf, Blank;
    var plus := RunOf(Blank, s, 0);
    if plus < |s| {
      var t := s[..plus] + "-" + s[plus + 1..];
      assert forall i :: 0 <= i <= n ==> t[i] == if i == plus then '-' else s[i];
    }
  }

  lemma RewritesKeepTheFront(s: string, n: nat)
    requires NoHashUpTo(s, n)
    ensures NoHashUpTo(NotAHeading(s), n) && NoHashUpTo(NotSubtext(s), n) && NoHashUpTo(PlusAsDash(s), n)
  {
    hide *;
    HeadingKeepsTheFront(s, n);
    SubtextKeepsTheFront(s, n);
    DashKeepsTheFront(s, n);
  }

  lemma HashesStandThere(s: string)
    ensures LooksLikeHeading(s) ==> LooseEnd(s, 0) < |s| && s[LooseEnd(s, 0)] == '#'
    ensures LooksLikeSubtext(s) ==> LooseEnd(s, 0) + 1 < |s| && s[LooseEnd(s, 0) + 1] == '#'
  {
    hide LooseEnd;
  }

  lemma BoldOpensOnNoHash(words: string)
    requires words != "" && FORM_FEED !in words && !DiscordSpace(words[0])
    ensures Bold(words) != "" && Bold(words)[0] != '#'
  {
    hide DiscordSpace, Led;
    LedOpensClear(words);
  }

  /** In an item or behind two quotes what is said has no hash where GitHub's heading had its first. */
  lemma NestedIsChanged(heading: Heading, rest: string)
    requires heading.Valid() && !heading.OnTop() && AsDrawn(heading, rest).Some?
    ensures NoHashUpTo(NotSubtext(AsDrawn(heading, rest).value), |heading.lead|)
  {
    DrawnIsSomething(heading, rest);
    var words := WordsOf(rest);
    StripIsClear(Without(FORM_FEED, Closed(rest)));
    assert FORM_FEED !in words;
    BoldOpensOnNoHash(words);
    hide WordsOf, Bold, Strip, Unseen, DiscordSpace, NotAHeading, NotSubtext, PlusAsDash;
    var said := heading.lead + Bold(words);
    forall i | 0 <= i <= |heading.lead| ensures said[i] != '#' {
      if i < |heading.lead| {
        assert heading.lead[i] in heading.lead;
      }
    }
    RewritesKeepTheFront(said, |heading.lead|);
    RewritesKeepTheFront(PlusAsDash(said), |heading.lead|);
    RewritesKeepTheFront(NotAHeading(PlusAsDash(said)), |heading.lead|);
  }

  lemma WholeShowsItsText(heading: Heading, line: string)
    requires heading.Valid() && heading.lead + heading.words == line
    ensures ShownAfter(heading, line) == Some(HeadingText(heading)) && |heading.lead| < |line| && line[|heading.lead|] == '#'
  {
    if heading.hashes < |heading.words| {
      RestIsShown(heading, line);
    }
    assert line[|heading.lead|] == heading.words[0];
  }

  /** Read as a heading where none was drawn, a line does not stay as it is. */
  lemma NewHeadingChanges(again: Image)
    requires Made(again) && Whole(again) && !again.inCode && again.drawn.AHeading? && !LooksLikeHeading(again.line)
    ensures !LeftAlone(again)
  {
    hide Said, NotSubtext, LooksLikeHeading, LooksLikeSubtext, AsDrawn, ShownAfter, HeadingText, HeadingAt;
    var heading := again.drawn.heading;
    WholeShowsItsText(heading, again.line);
    var rest := HeadingText(heading);
    if AsDrawn(heading, rest).Some? {
      if heading.OnTop() {
        DrawnAtItsLevel(heading, rest, "");
        NotSubtextIsNone(AsDrawn(heading, rest).value);
      } else {
        NestedIsChanged(heading, rest);
      }
    }
  }

  /** A line the reader answers a heading for where one is redrawn is that heading, in one quote or none. */
  lemma RedrawnHeadingIs(t: State, line: string, quoted: string, hashes: nat, words: string)
    requires Redrawn(line, quoted, hashes, words) && Next(t, line).1.AHeading?
    ensures |quoted| <= |line|
    ensures var quotes := if quoted == "" then 0 else 1;
            Next(t, line).1 == AHeading(Heading(quoted, hashes, line[|quoted|..], quotes, false))
  {
    hide Next, Columns, CarriedOn, Opened, Redrawn;
    var matched, at, added := HeadingCameBy(t, line);
    RedrawnColumns(line, quoted, hashes, words);
    RedrawnContainers(t.open, t.empty, line, quoted, hashes, words, matched == |t.open| && t.paragraph);
    RedrawnReads(t, line, quoted, hashes, words, matched, at);
    OneQuote(t.open[..matched] + added);
  }

  lemma OneQuote(open: seq<nat>)
    ensures open == [] ==> Quotes(open) == 0
    ensures open == [0] ==> Quotes(open) == 1
  {
    assert [0][1..] == [] && Quotes([]) == 0;
  }

  /** A heading that was drawn is left alone exactly where it is answered as a heading. */
  lemma DrawnIsLeft(image: Image, again: Image, t: State)
    requires Made(image) && Whole(image) && !image.inCode && DiscordHasIt(image.drawn) && FORM_FEED !in image.line
    requires image.said == Some(again.line) && !again.inCode && again.drawn == Next(t, again.line).1 && Made(again)
    ensures LeftAlone(again) <==> again.drawn.AHeading?
  {
    hide Next, Said, NotSubtext, LooksLikeHeading, LooksLikeSubtext, AsDrawn, ShownAfter, HeadingText, Seen, Redrawn, WordsOf;
    var heading := image.drawn.heading;
    SeenIsShown(heading, image.line);
    SeenIsDrawn(heading);
    var rest := HeadingText(heading);
    var drawn := AsDrawn(heading, rest).value;
    DrawnAtItsLevel(heading, rest, "");
    NotSubtextIsNone(drawn);
    DrawnSays(image, rest, drawn);
    if again.drawn.AHeading? {
      RedrawnSaysItself(heading, rest, drawn);
      var quoted, hashes := QuotedAs(heading), Min(heading.hashes, HEADING_LEVELS);
      RedrawnHeadingIs(t, again.line, quoted, hashes, HeadingWords(WordsOf(rest)));
      QuotedOnce(heading);
      LeftAloneExactly(again);
    } else {
      WordsAreLeftBare(again);
    }
  }

  lemma DrawnSays(image: Image, rest: string, drawn: string)
    requires Made(image) && !image.inCode && image.drawn.AHeading? && ShownAfter(image.drawn.heading, image.line) == Some(rest)
    requires AsDrawn(image.drawn.heading, rest) == Some(drawn) && NotSubtext(drawn) == drawn
    ensures image.said == Some(drawn)
  {
    hide AsDrawn, ShownAfter, NotSubtext;
  }

  lemma WordsAreLeftBare(again: Image)
    requires !again.inCode && !again.drawn.AHeading?
    ensures LeftAlone(again) <==>
            && FORM_FEED !in again.line && !LooksLikeSubtext(again.line) && !LooksLikeHeading(again.line)
            && (again.drawn.AsWords? ==> PlusAsDash(again.line) == again.line)
  {
    hide LooksLikeHeading, LooksLikeSubtext, PlusAsDash;
  }

  lemma OneLineExactly(image: Image, again: Image, t: State)
    requires Made(image) && Whole(image) && FORM_FEED !in image.line && image.said == Some(again.line)
    requires Made(again) && Whole(again) && again.drawn == Next(t, again.line).1 && again.inCode == image.inCode
    ensures FORM_FEED !in again.line
    ensures LeftAlone(again) <==> AnsweredAgain(image, again.line, again.drawn)
  {
    hide Next, Said, LooksLikeHeading, LooksLikeSubtext, PlusAsDash, LeftAlone, DiscordHasIt, Shows;
    SaidHasNoFeed(image);
    ImageReads(image, "");
    WholeReads(image);
    if image.inCode {
      CodeIsLeft(again);
    } else if DiscordHasIt(image.drawn) {
      DrawnIsLeft(image, again, t);
    } else if again.drawn.AHeading? {
      NewHeadingChanges(again);
    } else {
      WordsAreLeftBare(again);
    }
  }

  lemma CodeIsLeft(again: Image)
    requires again.inCode && FORM_FEED !in again.line && !LooksLikeSubtext(again.line)
    ensures LeftAlone(again)
  {
    hide LooksLikeSubtext;
  }

  lemma SaidHasNoFeed(image: Image)
    requires Made(image) && image.said.Some? && FORM_FEED !in image.line
    ensures FORM_FEED !in image.said.value
  {
    hide NotAHeading, NotSubtext, PlusAsDash, AsDrawn, Without, ShownAfter;
    var line := image.line;
    NoFeedSaid(line);
    RewritesAdd(line);
    NoFeedSaid(PlusAsDash(line));
    NoFeedSaid(NotAHeading(line));
    NoFeedSaid(NotAHeading(PlusAsDash(line)));
    if image.drawn.AHeading? && ShownAfter(image.drawn.heading, line).Some? {
      var rest := ShownAfter(image.drawn.heading, line).value;
      if AsDrawn(image.drawn.heading, rest).Some? {
        DrawnHasNoFeed(image.drawn.heading, rest);
        NoFeedSaid(AsDrawn(image.drawn.heading, rest).value);
      }
    }
  }

  lemma DrawnHasNoFeed(heading: Heading, rest: string)
    requires heading.Valid() && AsDrawn(heading, rest).Some?
    ensures FORM_FEED !in AsDrawn(heading, rest).value
  {
    if heading.OnTop() {
      NoFeedDrawn(heading, rest);
    } else {
      DrawnIsSomething(heading, rest);
      StripIsClear(Without(FORM_FEED, Closed(rest)));
      NoFeedBold(heading.lead, WordsOf(rest));
      RewritesAdd(heading.lead + Bold(WordsOf(rest)));
      RewritesAdd(PlusAsDash(heading.lead + Bold(WordsOf(rest))));
    }
  }

  lemma NoFeedBold(lead: string, words: string)
    requires (forall c <- lead :: OpeningChar(c)) && FORM_FEED !in words
    ensures FORM_FEED !in lead + Bold(words)
  {
  }

  lemma {:induction false} AnswerAt(s: State, lines: seq<string>, k: nat)
    requires k < |lines|
    ensures Answers(s, lines)[k] == Next(ReadAll(s, lines[..k]), lines[k]).1
    decreases lines
  {
    hide Next;
    if k > 0 {
      AnswerAt(Next(s, lines[0]).0, lines[1..], k - 1);
      assert lines[..k][1..] == lines[1..][..k - 1];
    } else {
      assert lines[..0] == [];
    }
  }

  lemma {:induction false} WholeCode(s: State, inCode: bool, lines: seq<string>, k: nat)
    requires k < |lines| && forall i :: 0 <= i < |lines| ==> FORM_FEED !in lines[i]
    ensures WholeImages(s, inCode, lines)[k].inCode == (inCode != Odd(FencesIn(Join(lines[..k]))))
    decreases k
  {
    hide Next, Said, Without, FencesIn, WholeImages, Join, Odd;
    FirstImage(s, inCode, lines);
    if k == 0 {
      assert lines[..0] == [];
      NothingJoined();
      NoneIsEven();
    } else {
      WithoutNone(FORM_FEED, lines[0]);
      var above := lines[..k];
      FencesOfJoin(above);
      assert above[1..] == lines[1..][..k - 1];
      NothingJoined();
      WholeCode(Next(s, lines[0]).0, inCode != Odd(FencesIn(Without(FORM_FEED, lines[0]))), lines[1..], k - 1);
      OddSum(FencesIn(lines[0]), FencesIn(Join(lines[1..][..k - 1])));
    }
  }

  lemma NothingJoined()
    ensures Join([]) == "" && FencesIn("") == 0
  {
  }

  lemma NothingStaysNothing()
    ensures Rewritten("", None) == ""
  {
    hide Said, Next, Split, FencesIn, Without, Kept, Answers, Rewritten, ImagesOf, LeftAlone;
    AnEmptyLineIsOne();
    ImagesAreOfTheLines("");
    WholeImagesOf("");
    var image := ImagesOf("", None)[0];
    if image.drawn.AHeading? {
      HeadingIsSomething(image.drawn.heading);
    }
    EmptyIsLeft(image);
    UnchangedExactly("");
  }

  lemma EmptyIsLeft(image: Image)
    requires image.line == "" && !image.drawn.AHeading?
    ensures LeftAlone(image)
  {
  }

  /** For every body without form feeds: a second pass changes nothing exactly when, reading the output,
      GitHub answers a heading for each line outside Discord's code that one was drawn on and for no other,
      and words for none that opens on a plus. */
  lemma SecondPassExactly(body: string)
    requires FORM_FEED !in body
    ensures var (kept, out) := (Kept(ImagesOf(body, None)), Rewritten(body, None));
            |kept| <= |Split(out)|
            && (Rewritten(out, None) == out
                <==> forall k :: 0 <= k < |kept| ==> AnsweredAgain(kept[k], Split(out)[k], Answers(FRESH, Split(out))[k]))
  {
    hide *;
    WholeFits(body);
    var kept, out := Kept(ImagesOf(body, None)), Rewritten(body, None);
    WholeFits(out);
    var lines, images := Split(out), ImagesOf(out, None);
    OutputIsSaid(body, None);
    if kept == [] {
      JoinOfSplit(out);
      JoinOfOne();
      NothingStaysNothing();
    } else {
      UnchangedExactly(out);
      ImagesAreOfTheLines(out);
      LinesOfTheOutput(kept);
      forall k | 0 <= k < |kept|
        ensures LeftAlone(images[k]) <==> AnsweredAgain(kept[k], lines[k], Answers(FRESH, lines)[k])
      {
        KeptLineExactly(body, k);
      }
    }
  }

  lemma WholeFits(body: string)
    ensures Fits(body, None)
  {
  }

  lemma LinesOfTheOutput(kept: seq<Image>)
    requires forall i :: 0 <= i < |kept| ==> kept[i].said.Some?
    ensures |Saids(kept)| == |kept|
  {
  }

  lemma KeptLineExactly(body: string, k: nat)
    requires FORM_FEED !in body && k < |Kept(ImagesOf(body, None))|
    ensures var (image, out) := (Kept(ImagesOf(body, None))[k], Rewritten(body, None));
            && k < |Split(out)| && k < |ImagesOf(out, None)|
            && (LeftAlone(ImagesOf(out, None)[k]) <==> AnsweredAgain(image, Split(out)[k], Answers(FRESH, Split(out))[k]))
  {
    hide *;
    WholeFits(body);
    var out := Rewritten(body, None);
    WholeFits(out);
    var lines, image := Split(out), Kept(ImagesOf(body, None))[k];
    OutputIsSaid(body, None);
    LinesOfTheOutput(Kept(ImagesOf(body, None)));
    KeptIsWhole(body, k);
    ImagesAreOfTheLines(out);
    WholeImagesOf(out);
    var again := ImagesOf(out, None)[k];
    EveryLineIsAccountedFor(out, k);
    AnswerAt(FRESH, lines, k);
    HeadingsWhereGitHubDrewThem(body, k);
    OutputHasNoFeed(body);
    WholeCode(FRESH, false, lines, k);
    OneLineExactly(image, again, ReadAll(FRESH, lines[..k]));
  }

  lemma KeptIsWhole(body: string, k: nat)
    requires FORM_FEED !in body && k < |Kept(ImagesOf(body, None))|
    ensures var image := Kept(ImagesOf(body, None))[k];
            Made(image) && Whole(image) && FORM_FEED !in image.line && image.said.Some?
  {
    hide *;
    WholeFits(body);
    KeptAreImages(ImagesOf(body, None));
    ImagesAreOfTheLines(body);
    WholeImagesOf(body);
    NoFeedInLines(body);
    var image := Kept(ImagesOf(body, None))[k];
    var j :| 0 <= j < |ImagesOf(body, None)| && ImagesOf(body, None)[j] == image;
  }

  lemma OutputHasNoFeed(body: string)
    requires FORM_FEED !in body
    ensures forall k :: 0 <= k < |Split(Rewritten(body, None))| ==> FORM_FEED !in Split(Rewritten(body, None))[k]
  {
    hide *;
    WholeFits(body);
    OutputIsSaid(body, None);
    var kept := Kept(ImagesOf(body, None));
    LinesOfTheOutput(kept);
    forall k | 0 <= k < |kept| ensures FORM_FEED !in Saids(kept)[k] {
      KeptIsWhole(body, k);
      SaidHasNoFeed(kept[k]);
    }
  }

  // ----- One that is not -----

  const WORDS: string := "a"
  const HASH: string := "#"
  const INDENTED: string := "    + y"

  const AFTER_WORDS: State := FRESH.(paragraph := true, header := WORDS)
  const AFTER_HASH: State := FRESH.(header := WORDS)

  lemma WordsAreRead()
    ensures Next(FRESH, WORDS) == (AFTER_WORDS, AsWords)
  {
    assert RunOf(OpeningChar, WORDS, 0) == 0 && RunOf(Space, WORDS, 0) == 0 && RunOf(Hash, WORDS, 0) == 0;
    assert RunOf(Digit, WORDS, 0) == 0;
    assert Columns(WORDS) == WORDS;
    assert BlankFrom(WORDS) == 1;
    assert Opened(WORDS, 0, false) == ([], 0);
    assert WordsFrom(WORDS, 0) == WORDS;
    NoHtml();
    assert StartAt(WORDS, 0, false, true, true) == Words;
  }

  lemma NoRoom(s: string, at: nat, name: string)
    requires at + |name| > |s|
    ensures !Html.AnyCaseAt(s, at, name)
  {
  }

  lemma NoHtml()
    ensures Html.Opens(WORDS) == None && !Html.TagAlone(WORDS) && OpeningFence(WORDS) == None
  {
    hide Html.AnyCaseAt, Html.TagEndsAt, Html.BlockTagAt, Html.RAW_TAGS, Html.BLOCK_TAGS;
    NoRoom(WORDS, 0, "<![CDATA[");
    assert WORDS[0..1] == WORDS;
  }

  lemma HashIsRead()
    ensures Next(AFTER_WORDS, HASH) == (AFTER_HASH, AHeading(Heading("", 1, HASH, 0, false)))
  {
    hide Html.Opens, Html.TagAlone, OpeningFence, Lead, Columns, ThematicBreak, MarkAt, SpacesAt, BlankFrom, WordsFrom;
    assert HASH[..0] == "" && HASH[0..] == HASH;
    assert HeadingAt(HASH, 1);
    TopHeadingIsFound(AFTER_WORDS, HASH, 0, 1);
    IndentedColumns(HASH, 0);
    NothingOpensThere(HASH, 0);
    NoContainers(AFTER_WORDS, HASH);
    assert Opened(HASH, 0, true) == ([], 0);
    RunIs(Hash, HASH, 0, 1);
    assert StartAt(HASH, 0, false, false, false) == StartsHeading(1);
  }

  lemma IndentedIsFour()
    ensures Columns(INDENTED) == INDENTED && BlankFrom(INDENTED) == 7 && SpacesAt(INDENTED, 0, 4)
    ensures Opened(INDENTED, 0, false) == ([], 0) && Opened(INDENTED, 0, true) == ([], 0)
  {
    RunIs(Space, INDENTED, 0, 4);
    RunIs(OpeningChar, INDENTED, 0, 6);
    assert INDENTED[..6] + INDENTED[6..] == INDENTED;
    assert Lead(INDENTED) == INDENTED[..6];
    NoTabsToLayOut(INDENTED[..6], 0);
    assert MarkAt(INDENTED, 0) == NoMark && !ThematicBreak(INDENTED, 0);
  }

  /** Behind a heading the line is code, behind a paragraph it is words carrying it on. */
  lemma IndentedIsRead()
    ensures Next(AFTER_HASH, INDENTED).1 == AsCode
    ensures Next(AFTER_WORDS, INDENTED).1 == AsWords
  {
    hide Columns, BlankFrom, SpacesAt, Opened, Lead, WordsFrom, Paragraph, ThematicBreak, HeadingAt, OpeningFence;
    hide Html.Opens, Html.TagAlone;
    IndentedIsFour();
    NoContainers(AFTER_HASH, INDENTED);
    NoContainers(AFTER_WORDS, INDENTED);
    assert StartAt(INDENTED, 0, false, true, true) == Code;
    assert StartAt(INDENTED, 0, false, false, false) == Words;
  }

  lemma NoFences()
    ensures FencesIn(WORDS) == 0 && FencesIn(HASH) == 0 && FencesIn(INDENTED) == 0
    ensures Without(FORM_FEED, WORDS) == WORDS && Without(FORM_FEED, HASH) == HASH
    ensures Without(FORM_FEED, INDENTED) == INDENTED
  {
    FenceNone(WORDS);
    FenceNone(HASH);
    FenceNone(INDENTED);
    WithoutNone(FORM_FEED, WORDS);
    WithoutNone(FORM_FEED, HASH);
    WithoutNone(FORM_FEED, INDENTED);
  }

  lemma NoPlus()
    ensures PlusAsDash(WORDS) == WORDS && PlusAsDash(INDENTED) != INDENTED
  {
    RunIs(Blank, INDENTED, 0, 4);
    RunIs(Blank, WORDS, 0, 0);
    assert PlusAsDash(INDENTED)[4] == '-';
  }

  lemma WhatIsSaid()
    ensures Said(AsWords, false, WORDS) == Some(WORDS)
    ensures Said(AHeading(Heading("", 1, HASH, 0, false)), false, HASH) == None
    ensures Said(AsCode, false, INDENTED) == Some(INDENTED)
  {
    hide WORDS, INDENTED, LooksLikeHeading, LooksLikeSubtext, PlusAsDash, FencesIn, Without, AsDrawn;
    NoFences();
    NoPlus();
    LooseEnds();
    NothingIsShown(Heading("", 1, HASH, 0, false));
    RewritesAdd(WORDS);
    RewritesAdd(INDENTED);
    hide NotAHeading, NotSubtext;
  }

  lemma LooseEnds()
    ensures !LooksLikeHeading(WORDS) && !LooksLikeSubtext(WORDS)
    ensures !LooksLikeHeading(INDENTED) && !LooksLikeSubtext(INDENTED)
  {
    assert LooseToken(WORDS, 0) == 0;
    assert LooseToken(INDENTED, 6) == 0 && LooseToken(INDENTED, 5) == 1 && LooseToken(INDENTED, 4) == 1;
    assert LooseEnd(INDENTED, 4) == 6;
    assert LooseEnd(INDENTED, 3) == 6;
    assert LooseEnd(INDENTED, 2) == 6;
    assert LooseEnd(INDENTED, 1) == 6;
    assert LooseEnd(INDENTED, 0) == 6;
    RunIs(Hash, INDENTED, 6, 0);
    RunIs(Hash, WORDS, 0, 0);
  }

  lemma LinesOfThree(a: string, b: string, c: string)
    requires '\n' !in a && '\n' !in b && '\n' !in c
    ensures Split(a + "\n" + (b + "\n" + c)) == [a, b, c]
    ensures Split(a + "\n" + c) == [a, c]
    ensures Join([a, c]) == a + "\n" + c
  {
    hide Split;
    SplitOneLine(c);
    SplitAtBreak(b, c);
    SplitAtBreak(a, b + "\n" + c);
    SplitAtBreak(a, c);
    assert [a, c][1..] == [c];
  }

  lemma Lines()
    ensures Split(WORDS + "\n" + (HASH + "\n" + INDENTED)) == [WORDS, HASH, INDENTED]
    ensures Split(WORDS + "\n" + INDENTED) == [WORDS, INDENTED]
    ensures Join([WORDS, INDENTED]) == WORDS + "\n" + INDENTED
  {
    hide Split, Join;
    LinesOfThree(WORDS, HASH, INDENTED);
  }

  /** How GitHub reads the three lines, and the two left of them. */
  lemma AnswersToBoth()
    ensures Answers(FRESH, [WORDS, HASH, INDENTED]) == [AsWords, AHeading(Heading("", 1, HASH, 0, false)), AsCode]
    ensures Answers(FRESH, [WORDS, INDENTED]) == [AsWords, AsWords]
  {
    hide Next, WORDS, HASH, INDENTED, AFTER_WORDS, AFTER_HASH;
    WordsAreRead();
    HashIsRead();
    IndentedIsRead();
    assert [WORDS, HASH, INDENTED][1..] == [HASH, INDENTED] && [HASH, INDENTED][1..] == [INDENTED];
    assert [WORDS, INDENTED][1..] == [INDENTED] && [INDENTED][1..] == [];
    assert Answers(AFTER_HASH, [INDENTED]) == [AsCode] && Answers(AFTER_WORDS, [INDENTED]) == [AsWords];
  }

  lemma {:induction false} ThreeImages(images: seq<Image>)
    requires |images| == 3 && images[0].said == Some(WORDS) && images[1].said == None && images[2].said == Some(INDENTED)
    ensures Saids(Kept(images)) == [WORDS, INDENTED]
  {
    hide WORDS, INDENTED;
    OutputOfFirst(images);
    OutputOfFirst(images[1..]);
    OutputOfFirst(images[2..]);
    assert images[1..][1..] == images[2..] && images[2..][1..] == [];
    NothingKept();
  }

  /** A body with no form feed that a second pass changes: once the heading with nothing in it is gone, the
      code behind it carries the paragraph on, and its plus sign is read as a bullet. */
  lemma ReadTwiceChangesMore()
    ensures var body := WORDS + "\n" + (HASH + "\n" + INDENTED);
            && FORM_FEED !in body
            && Rewritten(body, None) == WORDS + "\n" + INDENTED
            && Rewritten(Rewritten(body, None), None) != Rewritten(body, None)
  {
    hide WORDS, HASH, INDENTED, Split, Next, Said, Answers, FencesIn, Without, PlusAsDash, LooksLikeHeading, Kept, Saids;
    hide LooksLikeSubtext, ShownAfter, AsDrawn, Join, Rewritten, ImagesOf, Closed, Unseen, DiscordHasIt;
    var body, left := WORDS + "\n" + (HASH + "\n" + INDENTED), WORDS + "\n" + INDENTED;
    Lines();
    WhatIsSaid();
    NoFences();
    NoPlus();
    AnswersToBoth();
    NoFormFeed();
    var first, second := ImagesOf(body, None), ImagesOf(left, None);
    OutputIsSaid(body, None);
    EveryLineIsAccountedFor(body, 0);
    EveryLineIsAccountedFor(body, 1);
    EveryLineIsAccountedFor(body, 2);
    ThreeImages(first);
    JoinOfSplit(Rewritten(body, None));
    EveryLineIsAccountedFor(left, 0);
    EveryLineIsAccountedFor(left, 1);
    UnchangedExactly(left);
    assert !LeftAlone(second[1]);
  }

  lemma NoFormFeed()
    ensures FORM_FEED !in WORDS + "\n" + (HASH + "\n" + INDENTED)
  {
  }
}
