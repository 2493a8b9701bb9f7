/** What the rewrites of one line guarantee: Discord's headings, its small print and its fences. */
module LineTheorems {
  import opened Text
  import opened Fences
  import opened Drawn
  import opened LineRules

  // ----- What is visible -----

  lemma {:induction false} StripIsEmpty(p: char -> bool, s: string)
    ensures Strip(p, s) == [] <==> forall i :: 0 <= i < |s| ==> p(s[i])
  {
    var front := DropFront(p, s);
    if front != [] {
      assert front[0] == s[|s| - |front|];
    }
  }

  lemma {:induction false} InStrip(p: char -> bool, s: string, x: char)
    requires !p(x)
    ensures x in Strip(p, s) <==> x in s
  {
    var front := DropFront(p, s);
    if x in s {
      var i :| 0 <= i < |s| && s[i] == x;
      assert i >= |s| - |front|;
      assert front[i - (|s| - |front|)] == x;
    }
  }

  lemma {:induction false} InWithout(c: char, s: string, x: char)
    requires x != c
    ensures x in Without(c, s) <==> x in s
  {
    if s != [] {
      InWithout(c, s[1..], x);
    }
  }

  /** A heading is dropped exactly when nothing a reader would see is left of it. */
  lemma {:induction false} DroppedWhenUnseen(heading: Heading, rest: string)
    ensures AsDrawn(heading, rest).None? <==> forall c <- Closed(rest) :: Unseen(c)
  {
    var words := WordsOf(rest);
    StripIsEmpty(Unseen, words);
    forall c | !Unseen(c)
      ensures c in words <==> c in Closed(rest)
    {
      InStrip(DiscordSpace, Without(FORM_FEED, Closed(rest)), c);
      InWithout(FORM_FEED, Closed(rest), c);
    }
  }

  // ----- Headings -----

  lemma HashLevel(s: string, at: nat, level: nat)
    requires 1 <= level <= 3 && at + level + 1 < |s|
    requires forall i :: at <= i < at + level ==> s[i] == '#'
    requires s[at + level] == ' '
    requires s[at + level + 1] != '#' && !DiscordSpace(s[at + level + 1])
    ensures HashesAt(s, at) && LevelAt(s, at) == level
  {
    assert RunOf(Hash, s, at) == level;
    assert RunOf(DiscordSpace, s, at + level) == 1;
    assert RunOf(Hash, s, at + level + 1) == 0;
  }

  lemma LedOpens(words: string)
    requires words != [] && !DiscordSpace(words[0])
    ensures var led := HeadingWords(words); led != [] && led[0] != '#' && !DiscordSpace(led[0])
  {
  }

  lemma TopLevel(quoted: string, level: nat, words: string, tail: string)
    requires quoted == "" || quoted == "> "
    requires 1 <= level <= 3 && words != [] && words[0] != '#' && !DiscordSpace(words[0])
    ensures DiscordLevel(quoted + Repeat('#', level) + " " + words + tail) == level
    ensures HashesAt(quoted + Repeat('#', level) + " " + words + tail, |quoted|)
  {
    var said := quoted + Repeat('#', level) + " " + words + tail;
    assert said[|quoted| + level + 1] == words[0];
    HashLevel(said, |quoted|, level);
    assert RunOf(Blank, said, 0) == 0;
    if quoted != "" {
      assert said[0] == '>' && said[1] == ' ' && said[2] == '#';
      assert RunOf(IsMark, said, 0) == 1;
      assert RunOf(Blank, said, 1) == 1;
      assert RunOf(Hash, said, 0) == 0;
    }
  }

  lemma {:induction false} TopLine(quoted: string, level: nat, words: string, tail: string)
    requires quoted == "" || quoted == "> "
    requires 1 <= level <= 3 && words != [] && words[0] != '#' && !DiscordSpace(words[0])
    ensures var said := quoted + Repeat('#', level) + " " + words;
            LooksLikeHeading(said) && DiscordLevel(said + tail) == level
  {
    hide HashesAt, DiscordLevel, LooseEnd, DiscordSpace;
    var said := quoted + Repeat('#', level) + " " + words;
    TopLevel(quoted, level, words, "");
    TopLevel(quoted, level, words, tail);
    assert said + "" == said;
    OverMarks(said, 0, |quoted|);
  }

  /** A heading outside every item and at most one quote deep is drawn at its own level, or the
      third, whatever follows it. */
  lemma {:induction false} DrawnAtItsLevel(heading: Heading, rest: string, tail: string)
    requires heading.Valid() && heading.OnTop() && AsDrawn(heading, rest).Some?
    ensures var said := AsDrawn(heading, rest).value;
            && DiscordLevel(said + tail) == Min(heading.hashes, HEADING_LEVELS)
            && LooksLikeHeading(said)
  {
    var words := WordsOf(rest);
    assert words != [];
    LedOpens(words);
    TopLine(if heading.quotes > 0 then "> " else "", Min(heading.hashes, HEADING_LEVELS), HeadingWords(words), tail);
  }

  lemma {:induction false} NoneInAnItem(heading: Heading, rest: string)
    requires !heading.OnTop() && AsDrawn(heading, rest).Some?
    ensures !LooksLikeHeading(AsDrawn(heading, rest).value)
  {
    NotAHeadingIsNone(PlusAsDash(heading.lead + Bold(WordsOf(rest))));
  }

  /** A reader was shown a heading by GitHub that Discord has a heading for. */
  predicate Shows(drawn: Drawn, line: string) {
    && drawn.AHeading? && drawn.heading.OnTop()
    && ShownAfter(drawn.heading, line).Some?
    && exists c <- Closed(ShownAfter(drawn.heading, line).value) :: !Unseen(c)
  }

  /** Outside Discord's code, a line looks like a heading exactly where GitHub drew one Discord has,
      and then at GitHub's level or the third, whatever lines follow; and no line anywhere is small print. */
  lemma {:induction false} SaidReads(drawn: Drawn, inCode: bool, line: string, tail: string)
    requires Follows(tail) && (drawn.AHeading? ==> drawn.heading.Valid())
    ensures var said := Said(drawn, inCode, line);
            && (said.Some? ==> !LooksLikeSubtext(said.value))
            && (!inCode && said.Some? ==> (LooksLikeHeading(said.value) <==> Shows(drawn, line)))
            && (!inCode && said.Some? ==>
                  DiscordLevel(said.value + tail)
                  == if Shows(drawn, line) then Min(drawn.heading.hashes, HEADING_LEVELS) else 0)
            && (said.None? <==> !inCode && drawn.AHeading? && ShownAfter(drawn.heading, line).Some?
                                && forall c <- Closed(ShownAfter(drawn.heading, line).value) :: Unseen(c))
  {
    if !inCode && drawn.AHeading? && ShownAfter(drawn.heading, line).Some? {
      var rest := ShownAfter(drawn.heading, line).value;
      DroppedWhenUnseen(drawn.heading, rest);
      if AsDrawn(drawn.heading, rest).Some? {
        if drawn.heading.OnTop() {
          DrawnAtItsLevel(drawn.heading, rest, tail);
        } else {
          NoneInAnItem(drawn.heading, rest);
        }
        NotSubtextIsNone(AsDrawn(drawn.heading, rest).value);
      }
    } else {
      NotAHeadingIsNone(Without(FORM_FEED, PlusAsDash(line)));
      NotAHeadingIsNone(Without(FORM_FEED, line));
      NotSubtextIsNone(NotAHeading(Without(FORM_FEED, PlusAsDash(line))));
      NotSubtextIsNone(NotAHeading(Without(FORM_FEED, line)));
      NotSubtextIsNone(Without(FORM_FEED, line));
    }
    var said := Said(drawn, inCode, line);
    if said.Some? {
      DiscordHeadingsLookAlike(said.value, tail);
    }
  }

  // ----- Fences -----

  lemma {:induction false} NotAHeadingKeepsFences(line: string)
    ensures FencesIn(NotAHeading(line)) == FencesIn(line)
  {
    var end := LooseEnd(line, 0);
    if HashesAt(line, end) {
      FenceInsert(line[..end], "\\", line[end..]);
      assert line[..end] + line[end..] == line;
    }
  }

  lemma {:induction false} NotSubtextKeepsFences(line: string)
    ensures FencesIn(NotSubtext(line)) == FencesIn(line)
  {
    if LooksLikeSubtext(line) {
      var end := LooseEnd(line, 0) + 1;
      FenceInsert(line[..end], [ZERO_WIDTH_SPACE], line[end..]);
      assert line[..end] + line[end..] == line;
    }
  }

  lemma {:induction false} FedMiddle(a: string, c: char, b: string)
    requires c != FORM_FEED
    ensures Without(FORM_FEED, a + [c] + b) == Without(FORM_FEED, a) + [c] + Without(FORM_FEED, b)
  {
    WithoutAppend(FORM_FEED, a + [c], b);
    WithoutAppend(FORM_FEED, a, [c]);
  }

  lemma {:induction false} FedPlusKeepsFences(line: string)
    ensures FencesIn(Without(FORM_FEED, PlusAsDash(line))) == FencesIn(Without(FORM_FEED, line))
  {
    var n := RunOf(Blank, line, 0);
    if n + 1 < |line| && line[n] == '+' && Blank(line[n + 1]) {
      var before, after := line[..n], line[n + 1..];
      assert line == before + "+" + after;
      var a, b := Without(FORM_FEED, before), Without(FORM_FEED, after);
      FedMiddle(before, '+', after);
      FedMiddle(before, '-', after);
      assert b[0] == after[0];
      FenceInsert(a, "+", b);
      FenceInsert(a, "-", b);
    }
  }

  lemma {:induction false} PlusKeepsFences(line: string)
    ensures FencesIn(PlusAsDash(line)) == FencesIn(line)
  {
    hide FencesIn;
    var n := RunOf(Blank, line, 0);
    if n + 1 < |line| && line[n] == '+' && Blank(line[n + 1]) {
      assert line == line[..n] + "+" + line[n + 1..];
      FenceInsert(line[..n], "+", line[n + 1..]);
      FenceInsert(line[..n], "-", line[n + 1..]);
    }
  }

  lemma SpacesHoldNoFence(s: string)
    requires forall i :: 0 <= i < |s| ==> DiscordSpace(s[i])
    ensures FencesIn(s) == 0 && '`' !in s
  {
    FenceNone(s);
  }

  lemma StripKeepsFences(s: string)
    ensures FencesIn(Strip(DiscordSpace, s)) == FencesIn(s)
  {
    hide FencesIn, DiscordSpace;
    var front := DropFront(DiscordSpace, s);
    var back := DropBack(DiscordSpace, front);
    var gone, after := s[..|s| - |front|], front[|back|..];
    assert s == gone + front && front == back + after;
    forall i | 0 <= i < |gone| ensures DiscordSpace(gone[i]) {
      assert gone[i] == s[i];
    }
    forall i | 0 <= i < |after| ensures DiscordSpace(after[i]) {
      assert after[i] == front[|back| + i];
    }
    SpacesHoldNoFence(gone);
    SpacesHoldNoFence(after);
    FenceSeam(gone, front);
    FenceSeam(back, after);
  }

  lemma {:induction false} ClosedIsPrefix(rest: string)
    ensures Closed(rest) <= rest
    ensures forall i :: |Closed(rest)| <= i < |rest| ==> Blank(rest[i]) || rest[i] == '#'
  {
    var words := DropBack(Blank, rest);
    assert forall i :: 0 <= i < |words| ==> words[i] == rest[i];
  }

  /** Nothing a heading loses off its end held a fence. */
  lemma {:induction false} WordsKeepFences(rest: string)
    ensures FencesIn(WordsOf(rest)) == FencesIn(Without(FORM_FEED, rest))
  {
    ClosedIsPrefix(rest);
    var kept := Closed(rest);
    var gone := rest[|kept|..];
    assert rest == kept + gone;
    WithoutAppend(FORM_FEED, kept, gone);
    var fed := Without(FORM_FEED, gone);
    assert '`' !in fed;
    FenceNone(fed);
    FenceSeam(Without(FORM_FEED, kept), fed);
    StripKeepsFences(Without(FORM_FEED, kept));
  }

  lemma LedOnlyKeepsFences(words: string)
    ensures FencesIn(Led(words)) == FencesIn(words)
  {
    hide FencesIn;
    if "#" <= words {
      FenceInsert("", "\\", words);
      assert "" + "\\" + words == Led(words) && "" + words == words;
    } else if "-#" <= words {
      FenceInsert("-", [ZERO_WIDTH_SPACE], words[1..]);
      assert words == "-" + words[1..];
    }
  }

  lemma LedKeepsFences(words: string)
    ensures FencesIn(Led(words)) == FencesIn(words) == FencesIn(HeadingWords(words))
  {
    hide FencesIn, Led;
    LedOnlyKeepsFences(words);
    FenceNone([ZERO_WIDTH_SPACE]);
    FenceSeam(Led(words), [ZERO_WIDTH_SPACE]);
  }

  lemma {:induction false} BoldKeepsFences(words: string)
    ensures FencesIn(Bold(words)) == FencesIn(words)
  {
    LedKeepsFences(words);
    FenceNone(BOLD);
    FenceSeam(BOLD, Led(words));
    FenceSeam(BOLD + Led(words), BOLD);
  }

  lemma {:induction false} TopKeepsFences(quoted: string, level: nat, words: string)
    requires '`' !in quoted
    ensures FencesIn(quoted + Repeat('#', level) + " " + HeadingWords(words)) == FencesIn(words)
  {
    var opening := quoted + Repeat('#', level) + " ";
    FenceNone(opening);
    FenceSeam(opening, HeadingWords(words));
    LedKeepsFences(words);
  }

  lemma {:induction false} ItemKeepsFences(lead: string, words: string)
    requires forall c <- lead :: OpeningChar(c)
    ensures FencesIn(NotAHeading(PlusAsDash(lead + Bold(words)))) == FencesIn(words)
  {
    BoldKeepsFences(words);
    FenceNone(lead);
    FenceSeam(lead, Bold(words));
    PlusKeepsFences(lead + Bold(words));
    NotAHeadingKeepsFences(PlusAsDash(lead + Bold(words)));
  }

  lemma {:induction false} UnseenHasNoFence(words: string)
    requires Strip(Unseen, words) == []
    ensures FencesIn(words) == 0
  {
    StripIsEmpty(Unseen, words);
    FenceNone(words);
  }

  lemma {:induction false} AsDrawnKeepsFences(heading: Heading, rest: string)
    requires heading.Valid()
    ensures var said := AsDrawn(heading, rest);
            FencesIn(Without(FORM_FEED, rest)) == if said.Some? then FencesIn(said.value) else 0
  {
    WordsKeepFences(rest);
    if AsDrawn(heading, rest).None? {
      UnseenHasNoFence(WordsOf(rest));
    } else if heading.OnTop() {
      TopKeepsFences(if heading.quotes > 0 then "> " else "", Min(heading.hashes, HEADING_LEVELS), WordsOf(rest));
    } else {
      ItemKeepsFences(heading.lead, WordsOf(rest));
    }
  }

  lemma {:induction false} ShownAfterKeepsFences(heading: Heading, line: string)
    requires heading.Valid() && heading.hashes < |heading.words| && ShownAfter(heading, line).Some?
    ensures FencesIn(Without(FORM_FEED, ShownAfter(heading, line).value)) == FencesIn(Without(FORM_FEED, line))
  {
    var opening := heading.lead + heading.words[..heading.hashes + 1];
    var rest := line[|opening|..];
    assert line == opening + rest;
    assert '`' !in opening;
    WithoutAppend(FORM_FEED, opening, rest);
    FenceNone(Without(FORM_FEED, opening));
    var fed := Without(FORM_FEED, opening);
    assert opening == opening[..|opening| - 1] + [opening[|opening| - 1]];
    FenceSeam(fed, Without(FORM_FEED, rest));
  }

  /** A heading of hashes alone, of which nothing is shown whatever stands on the line. */
  predicate OfHashesAlone(drawn: Drawn) {
    drawn.AHeading? && drawn.heading.hashes >= |drawn.heading.words|
  }

  /** A shown line keeps its fences and a dropped one held none, but where GitHub drew the line it opens
      on as a heading of hashes alone and there is a fence on what is shown of it. */
  lemma {:induction false} SaidKeepsFences(drawn: Drawn, inCode: bool, line: string)
    requires drawn.AHeading? ==> drawn.heading.Valid()
    ensures var said := Said(drawn, inCode, line);
            FencesIn(Without(FORM_FEED, line)) == (if said.Some? then FencesIn(said.value) else 0)
            <==> inCode || !OfHashesAlone(drawn) || FencesIn(Without(FORM_FEED, line)) == 0
  {
    if !inCode && OfHashesAlone(drawn) {
      NothingIsShown(drawn.heading);
    } else if !inCode && drawn.AHeading? && ShownAfter(drawn.heading, line).Some? {
      var rest := ShownAfter(drawn.heading, line).value;
      AsDrawnKeepsFences(drawn.heading, rest);
      ShownAfterKeepsFences(drawn.heading, line);
      if AsDrawn(drawn.heading, rest).Some? {
        NotSubtextKeepsFences(AsDrawn(drawn.heading, rest).value);
      }
    } else {
      FedPlusKeepsFences(line);
      NotAHeadingKeepsFences(Without(FORM_FEED, PlusAsDash(line)));
      NotAHeadingKeepsFences(Without(FORM_FEED, line));
      NotSubtextKeepsFences(NotAHeading(Without(FORM_FEED, PlusAsDash(line))));
      NotSubtextKeepsFences(NotAHeading(Without(FORM_FEED, line)));
      NotSubtextKeepsFences(Without(FORM_FEED, line));
    }
  }

  lemma NothingIsShown(heading: Heading)
    ensures AsDrawn(heading, "").None?
  {
    DroppedWhenUnseen(heading, "");
  }
}
