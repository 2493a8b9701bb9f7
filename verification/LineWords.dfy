/** What a reader reads of a line is what was written: the rewrites of a line lose none of its words. */
module LineWords {
  import opened Text
  import opened Drawn
  import opened LineRules
  import opened LineTheorems
  import Fences

  /** Everything but spaces, and the marks a rewrite may write, drop or swap. */
  predicate Word(c: char) {
    !Unseen(c) && c != '#' && c != '\\' && c != '*' && c != '+' && c != '-'
  }

  function Worded(s: string): string {
    if s == [] then [] else (if Word(s[0]) then [s[0]] else []) + Worded(s[1..])
  }

  lemma {:induction false} WordedAppend(a: string, b: string)
    ensures Worded(a + b) == Worded(a) + Worded(b)
  {
    hide Word;
    if a == [] {
      assert a + b == b;
    } else {
      assert (a + b)[0] == a[0] && (a + b)[1..] == a[1..] + b;
      WordedAppend(a[1..], b);
      var first := if Word(a[0]) then [a[0]] else [];
      assert first + (Worded(a[1..]) + Worded(b)) == first + Worded(a[1..]) + Worded(b);
    }
  }

  lemma {:induction false} NoWords(s: string)
    requires forall i :: 0 <= i < |s| ==> !Word(s[i])
    ensures Worded(s) == []
  {
    hide Word;
    if s != [] {
      NoWords(s[1..]);
    }
  }

  lemma MarksAreNoWords()
    ensures Worded("\\") == [] && Worded([ZERO_WIDTH_SPACE]) == [] && Worded("+") == [] && Worded("-") == []
    ensures Worded("**") == [] && Worded(" ") == [] && Worded("> ") == ">"
  {
    assert "**"[1..] == "*" && "*"[1..] == "" && "> "[1..] == " " && " "[1..] == "";
  }

  /** A mark put between two parts, or taken out, changes no word. */
  lemma WordedAround(a: string, mark: string, b: string)
    requires Worded(mark) == []
    ensures Worded(a + mark + b) == Worded(a) + Worded(b) == Worded(a + b)
  {
    WordedAppend(a + mark, b);
    WordedAppend(a, mark);
    WordedAppend(a, b);
  }

  lemma RewritesKeepWords(line: string)
    ensures Worded(NotAHeading(line)) == Worded(line)
    ensures Worded(NotSubtext(line)) == Worded(line)
    ensures Worded(PlusAsDash(line)) == Worded(line)
  {
    hide LooseEnd, HashesAt, Worded, Blank;
    MarksAreNoWords();
    var end, n := LooseEnd(line, 0), RunOf(Blank, line, 0);
    WordedAround(line[..end], "\\", line[end..]);
    assert line[..end] + line[end..] == line;
    if LooksLikeSubtext(line) {
      WordedAround(line[..end + 1], [ZERO_WIDTH_SPACE], line[end + 1..]);
      assert line[..end + 1] + line[end + 1..] == line;
    }
    if n + 1 < |line| && line[n] == '+' {
      WordedAround(line[..n], "+", line[n + 1..]);
      WordedAround(line[..n], "-", line[n + 1..]);
      assert line[..n] + "+" + line[n + 1..] == line;
    }
  }

  lemma {:induction false} WordedWithout(c: char, s: string)
    requires !Word(c)
    ensures Worded(Without(c, s)) == Worded(s)
  {
    hide Word;
    if s != [] {
      WordedWithout(c, s[1..]);
      if s[0] == c {
        assert [] + Without(c, s[1..]) == Without(c, s[1..]);
        assert [] + Worded(s[1..]) == Worded(s[1..]);
      } else {
        assert ([s[0]] + Without(c, s[1..]))[1..] == Without(c, s[1..]);
      }
    }
  }

  lemma StripKeepsWords(s: string)
    ensures Worded(Strip(DiscordSpace, s)) == Worded(s)
  {
    hide Worded;
    var front := DropFront(DiscordSpace, s);
    var back := DropBack(DiscordSpace, front);
    var gone, after := s[..|s| - |front|], front[|back|..];
    assert s == gone + front && front == back + after;
    SpacesAreNoWords(gone);
    SpacesAreNoWords(after);
    WordedAppend(gone, front);
    WordedAppend(back, after);
  }

  lemma SpacesAreNoWords(s: string)
    requires forall i :: 0 <= i < |s| ==> DiscordSpace(s[i])
    ensures Worded(s) == []
  {
    NoWords(s);
  }

  lemma ClosingHashesAreNoWords(rest: string)
    ensures Worded(Closed(rest)) == Worded(rest)
  {
    ClosedIsPrefix(rest);
    hide Worded, Closed;
    var kept := Closed(rest);
    var gone := rest[|kept|..];
    assert rest == kept + gone;
    forall i | 0 <= i < |gone| ensures !Word(gone[i]) {
      assert gone[i] == rest[|kept| + i];
    }
    NoWords(gone);
    WordedAppend(kept, gone);
  }

  lemma HeadingKeepsWords(rest: string)
    ensures Worded(WordsOf(rest)) == Worded(rest)
  {
    hide Worded, Closed, Strip;
    ClosingHashesAreNoWords(rest);
    WordedWithout(FORM_FEED, Closed(rest));
    StripKeepsWords(Without(FORM_FEED, Closed(rest)));
  }

  lemma LedKeepsWords(words: string)
    ensures Worded(Led(words)) == Worded(HeadingWords(words)) == Worded(Bold(words)) == Worded(words)
  {
    hide Worded;
    MarksAreNoWords();
    WordedAround("", "\\", words);
    assert "" + "\\" + words == "\\" + words && "" + words == words;
    if "-#" <= words {
      WordedAround("-", [ZERO_WIDTH_SPACE], words[1..]);
      assert "-" + words[1..] == words;
    }
    var led := Led(words);
    WordedAppend(led, [ZERO_WIDTH_SPACE]);
    WordedAppend("**" + led, "**");
    WordedAppend("**", led);
  }

  lemma HashesAreNoWords(n: nat)
    ensures Worded(Fences.Repeat('#', n)) == []
  {
    NoWords(Fences.Repeat('#', n));
  }

  /** A heading says its words, behind its own opening where Discord has no heading for it. */
  lemma DrawnKeepsWords(heading: Heading, rest: string)
    ensures AsDrawn(heading, rest).None? ==> Worded(rest) == []
    ensures AsDrawn(heading, rest).Some? ==>
              Worded(AsDrawn(heading, rest).value)
              == (if !heading.OnTop() then Worded(heading.lead) else if heading.quotes > 0 then ">" else "")
                 + Worded(rest)
  {
    hide Worded, WordsOf, Led, Bold, HeadingWords, NotAHeading, PlusAsDash;
    var words := WordsOf(rest);
    HeadingKeepsWords(rest);
    if Strip(Unseen, words) == [] {
      StripIsEmpty(Unseen, words);
      NoWords(words);
    } else if heading.OnTop() {
      MarksAreNoWords();
      LedKeepsWords(words);
      var quoted := if heading.quotes > 0 then "> " else "";
      var level := Min(heading.hashes, HEADING_LEVELS);
      HashesAreNoWords(level);
      WordedAppend(quoted + Fences.Repeat('#', level) + " ", HeadingWords(words));
      WordedAppend(quoted + Fences.Repeat('#', level), " ");
      WordedAppend(quoted, Fences.Repeat('#', level));
      NoWords("");
    } else {
      LedKeepsWords(words);
      WordedAppend(heading.lead, Bold(words));
      RewritesKeepWords(heading.lead + Bold(words));
      RewritesKeepWords(PlusAsDash(heading.lead + Bold(words)));
    }
  }

  /** No line loses a word: a heading Discord has says its words behind its marks, one it has not says
      them behind the opening it was written with, and every other line says all it did. */
  lemma SaidKeepsWords(drawn: Drawn, inCode: bool, line: string)
    ensures var said := Said(drawn, inCode, line);
            var asHeading := !inCode && drawn.AHeading? && ShownAfter(drawn.heading, line).Some?;
            if !asHeading then said.Some? && Worded(said.value) == Worded(line)
            else
              var rest := ShownAfter(drawn.heading, line).value;
              if said.None? then Worded(rest) == []
              else
                Worded(said.value)
                == (if !drawn.heading.OnTop() then Worded(drawn.heading.lead)
                    else if drawn.heading.quotes > 0 then ">" else "")
                   + Worded(rest)
  {
    hide Worded, AsDrawn, NotAHeading, NotSubtext, PlusAsDash, ShownAfter;
    if !inCode && drawn.AHeading? && ShownAfter(drawn.heading, line).Some? {
      var rest := ShownAfter(drawn.heading, line).value;
      DrawnKeepsWords(drawn.heading, rest);
      if AsDrawn(drawn.heading, rest).Some? {
        RewritesKeepWords(AsDrawn(drawn.heading, rest).value);
      }
    } else {
      assert !Word(FORM_FEED);
      var plain, dashed := Without(FORM_FEED, line), Without(FORM_FEED, PlusAsDash(line));
      WordedWithout(FORM_FEED, line);
      RewritesKeepWords(line);
      WordedWithout(FORM_FEED, PlusAsDash(line));
      RewritesKeepWords(plain);
      RewritesKeepWords(dashed);
      RewritesKeepWords(NotAHeading(plain));
      RewritesKeepWords(NotAHeading(dashed));
    }
  }
}
