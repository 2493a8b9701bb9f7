/** What a heading is drawn from and as, in characters: which hashes GitHub takes off its end, and which marks
    keep its words from being read as anything else. */
module HeadingTheorems {
  import opened Text
  import opened Fences
  import opened Drawn
  import opened LineRules
  import LineTheorems

  // ----- What closes a heading -----

  predicate Blanks(s: string) { forall i :: 0 <= i < |s| ==> s[i] == ' ' || s[i] == '\t' }

  /** A heading's words, the run of hashes that closes it, and the space behind that. */
  predicate ClosingRun(rest: string, words: string, run: string, tail: string) {
    && rest == words + run + tail && Blanks(tail)
    && run != [] && (forall i :: 0 <= i < |run| ==> run[i] == '#')
    && (words == [] || words[|words| - 1] == ' ' || words[|words| - 1] == '\t')
  }

  predicate HasClosingRun(rest: string) {
    exists n, m :: 0 <= n < m <= |rest| && ClosingRun(rest, rest[..n], rest[n..m], rest[m..])
  }

  /** What is in front of what a pattern drops, where that is known to end on something it keeps. */
  lemma DropBackIs(p: char -> bool, s: string, n: nat)
    requires n <= |s| && (n > 0 ==> !p(s[n - 1])) && forall i :: n <= i < |s| ==> p(s[i])
    ensures DropBack(p, s) == s[..n]
  {
    var r := DropBack(p, s);
    assert forall i :: 0 <= i < |r| ==> r[i] == s[i];
  }

  lemma RunInPlace(rest: string, words: string, run: string, tail: string)
    requires ClosingRun(rest, words, run, tail)
    ensures var (n, m) := (|words|, |words| + |run|);
            && n < m <= |rest| && rest[..n] == words && rest[..m][..n] == words
            && rest[m - 1] == '#' && (n > 0 ==> Blank(rest[n - 1]))
            && (forall i :: m <= i < |rest| ==> Blank(rest[i])) && forall i :: n <= i < m ==> rest[..m][i] == '#'
  {
    var m := |words| + |run|;
    assert forall i :: m <= i < |rest| ==> rest[i] == tail[i - m];
    assert forall i :: |words| <= i < m ==> rest[..m][i] == rest[i] == run[i - |words|];
  }

  lemma ClosedBeforeItsRun(rest: string, words: string, run: string, tail: string)
    requires ClosingRun(rest, words, run, tail)
    ensures Closed(rest) == words
  {
    hide ClosingRun, DropBack;
    var n, m := |words|, |words| + |run|;
    RunInPlace(rest, words, run, tail);
    DropBackIs(Blank, rest, m);
    DropBackIs(Hash, rest[..m], n);
  }

  lemma RunInParts(rest: string, n: nat, m: nat)
    requires n < m <= |rest| && (forall i :: n <= i < m ==> rest[i] == '#') && (forall i :: m <= i < |rest| ==> Blank(rest[i]))
    requires n > 0 ==> Blank(rest[n - 1])
    ensures HasClosingRun(rest)
  {
    assert rest == rest[..n] + rest[n..m] + rest[m..];
    assert ClosingRun(rest, rest[..n], rest[n..m], rest[m..]);
  }

  lemma ClosedHasARun(rest: string)
    requires Closed(rest) != DropBack(Blank, rest)
    ensures HasClosingRun(rest)
  {
    hide DropBack, HasClosingRun;
    var words := DropBack(Blank, rest);
    var bare := DropBack(Hash, words);
    var n, m := |bare|, |words|;
    assert forall i :: n <= i < m ==> words[i] == '#';
    assert forall i :: m <= i < |rest| ==> Blank(rest[i]);
    assert n > 0 ==> bare[n - 1] == rest[n - 1];
    RunInParts(rest, n, m);
  }

  // ----- What is drawn -----

  /** What is drawn of a heading from `words`: stripped of Discord's space and without form feeds, and
      nothing where nothing is visible of them. */
  function DrawnFrom(heading: Heading, words: string): Option<string> {
    var shown := Strip(DiscordSpace, Without(FORM_FEED, words));
    if forall i :: 0 <= i < |shown| ==> Unseen(shown[i]) then None
    else if heading.inAnItem || heading.quotes > 1 then Some(NotAHeading(PlusAsDash(heading.lead + Bold(shown))))
    else
      Some((if heading.quotes == 1 then "> " else "")
           + (if heading.hashes == 1 then "# " else if heading.hashes == 2 then "## " else "### ") + HeadingWords(shown))
  }

  lemma OpeningMarks(heading: Heading)
    requires heading.hashes > 0
    ensures Repeat('#', Min(heading.hashes, HEADING_LEVELS)) + " "
         == if heading.hashes == 1 then "# " else if heading.hashes == 2 then "## " else "### "
  {
  }

  lemma DrawnFromClosed(heading: Heading, rest: string)
    requires heading.hashes > 0
    ensures AsDrawn(heading, rest) == DrawnFrom(heading, Closed(rest))
  {
    hide Bold, HeadingWords, NotAHeading, PlusAsDash, Closed, Without, Strip, DiscordSpace, Unseen, Repeat, Min;
    LineTheorems.StripIsEmpty(Unseen, WordsOf(rest));
    OpeningMarks(heading);
    var level := Min(heading.hashes, HEADING_LEVELS);
    var quoted := if heading.quotes > 0 then "> " else "";
    assert quoted + Repeat('#', level) + " " == quoted + (Repeat('#', level) + " ");
  }

  /** A heading is drawn from what is in front of a closing run of hashes - one with a space or a tab in
      front of it, or nothing - and from all that was written, but for the space behind it, where there is
      no such run. */
  lemma DrawnExactly(heading: Heading, rest: string)
    requires heading.hashes > 0
    ensures forall words, run, tail :: ClosingRun(rest, words, run, tail) ==> AsDrawn(heading, rest) == DrawnFrom(heading, words)
    ensures !HasClosingRun(rest) ==>
              forall n :: 0 <= n <= |rest| && Blanks(rest[n..]) && (n > 0 ==> !Blank(rest[n - 1])) ==>
                AsDrawn(heading, rest) == DrawnFrom(heading, rest[..n])
  {
    hide AsDrawn, DrawnFrom, ClosingRun, HasClosingRun, Closed;
    DrawnFromClosed(heading, rest);
    forall words, run, tail | ClosingRun(rest, words, run, tail) ensures Closed(rest) == words {
      ClosedBeforeItsRun(rest, words, run, tail);
    }
    if !HasClosingRun(rest) {
      forall n | 0 <= n <= |rest| && Blanks(rest[n..]) && (n > 0 ==> !Blank(rest[n - 1]))
        ensures Closed(rest) == rest[..n]
      {
        assert forall i :: n <= i < |rest| ==> rest[i] == rest[n..][i - n];
        DropBackIs(Blank, rest, n);
        if Closed(rest) != DropBack(Blank, rest) { ClosedHasARun(rest); }
      }
    }
  }

  lemma CSharpHasNoRun()
    ensures !HasClosingRun("C#")
  {
    forall n, m | 0 <= n < m <= |"C#"| ensures !ClosingRun("C#", "C#"[..n], "C#"[n..m], "C#"[m..]) {
      assert n == 0 || n == 1;
      assert n == 0 ==> "C#"[n..m][0] == 'C';
      assert n == 1 ==> "C#"[..n] == "C";
    }
  }

  /** `# C#` is about C#. */
  lemma CSharpKeepsItsHash(heading: Heading)
    requires heading.hashes > 0
    ensures AsDrawn(heading, "C#") == DrawnFrom(heading, "C#")
  {
    hide AsDrawn, DrawnFrom, HasClosingRun;
    CSharpHasNoRun();
    var sharp := "C#";
    assert sharp[..2] == sharp && sharp[2..] == "" && sharp[2 - 1] == '#';
    DrawnExactly(heading, sharp);
  }

  // ----- The marks put into words -----

  /** Words that open on hashes get a backslash, small print is broken behind its dash, and closing hashes
      are kept by a zero-width space behind them; all other words are as they were. */
  lemma HeadingWordsExactly(words: string)
    ensures var (said, tail) := (HeadingWords(words), if words != [] && words[|words| - 1] == '#' then [ZERO_WIDTH_SPACE] else []);
            && (words != [] && words[0] == '#' ==> said == "\\" + words + tail)
            && (|words| > 1 && words[0] == '-' && words[1] == '#' ==> said == "-" + [ZERO_WIDTH_SPACE] + words[1..] + tail)
            && (words == [] || (words[0] != '#' && !(|words| > 1 && words[0] == '-' && words[1] == '#')) ==> said == words + tail)
  {
  }

  /** Words that hold bold, or end on a backslash that would escape the marks around them. */
  predicate HoldsBold(words: string) {
    (exists i :: 0 <= i < |words| - 1 && words[i] == '*' && words[i + 1] == '*') || (words != [] && words[|words| - 1] == '\\')
  }

  lemma BoldInside(words: string)
    ensures (exists i :: 0 <= i <= |words| && StartsAt(words, i, BOLD))
            <==> exists i :: 0 <= i < |words| - 1 && words[i] == '*' && words[i + 1] == '*'
  {
    forall i | 0 <= i < |words| - 1 ensures StartsAt(words, i, BOLD) <==> words[i] == '*' && words[i + 1] == '*' {}
    forall i | |words| - 1 <= i <= |words| && i >= 0 ensures !StartsAt(words, i, BOLD) {}
    hide StartsAt;
    if i :| 0 <= i < |words| - 1 && words[i] == '*' && words[i + 1] == '*' {
      assert StartsAt(words, i, BOLD);
    }
    if i :| 0 <= i <= |words| && StartsAt(words, i, BOLD) {
      assert i < |words| - 1 && words[i] == '*' && words[i + 1] == '*';
    }
  }

  /** A heading Discord has none for is bold, its words guarded as they would be outside it; words that hold
      bold of their own are only guarded. */
  lemma BoldExactly(words: string)
    ensures HoldsBold(words) ==> Bold(words) == Led(words)
    ensures !HoldsBold(words) ==> Bold(words) == "**" + Led(words) + "**"
    ensures words != [] && words[0] == '#' ==> Led(words) == "\\" + words
    ensures |words| > 1 && words[0] == '-' && words[1] == '#' ==> Led(words) == "-" + [ZERO_WIDTH_SPACE] + words[1..]
    ensures words == [] || (words[0] != '#' && !(|words| > 1 && words[0] == '-' && words[1] == '#')) ==> Led(words) == words
  {
    hide StartsAt;
    BoldInside(words);
  }

  /** A plus and a space behind spaces and tabs: the plus becomes a dash, and nothing else changes. */
  predicate PlusAt(line: string, n: nat) {
    && n + 1 < |line| && (forall i :: 0 <= i < n ==> line[i] == ' ' || line[i] == '\t')
    && line[n] == '+' && (line[n + 1] == ' ' || line[n + 1] == '\t')
  }

  lemma PlusAsDashExactly(line: string)
    ensures forall n: nat :: PlusAt(line, n) ==> PlusAsDash(line) == line[n := '-']
    ensures (forall n: nat :: !PlusAt(line, n)) ==> PlusAsDash(line) == line
  {
    forall n: nat | PlusAt(line, n) ensures PlusAsDash(line) == line[n := '-'] {
      RunIs(Blank, line, 0, n);
    }
    if PlusAsDash(line) != line {
      assert PlusAt(line, RunOf(Blank, line, 0));
    }
  }

  // ----- The loose opening -----

  /** One mark of a loose opening, `n` long: a space or a quote mark, or a list mark with a space behind it. */
  predicate TokenAt(s: string, at: nat, n: nat) {
    && 0 < n && at + n <= |s|
    && ( || (n == 1 && (LooseSpace(s[at]) || s[at] == '>'))
         || (at + n < |s| && LooseSpace(s[at + n])
             && ( || (n == 1 && (s[at] == '-' || s[at] == '*' || s[at] == '+'))
                  || (2 <= n <= 10 && (forall i :: at <= i < at + n - 1 ==> '0' <= s[i] <= '9')
                      && (s[at + n - 1] == '.' || s[at + n - 1] == ')')))))
  }

  lemma TokensExactly(s: string, at: nat, n: nat)
    requires at <= |s|
    ensures n > 0 ==> (LooseToken(s, at) == n <==> TokenAt(s, at, n))
  {
    hide PythonSpace;
    if n > 1 && TokenAt(s, at, n) {
      assert Digit(s[at]);
      RunIs(Digit, s, at, n - 1);
      NoDigitIsLoose(s[at]);
    }
  }

  lemma NoDigitIsLoose(c: char)
    requires Digit(c)
    ensures !LooseSpace(c) && c != '>' && !Bullet(c)
  {
  }

  /** Where marks one behind the other lead from `at`. */
  predicate MarksLead(s: string, at: nat, tokens: seq<nat>, to: nat)
    decreases |tokens|
  {
    if tokens == [] then at == to
    else TokenAt(s, at, tokens[0]) && MarksLead(s, at + tokens[0], tokens[1..], to)
  }

  /** One to three hashes, and Discord's space or the end of the line behind them. */
  predicate HashesExactly(s: string, at: nat, n: nat) {
    && 1 <= n <= 3 && at + n <= |s| && (forall i :: at <= i < at + n ==> s[i] == '#')
    && (at + n < |s| ==> DiscordSpace(s[at + n]))
  }

  lemma HashesAreCounted(s: string, at: nat)
    requires at <= |s|
    ensures HashesAt(s, at) <==> exists n :: HashesExactly(s, at, n)
    ensures HashesAt(s, at) ==> at < |s| && s[at] == '#'
  {
    hide DiscordSpace;
    if n :| HashesExactly(s, at, n) {
      assert !DiscordSpace('#') by { HashIsNoSpace(); }
      RunIs(Hash, s, at, n);
    }
    if HashesAt(s, at) {
      assert HashesExactly(s, at, RunOf(Hash, s, at));
    }
  }

  lemma HashIsNoSpace()
    ensures !DiscordSpace('#') && !LooseSpace('#') && !LooseSpace('-')
  {
  }

  lemma NoTokenAtAHash(s: string, at: nat, n: nat)
    requires at < |s| && (s[at] == '#' || (s[at] == '-' && at + 1 < |s| && s[at + 1] == '#'))
    ensures !TokenAt(s, at, n)
  {
    HashIsNoSpace();
    hide PythonSpace;
  }

  lemma {:induction false} MarksLeadToTheEnd(s: string, at: nat, tokens: seq<nat>, to: nat)
    requires at <= |s| && MarksLead(s, at, tokens, to) && to <= |s| && LooseToken(s, to) == 0
    ensures LooseEnd(s, at) == to
    decreases |tokens|
  {
    hide LooseToken, TokenAt;
    if tokens != [] {
      TokenFits(s, at, tokens[0]);
      TokensExactly(s, at, tokens[0]);
      MarksLeadToTheEnd(s, at + tokens[0], tokens[1..], to);
    }
  }

  lemma TokenFits(s: string, at: nat, n: nat)
    requires TokenAt(s, at, n)
    ensures 0 < n && at + n <= |s|
  {
  }

  lemma {:induction false} LooseEndIsLedTo(s: string, at: nat) returns (tokens: seq<nat>)
    requires at <= |s|
    ensures MarksLead(s, at, tokens, LooseEnd(s, at))
    decreases |s| - at
  {
    hide LooseToken, TokenAt;
    var n := LooseToken(s, at);
    if n == 0 {
      tokens := [];
    } else {
      TokensExactly(s, at, n);
      var rest := LooseEndIsLedTo(s, at + n);
      tokens := [n] + rest;
      assert tokens[1..] == rest;
    }
  }

  /** A line looks like a heading if and only if marks one behind the other lead to its hashes. */
  ghost predicate LedToAHeading(line: string, tokens: seq<nat>, at: nat, hashes: nat) {
    MarksLead(line, 0, tokens, at) && HashesExactly(line, at, hashes)
  }

  lemma LooksLikeHeadingExactly(line: string)
    ensures LooksLikeHeading(line) <==> exists tokens, at, hashes :: LedToAHeading(line, tokens, at, hashes)
  {
    hide MarksLead, HashesExactly, HashesAt, LooseEnd;
    var end := LooseEnd(line, 0);
    HashesAreCounted(line, end);
    if LooksLikeHeading(line) {
      var tokens := LooseEndIsLedTo(line, 0);
      var n :| HashesExactly(line, end, n);
      assert LedToAHeading(line, tokens, end, n);
    }
    if tokens, at: nat, hashes: nat :| LedToAHeading(line, tokens, at, hashes) {
      NoMarkAtHashes(line, at, hashes);
      MarksLeadToTheEnd(line, 0, tokens, at);
    }
  }

  lemma NoMarkAtHashes(s: string, at: nat, n: nat)
    requires HashesExactly(s, at, n)
    ensures at <= |s| && LooseToken(s, at) == 0
  {
    var m := LooseToken(s, at);
    NoTokenAtAHash(s, at, m);
    TokensExactly(s, at, m);
  }

  /** And like small print if and only if they lead to a dash and a hash. */
  lemma LooksLikeSubtextExactly(line: string)
    ensures LooksLikeSubtext(line)
            <==> exists tokens, at: nat :: MarksLead(line, 0, tokens, at) && at + 1 < |line| && line[at] == '-' && line[at + 1] == '#'
  {
    hide MarksLead, LooseEnd;
    if LooksLikeSubtext(line) {
      var tokens := LooseEndIsLedTo(line, 0);
    }
    if tokens, at: nat :| MarksLead(line, 0, tokens, at) && at + 1 < |line| && line[at] == '-' && line[at + 1] == '#' {
      var m := LooseToken(line, at);
      NoTokenAtAHash(line, at, m);
      TokensExactly(line, at, m);
      MarksLeadToTheEnd(line, 0, tokens, at);
    }
  }

  // ----- What is shown behind an opening -----

  /** What is shown of a heading is what stands behind its opening, its hashes and the space behind them, where
      the line opens on those; and nothing, of a heading of hashes alone. */
  lemma ShownAfterExactly(heading: Heading, line: string, rest: string)
    requires heading.Valid()
    ensures heading.hashes < |heading.words| ==>
              var opening := heading.lead + heading.words[..heading.hashes] + [heading.words[heading.hashes]];
              && (ShownAfter(heading, line) == Some(rest) <==> line == opening + rest)
              && (ShownAfter(heading, line) == None <==> !(opening <= line))
    ensures heading.hashes == |heading.words| ==> ShownAfter(heading, line) == Some("")
    ensures heading.hashes < |heading.words| ==>
              ShownAfter(heading, heading.lead + heading.words) == Some(heading.words[heading.hashes + 1..])
  {
    if heading.hashes < |heading.words| {
      var opening := heading.lead + heading.words[..heading.hashes + 1];
      assert opening == heading.lead + heading.words[..heading.hashes] + [heading.words[heading.hashes]];
      assert opening <= line ==> line == opening + line[|opening|..];
      assert (opening + rest)[|opening|..] == rest;
      assert heading.words == heading.words[..heading.hashes + 1] + heading.words[heading.hashes + 1..];
      assert heading.lead + heading.words == opening + heading.words[heading.hashes + 1..];
    }
  }
}
