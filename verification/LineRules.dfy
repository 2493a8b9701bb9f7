/** What is done to one line: how Discord would read its opening, and how that is changed. */
module LineRules {
  import opened Text
  import opened Fences
  import opened Drawn

  const HEADING_LEVELS: nat := 3

  // ----- How Discord reads the opening of a line -----

  predicate LooseSpace(c: char) { PythonSpace(c) && c != '\n' }

  predicate Bullet(c: char) { c == '-' || c == '*' || c == '+' }

  /** The length of the one quote mark, list mark or space at `at`, read loosely; none is nought. */
  function LooseToken(s: string, at: nat): (n: nat)
    requires at <= |s|
    ensures at + n <= |s|
  {
    if at == |s| then 0
    else if LooseSpace(s[at]) || s[at] == '>' then 1
    else if Bullet(s[at]) then if at + 1 < |s| && LooseSpace(s[at + 1]) then 1 else 0
    else
      var d := RunOf(Digit, s, at);
      if 1 <= d <= 9 && at + d + 1 < |s| && (s[at + d] == '.' || s[at + d] == ')') && LooseSpace(s[at + d + 1])
      then d + 1 else 0
  }

  function LooseEnd(s: string, at: nat): (end: nat)
    requires at <= |s|
    ensures at <= end <= |s|
    ensures LooseToken(s, end) == 0
    decreases |s| - at
  {
    var n := LooseToken(s, at);
    if n == 0 then at else LooseEnd(s, at + n)
  }

  /** One to three hashes and then Discord's whitespace, or nothing. */
  predicate HashesAt(s: string, at: nat)
    requires at <= |s|
  {
    var n := RunOf(Hash, s, at);
    1 <= n <= 3 && (at + n < |s| ==> DiscordSpace(s[at + n]))
  }

  /** A line Discord could draw as a heading, whatever quote and list marks it opens with. */
  predicate LooksLikeHeading(s: string) { HashesAt(s, LooseEnd(s, 0)) }

  /** A line Discord could read as its small print. */
  predicate LooksLikeSubtext(s: string) {
    var at := LooseEnd(s, 0);
    at + 1 < |s| && s[at] == '-' && s[at + 1] == '#'
  }

  predicate IsMark(c: char) { c == '>' }

  /** The level Discord's own rule reads at `at`: hashes, whitespace, and words on the same line that
      do not open on hashes of their own. Nought for no heading. */
  function LevelAt(s: string, at: nat): nat
    requires at <= |s|
  {
    var n := RunOf(Hash, s, at);
    if 1 <= n <= 3 && at + n < |s| && DiscordSpace(s[at + n]) then
      var words := at + n + RunOf(DiscordSpace, s, at + n);
      var more := RunOf(Hash, s, words);
      if words < |s| && !(1 <= more <= 3 && words + more < |s| && DiscordSpace(s[words + more])) then n else 0
    else 0
  }

  /** The level Discord draws a line at, behind spaces or one quote; nought where it draws none. */
  function DiscordLevel(s: string): nat {
    var at := RunOf(Blank, s, 0);
    var marks := RunOf(IsMark, s, at);
    var past := at + marks + RunOf(Blank, s, at + marks);
    if LevelAt(s, at) > 0 then LevelAt(s, at)
    else if (marks == 1 || marks == 3) && past > at + marks then LevelAt(s, past)
    else 0
  }

  // ----- The rewrites -----

  /** A backslash before a hash Discord would otherwise draw as a heading. */
  function NotAHeading(line: string): string {
    var end := LooseEnd(line, 0);
    if HashesAt(line, end) then line[..end] + "\\" + line[end..] else line
  }

  function NotSubtext(line: string): string {
    if LooksLikeSubtext(line) then
      var end := LooseEnd(line, 0) + 1;
      line[..end] + [ZERO_WIDTH_SPACE] + line[end..]
    else line
  }

  /** GitHub's `+` bullet as one Discord reads as well. */
  function PlusAsDash(line: string): string {
    var n := RunOf(Blank, line, 0);
    if n + 1 < |line| && line[n] == '+' && Blank(line[n + 1]) then line[..n] + "-" + line[n + 1..] else line
  }

  /** A heading's words without the closing run of hashes GitHub takes off the end. */
  function Closed(rest: string): string {
    var words := DropBack(Blank, rest);
    var bare := DropBack(Hash, words);
    if bare != words && (bare == [] || Blank(bare[|bare| - 1])) then bare else words
  }

  function Led(words: string): string {
    if "#" <= words then "\\" + words
    else if "-#" <= words then "-" + [ZERO_WIDTH_SPACE] + words[1..]
    else words
  }

  predicate EndsWith(s: string, c: char) { s != [] && s[|s| - 1] == c }

  function HeadingWords(words: string): string {
    var led := Led(words);
    if EndsWith(led, '#') then led + [ZERO_WIDTH_SPACE] else led
  }

  function Bold(words: string): string {
    if (exists i :: 0 <= i <= |words| && StartsAt(words, i, BOLD)) || EndsWith(words, '\\') then Led(words)
    else BOLD + Led(words) + BOLD
  }

  predicate Unseen(c: char) { DiscordSpace(c) || c == ZERO_WIDTH_SPACE }

  /** What a heading's words come to, its closing hashes and the spaces around it gone. */
  function WordsOf(rest: string): string {
    Strip(DiscordSpace, Without(FORM_FEED, Closed(rest)))
  }

  function Min(a: nat, b: nat): nat { if a < b then a else b }

  /** A line GitHub drew as a heading, `rest` shown after its opening; None for one a reader would see
      nothing of. */
  function AsDrawn(heading: Heading, rest: string): Option<string> {
    var words := WordsOf(rest);
    if Strip(Unseen, words) == [] then None
    else if !heading.OnTop() then Some(NotAHeading(PlusAsDash(heading.lead + Bold(words))))
    else
      var quoted := if heading.quotes > 0 then "> " else "";
      Some(quoted + Repeat('#', Min(heading.hashes, HEADING_LEVELS)) + " " + HeadingWords(words))
  }

  /** What `line` shows after the opening GitHub read `heading` by; None where it opens otherwise. */
  function ShownAfter(heading: Heading, line: string): Option<string> {
    if heading.hashes >= |heading.words| then Some("")
    else
      var opening := heading.lead + heading.words[..heading.hashes + 1];
      if opening <= line then Some(line[|opening|..]) else None
  }

  /** One line of what is shown, for Discord: None for a heading with nothing in it. `inCode` is
      whether an odd number of fences was shown above it. */
  function Said(drawn: Drawn, inCode: bool, line: string): Option<string> {
    var said :=
      if inCode then Some(Without(FORM_FEED, line))
      else if drawn.AHeading? && ShownAfter(drawn.heading, line).Some? then
        AsDrawn(drawn.heading, ShownAfter(drawn.heading, line).value)
      else if drawn.AsWords? then Some(NotAHeading(Without(FORM_FEED, PlusAsDash(line))))
      else Some(NotAHeading(Without(FORM_FEED, line)));
    if said.Some? then Some(NotSubtext(said.value)) else None
  }

  // ----- What the loose opening is made of -----

  predicate LooseChar(c: char) { LooseSpace(c) || c == '>' || Bullet(c) || Digit(c) || c == '.' || c == ')' }

  lemma TokenIsLoose(s: string, at: nat)
    requires at <= |s|
    ensures forall i :: at <= i < at + LooseToken(s, at) ==> LooseChar(s[i])
  {
    hide PythonSpace;
  }

  lemma {:induction false} LooseIsLoose(s: string, at: nat)
    requires at <= |s|
    ensures forall i :: at <= i < LooseEnd(s, at) ==> LooseChar(s[i])
    decreases |s| - at
  {
    hide LooseToken, LooseChar;
    TokenIsLoose(s, at);
    if LooseToken(s, at) > 0 {
      LooseIsLoose(s, at + LooseToken(s, at));
    }
  }

  lemma SameCharacters(s: string, t: string, end: nat)
    requires end <= |s| && end <= |t| && s[..end] == t[..end]
    ensures forall i :: 0 <= i < end ==> s[i] == t[i]
  {
    forall i | 0 <= i < end ensures s[i] == t[i] {
      assert s[..end][i] == t[..end][i];
    }
  }

  lemma SameToken(s: string, t: string, at: nat, end: nat)
    requires at <= |s| && LooseToken(s, at) > 0 && end <= |s| && end <= |t|
    requires at + LooseToken(s, at) + (if LooseSpace(s[at]) || s[at] == '>' then 0 else 1) <= end
    requires forall i :: 0 <= i < end ==> s[i] == t[i]
    ensures LooseToken(t, at) == LooseToken(s, at)
  {
    hide PythonSpace, Digit;
    if !LooseSpace(s[at]) && s[at] != '>' && !Bullet(s[at]) {
      var d := RunOf(Digit, s, at);
      assert at + d < end && s[at + d] == t[at + d];
      assert forall i :: at <= i < at + d ==> s[i] == t[i];
      assert RunOf(Digit, t, at) == d;
    }
  }

  /** A list mark has a space behind it, which is a mark of its own. */
  lemma MarksAreSpaced(s: string, at: nat)
    requires at <= |s| && LooseToken(s, at) > 0
    ensures LooseEnd(s, at) == LooseEnd(s, at + LooseToken(s, at))
    ensures at + LooseToken(s, at) + (if LooseSpace(s[at]) || s[at] == '>' then 0 else 1) <= LooseEnd(s, at)
  {
    hide PythonSpace, Digit;
    var n := LooseToken(s, at);
    if !LooseSpace(s[at]) && s[at] != '>' {
      assert LooseSpace(s[at + n]);
      assert LooseToken(s, at + n) == 1;
      assert LooseEnd(s, at + n) == LooseEnd(s, at + n + 1);
    }
  }

  /** The opening does not look past its own end: two lines that agree up to it have the same one,
      as long as the other opens no further mark there. */
  lemma {:induction false} SameOpening(s: string, t: string, at: nat, end: nat)
    requires at <= |s| && end == LooseEnd(s, at) <= |t|
    requires forall i :: 0 <= i < end ==> s[i] == t[i]
    requires LooseToken(t, end) == 0
    ensures at <= |t| && LooseEnd(t, at) == end
    decreases |s| - at
  {
    hide LooseToken, LooseSpace;
    if LooseToken(s, at) > 0 {
      MarksAreSpaced(s, at);
      SameToken(s, t, at, end);
      SameOpening(s, t, at + LooseToken(s, at), end);
    }
  }

  lemma {:induction false} NotAHeadingIsNone(line: string)
    ensures !LooksLikeHeading(NotAHeading(line))
    ensures LooksLikeSubtext(NotAHeading(line)) ==> NotAHeading(line) == line
  {
    var end, said := LooseEnd(line, 0), NotAHeading(line);
    if HashesAt(line, end) {
      assert said[end] == '\\' && said[..end] == line[..end];
      SameCharacters(line, said, end);
      SameOpening(line, said, 0, end);
    }
  }

  /** Small print is broken, and nothing becomes or stops being a heading by it. */
  lemma {:induction false} NotSubtextIsNone(line: string)
    ensures !LooksLikeSubtext(NotSubtext(line))
    ensures LooksLikeHeading(NotSubtext(line)) == LooksLikeHeading(line)
    ensures LooksLikeHeading(line) ==> NotSubtext(line) == line
  {
    var end, said := LooseEnd(line, 0), NotSubtext(line);
    if LooksLikeSubtext(line) {
      assert said[end] == '-' && said[end + 1] == ZERO_WIDTH_SPACE;
      assert said[..end] == line[..end];
      SameCharacters(line, said, end);
      SameOpening(line, said, 0, end);
    }
  }

  lemma {:induction false} OverMarks(s: string, at: nat, end: nat)
    requires at <= end < |s| && s[end] == '#'
    requires forall i :: at <= i < end ==> Blank(s[i]) || s[i] == '>'
    ensures LooseEnd(s, at) == end
    decreases end - at
  {
    if at < end {
      OverMarks(s, at + 1, end);
    }
  }

  /** What a line of a message is followed by: nothing, or a line break and more. */
  predicate Follows(tail: string) { tail == "" || tail[0] == '\n' }

  lemma LevelHasRoom(s: string, at: nat)
    requires at <= |s|
    ensures LevelAt(s, at) > 0 ==> at < |s|
  {
    hide DiscordSpace;
  }

  /** Where Discord finds the hashes of a heading it draws: behind nothing but spaces and quote marks. */
  lemma LevelIsSomewhere(s: string) returns (at: nat)
    requires DiscordLevel(s) > 0
    ensures at < |s| && LevelAt(s, at) > 0 && forall i :: 0 <= i < at ==> Blank(s[i]) || s[i] == '>'
  {
    hide LevelAt;
    at := RunOf(Blank, s, 0);
    if LevelAt(s, at) == 0 {
      var marks := RunOf(IsMark, s, at);
      at := at + marks + RunOf(Blank, s, at + marks);
    }
    LevelHasRoom(s, at);
  }

  lemma LevelIsInTheLine(line: string, tail: string, at: nat)
    requires Follows(tail) && at < |line + tail| && LevelAt(line + tail, at) > 0
    requires forall i :: 0 <= i < at ==> Blank((line + tail)[i]) || (line + tail)[i] == '>'
    ensures LooksLikeHeading(line)
  {
    hide DiscordSpace, LooseEnd;
    var s := line + tail;
    var n := RunOf(Hash, s, at);
    assert s[at] == '#';
    assert |line| < |s| ==> s[|line|] == '\n';
    assert at + n <= |line|;
    assert forall i :: 0 <= i < |line| ==> s[i] == line[i];
    RunIs(Hash, line, at, n);
    OverMarks(line, 0, at);
  }

  /** Whatever Discord draws as a heading looks like one, even where the whitespace behind its hashes runs
      into the lines after it: the loose reading misses none. */
  lemma DiscordHeadingsLookAlike(line: string, tail: string)
    requires Follows(tail)
    ensures DiscordLevel(line + tail) > 0 ==> LooksLikeHeading(line)
  {
    hide *;
    if DiscordLevel(line + tail) > 0 {
      var at := LevelIsSomewhere(line + tail);
      LevelIsInTheLine(line, tail, at);
    }
  }
}
