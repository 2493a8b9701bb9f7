/** What rewriting links keeps: where code is on every line, and which links there are. */
module LinkTheorems {
  import opened Text
  import opened Fences
  import opened RichText

  // ----- A text read for its fences, line by line -----

  /** The run of backticks not yet a fence, whether this line has held an odd number of fences, and the
      same of each line above. */
  datatype Scan = Scan(pending: nat, odd: bool, above: seq<bool>)

  function Step(st: Scan, c: char): Scan {
    if c == '\n' then Scan(0, false, st.above + [st.odd])
    else if c != '`' then Scan(0, st.odd, st.above)
    else if st.pending >= 2 then Scan(0, !st.odd, st.above)
    else Scan(st.pending + 1, st.odd, st.above)
  }

  function Scanned(st: Scan, s: string): Scan
    decreases |s|
  {
    if s == [] then st else Scanned(Step(st, s[0]), s[1..])
  }

  const START: Scan := Scan(0, false, [])

  /** Of each line, whether it holds an odd number of fences. */
  function LineParities(s: string): seq<bool> {
    var end := Scanned(START, s);
    end.above + [end.odd]
  }

  lemma {:induction false} ScanAppend(st: Scan, a: string, b: string)
    ensures Scanned(st, a + b) == Scanned(Scanned(st, a), b)
    decreases |a|
  {
    if a == [] {
      assert a + b == b;
    } else {
      assert (a + b)[1..] == a[1..] + b;
      ScanAppend(Step(st, a[0]), a[1..], b);
    }
  }

  /** Within a line the scan counts fences exactly as they are counted. */
  lemma {:induction false} ScanWithinALine(st: Scan, s: string)
    requires '\n' !in s && st.pending < 3
    ensures Scanned(st, s)
         == Scan(Pending('`', 3, st.pending, s), st.odd != Odd(Tally('`', 3, st.pending, s)), st.above)
    decreases |s|
  {
    if s != [] {
      assert s[0] in s;
      ScanWithinALine(Step(st, s[0]), s[1..]);
    }
  }

  lemma FencesAreTallied(s: string)
    ensures FencesIn(s) == Tally('`', 3, 0, s)
  {
    FenceIsRun();
    CountIsTally('`', 3, 0, s);
    assert Repeat('`', 0) + s == s;
  }

  function Parities(lines: seq<string>): (odd: seq<bool>)
    ensures |odd| == |lines|
  {
    if lines == [] then [] else [Odd(FencesIn(lines[0]))] + Parities(lines[1..])
  }

  lemma {:induction false} ParityAt(lines: seq<string>, i: nat)
    requires i < |lines|
    ensures Parities(lines)[i] == Odd(FencesIn(lines[i]))
  {
    hide FencesIn;
    if i > 0 {
      ParityAt(lines[1..], i - 1);
    }
  }

  lemma LineScan(line: string, above: seq<bool>)
    requires '\n' !in line
    ensures var st := Scanned(Scan(0, false, above), line);
            st.odd == Odd(FencesIn(line)) && st.above == above
  {
    hide FencesIn;
    FencesAreTallied(line);
    ScanWithinALine(Scan(0, false, above), line);
  }

  /** The parities are those of the lines, each counted on its own. */
  lemma {:induction false} ParitiesAreOfLines(s: string, above: seq<bool>)
    ensures var end := Scanned(Scan(0, false, above), s);
            end.above + [end.odd] == above + Parities(Split(s))
    decreases |s|
  {
    hide FencesIn, Split, Scanned;
    var n := RunOf(NotABreak, s, 0);
    var line := s[..n];
    assert '\n' !in line;
    LineScan(line, above);
    if n == |s| {
      assert line == s;
      SplitOneLine(s);
      assert Parities([line])[1..] == [];
    } else {
      var rest := s[n + 1..];
      assert s == line + "\n" + rest;
      SplitAtBreak(line, rest);
      ScanAppend(Scan(0, false, above), line + "\n", rest);
      ScanAppend(Scan(0, false, above), line, "\n");
      LineEnds(Scanned(Scan(0, false, above), line));
      var parity := Odd(FencesIn(line));
      ParitiesAreOfLines(rest, above + [parity]);
      assert ([line] + Split(rest))[1..] == Split(rest);
      assert above + ([parity] + Parities(Split(rest))) == above + [parity] + Parities(Split(rest));
    }
  }

  predicate NotABreak(c: char) { c != '\n' }

  lemma LineEnds(st: Scan)
    ensures Scanned(st, "\n") == Scan(0, false, st.above + [st.odd])
  {
    assert "\n"[1..] == "";
  }

  // ----- What breaks a mention or a join breaks no fence -----

  /** A rule that names only places where one of these three stands, which no fence and no opening of a
      line is made of. */
  predicate BehindNoTick(rule: (string, nat) -> bool, s: string) {
    forall i :: 0 <= i < |s| && rule(s, i) ==> s[i] == '@' || s[i] == '<' || s[i] == ']'
  }

  lemma {:induction false} BrokenScansAlike(st: Scan, s: string, rule: (string, nat) -> bool, at: nat)
    requires at <= |s| && BehindNoTick(rule, s)
    ensures Scanned(st, Broken(s, rule, at)) == Scanned(st, s[at..])
    decreases |s| - at
  {
    if at < |s| {
      assert s[at..][1..] == s[at + 1..];
      var out := Broken(s, rule, at);
      var next := Step(st, s[at]);
      BrokenScansAlike(next, s, rule, at + 1);
      if rule(s, at) {
        assert out[1..][1..] == Broken(s, rule, at + 1);
        assert Step(next, ZERO_WIDTH_SPACE) == next;
      } else {
        assert out[1..] == Broken(s, rule, at + 1);
      }
    }
  }

  lemma {:induction false} BrokenAddsNothingElse(s: string, rule: (string, nat) -> bool, at: nat, c: char)
    requires at <= |s| && c != ZERO_WIDTH_SPACE
    ensures c in Broken(s, rule, at) <==> c in s[at..]
    decreases |s| - at
  {
    if at < |s| {
      BrokenAddsNothingElse(s, rule, at + 1, c);
      assert s[at..] == [s[at]] + s[at + 1..];
    }
  }

  lemma DefusedScansAlike(lib: Library, st: Scan, s: string)
    ensures Scanned(st, Defused(lib, s)) == Scanned(st, s)
  {
    hide MentionAt;
    var live := (t: string, i: nat) => i < |t| && t[i] == '@' && lib.live(t, i);
    var escaped := Broken(s, live, 0);
    BrokenScansAlike(st, s, live, 0);
    var mention := (t: string, i: nat) => MentionAt(lib.decimal, t, i);
    assert BehindNoTick(mention, escaped) by {
      forall i | 0 <= i < |escaped| && mention(escaped, i) ensures escaped[i] == '<' {
        MentionOpens(lib.decimal, escaped, i);
      }
    }
    BrokenScansAlike(st, escaped, mention, 0);
    assert escaped[0..] == escaped && s[0..] == s;
  }

  lemma MentionOpens(decimal: char -> bool, s: string, at: nat)
    requires MentionAt(decimal, s, at)
    ensures s[at] == '<'
  {
  }

  lemma InertScansAlike(lib: Library, st: Scan, s: string)
    ensures Scanned(st, Inert(lib, s)) == Scanned(st, s)
  {
    DefusedScansAlike(lib, st, s);
    BrokenScansAlike(st, Defused(lib, s), JoinAt, 0);
    assert Defused(lib, s)[0..] == Defused(lib, s);
  }

  lemma DefusedAddsNothingElse(lib: Library, s: string, c: char)
    requires c != ZERO_WIDTH_SPACE
    ensures c in Defused(lib, s) <==> c in s
  {
    var live := (t: string, i: nat) => i < |t| && t[i] == '@' && lib.live(t, i);
    BrokenAddsNothingElse(s, live, 0, c);
    var escaped := Broken(s, live, 0);
    BrokenAddsNothingElse(escaped, (t: string, i: nat) => MentionAt(lib.decimal, t, i), 0, c);
    assert escaped[0..] == escaped && s[0..] == s;
  }

  // ----- A mention once dead is dead -----

  /** Where a mention at the start of `s` closes: nought where there is none. */
  function MentionEnd(decimal: char -> bool, s: string): (end: nat)
    ensures end <= |s|
    ensures end > 0 <==> MentionAt(decimal, s, 0)
  {
    if !MentionAt(decimal, s, 0) then 0
    else
      var digits := if s[1] == '@' && (s[2] == '!' || s[2] == '&') then 3 else 2;
      digits + RunOf(decimal, s, digits) + 1
  }

  lemma MentionIsItsCharacters(decimal: char -> bool, s: string, t: string)
    requires MentionAt(decimal, s, 0) && !decimal('>')
    requires MentionEnd(decimal, s) <= |t| && forall i :: 0 <= i < MentionEnd(decimal, s) ==> t[i] == s[i]
    ensures MentionAt(decimal, t, 0)
  {
    var digits := if s[1] == '@' && (s[2] == '!' || s[2] == '&') then 3 else 2;
    var run := RunOf(decimal, s, digits);
    assert MentionEnd(decimal, s) == digits + run + 1;
    assert forall i :: digits <= i < digits + run ==> t[i] == s[i];
    RunIs(decimal, t, digits, run);
  }

  lemma MentionHasOneBracket(decimal: char -> bool, s: string)
    requires MentionAt(decimal, s, 0) && !decimal('<')
    ensures forall i :: 0 < i < MentionEnd(decimal, s) ==> s[i] != '<'
  {
  }

  /** The rule that breaks mentions. */
  function Mentions(decimal: char -> bool): (string, nat) -> bool {
    (t: string, i: nat) => MentionAt(decimal, t, i)
  }

  lemma MentionOfRest(decimal: char -> bool, s: string, at: nat)
    requires at <= |s|
    ensures MentionAt(decimal, s, at) <==> MentionAt(decimal, s[at..], 0)
  {
    var t := s[at..];
    if at + 1 < |s| && s[at] == '<' {
      var from := if s[at + 1] == '@' && at + 2 < |s| && (s[at + 2] == '!' || s[at + 2] == '&') then at + 3 else at + 2;
      if from <= |s| {
        var run := RunOf(decimal, s, from);
        assert forall i :: from <= i < from + run ==> t[i - at] == s[i];
        RunIs(decimal, t, from - at, run);
      }
    }
  }

  lemma BrokenStep(s: string, rule: (string, nat) -> bool, at: nat)
    requires at < |s|
    ensures Broken(s, rule, at)
         == (if rule(s, at) then [s[at], ZERO_WIDTH_SPACE] else [s[at]]) + Broken(s, rule, at + 1)
  {
    assert [s[at]] + [] == [s[at]];
  }

  lemma BrokenAtTheEnd(s: string, rule: (string, nat) -> bool)
    ensures Broken(s, rule, |s|) == []
  {
  }

  /** A rule that names only places where `c` stands. */
  predicate OnlyAt(s: string, rule: (string, nat) -> bool, c: char) {
    forall i :: 0 <= i < |s| && rule(s, i) ==> s[i] == c
  }

  /** As far as there is no further `c`, what such a rule leaves is what was there. */
  lemma {:induction false} BrokenUpTo(s: string, rule: (string, nat) -> bool, c: char, at: nat, n: nat)
    requires at <= |s| && OnlyAt(s, rule, c)
    requires var out := Broken(s, rule, at); n <= |out| && forall i :: 0 <= i < n ==> out[i] != c
    ensures var out := Broken(s, rule, at); at + n <= |s| && forall i :: 0 <= i < n ==> out[i] == s[at + i]
    decreases n
  {
    hide Broken;
    if at == |s| {
      BrokenAtTheEnd(s, rule);
    } else if n > 0 {
      var out, rest := Broken(s, rule, at), Broken(s, rule, at + 1);
      BrokenStep(s, rule, at);
      assert out[0] == s[at];
      assert !rule(s, at);
      assert out == [s[at]] + rest;
      assert forall i :: 0 <= i < |rest| ==> out[i + 1] == rest[i];
      BrokenUpTo(s, rule, c, at + 1, n - 1);
    }
  }

  lemma MentionsAreBrackets(decimal: char -> bool, s: string)
    ensures OnlyAt(s, Mentions(decimal), '<')
  {
    hide MentionAt;
    forall i | 0 <= i < |s| && MentionAt(decimal, s, i) ensures s[i] == '<' {
      MentionOpens(decimal, s, i);
    }
  }

  lemma MentionStep(decimal: char -> bool, s: string, at: nat)
    requires at < |s|
    ensures Broken(s, Mentions(decimal), at)
         == (if MentionAt(decimal, s, at) then [s[at], ZERO_WIDTH_SPACE] else [s[at]])
            + Broken(s, Mentions(decimal), at + 1)
  {
    hide MentionAt, Broken;
    BrokenStep(s, Mentions(decimal), at);
  }

  lemma MentionsSecond(decimal: char -> bool, s: string)
    requires MentionAt(decimal, s, 0)
    ensures |s| > 1 && s[1] != ZERO_WIDTH_SPACE
  {
  }

  lemma NoMentionIsLeft(decimal: char -> bool, s: string, at: nat)
    requires at <= |s| && !decimal('<') && !decimal('>')
    ensures !MentionAt(decimal, Broken(s, Mentions(decimal), at), 0)
  {
    hide MentionAt, Mentions, MentionEnd;
    var out := Broken(s, Mentions(decimal), at);
    if MentionAt(decimal, out, 0) {
      MentionsSecond(decimal, out);
      MentionStep(decimal, s, at);
      var rest := Broken(s, Mentions(decimal), at + 1);
      if !MentionAt(decimal, s, at) {
        assert out == [s[at]] + rest;
        MentionWasThere(decimal, s, at, out, rest);
      }
    }
  }

  /** Text that opens with the character at `at` and agrees with what follows it agrees from there on. */
  lemma AgreesFromThere(s: string, at: nat, out: string, rest: string, n: nat)
    requires at < |s| && out == [s[at]] + rest
    requires n <= |rest| && at + 1 + n <= |s| && forall i :: 0 <= i < n ==> rest[i] == s[at + 1 + i]
    ensures n + 1 <= |s[at..]| && forall i :: 0 <= i < n + 1 ==> s[at..][i] == out[i]
  {
    forall i | 0 <= i < n + 1 ensures s[at..][i] == out[i] {
      if i > 0 {
        assert out[i] == rest[i - 1];
      }
    }
  }

  lemma MentionWasThere(decimal: char -> bool, s: string, at: nat, out: string, rest: string)
    requires at < |s| && !decimal('<') && !decimal('>')
    requires rest == Broken(s, Mentions(decimal), at + 1) && out == [s[at]] + rest
    requires MentionAt(decimal, out, 0)
    ensures MentionAt(decimal, s, at)
  {
    hide MentionAt, Mentions, MentionEnd, Broken;
    var end := MentionEnd(decimal, out);
    MentionHasOneBracket(decimal, out);
    forall i | 0 <= i < end - 1 ensures rest[i] != '<' {
      assert rest[i] == out[i + 1];
    }
    MentionsAreBrackets(decimal, s);
    BrokenUpTo(s, Mentions(decimal), '<', at + 1, end - 1);
    AgreesFromThere(s, at, out, rest, end - 1);
    MentionIsItsCharacters(decimal, out, s[at..]);
    MentionOfRest(decimal, s, at);
  }

  lemma MentionBehind(decimal: char -> bool, first: string, rest: string, i: nat)
    requires |first| <= i < |first + rest|
    ensures MentionAt(decimal, first + rest, i) <==> MentionAt(decimal, rest, i - |first|)
  {
    hide MentionAt;
    assert (first + rest)[i..] == rest[i - |first|..];
    MentionOfRest(decimal, first + rest, i);
    MentionOfRest(decimal, rest, i - |first|);
  }

  /** Broken once, there is nothing left to break: the rule does not match its own output. */
  lemma {:induction false} BrokenMentionsStayBroken(decimal: char -> bool, s: string, at: nat)
    requires at <= |s| && !decimal('<') && !decimal('>')
    ensures var out := Broken(s, Mentions(decimal), at);
            forall i :: 0 <= i < |out| ==> !MentionAt(decimal, out, i)
    decreases |s| - at
  {
    hide MentionAt, Mentions;
    if at < |s| {
      var out, rest := Broken(s, Mentions(decimal), at), Broken(s, Mentions(decimal), at + 1);
      BrokenMentionsStayBroken(decimal, s, at + 1);
      NoMentionIsLeft(decimal, s, at);
      MentionStep(decimal, s, at);
      var first := if MentionAt(decimal, s, at) then [s[at], ZERO_WIDTH_SPACE] else [s[at]];
      assert out == first + rest;
      forall i | 0 <= i < |out| ensures !MentionAt(decimal, out, i) {
        if i >= |first| {
          MentionBehind(decimal, first, rest, i);
        } else if i > 0 && MentionAt(decimal, out, i) {
          MentionOpens(decimal, out, i);
        }
      }
    }
  }

  lemma {:induction false} NothingToBreak(s: string, rule: (string, nat) -> bool, at: nat)
    requires at <= |s| && forall i :: 0 <= i < |s| ==> !rule(s, i)
    ensures Broken(s, rule, at) == s[at..]
    decreases |s| - at
  {
    if at < |s| {
      NothingToBreak(s, rule, at + 1);
      assert s[at..] == [s[at]] + s[at + 1..];
    }
  }

  /** So breaking mentions a second time changes nothing. */
  lemma MentionsBreakOnce(decimal: char -> bool, s: string)
    requires !decimal('<') && !decimal('>')
    ensures var out := Broken(s, Mentions(decimal), 0); Broken(out, Mentions(decimal), 0) == out
  {
    var out := Broken(s, Mentions(decimal), 0);
    BrokenMentionsStayBroken(decimal, s, 0);
    assert out == Broken(s, Mentions(decimal), 0);
    assert forall i :: 0 <= i < |out| ==> !MentionAt(decimal, out, i);
    NothingToBreak(out, Mentions(decimal), 0);
    assert out[0..] == out;
  }

  // ----- What discord.py escapes stays escaped -----

  predicate ManyDigits(s: string, at: nat) {
    at + 17 <= |s| && forall i :: at <= i < at + 17 ==> Digit(s[i])
  }

  /** discord.py's own pattern: an `@` with `everyone`, `here` or the many digits of an id behind it. */
  predicate EscapedAt(s: string, at: nat) {
    && at < |s| && s[at] == '@'
    && (StartsAt(s, at + 1, "everyone") || StartsAt(s, at + 1, "here") || ManyDigits(s, at + 1)
        || (at + 1 < |s| && (s[at + 1] == '!' || s[at + 1] == '&') && ManyDigits(s, at + 2)))
  }

  /** As much of a text as the pattern needs, where it matches at the front. */
  function EscapeEnd(s: string): (end: nat)
    requires EscapedAt(s, 0)
    ensures 1 < end <= |s|
  {
    if StartsAt(s, 1, "everyone") then 9 else if StartsAt(s, 1, "here") then 5
    else if ManyDigits(s, 1) then 18 else 19
  }

  lemma SameWord(s: string, t: string, at: nat, word: string)
    requires StartsAt(s, at, word) && at + |word| <= |t| && forall i :: at <= i < at + |word| ==> s[i] == t[i]
    ensures StartsAt(t, at, word)
  {
    assert t[at..at + |word|] == s[at..at + |word|];
  }

  lemma EscapeIsItsCharacters(s: string, t: string)
    requires EscapedAt(s, 0) && EscapeEnd(s) <= |t| && forall i :: 0 <= i < EscapeEnd(s) ==> s[i] == t[i]
    ensures EscapedAt(t, 0)
  {
    hide StartsAt;
    if StartsAt(s, 1, "everyone") {
      SameWord(s, t, 1, "everyone");
    } else if StartsAt(s, 1, "here") {
      SameWord(s, t, 1, "here");
    }
  }

  predicate Plainly(c: char) { c != '@' && c != '<' && c != ']' && c != ZERO_WIDTH_SPACE }

  lemma WordIsPlain(s: string, at: nat, word: string)
    requires StartsAt(s, at, word) && forall c <- word :: Plainly(c)
    ensures forall i :: at <= i < at + |word| ==> Plainly(s[i])
  {
    forall i | at <= i < at + |word| ensures Plainly(s[i]) {
      assert s[at..at + |word|][i - at] in word;
    }
  }

  lemma EscapeIsPlain(s: string)
    requires EscapedAt(s, 0)
    ensures forall i :: 0 < i < EscapeEnd(s) ==> Plainly(s[i])
  {
    hide StartsAt;
    if StartsAt(s, 1, "everyone") {
      WordIsPlain(s, 1, "everyone");
    } else if StartsAt(s, 1, "here") {
      WordIsPlain(s, 1, "here");
    }
  }

  lemma EscapedOfRest(s: string, at: nat)
    requires at <= |s|
    ensures EscapedAt(s, at) <==> EscapedAt(s[at..], 0)
  {
    var t := s[at..];
    if at < |s| {
      assert t[0] == s[at];
      StartsOfRest(s, at, 1, "everyone");
      StartsOfRest(s, at, 1, "here");
      hide StartsAt;
      assert forall i :: 0 <= i < |t| ==> t[i] == s[at + i];
      assert ManyDigits(s, at + 1) <==> ManyDigits(t, 1);
      assert ManyDigits(s, at + 2) <==> ManyDigits(t, 2);
    }
  }

  lemma StartsOfRest(s: string, at: nat, k: nat, word: string)
    requires at <= |s|
    ensures StartsAt(s, at + k, word) <==> StartsAt(s[at..], k, word)
  {
    if at + k + |word| <= |s| {
      assert s[at + k..at + k + |word|] == s[at..][k..k + |word|];
    }
  }

  /** What a rule that breaks only behind `c` leaves at the front is escaped only where it was before, and
      the rule did not break it there. */
  lemma EscapeWasThere(s: string, rule: (string, nat) -> bool, c: char, at: nat)
    requires at <= |s| && (c == '@' || c == '<' || c == ']') && OnlyAt(s, rule, c) && EscapedAt(Broken(s, rule, at), 0)
    ensures at < |s| && EscapedAt(s, at) && !rule(s, at)
  {
    hide EscapedAt, Broken, EscapeEnd;
    var out := Broken(s, rule, at);
    EscapeOpens(out);
    if at == |s| {
      BrokenAtTheEnd(s, rule);
    }
    BrokenStep(s, rule, at);
    var rest := Broken(s, rule, at + 1);
    var end := EscapeEnd(out);
    EscapeIsPlain(out);
    assert Plainly(out[1]);
    assert out == [s[at]] + rest;
    forall i | 0 <= i < end - 1 ensures rest[i] != c {
      assert rest[i] == out[i + 1];
    }
    BrokenUpTo(s, rule, c, at + 1, end - 1);
    AgreesFromThere(s, at, out, rest, end - 1);
    EscapeIsItsCharacters(out, s[at..]);
    EscapedOfRest(s, at);
  }

  lemma EscapeOpens(s: string)
    requires EscapedAt(s, 0)
    ensures s != []
  {
  }

  lemma EscapedBehind(first: string, rest: string, i: nat)
    requires |first| <= i < |first + rest|
    ensures EscapedAt(first + rest, i) <==> EscapedAt(rest, i - |first|)
  {
    hide EscapedAt;
    assert (first + rest)[i..] == rest[i - |first|..];
    EscapedOfRest(first + rest, i);
    EscapedOfRest(rest, i - |first|);
  }

  lemma {:induction false} EscapeCameFrom(s: string, rule: (string, nat) -> bool, c: char, at: nat, i: nat)
    returns (j: nat)
    requires at <= |s| && (c == '@' || c == '<' || c == ']') && OnlyAt(s, rule, c)
    requires i < |Broken(s, rule, at)| && EscapedAt(Broken(s, rule, at), i)
    ensures j < |s| && EscapedAt(s, j) && !rule(s, j)
    decreases |s| - at
  {
    hide EscapedAt, Broken;
    var out := Broken(s, rule, at);
    if i == 0 {
      EscapeWasThere(s, rule, c, at);
      return at;
    }
    if at == |s| {
      BrokenAtTheEnd(s, rule);
    }
    BrokenStep(s, rule, at);
    var first := if rule(s, at) then [s[at], ZERO_WIDTH_SPACE] else [s[at]];
    assert out == first + Broken(s, rule, at + 1);
    if i < |first| {
      EscapeIsAnAt(out, i);
    }
    EscapedBehind(first, Broken(s, rule, at + 1), i);
    j := EscapeCameFrom(s, rule, c, at + 1, i - |first|);
  }

  lemma EscapeIsAnAt(s: string, at: nat)
    requires EscapedAt(s, at)
    ensures s[at] == '@'
  {
  }

  /** Where discord.py reads mentions by its own pattern, a text made safe a second time is as it was: no
      rule matches what the two leave. */
  lemma DefusedOnce(lib: Library, s: string)
    requires !lib.decimal('<') && !lib.decimal('>') && forall t, i :: lib.live(t, i) <==> EscapedAt(t, i)
    ensures Defused(lib, Defused(lib, s)) == Defused(lib, s)
    ensures forall i :: 0 <= i < |Defused(lib, s)| ==>
              !EscapedAt(Defused(lib, s), i) && !MentionAt(lib.decimal, Defused(lib, s), i)
  {
    var live := (t: string, i: nat) => i < |t| && t[i] == '@' && lib.live(t, i);
    var mention := (t: string, i: nat) => MentionAt(lib.decimal, t, i);
    hide EscapedAt, MentionAt, Broken;
    var escaped := Broken(s, live, 0);
    var out := Broken(escaped, mention, 0);
    assert out == Defused(lib, s);
    SameRule(escaped, mention, Mentions(lib.decimal), 0);
    BrokenMentionsStayBroken(lib.decimal, escaped, 0);
    MentionsAreBrackets(lib.decimal, escaped);
    forall i | 0 <= i < |out| ensures !EscapedAt(out, i) {
      if EscapedAt(out, i) {
        var j := EscapeCameFrom(escaped, Mentions(lib.decimal), '<', 0, i);
        var k := EscapeCameFrom(s, live, '@', 0, j);
        EscapeIsAnAt(s, k);
      }
    }
    NothingToBreak(out, live, 0);
    assert out == Broken(escaped, Mentions(lib.decimal), 0);
    assert forall i :: 0 <= i < |out| ==> !MentionAt(lib.decimal, out, i);
    NothingToBreak(out, mention, 0);
    assert out[0..] == out;
  }

  /** Two rules that name the same places break the same. */
  lemma {:induction false} SameRule(s: string, one: (string, nat) -> bool, other: (string, nat) -> bool, at: nat)
    requires at <= |s| && forall i :: 0 <= i < |s| ==> one(s, i) == other(s, i)
    ensures Broken(s, one, at) == Broken(s, other, at)
    decreases |s| - at
  {
    if at < |s| {
      SameRule(s, one, other, at + 1);
    }
  }

  // ----- A link is one step of the scan, whatever becomes of it -----

  /** Whether a link is shown by the name of its host: off GitHub always, to GitHub where it has no words. */
  predicate ShowsItsName(lib: Library, title: string, url: string) {
    match FateOf(lib, url)
    case Kept => false
    case ToGitHub => title == []
    case Named => true
  }

  function NameOf(lib: Library, url: string): string { lib.named(lib.host(url).GetOr([])) }

  /** A name that is shown is on one line, and is something where it is all there is. */
  predicate NameIsWords(lib: Library, title: string, url: string) {
    ShowsItsName(lib, title, url) ==>
      '\n' !in NameOf(lib, url) && (FateOf(lib, url).Named? ==> NameOf(lib, url) != [])
  }

  /** The name a link is shown by has as many fences, up to an even number, as what the code counted: the
      host where the address goes, and none where it stays. */
  predicate NameIsEven(lib: Library, title: string, url: string) {
    ShowsItsName(lib, title, url) ==>
      Odd(FencesIn(NameOf(lib, url))) == (FateOf(lib, url).Named? && Odd(FencesIn(HostOf(lib, url).value)))
  }

  predicate NamesAreWords(lib: Library, pieces: seq<Piece>) {
    forall i :: 0 <= i < |pieces| && pieces[i].Linked? ==> NameIsWords(lib, pieces[i].title, pieces[i].url)
  }

  predicate NamesAreEven(lib: Library, pieces: seq<Piece>) {
    forall i :: 0 <= i < |pieces| && pieces[i].Linked? ==> NameIsEven(lib, pieces[i].title, pieces[i].url)
  }

  /** Words on one line that no backtick opens or closes. */
  predicate Sealed(s: string) {
    s != [] && '\n' !in s && s[0] != '`' && s[|s| - 1] != '`'
  }

  lemma SealedScan(st: Scan, s: string)
    requires Sealed(s)
    ensures st.pending < 3 ==> Scanned(st, s) == Scan(0, st.odd != Odd(FencesIn(s)), st.above)
  {
    if st.pending < 3 {
      FencesAreTallied(s);
      ScanWithinALine(st, s);
      NothingPends('`', 3, st.pending, s);
    }
  }

  lemma LinkIsSealed(title: string, url: string)
    requires '\n' !in title && (forall c <- url :: AddressChar(c))
    ensures Sealed(AsLink(title, url)) && FencesIn(AsLink(title, url)) == FencesIn(title) + FencesIn(url)
  {
    var open := "[" + title;
    var middle := open + "](";
    FenceSeam("[", title);
    FenceSeam(open, "](");
    FenceSeam(middle, url);
    FenceSeam(middle + url, ")");
    FenceNone("[");
    FenceNone("](");
    FenceNone(")");
  }

  /** A link off GitHub shown as its words and its host's name. */
  function WordsOff(title: string, name: string): string {
    if title == [] then name else title + " (" + name + ")"
  }

  /** Those words put back, kept from opening a mark and from finishing a fence. */
  function PutBack(words: string): string {
    var said := AsWords(words);
    if said != [] && said[|said| - 1] == '`' then said + [ZERO_WIDTH_SPACE] else said
  }

  lemma PutBackIsSealed(words: string)
    requires words != [] && '\n' !in words
    ensures Sealed(PutBack(words)) && FencesIn(PutBack(words)) == FencesIn(words)
  {
    var said := AsWords(words);
    FenceNone([ZERO_WIDTH_SPACE]);
    FenceSeam([ZERO_WIDTH_SPACE], words);
    FenceSeam(said, [ZERO_WIDTH_SPACE]);
  }

  lemma WordsOffHold(title: string, name: string)
    requires '\n' !in title && '\n' !in name && name != []
    ensures var words := WordsOff(title, name);
            words != [] && '\n' !in words && FencesIn(words) == FencesIn(title) + FencesIn(name)
  {
    NoFenceInNothing();
    FenceSeam(title, " (");
    FenceSeam(title + " (", name);
    FenceSeam(title + " (" + name, ")");
    FenceNone(" (");
    FenceNone(")");
  }

  lemma DefusedKeepsParity(lib: Library, title: string)
    requires '\n' !in title
    ensures '\n' !in Defused(lib, title) && Odd(FencesIn(Defused(lib, title))) == Odd(FencesIn(title))
  {
    DefusedAddsNothingElse(lib, title, '\n');
    DefusedScansAlike(lib, START, title);
    ScanWithinALine(START, title);
    ScanWithinALine(START, Defused(lib, title));
    FencesAreTallied(title);
    FencesAreTallied(Defused(lib, title));
  }

  function AsLink(title: string, url: string): string { "[" + title + "](" + url + ")" }

  lemma DefusedIsEmpty(lib: Library, s: string)
    ensures Defused(lib, s) == [] <==> s == []
  {
    hide MentionAt;
    var live := (t: string, i: nat) => i < |t| && t[i] == '@' && lib.live(t, i);
    var escaped := Broken(s, live, 0);
    assert escaped == [] <==> s == [];
  }

  /** What a link comes to, in terms of its words as they are made safe. */
  lemma LinkComesTo(lib: Library, title: string, url: string)
    ensures var (said, name) := (Defused(lib, title), NameOf(lib, url));
            Render(lib, Linked(title, url))
            == match FateOf(lib, url)
               case Kept => Inert(lib, AsLink(said, url))
               case ToGitHub => AsLink(if title == [] then name else said, url)
               case Named => PutBack(WordsOff(said, name))
  {
    hide Defused, Inert, FencesIn, AsWords, IsGitHub;
    DefusedIsEmpty(lib, title);
  }

  /** A link whose name has the fences the code counted is read as it was written, whatever was pending in
      front of it; and one whose name has not is not. */
  lemma LinkScansAlikeExactly(lib: Library, st: Scan, title: string, url: string)
    requires NameIsWords(lib, title, url) && st.pending < 3
    requires (forall c <- title :: TitleChar(c)) && (forall c <- url :: AddressChar(c))
    ensures Scanned(st, Render(lib, Linked(title, url))) == Scanned(st, AsLink(title, url))
       <==> NameIsEven(lib, title, url)
  {
    hide Defused, Inert, Scanned, FencesIn, Sealed, TitleChar, AddressChar, PutBack, WordsOff, AsLink, IsGitHub, Odd;
    var said, name, written := Defused(lib, title), NameOf(lib, url), AsLink(title, url);
    var counted := FencesIn(url);
    LinkComesTo(lib, title, url);
    TitleIsOneLine(title);
    DefusedKeepsParity(lib, title);
    DefusedIsEmpty(lib, title);
    NoFenceInNothing();
    LinkIsSealed(title, url);
    LinkIsSealed(said, url);
    OddSum(FencesIn(title), counted);
    OddSum(FencesIn(said), counted);
    SealedAlikeExactly(st, AsLink(said, url), written);
    match FateOf(lib, url)
    case Kept =>
      InertScansAlike(lib, st, AsLink(said, url));
    case ToGitHub =>
      if title == [] {
        LinkIsSealed(name, url);
        OddSum(FencesIn(name), counted);
        SealedAlikeExactly(st, AsLink(name, url), written);
        NoneIsEven();
      }
    case Named =>
      WordsOffHold(said, name);
      PutBackIsSealed(WordsOff(said, name));
      OddSum(FencesIn(said), FencesIn(name));
      SealedAlikeExactly(st, PutBack(WordsOff(said, name)), written);
  }

  /** Two ways to say the same line of words read alike exactly where both have an even number of fences,
      or neither. */
  lemma SealedAlikeExactly(st: Scan, a: string, b: string)
    requires st.pending < 3 && Sealed(a) && Sealed(b)
    ensures Scanned(st, a) == Scanned(st, b) <==> Odd(FencesIn(a)) == Odd(FencesIn(b))
  {
    hide Scanned, FencesIn, Sealed;
    SealedScan(st, a);
    SealedScan(st, b);
  }

  lemma NoFenceInNothing()
    ensures FencesIn([]) == 0
  {
  }

  lemma TitleIsOneLine(title: string)
    requires forall c <- title :: TitleChar(c)
    ensures '\n' !in title && ']' !in title
  {
  }

  lemma {:induction false} PendingStaysShort(st: Scan, s: string)
    requires st.pending < 3
    ensures Scanned(st, s).pending < 3
    decreases |s|
  {
    if s != [] {
      PendingStaysShort(Step(st, s[0]), s[1..]);
    }
  }

  lemma NamesBehind(lib: Library, s: string, from: nat)
    requires from <= |s| && NextLink(s, from).Some?
    ensures var link := NextLink(s, from).value;
            && from <= link.start < link.end <= |s|
            && (NamesAreWords(lib, Pieces(s, from)) ==>
                  NameIsWords(lib, link.title, link.url) && NamesAreWords(lib, Pieces(s, link.end)))
            && (NamesAreEven(lib, Pieces(s, from)) ==>
                  NameIsEven(lib, link.title, link.url) && NamesAreEven(lib, Pieces(s, link.end)))
  {
    hide NameIsWords, NameIsEven, NextLink;
    NextLinkInText(s, from);
    var link := NextLink(s, from).value;
    var pieces, behind := Pieces(s, from), Pieces(s, link.end);
    assert pieces == [Typed(s[from..link.start]), Linked(link.title, link.url)] + behind;
    assert pieces[1] == Linked(link.title, link.url);
    assert forall i :: 0 <= i < |behind| ==> pieces[i + 2] == behind[i];
  }

  lemma OneLinkScansAlike(lib: Library, st: Scan, typed: string, title: string, url: string)
    requires NameIsWords(lib, title, url) && NameIsEven(lib, title, url) && st.pending < 3
    requires (forall c <- title :: TitleChar(c)) && (forall c <- url :: AddressChar(c))
    ensures Scanned(st, Render(lib, Typed(typed)) + Render(lib, Linked(title, url)))
         == Scanned(st, typed + AsLink(title, url))
    ensures Scanned(st, typed + AsLink(title, url)).pending < 3
  {
    hide Render, Scanned, NameIsWords, NameIsEven, TitleChar, AddressChar, AsLink;
    ScanAppend(st, Render(lib, Typed(typed)), Render(lib, Linked(title, url)));
    ScanAppend(st, typed, AsLink(title, url));
    TypedScansAlike(lib, st, typed);
    PendingStaysShort(st, typed);
    LinkScansAlikeExactly(lib, Scanned(st, typed), title, url);
    PendingStaysShort(st, typed + AsLink(title, url));
  }

  lemma {:induction false} PiecesScanAlike(lib: Library, st: Scan, s: string, from: nat)
    requires from <= |s| && NamesAreWords(lib, Pieces(s, from)) && NamesAreEven(lib, Pieces(s, from)) && st.pending < 3
    ensures Scanned(st, RenderAll(lib, Pieces(s, from))) == Scanned(st, s[from..])
    decreases |s| - from
  {
    hide Render, RenderAll, Pieces, Scanned, NextLink, NamesAreWords, NamesAreEven, NameIsWords, NameIsEven;
    hide TitleChar, AddressChar, AsLink;
    match NextLink(s, from)
    case None =>
      LastPiece(lib, s, from);
      TypedScansAlike(lib, st, s[from..]);
    case Some(link) =>
      LinkFound(s, from);
      NamesBehind(lib, s, from);
      OneLinkOn(lib, s, from);
      var typed, written := s[from..link.start], AsLink(link.title, link.url);
      var rendered := Render(lib, Typed(typed)) + Render(lib, Linked(link.title, link.url));
      OneLinkScansAlike(lib, st, typed, link.title, link.url);
      LinkIsWritten(s, from);
      assert s[from..] == typed + written + s[link.end..];
      ScanAppend(st, rendered, RenderAll(lib, Pieces(s, link.end)));
      ScanAppend(st, typed + written, s[link.end..]);
      PiecesScanAlike(lib, Scanned(st, typed + written), s, link.end);
  }

  lemma LinkIsWritten(s: string, from: nat)
    requires NextLink(s, from).Some?
    ensures var link := NextLink(s, from).value;
            link.start < link.end <= |s| && s[link.start..link.end] == AsLink(link.title, link.url)
  {
    hide NextLink, TitleChar, AddressChar;
    LinkFound(s, from);
  }

  lemma TypedScansAlike(lib: Library, st: Scan, text: string)
    ensures Scanned(st, Render(lib, Typed(text))) == Scanned(st, text)
  {
    InertScansAlike(lib, st, text);
  }

  lemma LinkFound(s: string, from: nat)
    requires NextLink(s, from).Some?
    ensures var link := NextLink(s, from).value;
            && from <= link.start < link.end <= |s|
            && s[link.start..link.end] == "[" + link.title + "](" + link.url + ")"
            && (forall c <- link.title :: TitleChar(c)) && (forall c <- link.url :: AddressChar(c))
  {
    hide NextLink;
    assert LinkAt(s, NextLink(s, from).value.start) == NextLink(s, from);
  }

  /** Line by line, links rewritten leave code where the line reader counted it. */
  lemma LinksKeepFences(lib: Library, text: string)
    requires NamesAreWords(lib, Pieces(text, 0)) && NamesAreEven(lib, Pieces(text, 0))
    ensures LineParities(Relinked(lib, text)) == LineParities(text)
    ensures |Split(Relinked(lib, text))| == |Split(text)|
    ensures forall i :: 0 <= i < |Split(text)| ==>
              Odd(FencesIn(Split(Relinked(lib, text))[i])) == Odd(FencesIn(Split(text)[i]))
  {
    hide Split, FencesIn, Relinked, NamesAreWords, NamesAreEven, Scanned;
    PiecesScanAlike(lib, START, text, 0);
    assert text[0..] == text;
    RelinkedIsRendered(lib, text);
    ParitiesAreOfLines(text, []);
    ParitiesAreOfLines(Relinked(lib, text), []);
    assert [] + Parities(Split(text)) == Parities(Split(text));
    assert [] + Parities(Split(Relinked(lib, text))) == Parities(Split(Relinked(lib, text)));
    forall i | 0 <= i < |Split(text)|
      ensures Odd(FencesIn(Split(Relinked(lib, text))[i])) == Odd(FencesIn(Split(text)[i]))
    {
      ParityAt(Split(text), i);
      ParityAt(Split(Relinked(lib, text)), i);
    }
  }

  lemma RelinkedIsRendered(lib: Library, text: string)
    ensures Relinked(lib, text) == RenderAll(lib, Pieces(text, 0))
  {
  }

  // ----- A name that moves code -----

  const TICKED_HOST: string := FENCE + ".github.com"
  const TICKED: string := "https://" + TICKED_HOST + "/"

  lemma LinkAlone(url: string)
    requires forall c <- url :: AddressChar(c)
    ensures Pieces(AsLink("", url), 0) == [Typed(""), Linked("", url), Typed("")]
  {
    var s := AsLink("", url);
    LinkAtTheFront(url);
    hide LinkAt, AsLink;
    NoLinkAtTheEnd(s);
    assert s[0..0] == "" && s[|s|..] == "";
  }

  lemma LinkAtTheFront(url: string)
    requires forall c <- url :: AddressChar(c)
    ensures var s := AsLink("", url); LinkAt(s, 0) == Some(Link(0, "", url, |s|))
  {
    var s := AsLink("", url);
    BracketsAreNeither();
    hide AddressChar, TitleChar;
    assert s[0] == '[' && s[1] == ']' && s[2] == '(' && s[|s| - 1] == ')';
    forall i | 3 <= i < 3 + |url| ensures s[i] == url[i - 3] {}
    RunIs(TitleChar, s, 1, 0);
    RunIs(AddressChar, s, 3, |url|);
    hide RunOf;
    assert s[1..1] == "" && s[3..3 + |url|] == url;
  }

  lemma NoLinkAtTheEnd(s: string)
    ensures NextLink(s, |s|) == None
  {
    assert LinkAt(s, |s|) == None;
  }

  lemma BracketsAreNeither()
    ensures !TitleChar(']') && !AddressChar(')')
  {
  }

  predicate PlainlyAddressed(c: char) { 'a' <= c <= 'z' || c == ':' || c == '/' || c == '.' || c == '`' }

  lemma PlainIsAddressed(c: char)
    requires PlainlyAddressed(c)
    ensures AddressChar(c)
  {
  }

  lemma TickedIsPlain()
    ensures forall c <- TICKED :: PlainlyAddressed(c)
    ensures '\n' !in TICKED_HOST
  {
    var scheme, rest := "https://", ".github.com";
    assert forall i :: 0 <= i < |scheme| ==> PlainlyAddressed(scheme[i]);
    assert forall i :: 0 <= i < |rest| ==> PlainlyAddressed(rest[i]);
    assert forall i :: 0 <= i < |FENCE| ==> PlainlyAddressed(FENCE[i]);
    assert TICKED == scheme + FENCE + rest + "/";
  }

  lemma TickedIsAnAddress()
    ensures (forall c <- TICKED :: AddressChar(c)) && '\n' !in TICKED_HOST
  {
    hide *;
    TickedIsPlain();
    forall c | c in TICKED ensures AddressChar(c) {
      PlainIsAddressed(c);
    }
  }

  lemma TickedIsOfGitHub()
    ensures StartsAt(TICKED, 0, "https://") && IsGitHub(TICKED_HOST)
  {
    assert TICKED[0..8] == "https://";
    assert TICKED_HOST[3..] == ".github.com";
  }

  lemma AFence()
    ensures FencesIn(FENCE) == 1
  {
    assert FENCE[3..] == "" && FencesIn("") == 0;
  }

  lemma TickedFences()
    ensures FencesIn(TICKED) == 1 && FencesIn(TICKED_HOST) == 1
  {
    hide FencesIn;
    AFence();
    FenceNone("https://");
    FenceNone(".github.com");
    FenceNone("/");
    FenceSeam(FENCE, ".github.com");
    FenceSeam("https://", TICKED_HOST);
    FenceSeam("https://" + TICKED_HOST, "/");
  }

  /** The link that shows the name counts: with no words, to a host GitHub serves, it is shown by a name
      with a fence nobody counted, and what follows it on its lines is no longer where it was. */
  lemma ANameMovesCode(lib: Library)
    requires lib.host(TICKED) == Some(TICKED_HOST) && lib.named(TICKED_HOST) == TICKED_HOST
    ensures var text := AsLink("", TICKED);
            && NamesAreWords(lib, Pieces(text, 0)) && !NamesAreEven(lib, Pieces(text, 0))
            && FencesIn(text) == 1 && FencesIn(Relinked(lib, text)) == 2
            && LineParities(Relinked(lib, text)) != LineParities(text)
  {
    hide TICKED, TICKED_HOST, AddressChar, Pieces, Render, FencesIn, AsLink, LineParities, Relinked;
    var name, text := TICKED_HOST, AsLink("", TICKED);
    TickedIsAnAddress();
    TickedIsOfGitHub();
    TickedFences();
    LinkAlone(TICKED);
    NoFenceInNothing();
    LinkIsSealed("", TICKED);
    LinkIsSealed(name, TICKED);
    assert FateOf(lib, TICKED) == ToGitHub;
    var pieces := Pieces(text, 0);
    assert pieces[1] == Linked("", TICKED) && ShowsItsName(lib, "", TICKED) && NameOf(lib, TICKED) == name;
    assert !NameIsEven(lib, "", TICKED) && NameIsWords(lib, "", TICKED);
    LinkComesTo(lib, "", TICKED);
    OnlyALink(lib, Linked("", TICKED));
    RelinkedIsRendered(lib, text);
    SealedParities(text);
    SealedParities(AsLink(name, TICKED));
  }

  lemma OnlyALink(lib: Library, link: Piece)
    requires link.Linked?
    ensures RenderAll(lib, [Typed(""), link, Typed("")]) == Render(lib, link)
  {
    hide MentionAt;
    assert [Typed(""), link, Typed("")][1..] == [link, Typed("")] && [link, Typed("")][1..] == [Typed("")];
    assert Render(lib, Typed("")) == "";
    OnePiece(lib, Typed(""));
    hide Render;
    assert "" + (Render(lib, link) + "") == Render(lib, link);
  }

  lemma SealedParities(s: string)
    requires Sealed(s)
    ensures LineParities(s) == [Odd(FencesIn(s))]
  {
    SealedScan(START, s);
  }
}
