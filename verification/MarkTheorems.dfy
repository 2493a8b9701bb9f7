/** What each of the marks GitHub reads a line by is, in characters. */
module MarkTheorems {
  import opened Text
  import opened Drawn
  import opened Marks

  /** `n` times `c` from `at` on. */
  predicate Run(s: string, at: nat, c: char, n: nat) {
    at + n <= |s| && forall i :: at <= i < at + n ==> s[i] == c
  }

  lemma SpacesAre(s: string, at: nat, n: nat)
    requires Run(s, at, ' ', n) && (at + n < |s| ==> s[at + n] != ' ')
    ensures RunOf(Space, s, at) == n
  {
    RunIs(Space, s, at, n);
  }

  // ----- Quotes -----

  /** A quote mark behind up to three spaces, that ends at `end`: with the space behind it, if there is one. */
  predicate IsQuoteMark(s: string, at: nat, n: nat, end: nat) {
    && n <= 3 && Run(s, at, ' ', n) && at + n < |s| && s[at + n] == '>'
    && end == at + n + if at + n + 1 < |s| && s[at + n + 1] == ' ' then 2 else 1
  }

  lemma QuoteMarksExactly(s: string, at: nat, end: nat)
    requires at <= |s|
    ensures QuoteMark(s, at) == Some(end) <==> exists n :: IsQuoteMark(s, at, n, end)
    ensures MarkAt(s, at) == Quote(end) <==> exists n :: IsQuoteMark(s, at, n, end)
  {
    if QuoteMark(s, at) == Some(end) {
      assert IsQuoteMark(s, at, RunOf(Space, s, at), end);
    }
    if MarkAt(s, at) == Quote(end) {
      hide ValueOf;
      assert IsQuoteMark(s, at, RunOf(Space, s, at), end);
    }
    if n :| IsQuoteMark(s, at, n, end) {
      SpacesAre(s, at, n);
    }
  }

  // ----- List items -----

  /** The space behind a list mark ends at `end`: after one to four spaces and no fifth, after one of five or
      more, or at the end of the line. */
  predicate IsGap(s: string, gap: nat, end: nat) {
    || (gap == end == |s|)
    || (gap < end <= gap + 4 && Run(s, gap, ' ', end - gap) && (end < |s| ==> s[end] != ' '))
    || (end == gap + 1 && Run(s, gap, ' ', 5))
  }

  lemma GapsExactly(s: string, gap: nat, end: nat, number: Option<nat>)
    requires gap <= |s|
    ensures Gap(s, gap, number) == Item(gap, end, number) <==> IsGap(s, gap, end)
    ensures Gap(s, gap, number).Item? ==> Gap(s, gap, number) == Item(gap, Gap(s, gap, number).end, number)
  {
    var spaces := RunOf(Space, s, gap);
    assert forall i :: gap <= i < gap + spaces ==> s[i] == ' ';
    assert gap + spaces < |s| ==> s[gap + spaces] != ' ';
    if gap < end <= gap + 4 && Run(s, gap, ' ', end - gap) && (end < |s| ==> s[end] != ' ') {
      SpacesAre(s, gap, end - gap);
    }
  }

  /** A bullet behind `n` spaces, or a number of one to nine digits and its mark: `gap` is right behind. */
  predicate IsListMark(s: string, at: nat, n: nat, gap: nat, number: Option<nat>) {
    && n <= 3 && Run(s, at, ' ', n) && at + n < gap <= |s|
    && match number
       case None => gap == at + n + 1 && (s[at + n] == '-' || s[at + n] == '*' || s[at + n] == '+')
       case Some(value) =>
         && 2 <= gap - at - n <= 10
         && (forall i :: at + n <= i < gap - 1 ==> Digit(s[i]))
         && (s[gap - 1] == '.' || s[gap - 1] == ')') && value == ValueOf(s[at + n..gap - 1])
  }

  lemma ItemIsAListMark(s: string, at: nat, gap: nat, end: nat, number: Option<nat>)
    requires at <= |s| && MarkAt(s, at) == Item(gap, end, number)
    ensures IsListMark(s, at, RunOf(Space, s, at), gap, number) && IsGap(s, gap, end)
  {
    hide Gap, ValueOf, IsGap;
    var from := at + RunOf(Space, s, at);
    if s[from] == '-' || s[from] == '*' || s[from] == '+' {
      GapsExactly(s, from + 1, end, None);
    } else {
      var digits := RunOf(Digit, s, from);
      GapsExactly(s, from + digits + 1, end, Some(ValueOf(s[from..from + digits])));
    }
  }

  lemma ListMarkIsAnItem(s: string, at: nat, n: nat, gap: nat, end: nat, number: Option<nat>)
    requires at <= |s| && IsListMark(s, at, n, gap, number) && IsGap(s, gap, end)
    ensures MarkAt(s, at) == Item(gap, end, number)
  {
    hide Gap, ValueOf, IsGap;
    SpacesAre(s, at, n);
    GapsExactly(s, gap, end, number);
    if number.Some? {
      assert Digit(s[at + n]);
      RunIs(Digit, s, at + n, gap - 1 - at - n);
    }
  }

  /** Which marks open a list item, and where they end. */
  lemma ItemsExactly(s: string, at: nat, gap: nat, end: nat, number: Option<nat>)
    requires at <= |s|
    ensures MarkAt(s, at) == Item(gap, end, number) <==> IsGap(s, gap, end) && exists n :: IsListMark(s, at, n, gap, number)
  {
    hide MarkAt, IsGap, IsListMark;
    if MarkAt(s, at) == Item(gap, end, number) {
      ItemIsAListMark(s, at, gap, end, number);
    }
    if n :| IsGap(s, gap, end) && IsListMark(s, at, n, gap, number) {
      ListMarkIsAnItem(s, at, n, gap, end, number);
    }
  }

  // ----- Thematic breaks -----

  /** At three places at least. */
  predicate Thrice(c: char, s: string) {
    exists i, j, k :: 0 <= i < j < k < |s| && s[i] == s[j] == s[k] == c
  }

  lemma {:induction false} CountUpTo(c: char, s: string, n: nat)
    requires CountOf(c, s) >= n > 0
    ensures exists i :: 0 <= i < |s| && s[i] == c && CountOf(c, s[i + 1..]) >= n - 1
  {
    if s[0] == c {
      assert s[0 + 1..] == s[1..];
    } else {
      CountUpTo(c, s[1..], n);
      var i :| 0 <= i < |s[1..]| && s[1..][i] == c && CountOf(c, s[1..][i + 1..]) >= n - 1;
      assert s[1..][i + 1..] == s[i + 1 + 1..];
      assert s[i + 1] == c;
    }
  }

  lemma CountOfOne(c: char, s: string, i: nat)
    requires i < |s| && s[i] == c
    ensures CountOf(c, s) == CountOf(c, s[..i]) + 1 + CountOf(c, s[i + 1..])
  {
    assert s == s[..i] + ([c] + s[i + 1..]);
    CountOfAppend(c, s[..i], [c] + s[i + 1..]);
    assert ([c] + s[i + 1..])[1..] == s[i + 1..];
  }

  lemma CountedIsThrice(c: char, s: string)
    requires CountOf(c, s) >= 3
    ensures Thrice(c, s)
  {
    hide CountOf;
    CountUpTo(c, s, 3);
    var i :| 0 <= i < |s| && s[i] == c && CountOf(c, s[i + 1..]) >= 2;
    var rest := s[i + 1..];
    CountUpTo(c, rest, 2);
    var j :| 0 <= j < |rest| && rest[j] == c && CountOf(c, rest[j + 1..]) >= 1;
    var last := rest[j + 1..];
    CountUpTo(c, last, 1);
    var k :| 0 <= k < |last| && last[k] == c;
    assert s[i + 1 + j] == c && s[i + 1 + j + 1 + k] == c;
  }

  lemma ThriceIsCounted(c: char, s: string)
    ensures CountOf(c, s) >= 3 <==> Thrice(c, s)
  {
    hide CountOf;
    if CountOf(c, s) >= 3 {
      CountedIsThrice(c, s);
    }
    if i, j, k :| 0 <= i < j < k < |s| && s[i] == s[j] == s[k] == c {
      CountOfOne(c, s, i);
      var rest := s[i + 1..];
      CountOfOne(c, rest, j - i - 1);
      assert rest[j - i - 1 + 1..] == s[j + 1..];
      CountOfOne(c, s[j + 1..], k - j - 1);
    }
  }

  /** Up to three spaces, and then three or more of one break character with nothing but spaces and tabs
      between and behind. */
  predicate IsBreak(s: string, at: nat, n: nat, kind: char) {
    && n <= 3 && Run(s, at, ' ', n) && at + n < |s| && s[at + n] == kind
    && (kind == '*' || kind == '-' || kind == '_')
    && (forall i :: at + n <= i < |s| ==> s[i] == kind || s[i] == ' ' || s[i] == '\t')
    && Thrice(kind, s[at + n..])
  }

  lemma BreaksExactly(s: string, at: nat)
    requires at <= |s|
    ensures ThematicBreak(s, at) <==> exists n, kind :: IsBreak(s, at, n, kind)
  {
    hide Thrice, CountOf;
    if ThematicBreak(s, at) {
      var n := RunOf(Space, s, at);
      var rest := s[at + n..];
      ThriceIsCounted(s[at + n], rest);
      forall i | at + n <= i < |s| ensures s[i] == s[at + n] || s[i] == ' ' || s[i] == '\t' {
        assert rest[i - at - n] in rest;
      }
      assert IsBreak(s, at, n, s[at + n]);
    }
    if n, kind :| IsBreak(s, at, n, kind) {
      SpacesAre(s, at, n);
      var rest := s[at + n..];
      ThriceIsCounted(kind, rest);
      forall c | c in rest ensures c == kind || Blank(c) {
        var i :| 0 <= i < |rest| && rest[i] == c;
        assert s[at + n + i] == c;
      }
    }
  }

  // ----- Fences -----

  /** Words that open on exactly `width` of the mark, three or more, and for backticks hold no other behind. */
  predicate IsOpeningFence(words: string, mark: char, width: nat) {
    && (mark == '`' || mark == '~') && width >= 3 && Run(words, 0, mark, width)
    && (width < |words| ==> words[width] != mark)
    && (mark == '`' ==> forall i :: width <= i < |words| ==> words[i] != '`')
  }

  lemma OpeningFencesExactly(words: string, mark: char, width: nat)
    ensures OpeningFence(words) == Some(Some(Fenced(mark, width))) <==> IsOpeningFence(words, mark, width)
  {
    if OpeningFence(words) == Some(Some(Fenced(mark, width))) {
      assert width == RunOf(Is(mark), words, 0);
      forall i | width <= i < |words| && mark == '`' ensures words[i] != '`' {
        assert words[i] == words[width..][i - width];
      }
    }
    if IsOpeningFence(words, mark, width) {
      RunIs(Is(mark), words, 0, width);
    }
  }

  /** A code span instead: three backticks or more with another behind them. */
  lemma CodeSpansExactly(words: string)
    ensures OpeningFence(words) == Some(None) <==>
            exists width, i :: 3 <= width < i < |words| && Run(words, 0, '`', width) && words[width] != '`' && words[i] == '`'
  {
    if OpeningFence(words) == Some(None) {
      var width := RunOf(Is('`'), words, 0);
      assert '`' in words[width..];
      var i :| 0 <= i < |words[width..]| && words[width..][i] == '`';
      assert words[width + i] == '`';
      assert 3 <= width < width + i < |words| && Run(words, 0, '`', width) && words[width] != '`' && words[width + i] == '`';
    }
    if width, i :| 3 <= width < i < |words| && Run(words, 0, '`', width) && words[width] != '`' && words[i] == '`' {
      RunIs(Is('`'), words, 0, width);
      assert words[width..][i - width] == '`';
    }
  }

  /** Up to three spaces, the mark three times or more and as often as it opened, and only space behind. */
  predicate IsClosingFence(s: string, at: nat, n: nat, mark: char, count: nat, width: nat) {
    && n <= 3 && Run(s, at, ' ', n) && count >= 3 && count >= width && Run(s, at + n, mark, count)
    && forall i :: at + n + count <= i < |s| ==> s[i] == ' ' || s[i] == '\t'
  }

  lemma ClosingFencesExactly(mark: char, width: nat, s: string, at: nat)
    requires at <= |s| && (mark == '`' || mark == '~')
    ensures ClosingFence(mark, width, s, at) <==> exists n, count :: IsClosingFence(s, at, n, mark, count, width)
  {
    if ClosingFence(mark, width, s, at) {
      ClosingFenceIsOne(mark, width, s, at);
    }
    if n, count :| IsClosingFence(s, at, n, mark, count, width) {
      OneIsAClosingFence(mark, width, s, at, n, count);
    }
  }

  lemma ClosingFenceIsOne(mark: char, width: nat, s: string, at: nat)
    requires at <= |s| && ClosingFence(mark, width, s, at)
    ensures var n := RunOf(Space, s, at); IsClosingFence(s, at, n, mark, RunOf(Is(mark), s, at + n), width)
  {
    var n := RunOf(Space, s, at);
    var count := RunOf(Is(mark), s, at + n);
    var rest := s[at + n + count..];
    forall i | 0 <= i < |rest| ensures Blank(rest[i]) {
      assert rest[i] in rest;
    }
    forall i | at + n + count <= i < |s| ensures s[i] == ' ' || s[i] == '\t' {
      assert s[i] == rest[i - at - n - count];
    }
  }

  lemma OneIsAClosingFence(mark: char, width: nat, s: string, at: nat, n: nat, count: nat)
    requires at <= |s| && (mark == '`' || mark == '~') && IsClosingFence(s, at, n, mark, count, width)
    ensures ClosingFence(mark, width, s, at)
  {
    assert s[at + n] == mark;
    SpacesAre(s, at, n);
    RunIs(Is(mark), s, at + n, count);
    var rest := s[at + n + count..];
    forall c | c in rest ensures Blank(c) {
      var i :| 0 <= i < |rest| && rest[i] == c;
      assert s[at + n + count + i] == c;
    }
  }

  // ----- Underlines -----

  /** A run of `=` or of `-`, and spaces and tabs behind it. */
  predicate IsUnderline(words: string, n: nat) {
    && 0 < n <= |words| && (Run(words, 0, '=', n) || Run(words, 0, '-', n))
    && forall i :: n <= i < |words| ==> words[i] == ' ' || words[i] == '\t'
  }

  lemma UnderlinesExactly(words: string)
    ensures Underline(words) <==> exists n :: IsUnderline(words, n)
  {
    var run := DropBack(Blank, words);
    if Underline(words) {
      forall i | 0 <= i < |run| ensures words[i] == run[i] && run[i] in run {}
      assert IsUnderline(words, |run|);
    }
    if n :| IsUnderline(words, n) {
      assert !Blank(words[n - 1]);
      assert |run| == n;
      forall c | c in run ensures c == words[0] {
        var i :| 0 <= i < |run| && run[i] == c;
        assert words[i] == c;
      }
    }
  }

  // ----- Tabs -----

  /** A tab reaches the next stop of four, and any other character of an opening stands for itself. */
  lemma {:induction false} TabsReachStops(lead: string, c: char, column: nat)
    requires (forall x <- lead :: OpeningChar(x)) && OpeningChar(c)
    ensures forall x <- lead + [c] :: OpeningChar(x)
    ensures var (before, after) := (Expanded(lead, column), Expanded(lead + [c], column));
            if c == '\t' then
              && before <= after && |before| < |after| <= |before| + 4 && (column + |after|) % 4 == 0
              && forall i :: |before| <= i < |after| ==> after[i] == ' '
            else after == before + [c]
  {
    if lead == [] {
      assert [] + [c] == [c] && [c][1..] == [];
      assert Expanded([], column + 1) == [];
    } else {
      assert (lead + [c])[0] == lead[0] && (lead + [c])[1..] == lead[1..] + [c];
      var stop := if lead[0] == '\t' then 4 - column % 4 else 1;
      var first := if lead[0] == '\t' then seq(stop, i => ' ') else [lead[0]];
      TabsReachStops(lead[1..], c, column + stop);
      assert Expanded(lead, column) == first + Expanded(lead[1..], column + stop);
      assert Expanded(lead + [c], column) == first + Expanded(lead[1..] + [c], column + stop);
    }
  }
}
