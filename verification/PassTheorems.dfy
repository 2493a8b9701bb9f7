/** What each pass over a text does, in characters: line endings folded, comments and pictures found and taken
    out, blank runs shortened, the text cut. */
module PassTheorems {
  import opened Text
  import opened Fences
  import DrawnLines
  import opened RichText
  import Pipeline
  import RichTextTheorems

  // ----- The cut -----

  /** The first `n` characters of a text and the mark of the cut, nothing but space left out up to the limit. */
  predicate IsCut(t: string, limit: nat, n: nat, cut: string) {
    && n <= limit < |t| && cut == t[..n] + [ELLIPSIS]
    && (n > 0 ==> !PythonSpace(t[n - 1])) && forall i :: n <= i < limit ==> PythonSpace(t[i])
  }

  /** A text that fits is as it was, and any other is its first characters, not ending on a space, and the
      mark of the cut. */
  lemma CutExactly(text: string, limit: nat)
    ensures var t := Strip(PythonSpace, text);
            && (|t| <= limit ==> Cut(text, limit) == t)
            && (|t| > limit ==> exists n: nat :: IsCut(t, limit, n, Cut(text, limit)))
  {
    hide PythonSpace, Strip;
    var t := Strip(PythonSpace, text);
    if |t| > limit {
      var kept := DropBack(PythonSpace, t[..limit]);
      assert forall i :: 0 <= i < limit ==> t[..limit][i] == t[i];
      assert t[..limit][..|kept|] == t[..|kept|];
      assert IsCut(t, limit, |kept|, Cut(text, limit));
    }
  }

  /** So it is uncut if and only if it fits, or the mark of the cut is all that was over. */
  lemma UncutExactly(text: string, limit: nat)
    ensures var t := Strip(PythonSpace, text);
            Cut(text, limit) == t
            <==> |t| <= limit || (|t| == limit + 1 && t[limit] == ELLIPSIS && (limit > 0 ==> !PythonSpace(t[limit - 1])))
    ensures |Cut(text, limit)| <= limit + 1
  {
    hide PythonSpace, Cut, Strip;
    CutExactly(text, limit);
    var t := Strip(PythonSpace, text);
    if |t| > limit {
      var n: nat :| IsCut(t, limit, n, Cut(text, limit));
      if Cut(text, limit) == t {
        assert |t| == n + 1 && t[n] == ELLIPSIS;
      }
      if |t| == limit + 1 && t[limit] == ELLIPSIS && (limit > 0 ==> !PythonSpace(t[limit - 1])) {
        assert n == limit;
        assert t == t[..limit] + [t[limit]];
      }
    }
  }

  lemma CutTextIsWithin(body: string, limit: nat, images: Images)
    ensures |Pipeline.CutText(body, limit, images)| <= limit + 1
  {
    hide Cut, DrawnLines.Rewritten, WithoutBlankRuns, ToBeShown, Written;
    RichTextTheorems.WhatIsShownFits(body, images);
    var written := Written(body);
    UncutExactly(WithoutBlankRuns(DrawnLines.Rewritten(written, Some(ToBeShown(written, images)))), limit);
  }

  // ----- Blank runs -----

  predicate ThreeBreaks(s: string, i: nat) { i + 2 < |s| && s[i] == s[i + 1] == s[i + 2] == '\n' }

  lemma ShortenedStep(s: string)
    requires s != []
    ensures var run := RunOf(IsBreak, s, 0);
            WithoutBlankRuns(s) == if run >= 3 then "\n\n" + WithoutBlankRuns(s[run..]) else [s[0]] + WithoutBlankRuns(s[1..])
  {
  }

  lemma BreaksBehind(s: string, c: char)
    ensures RunOf(IsBreak, [c] + s, 0) == if c == '\n' then 1 + RunOf(IsBreak, s, 0) else 0
  {
    var run := RunOf(IsBreak, s, 0);
    if c == '\n' {
      assert forall i :: 0 < i < 1 + run ==> ([c] + s)[i] == s[i - 1];
      RunIs(IsBreak, [c] + s, 0, 1 + run);
    }
  }

  /** However many breaks a text opens on, two at most are left. */
  lemma {:induction false} OpensOnTwo(s: string)
    ensures var (before, after) := (RunOf(IsBreak, s, 0), RunOf(IsBreak, WithoutBlankRuns(s), 0));
            after == if before > 2 then 2 else before
    decreases |s|
  {
    hide WithoutBlankRuns;
    if s == [] {
      NothingShortened();
    } else {
      ShortenedStep(s);
      var run := RunOf(IsBreak, s, 0);
      if run >= 3 {
        var rest := WithoutBlankRuns(s[run..]);
        OpensOnTwo(s[run..]);
        BreaksBehind(rest, '\n');
        BreaksBehind("\n" + rest, '\n');
        assert "\n\n" + rest == "\n" + ("\n" + rest);
      } else {
        OpensOnTwo(s[1..]);
        BreaksBehind(s[1..], s[0]);
        assert [s[0]] + s[1..] == s;
        BreaksBehind(WithoutBlankRuns(s[1..]), s[0]);
      }
    }
  }

  lemma NothingShortened()
    ensures WithoutBlankRuns("") == ""
  {
  }

  lemma OnlyTwo(s: string)
    requires RunOf(IsBreak, s, 0) <= 2
    ensures !ThreeBreaks(s, 0)
  {
  }

  lemma BreaksMoved(s: string, c: char, i: nat)
    ensures i > 0 ==> (ThreeBreaks([c] + s, i) <==> ThreeBreaks(s, i - 1))
  {
  }

  /** No three breaks are left in a row. */
  lemma {:induction false} NoThreeBreaks(s: string, i: nat)
    ensures !ThreeBreaks(WithoutBlankRuns(s), i)
    decreases |s|, i
  {
    hide WithoutBlankRuns, ThreeBreaks;
    if i == 0 {
      OpensOnTwo(s);
      OnlyTwo(WithoutBlankRuns(s));
    } else if s == [] {
      NothingShortened();
      NoneInNothing(i);
    } else {
      ShortenedStep(s);
      var run := RunOf(IsBreak, s, 0);
      if run >= 3 {
        var rest := WithoutBlankRuns(s[run..]);
        assert "\n\n" + rest == "\n" + ("\n" + rest);
        BreaksMoved("\n" + rest, '\n', i);
        if i == 1 {
          OpensOnTwo(s[run..]);
          BreaksBehind(rest, '\n');
          OnlyTwo("\n" + rest);
        } else {
          BreaksMoved(rest, '\n', i - 1);
          NoThreeBreaks(s[run..], i - 2);
        }
      } else {
        BreaksMoved(WithoutBlankRuns(s[1..]), s[0], i);
        NoThreeBreaks(s[1..], i - 1);
      }
    }
  }

  lemma NoneInNothing(i: nat)
    ensures !ThreeBreaks("", i)
  {
  }

  lemma SameRun(a: string, b: string)
    requires a != [] && a[|a| - 1] != '\n'
    ensures RunOf(IsBreak, a + b, 0) == RunOf(IsBreak, a, 0) < |a|
  {
    var run := RunOf(IsBreak, a, 0);
    assert run == |a| ==> IsBreak(a[|a| - 1]);
    RunIs(IsBreak, a + b, 0, run);
  }

  lemma Behind(a: string, b: string, n: nat)
    requires n <= |a|
    ensures (a + b)[n..] == a[n..] + b
    ensures n < |a| ==> a[n..][|a[n..]| - 1] == a[|a| - 1]
  {
  }

  lemma Regrouped(a: string, b: string, c: string)
    ensures a + (b + c) == a + b + c
  {
  }

  /** A text shortened up to where it ends on no break, and from there on. */
  lemma {:induction false} ShortenedInParts(a: string, b: string)
    requires a == [] || a[|a| - 1] != '\n'
    ensures WithoutBlankRuns(a + b) == WithoutBlankRuns(a) + WithoutBlankRuns(b)
    decreases |a|
  {
    hide WithoutBlankRuns;
    if a == [] {
      NothingShortened();
      assert a + b == b;
    } else {
      ShortenedStep(a);
      ShortenedStep(a + b);
      SameRun(a, b);
      var run := RunOf(IsBreak, a, 0);
      hide RunOf;
      var n, first := if run >= 3 then run else 1, if run >= 3 then "\n\n" else [a[0]];
      Behind(a, b, n);
      ShortenedInParts(a[n..], b);
      Regrouped(first, WithoutBlankRuns(a[n..]), WithoutBlankRuns(b));
    }
  }

  /** A run of breaks in front of what opens on none: as it was up to two, and two of any more. */
  lemma {:induction false} RunsShortened(n: nat, b: string)
    requires b == [] || b[0] != '\n'
    ensures WithoutBlankRuns(Repeat('\n', n) + b) == Repeat('\n', if n > 2 then 2 else n) + WithoutBlankRuns(b)
  {
    hide WithoutBlankRuns;
    var s := Repeat('\n', n) + b;
    RunIs(IsBreak, s, 0, n);
    if n == 0 {
      assert s == b;
    } else {
      ShortenedStep(s);
      if n >= 3 {
        assert s[n..] == b;
        assert Repeat('\n', 2) == "\n\n";
      } else {
        RunsShortened(n - 1, b);
        assert s[1..] == Repeat('\n', n - 1) + b;
        assert [s[0]] + Repeat('\n', n - 1) == Repeat('\n', n);
        assert [s[0]] + (Repeat('\n', n - 1) + WithoutBlankRuns(b)) == Repeat('\n', n) + WithoutBlankRuns(b);
      }
    }
  }

  /** So blank runs are shortened to one blank line, wherever they are, and nothing else is changed. */
  lemma BlankRunsExactly(a: string, n: nat, b: string)
    requires (a == [] || a[|a| - 1] != '\n') && (b == [] || b[0] != '\n')
    ensures WithoutBlankRuns(a + Repeat('\n', n) + b)
         == WithoutBlankRuns(a) + Repeat('\n', if n > 2 then 2 else n) + WithoutBlankRuns(b)
  {
    hide WithoutBlankRuns, Repeat;
    assert a + Repeat('\n', n) + b == a + (Repeat('\n', n) + b);
    ShortenedInParts(a, Repeat('\n', n) + b);
    RunsShortened(n, b);
  }

  lemma {:induction false} NothingToShorten(s: string)
    requires '\n' !in s
    ensures WithoutBlankRuns(s) == s
  {
    if s != [] {
      assert s[0] in s;
      NothingToShorten(s[1..]);
    }
  }

  // ----- Line endings -----

  lemma {:induction false} NothingToFold(s: string)
    requires '\r' !in s
    ensures Folded(s) == s
  {
    if s != [] {
      assert s[0] in s;
      NothingToFold(s[1..]);
    }
  }

  lemma FoldedStep(s: string)
    requires s != []
    ensures RichText.Folded(s)
         == if s[0] != '\r' then [s[0]] + RichText.Folded(s[1..])
            else if |s| > 1 && s[1] == '\n' then "\n" + RichText.Folded(s[2..])
            else "\n" + RichText.Folded(s[1..])
  {
  }

  lemma {:induction false} FoldedInParts(a: string, b: string)
    requires a == [] || b == [] || a[|a| - 1] != '\r' || b[0] != '\n'
    ensures RichText.Folded(a + b) == RichText.Folded(a) + RichText.Folded(b)
    decreases |a|
  {
    hide RichText.Folded;
    if a == [] {
      NothingToFold(a);
      assert a + b == b;
    } else {
      var n := if a[0] == '\r' && |a| > 1 && a[1] == '\n' then 2 else 1;
      Behind(a, b, n);
      FoldedInParts(a[n..], b);
      FoldedStep(a);
      FoldedStep(a + b);
      assert |a| > 1 ==> (a + b)[1] == a[1];
      Regrouped(if a[0] == '\r' then "\n" else [a[0]], RichText.Folded(a[n..]), RichText.Folded(b));
    }
  }

  /** A carriage return is a line break, with the line break behind it where there is one. */
  lemma FoldedExactly(a: string, b: string)
    ensures RichText.Folded(a + "\r\n" + b) == RichText.Folded(a) + "\n" + RichText.Folded(b)
    ensures (b == [] || b[0] != '\n') ==> RichText.Folded(a + "\r" + b) == RichText.Folded(a) + "\n" + RichText.Folded(b)
  {
    hide RichText.Folded;
    FoldedInParts(a, "\r\n" + b);
    FoldedStep("\r\n" + b);
    FoldedInParts(a, "\r" + b);
    FoldedStep("\r" + b);
    assert ("\r\n" + b)[2..] == b && ("\r" + b)[1..] == b;
    assert a + "\r\n" + b == a + ("\r\n" + b) && a + "\r" + b == a + ("\r" + b);
  }

  /** And a byte order mark in front is taken off, once. */
  lemma WrittenExactly(body: string)
    ensures Written(['\U{FEFF}'] + body) == Folded(body)
    ensures body == [] || body[0] != '\U{FEFF}' ==> Written(body) == Folded(body)
  {
    assert (['\U{FEFF}'] + body)[1..] == body;
  }

  // ----- Comments -----

  lemma {:induction false} FindExactly(s: string, sub: string, from: nat, at: nat)
    ensures Find(s, sub, from) == Some(at)
            <==> from <= at && StartsAt(s, at, sub) && forall i :: from <= i < at ==> !StartsAt(s, i, sub)
    decreases |s| + 1 - from
  {
    if from <= |s| && !StartsAt(s, from, sub) {
      FindExactly(s, sub, from + 1, at);
    }
  }

  /** A comment ends behind the first `-->` its opening has no part in, and one never closed is no comment. */
  lemma CommentsExactly(s: string, at: nat, end: nat)
    ensures CommentEnd(s, at) == Some(end)
            <==> && StartsAt(s, at, "<!--") && at + 7 <= end && StartsAt(s, end - 3, "-->")
                 && forall i :: at + 4 <= i < end - 3 ==> !StartsAt(s, i, "-->")
  {
    hide Find, StartsAt;
    if end >= 3 {
      FindExactly(s, "-->", at + 4, end - 3);
    }
  }

  /** Nothing is taken out in front of the first comment, and of it what it leaves behind stays. */
  lemma {:induction false} FirstCommentGoes(s: string, at: nat, k: nat, end: nat)
    requires at <= k && (forall i :: at <= i < k ==> CommentEnd(s, i).None?) && CommentEnd(s, k) == Some(end)
    ensures k < end <= |s|
    ensures WithoutComments(s, at) == s[at..k] + LeftBehind(s, k, end) + WithoutComments(s, end)
    decreases k - at
  {
    hide CommentEnd, LeftBehind;
    if at < k {
      FirstCommentGoes(s, at + 1, k, end);
      assert s[at..k] == [s[at]] + s[at + 1..k];
      assert [s[at]] + (s[at + 1..k] + LeftBehind(s, k, end) + WithoutComments(s, end))
          == s[at..k] + LeftBehind(s, k, end) + WithoutComments(s, end);
    } else {
      assert s[at..k] == [] && [] + LeftBehind(s, k, end) == LeftBehind(s, k, end);
    }
  }

  lemma {:induction false} NoCommentStays(s: string, at: nat)
    requires at <= |s| && forall i :: at <= i < |s| ==> CommentEnd(s, i).None?
    ensures WithoutComments(s, at) == s[at..]
    decreases |s| - at
  {
    hide CommentEnd, LeftBehind;
    if at < |s| {
      NoCommentStays(s, at + 1);
      assert s[at..] == [s[at]] + s[at + 1..];
    }
  }

  /** A mark could open at what is behind: after spaces and tabs, a quote mark, a digit or what ends a mark. */
  predicate CouldOpen(s: string, at: nat, k: nat) {
    && at <= k < |s| && (forall i :: at <= i < k ==> s[i] == ' ' || s[i] == '\t')
    && (s[k] == '>' || '0' <= s[k] <= '9' || s[k] in "#-*+.)")
  }

  /** And at what is in front: the end of a mark, and a space behind what goes. */
  predicate CouldEnd(s: string, start: nat, end: nat)
  {
    0 < start <= |s| && s[start - 1] in "#-*+.)" && end < |s| && (s[end] == ' ' || s[end] == '\t')
  }

  lemma EndsOfMarks(c: char)
    ensures MarkEnd(c) <==> c in "#-*+.)"
  {
    assert "#-*+.)"[0] == '#' && "#-*+.)"[1] == '-' && "#-*+.)"[2] == '*' && "#-*+.)"[3] == '+' && "#-*+.)"[4] == '.'
           && "#-*+.)"[5] == ')';
  }

  /** What is taken out leaves a join for each break it held, and a zero-width space where what is on either
      side of it could otherwise open a mark. */
  lemma LeftBehindExactly(s: string, start: nat, end: nat)
    requires start <= end <= |s|
    ensures LeftBehind(s, start, end)
         == Repeat(DrawnLines.JOINED, CountOf('\n', s[start..end]))
            + if CouldEnd(s, start, end) || exists k: nat :: CouldOpen(s, end, k) then [ZERO_WIDTH_SPACE] else []
  {
    hide CountOf, Repeat;
    var left := Repeat(DrawnLines.JOINED, CountOf('\n', s[start..end]));
    assert left + [] == left;
    if start > 0 { EndsOfMarks(s[start - 1]); }
    var from := end + RunOf(Blank, s, end);
    if from < |s| { EndsOfMarks(s[from]); }
    if MarkAhead(s, end) {
      assert CouldOpen(s, end, from);
    }
    if k: nat :| CouldOpen(s, end, k) {
      NotBlank(s[k]);
      RunIs(Blank, s, end, k - end);
    }
  }

  lemma NotBlank(c: char)
    ensures c == '>' || '0' <= c <= '9' || c in "#-*+.)" ==> !Blank(c)
  {
    EndsOfMarks(c);
  }

  // ----- Links and pictures -----

  /** A link is words between brackets, with no bracket and no break in them, and an address between
      parentheses right behind, with no parenthesis, no angle and no space in it. */
  lemma LinksExactly(s: string, at: nat, title: string, url: string, end: nat)
    ensures LinkAt(s, at) == Some(Link(at, title, url, end))
            <==> && at <= end <= |s| && s[at..end] == "[" + title + "](" + url + ")"
                 && (forall c <- title :: TitleChar(c)) && (forall c <- url :: AddressChar(c))
  {
    hide TitleChar, AddressChar;
    var whole := "[" + title + "](" + url + ")";
    if at <= end <= |s| && s[at..end] == whole && (forall c <- title :: TitleChar(c)) && forall c <- url :: AddressChar(c) {
      var close := at + 1 + |title|;
      assert end == close + 2 + |url| + 1;
      forall i | 0 <= i < |whole| ensures s[at + i] == whole[i] {
        assert s[at..end][i] == s[at + i];
      }
      LinkIsRead(s, at, title, url, close, close + 2 + |url|);
    }
  }

  lemma LinkIsRead(s: string, at: nat, title: string, url: string, close: nat, end: nat)
    requires close == at + 1 + |title| && end == close + 2 + |url| && end < |s|
    requires var whole := "[" + title + "](" + url + ")"; forall i :: 0 <= i < |whole| ==> s[at + i] == whole[i]
    requires (forall c <- title :: TitleChar(c)) && forall c <- url :: AddressChar(c)
    ensures LinkAt(s, at) == Some(Link(at, title, url, end + 1))
  {
    var whole := "[" + title + "](" + url + ")";
    assert whole[0] == '[' && whole[1 + |title|] == ']' && whole[2 + |title|] == '(' && whole[|whole| - 1] == ')';
    assert s[at] == '[' && s[close] == ']' && s[close + 1] == '(' && s[end] == ')';
    forall i | 0 <= i < |title| ensures s[at + 1 + i] == title[i] && title[i] in title {
      assert whole[1 + i] == title[i];
    }
    forall i | 0 <= i < |url| ensures s[close + 2 + i] == url[i] && url[i] in url {
      assert whole[3 + |title| + i] == url[i];
    }
    assert s[at + 1..close] == title && s[close + 2..end] == url;
    RunsOfALink(s, at, close, end);
  }

  lemma RunsOfALink(s: string, at: nat, close: nat, end: nat)
    requires at < close && close + 2 <= end < |s| && s[at] == '[' && s[close] == ']' && s[close + 1] == '(' && s[end] == ')'
    requires forall i :: at < i < close ==> TitleChar(s[i])
    requires forall i :: close + 2 <= i < end ==> AddressChar(s[i])
    ensures LinkAt(s, at) == Some(Link(at, s[at + 1..close], s[close + 2..end], end + 1))
  {
    hide *;
    TitleEnds(s, at + 1, close);
    AddressEnds(s, close + 2, end);
    LinkReads(s, at, close, end);
  }

  lemma TitleEnds(s: string, from: nat, close: nat)
    requires from <= close < |s| && s[close] == ']' && forall i :: from <= i < close ==> TitleChar(s[i])
    ensures from + RunOf(TitleChar, s, from) == close
  {
    ClosersAreNeither();
    hide TitleChar;
    RunIs(TitleChar, s, from, close - from);
  }

  lemma AddressEnds(s: string, from: nat, close: nat)
    requires from <= close < |s| && s[close] == ')' && forall i :: from <= i < close ==> AddressChar(s[i])
    ensures from + RunOf(AddressChar, s, from) == close
  {
    ClosersAreNeither();
    hide AddressChar;
    RunIs(AddressChar, s, from, close - from);
  }

  lemma LinkReads(s: string, at: nat, close: nat, end: nat)
    requires at < close && close + 2 <= end < |s| && s[at] == '[' && s[close] == ']' && s[close + 1] == '(' && s[end] == ')'
    requires close == at + 1 + RunOf(TitleChar, s, at + 1) && end == close + 2 + RunOf(AddressChar, s, close + 2)
    ensures LinkAt(s, at) == Some(Link(at, s[at + 1..close], s[close + 2..end], end + 1))
  {
    hide TitleChar, AddressChar, RunOf;
  }

  lemma ClosersAreNeither()
    ensures !TitleChar(']') && !AddressChar(')')
  {
  }

  /** A picture is a link behind a bang: the first is shown as its words, or as what it leaves behind where
      it has none. */
  lemma {:induction false} FirstPictureGoes(s: string, at: nat, k: nat, link: Link)
    requires at <= k < |s| && (forall i :: at <= i < k ==> ImageAt(s, i).None?) && ImageAt(s, k) == Some(link)
    ensures k < link.end <= |s|
    ensures Shown(s, at)
         == s[at..k] + (if link.title != [] then AsWords(link.title) else LeftBehind(s, k, link.end)) + Shown(s, link.end)
    decreases k - at
  {
    hide *;
    PictureFits(s, k);
    ShownStep(s, at);
    if at < k {
      FirstPictureGoes(s, at + 1, k, link);
      assert s[at..k] == [s[at]] + s[at + 1..k];
    } else {
      assert s[at..k] == [];
    }
  }

  lemma ShownStep(s: string, at: nat)
    requires at < |s|
    ensures Shown(s, at)
         == match ImageAt(s, at)
            case None => [s[at]] + Shown(s, at + 1)
            case Some(link) => (if link.title != [] then AsWords(link.title) else LeftBehind(s, at, link.end)) + Shown(s, link.end)
    ensures PicturesAsLinks(s, at)
         == match ImageAt(s, at)
            case None => [s[at]] + PicturesAsLinks(s, at + 1)
            case Some(link) => s[at + 1..link.end] + PicturesAsLinks(s, link.end)
  {
    hide LinkAt, AsWords, LeftBehind;
  }

  lemma PictureFits(s: string, k: nat)
    ensures ImageAt(s, k).Some? ==> k < |s| && s[k] == '!' && k < ImageAt(s, k).value.end <= |s|
  {
    hide LinkAt;
  }

  /** Or keeps all but its bang, as a link. */
  lemma {:induction false} FirstPictureStays(s: string, at: nat, k: nat, link: Link)
    requires at <= k < |s| && (forall i :: at <= i < k ==> ImageAt(s, i).None?) && ImageAt(s, k) == Some(link)
    ensures k < link.end <= |s|
    ensures PicturesAsLinks(s, at) == s[at..k] + s[k + 1..link.end] + PicturesAsLinks(s, link.end)
    decreases k - at
  {
    hide *;
    PictureFits(s, k);
    ShownStep(s, at);
    if at < k {
      FirstPictureStays(s, at + 1, k, link);
      assert s[at..k] == [s[at]] + s[at + 1..k];
    } else {
      assert s[at..k] == [];
    }
  }

  lemma {:induction false} NoPictureStays(s: string, at: nat)
    requires at <= |s| && forall i :: at <= i < |s| ==> s[i] != '!' || LinkAt(s, i + 1).None?
    ensures Shown(s, at) == s[at..] && PicturesAsLinks(s, at) == s[at..]
    decreases |s| - at
  {
    hide LinkAt, LeftBehind;
    if at < |s| {
      NoPictureStays(s, at + 1);
      assert s[at..] == [s[at]] + s[at + 1..];
    }
  }

  // ----- Where a link goes -----

  /** A host is GitHub's where it is one of its two names, or ends on one behind a dot. */
  lemma IsGitHubExactly(host: string)
    ensures IsGitHub(host)
            <==> exists at :: 0 <= at <= |host| && (host[at..] == "github.com" || host[at..] == "githubusercontent.com")
                              && (at > 0 ==> host[at - 1] == '.')
  {
    EndsInADot(host, "github.com");
    EndsInADot(host, "githubusercontent.com");
    assert ".github.com" == "." + "github.com" && ".githubusercontent.com" == "." + "githubusercontent.com";
    assert host[0..] == host;
  }

  lemma EndsInADot(host: string, name: string)
    ensures EndsIn(host, "." + name) <==> exists at :: 0 < at <= |host| && host[at..] == name && host[at - 1] == '.'
  {
    if EndsIn(host, "." + name) {
      var at := |host| - |name|;
      assert host[at - 1..] == "." + name;
      assert host[at - 1..][1..] == host[at..] && host[at - 1..][0] == host[at - 1];
    }
    if at :| 0 < at <= |host| && host[at..] == name && host[at - 1] == '.' {
      assert host[at - 1..] == [host[at - 1]] + host[at..];
    }
  }

  /** A link is GitHub's only over `https` and to such a host, and words only over `https` to another. */
  lemma FatesExactly(lib: Library, url: string)
    ensures var https := |url| >= 8 && url[..8] == "https://" && lib.host(url).Some?;
            && (FateOf(lib, url) == ToGitHub <==> https && IsGitHub(lib.host(url).value))
            && (FateOf(lib, url) == Named <==>
                  https && !IsGitHub(lib.host(url).value) && (FencesIn(url) + FencesIn(lib.host(url).value)) % 2 == 0)
  {
    hide IsGitHub, FencesIn;
  }

  // ----- The text as its links and what is between -----

  lemma {:induction false} NextLinkExactly(s: string, from: nat, link: Link)
    ensures NextLink(s, from) == Some(link)
            <==> from <= link.start && LinkAt(s, link.start) == Some(link) && forall i :: from <= i < link.start ==> LinkAt(s, i).None?
    decreases |s| + 1 - from
  {
    LinkStartsInside(s, link);
    hide LinkAt;
    if from <= |s| && LinkAt(s, from).None? {
      NextLinkExactly(s, from + 1, link);
    }
  }

  lemma LinkStartsInside(s: string, link: Link)
    ensures LinkAt(s, link.start) == Some(link) ==> link.start < |s|
    ensures forall i, other :: LinkAt(s, i) == Some(other) ==> other.start == i
  {
    hide TitleChar, AddressChar;
  }

  lemma {:induction false} NoNextLink(s: string, from: nat)
    ensures NextLink(s, from).None? <==> forall i :: from <= i < |s| ==> LinkAt(s, i).None?
    decreases |s| + 1 - from
  {
    if from < |s| && LinkAt(s, from).None? {
      NoNextLink(s, from + 1);
    }
  }

  function WrittenAs(piece: Piece): string {
    match piece
    case Typed(text) => text
    case Linked(title, url) => "[" + title + "](" + url + ")"
  }

  /** The pieces of a text from a place on: each link where one is, and no link anywhere in what is typed. */
  predicate InPlace(s: string, from: nat, pieces: seq<Piece>)
    decreases |pieces|
  {
    if pieces == [] then from == |s|
    else
      var end := from + |WrittenAs(pieces[0])|;
      && end <= |s| && s[from..end] == WrittenAs(pieces[0])
      && (pieces[0].Linked? ==> LinkAt(s, from) == Some(Link(from, pieces[0].title, pieces[0].url, end)))
      && (pieces[0].Typed? ==> forall i :: from <= i < end ==> LinkAt(s, i).None?)
      && InPlace(s, end, pieces[1..])
  }

  /** Which is how every text is taken apart. */
  lemma {:induction false} PiecesAreInPlace(s: string, from: nat)
    requires from <= |s|
    ensures InPlace(s, from, Pieces(s, from))
    decreases |s| - from
  {
    hide LinkAt;
    var pieces := Pieces(s, from);
    NoNextLink(s, from);
    match NextLink(s, from)
    case None =>
      assert pieces == [Typed(s[from..])] && s[from..|s|] == s[from..];
      assert InPlace(s, |s|, pieces[1..]);
    case Some(link) =>
      NextLinkExactly(s, from, link);
      LinkSpans(s, link.start);
      PiecesAreInPlace(s, link.end);
      var typed, linked := Typed(s[from..link.start]), Linked(link.title, link.url);
      assert pieces[1..][0] == linked && pieces[1..][1..] == Pieces(s, link.end);
      assert InPlace(s, link.start, pieces[1..]);
  }

  lemma LinkSpans(s: string, at: nat)
    ensures LinkAt(s, at).Some? ==>
              var link := LinkAt(s, at).value;
              && link.start == at < link.end <= |s| && s[at..link.end] == WrittenAs(Linked(link.title, link.url))
              && link.end == at + |WrittenAs(Linked(link.title, link.url))|
  {
    hide TitleChar, AddressChar;
  }

  /** The pictures of a body, in order: each the first behind the one before. */
  lemma {:induction false} PicturesInOrder(s: string, at: nat, k: nat)
    requires at <= k <= |s| && forall i :: at <= i < k ==> ImageAt(s, i).None?
    ensures k == |s| ==> Pipeline.Pictures(s, at) == []
    ensures ImageAt(s, k).Some? && k < |s| ==>
              var image := ImageAt(s, k).value;
              image.end <= |s| && Pipeline.Pictures(s, at) == [image] + Pipeline.Pictures(s, image.end)
    decreases k - at
  {
    PictureFits(s, k);
    hide ImageAt;
    if at < k {
      PicturesInOrder(s, at + 1, k);
    }
  }

  // ----- Commits -----

  lemma {:induction false} InOrderParts(commits: seq<Commit>, from: nat, to: nat, k: nat)
    requires InOrder(commits, from, to) && k < |commits|
    ensures from <= commits[k].start <= commits[k].end <= to
    ensures InOrder(commits[..k], from, commits[k].start) && InOrder(commits[k + 1..], commits[k].end, to)
    decreases |commits|
  {
    if k > 0 {
      InOrderParts(commits[1..], commits[0].end, to, k - 1);
      assert commits[..k][0] == commits[0] && commits[..k][1..] == commits[1..][..k - 1];
      assert commits[1..][k - 1] == commits[k] && commits[1..][k..] == commits[k + 1..];
    }
  }

  lemma {:induction false} NoneLinked(text: string, from: nat, commits: seq<Commit>)
    requires from <= |text| && InOrder(commits, from, |text|) && forall i :: 0 <= i < |commits| ==> commits[i].link.None?
    ensures Spliced(text, from, commits) == text[from..]
    decreases |commits|
  {
    if commits != [] {
      NoneLinked(text, commits[0].end, commits[1..]);
      assert text[from..] == text[from..commits[0].end] + text[commits[0].end..];
    }
  }

  /** What a text says up to the end of a hash. */
  function UpToHash(text: string, from: nat, c: Commit): string
    requires from <= c.start <= c.end <= |text|
  {
    if c.link.None? then text[from..c.end] else text[from..c.start] + c.link.value
  }

  lemma SplicedFirst(text: string, from: nat, commits: seq<Commit>)
    requires from <= |text| && InOrder(commits, from, |text|) && commits != []
    ensures from <= commits[0].start <= commits[0].end <= |text|
    ensures Spliced(text, from, commits) == UpToHash(text, from, commits[0]) + Spliced(text, commits[0].end, commits[1..])
  {
  }

  lemma UpToHashInside(text: string, from: nat, c: Commit, to: nat)
    requires from <= c.start <= c.end <= to <= |text|
    ensures UpToHash(text[..to], from, c) == UpToHash(text, from, c)
    ensures UpToHash(text, from, c)
         == text[..c.start][from..] + if c.link.Some? then c.link.value else text[c.start..c.end]
  {
    assert text[..to][from..c.end] == text[from..c.end] && text[..to][from..c.start] == text[from..c.start];
    assert text[..c.start][from..] == text[from..c.start];
    assert text[from..c.end] == text[from..c.start] + text[c.start..c.end];
  }

  lemma NoneSpliced(text: string, from: nat)
    requires from <= |text|
    ensures Spliced(text, from, []) == text[from..]
  {
  }

  /** Any one hash becomes its link, or stays where it has none, and what is before and behind it is as it
      would be without it. */
  lemma {:induction false} OneCommitLinked(text: string, from: nat, commits: seq<Commit>, k: nat)
    requires from <= |text| && InOrder(commits, from, |text|) && k < |commits|
    ensures var c := commits[k];
            && from <= c.start <= c.end <= |text|
            && InOrder(commits[..k], from, c.start) && InOrder(commits[k + 1..], c.end, |text|)
            && Spliced(text, from, commits)
               == Spliced(text[..c.start], from, commits[..k])
                  + (if c.link.Some? then c.link.value else text[c.start..c.end]) + Spliced(text, c.end, commits[k + 1..])
    decreases |commits|
  {
    hide Spliced, UpToHash;
    InOrderParts(commits, from, |text|, k);
    SplicedFirst(text, from, commits);
    var c, first := commits[k], commits[0];
    if k == 0 {
      assert commits[..0] == [];
      NoneSpliced(text[..c.start], from);
      UpToHashInside(text, from, c, |text|);
    } else {
      OneCommitLinked(text, first.end, commits[1..], k - 1);
      assert commits[1..][k - 1] == c && commits[1..][k..] == commits[k + 1..];
      assert commits[..k][0] == first && commits[..k][1..] == commits[1..][..k - 1];
      SplicedFirst(text[..c.start], from, commits[..k]);
      UpToHashInside(text, from, first, c.start);
    }
  }
}
