/** What the pipeline from a body to Discord keeps: its line breaks, its fences, and its links. */
module RichTextTheorems {
  import opened Text
  import opened Fences
  import opened DrawnLines
  import opened RichText

  // ----- Line breaks -----

  /** The line breaks of what is shown: those GitHub read, and those shown as joined. */
  function Breaks(s: string): nat { CountOf('\n', s) + CountOf(JOINED, s) }

  lemma BreaksAppend(a: string, b: string)
    ensures Breaks(a + b) == Breaks(a) + Breaks(b)
  {
    CountOfAppend('\n', a, b);
    CountOfAppend(JOINED, a, b);
  }

  lemma NoBreaks(s: string)
    requires '\n' !in s && JOINED !in s
    ensures Breaks(s) == 0
  {
    CountOfNone('\n', s);
    CountOfNone(JOINED, s);
  }

  lemma {:induction false} CountOfRepeat(c: char, n: nat)
    ensures CountOf(c, Repeat(c, n)) == n
  {
    if n > 0 {
      assert Repeat(c, n)[1..] == Repeat(c, n - 1);
      CountOfRepeat(c, n - 1);
    }
  }

  lemma LeftBehindKeepsBreaks(s: string, start: nat, end: nat)
    requires start <= end <= |s|
    ensures Breaks(LeftBehind(s, start, end)) == CountOf('\n', s[start..end])
  {
    var n := CountOf('\n', s[start..end]);
    CountOfRepeat(JOINED, n);
    CountOfNone('\n', Repeat(JOINED, n));
    BreaksAppend(Repeat(JOINED, n), [ZERO_WIDTH_SPACE]);
    NoBreaks([ZERO_WIDTH_SPACE]);
  }

  lemma {:induction false} CommentsKeepBreaks(s: string, at: nat)
    requires at <= |s| && JOINED !in s
    ensures Breaks(WithoutComments(s, at)) == CountOf('\n', s[at..])
    decreases |s| - at
  {
    hide CommentEnd, LeftBehind;
    if at < |s| {
      match CommentEnd(s, at)
      case Some(end) =>
        LeftBehindKeepsBreaks(s, at, end);
        CommentsKeepBreaks(s, end);
        BreaksAppend(LeftBehind(s, at, end), WithoutComments(s, end));
        assert s[at..] == s[at..end] + s[end..];
        CountOfAppend('\n', s[at..end], s[end..]);
      case None =>
        CommentsKeepBreaks(s, at + 1);
        BreaksAppend([s[at]], WithoutComments(s, at + 1));
        assert s[at..] == [s[at]] + s[at + 1..];
        CountOfAppend('\n', [s[at]], s[at + 1..]);
        assert s[at] in s;
    }
  }

  lemma LinkBreaks(title: string, url: string)
    requires (forall c <- title :: TitleChar(c)) && (forall c <- url :: AddressChar(c))
    ensures Breaks("[" + title + "](" + url + ")") == Breaks(title) == CountOf(JOINED, title)
    ensures CountOf('\n', "[" + title + "](" + url + ")") == 0
  {
    CountOfNone('\n', title);
    NoBreaks(url);
    BreaksAppend("[" + title + "](" + url, ")");
    BreaksAppend("[" + title + "](", url);
    BreaksAppend("[" + title, "](");
    BreaksAppend("[", title);
    CountOfNone('\n', "[" + title + "](" + url + ")");
  }

  lemma PictureBreaks(s: string, at: nat)
    requires ImageAt(s, at).Some?
    ensures var image := ImageAt(s, at).value;
            && at + 1 < image.end <= |s|
            && s[at..image.end] == "!" + s[at + 1..image.end]
            && Breaks(s[at..image.end]) == Breaks(s[at + 1..image.end]) == Breaks(image.title)
            && CountOf('\n', s[at..image.end]) == 0
            && (image.title == [] ==> Breaks(s[at..image.end]) == 0)
  {
    var image := ImageAt(s, at).value;
    LinkBreaks(image.title, image.url);
    BreaksAppend("!", s[at + 1..image.end]);
    CountOfAppend('\n', "!", s[at + 1..image.end]);
  }

  lemma AsWordsKeepsBreaks(words: string)
    ensures Breaks(AsWords(words)) == Breaks(words)
  {
    BreaksAppend([ZERO_WIDTH_SPACE], words);
    NoBreaks([ZERO_WIDTH_SPACE]);
  }

  lemma {:induction false} PicturesKeepBreaks(s: string, at: nat)
    requires at <= |s|
    ensures Breaks(Shown(s, at)) == Breaks(PicturesAsLinks(s, at)) == Breaks(s[at..])
    decreases |s| - at
  {
    hide ImageAt, LeftBehind, AsWords, Breaks;
    if at < |s| {
      match ImageAt(s, at)
      case Some(image) =>
        PictureBreaks(s, at);
        PicturesKeepBreaks(s, image.end);
        AsWordsKeepsBreaks(image.title);
        LeftBehindKeepsBreaks(s, at, image.end);
        var words := if image.title != [] then AsWords(image.title) else LeftBehind(s, at, image.end);
        BreaksAppend(words, Shown(s, image.end));
        BreaksAppend(s[at + 1..image.end], PicturesAsLinks(s, image.end));
        assert s[at..] == s[at..image.end] + s[image.end..];
        BreaksAppend(s[at..image.end], s[image.end..]);
      case None =>
        PicturesKeepBreaks(s, at + 1);
        BreaksAppend([s[at]], Shown(s, at + 1));
        BreaksAppend([s[at]], PicturesAsLinks(s, at + 1));
        assert s[at..] == [s[at]] + s[at + 1..];
        BreaksAppend([s[at]], s[at + 1..]);
    } else {
      assert s[at..] == [];
    }
  }

  /** Every line break GitHub read is one of what is shown, or joined: the line reader is never handed
      lines that do not fit, for any body, whatever becomes of its pictures. */
  lemma WhatIsShownFits(body: string, images: Images)
    ensures Fits(Written(body), Some(ToBeShown(Written(body), images)))
  {
    var written := Written(body);
    CommentsKeepBreaks(written, 0);
    var text := WithoutComments(written, 0);
    PicturesKeepBreaks(text, 0);
    assert text[0..] == text && written[0..] == written;
  }

  // ----- Closing what is left open -----

  lemma TwoMoreStars(pending: nat)
    requires pending < 2
    ensures Tally('*', 2, pending, "**") == 1
  {
    assert "**"[1..] == "*" && "*"[1..] == "";
  }

  lemma CountIsTallied(c: char, n: nat, s: string)
    requires n > 0
    ensures Count(Repeat(c, n), s) == Tally(c, n, 0, s)
  {
    CountIsTally(c, n, 0, s);
    assert Repeat(c, 0) + s == s;
  }

  lemma ClosingBold(text: string)
    requires Odd(Count(BOLD, text))
    ensures !Odd(Count(BOLD, text + "**")) && FencesIn(text + "**") == FencesIn(text)
  {
    hide Count, FencesIn, Tally;
    FenceIsRun();
    CountIsTallied('*', 2, text);
    CountIsTallied('*', 2, text + "**");
    TallyAppend('*', 2, 0, text, "**");
    TwoMoreStars(Pending('*', 2, 0, text));
    FenceNone("**");
    FenceSeam(text, "**");
  }

  lemma OneFence()
    ensures FencesIn("\n```") == 1
  {
    assert "\n```"[1..] == "```" && "```"[..3] == FENCE;
    assert FencesIn("\n```") == FencesIn("```") == 1;
  }

  lemma ClosingFence(text: string)
    requires Odd(FencesIn(text))
    ensures !Odd(FencesIn(text + "\n```")) && Count(BOLD, text + "\n```") == Count(BOLD, text)
  {
    hide Count, FencesIn;
    FenceIsRun();
    OneFence();
    FenceSeam(text, "\n```");
    CountSeam('*', 2, text, "\n```");
    CountNone('*', 2, "\n```");
  }

  /** Closed at the end and changed nowhere else: neither mark is left open, and a second pass has
      nothing to do. */
  lemma BalancedIsBalanced(text: string)
    ensures !Odd(Count(BOLD, Balanced(text))) && !Odd(FencesIn(Balanced(text)))
    ensures text <= Balanced(text) && |Balanced(text)| <= |text| + 6
    ensures Balanced(Balanced(text)) == Balanced(text)
    ensures Balanced(text) == text <==> !Odd(Count(BOLD, text)) && !Odd(FencesIn(text))
  {
    var bold := ClosedWith(text, BOLD, "**");
    if Odd(Count(BOLD, text)) {
      ClosingBold(text);
    }
    if Odd(FencesIn(bold)) {
      ClosingFence(bold);
    }
  }
}
