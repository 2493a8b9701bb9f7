/** What is shown of a body, line by line: what is taken out moves no line, so each line shown opens where
    GitHub read one, and no heading it drew takes a fence away with it. */
module LineByLine {
  import opened Text
  import opened Fences
  import opened Drawn
  import opened LineRules
  import opened LineTheorems
  import opened Reader
  import opened ReaderTheorems
  import opened DrawnLines
  import opened RichText
  import opened RichTextTheorems
  import LinkTheorems

  // ----- A text read from a place on is read as that part of it -----

  lemma RunBehind(p: char -> bool, s: string, at: nat, k: nat)
    requires at <= |s| && k <= |s| - at
    ensures RunOf(p, s, at + k) == RunOf(p, s[at..], k)
  {
    var rest := s[at..];
    var n := RunOf(p, rest, k);
    assert forall i :: at + k <= i < at + k + n ==> s[i] == rest[i - at];
    RunIs(p, s, at + k, n);
  }

  lemma {:induction false} FindBehind(s: string, sub: string, at: nat, k: nat)
    requires at <= |s|
    ensures var (here, there) := (Find(s, sub, at + k), Find(s[at..], sub, k));
            here == if there.Some? then Some(at + there.value) else None
    decreases |s| + 1 - at - k
  {
    if at + k <= |s| {
      LinkTheorems.StartsOfRest(s, at, k, sub);
      FindBehind(s, sub, at, k + 1);
    }
  }

  lemma MarkAheadBehind(s: string, at: nat, k: nat)
    requires at <= |s| && k <= |s| - at
    ensures MarkAhead(s, at + k) == MarkAhead(s[at..], k)
  {
    RunBehind(Blank, s, at, k);
    var from := k + RunOf(Blank, s[at..], k);
    assert from < |s| - at ==> s[at..][from] == s[at + from];
    hide Blank, RunOf;
  }

  lemma LeftBehindBehind(s: string, at: nat, start: nat, end: nat)
    requires at <= start <= end <= |s| && (at > 0 ==> !MarkEnd(s[at - 1]))
    ensures LeftBehind(s, start, end) == LeftBehind(s[at..], start - at, end - at)
  {
    hide MarkAhead, MarkEnd, Blank, CountOf;
    assert s[start..end] == s[at..][start - at..end - at];
    MarkAheadBehind(s, at, end - at);
    assert start > at ==> s[at..][start - at - 1] == s[start - 1];
    assert end < |s| ==> s[at..][end - at] == s[end];
  }

  lemma CommentEndBehind(s: string, at: nat, k: nat)
    requires at <= |s|
    ensures var (here, there) := (CommentEnd(s, at + k), CommentEnd(s[at..], k));
            here == if there.Some? then Some(at + there.value) else None
  {
    LinkTheorems.StartsOfRest(s, at, k, "<!--");
    FindBehind(s, "-->", at, k + 4);
  }

  lemma {:induction false} CommentsBehind(s: string, at: nat, k: nat)
    requires at <= |s| && k <= |s| - at && (at > 0 ==> !MarkEnd(s[at - 1]))
    ensures WithoutComments(s, at + k) == WithoutComments(s[at..], k)
    decreases |s| - at - k
  {
    hide CommentEnd, LeftBehind;
    if at + k < |s| {
      CommentEndBehind(s, at, k);
      match CommentEnd(s, at + k)
      case Some(end) =>
        LeftBehindBehind(s, at, at + k, end);
        CommentsBehind(s, at, end - at);
      case None =>
        CommentsBehind(s, at, k + 1);
    }
  }

  // ----- Comments, line by line -----

  /** `first` is the next line left of a text its comments are taken out of: it ends on a line break
      written outside every comment, and holds a join for each one written before. */
  predicate LineLeft(s: string, at: nat, stop: Option<nat>, first: string)
    requires at <= |s|
  {
    && '\n' !in first
    && match stop
       case None => WithoutComments(s, at) == first && CountOf(JOINED, first) == CountOf('\n', s[at..])
       case Some(p) =>
         && at <= p < |s| && s[p] == '\n'
         && WithoutComments(s, at) == first + "\n" + WithoutComments(s, p + 1)
         && CountOf(JOINED, first) == CountOf('\n', s[at..p])
  }

  lemma CommentGoes(s: string, at: nat)
    requires at < |s|
    ensures WithoutComments(s, at)
         == match CommentEnd(s, at)
            case Some(end) => LeftBehind(s, at, end) + WithoutComments(s, end)
            case None => [s[at]] + WithoutComments(s, at + 1)
  {
    hide CommentEnd, LeftBehind;
  }

  lemma LineBehindAComment(s: string, at: nat, end: nat, stop: Option<nat>, rest: string)
    requires at < end <= |s| && CommentEnd(s, at) == Some(end) && LineLeft(s, end, stop, rest)
    ensures LineLeft(s, at, stop, LeftBehind(s, at, end) + rest)
  {
    hide CommentEnd, LeftBehind, WithoutComments, CountOf;
    var left := LeftBehind(s, at, end);
    CommentGoes(s, at);
    LeftHoldsJoins(s, at, end);
    CountOfAppend(JOINED, left, rest);
    var upto := stop.GetOr(|s|);
    assert s[at..upto] == s[at..end] + s[end..upto];
    assert s[at..|s|] == s[at..] && s[end..|s|] == s[end..];
    CountOfAppend('\n', s[at..end], s[end..upto]);
    if stop.Some? {
      Grouped(left, rest, WithoutComments(s, stop.value + 1));
    }
  }

  lemma LineBehindACharacter(s: string, at: nat, stop: Option<nat>, rest: string)
    requires at < |s| && CommentEnd(s, at) == None && s[at] != '\n' && s[at] != JOINED
    requires LineLeft(s, at + 1, stop, rest)
    ensures LineLeft(s, at, stop, [s[at]] + rest)
  {
    hide CommentEnd, LeftBehind, WithoutComments, CountOf;
    CommentGoes(s, at);
    CountOfNone(JOINED, [s[at]]);
    CountOfNone('\n', [s[at]]);
    CountOfAppend(JOINED, [s[at]], rest);
    var upto := stop.GetOr(|s|);
    assert s[at..upto] == [s[at]] + s[at + 1..upto];
    assert s[at..|s|] == s[at..] && s[at + 1..|s|] == s[at + 1..];
    CountOfAppend('\n', [s[at]], s[at + 1..upto]);
    if stop.Some? {
      Grouped([s[at]], rest, WithoutComments(s, stop.value + 1));
    }
  }

  lemma LineAtItsEnd(s: string, at: nat)
    requires at <= |s| && (at < |s| ==> s[at] == '\n')
    ensures LineLeft(s, at, if at < |s| then Some(at) else None, "")
  {
    hide LeftBehind;
    if at < |s| {
      NoCommentHere(s, at);
      assert s[at..at] == "";
      assert "" + "\n" + WithoutComments(s, at + 1) == [s[at]] + WithoutComments(s, at + 1);
    } else {
      assert s[at..] == "";
    }
  }

  lemma {:induction false} CommentLine(s: string, at: nat) returns (stop: Option<nat>, first: string)
    requires at <= |s| && JOINED !in s
    ensures LineLeft(s, at, stop, first)
    decreases |s| - at
  {
    hide CommentEnd, LeftBehind, LineLeft;
    if at == |s| || s[at] == '\n' {
      LineAtItsEnd(s, at);
      return if at < |s| then Some(at) else None, "";
    }
    assert s[at] in s;
    match CommentEnd(s, at) {
      case Some(end) =>
        stop, first := CommentLine(s, end);
        LineBehindAComment(s, at, end, stop, first);
        first := LeftBehind(s, at, end) + first;
      case None =>
        stop, first := CommentLine(s, at + 1);
        LineBehindACharacter(s, at, stop, first);
        first := [s[at]] + first;
    }
  }

  /** What a comment leaves: a join for each line break it held, and none of them a line break. */
  lemma LeftHoldsJoins(s: string, start: nat, end: nat)
    requires start <= end <= |s|
    ensures '\n' !in LeftBehind(s, start, end)
    ensures CountOf(JOINED, LeftBehind(s, start, end)) == CountOf('\n', s[start..end])
  {
    var n := CountOf('\n', s[start..end]);
    CountOfRepeat(JOINED, n);
    CountOfAppend(JOINED, Repeat(JOINED, n), [ZERO_WIDTH_SPACE]);
  }

  // ----- Pictures, line by line -----

  function Pictured(images: Images, s: string): string {
    if images.Lift? then Shown(s, 0) else PicturesAsLinks(s, 0)
  }

  lemma RunInLine(p: char -> bool, line: string, tail: string, at: nat)
    requires at <= |line| && Follows(tail) && !p('\n')
    ensures RunOf(p, line + tail, at) == RunOf(p, line, at)
  {
    var n := RunOf(p, line, at);
    assert forall i :: at <= i < at + n ==> (line + tail)[i] == line[i];
    assert at + n < |line + tail| ==> (line + tail)[at + n] == if at + n < |line| then line[at + n] else tail[0];
    RunIs(p, line + tail, at, n);
  }

  /** Where the words and the address of a link at `at` end. */
  function Span(s: string, at: nat): (span: Option<(nat, nat)>)
    ensures span.Some? ==> at < span.value.0 && span.value.0 + 2 <= span.value.1 < |s|
  {
    if at >= |s| || s[at] != '[' then None
    else
      var close := at + 1 + RunOf(TitleChar, s, at + 1);
      if close + 1 >= |s| || s[close] != ']' || s[close + 1] != '(' then None
      else
        var end := close + 2 + RunOf(AddressChar, s, close + 2);
        if end >= |s| || s[end] != ')' then None else Some((close, end))
  }

  lemma LinkOfSpan(s: string, at: nat)
    ensures LinkAt(s, at)
         == match Span(s, at)
            case Some((close, end)) => Some(Link(at, s[at + 1..close], s[close + 2..end], end + 1))
            case None => None
  {
    hide TitleChar, AddressChar, RunOf;
  }

  lemma SpanInLine(line: string, tail: string, at: nat)
    requires at <= |line| && Follows(tail)
    ensures Span(line + tail, at) == Span(line, at)
  {
    hide TitleChar, AddressChar, RunOf;
    var s := line + tail;
    assert forall i :: 0 <= i < |line| ==> s[i] == line[i];
    assert |line| < |s| ==> s[|line|] == '\n';
    BreaksAreNoLink();
    if at < |line| {
      RunInLine(TitleChar, line, tail, at + 1);
      var close := at + 1 + RunOf(TitleChar, line, at + 1);
      if close + 1 < |line| {
        RunInLine(AddressChar, line, tail, close + 2);
      }
    }
  }

  /** No link runs past the end of its line. */
  lemma LinkInLine(line: string, tail: string, at: nat)
    requires at <= |line| && Follows(tail)
    ensures LinkAt(line + tail, at) == LinkAt(line, at)
  {
    hide Span, LinkAt;
    SpanInLine(line, tail, at);
    LinkOfSpan(line, at);
    LinkOfSpan(line + tail, at);
    if Span(line, at).Some? {
      var (close, end) := Span(line, at).value;
      assert (line + tail)[at + 1..close] == line[at + 1..close];
      assert (line + tail)[close + 2..end] == line[close + 2..end];
    }
  }

  lemma BreaksAreNoLink()
    ensures !TitleChar('\n') && !AddressChar('\n')
  {
  }

  function LinkMoved(link: Option<Link>, at: nat): Option<Link> {
    match link
    case Some(Link(start, title, url, end)) => Some(Link(at + start, title, url, at + end))
    case None => None
  }

  lemma CharBehind(s: string, at: nat, k: nat)
    requires at <= |s|
    ensures k < |s[at..]| <==> at + k < |s|
    ensures k < |s[at..]| ==> s[at..][k] == s[at + k]
  {
  }

  lemma SliceBehind(s: string, at: nat, i: nat, j: nat)
    requires at <= |s| && i <= j <= |s| - at
    ensures s[at..][i..j] == s[at + i..at + j]
  {
  }

  function SpanMoved(span: Option<(nat, nat)>, at: nat): Option<(nat, nat)> {
    match span
    case Some((close, end)) => Some((at + close, at + end))
    case None => None
  }

  lemma SpanBehind(s: string, at: nat, k: nat)
    requires at <= |s|
    ensures Span(s, at + k) == SpanMoved(Span(s[at..], k), at)
  {
    hide TitleChar, AddressChar, RunOf;
    var rest := s[at..];
    CharBehind(s, at, k);
    if k < |rest| {
      RunBehind(TitleChar, s, at, k + 1);
      var close := k + 1 + RunOf(TitleChar, rest, k + 1);
      CharBehind(s, at, close);
      CharBehind(s, at, close + 1);
      if close + 1 < |rest| {
        RunBehind(AddressChar, s, at, close + 2);
        CharBehind(s, at, close + 2 + RunOf(AddressChar, rest, close + 2));
      }
    }
  }

  lemma LinkBehind(s: string, at: nat, k: nat)
    requires at <= |s|
    ensures LinkAt(s, at + k) == LinkMoved(LinkAt(s[at..], k), at)
  {
    hide Span, LinkAt;
    SpanBehind(s, at, k);
    LinkOfSpan(s, at + k);
    LinkOfSpan(s[at..], k);
    if Span(s[at..], k).Some? {
      var (close, end) := Span(s[at..], k).value;
      SliceBehind(s, at, k + 1, close);
      SliceBehind(s, at, close + 2, end);
    }
  }

  lemma ImageBehind(s: string, at: nat, k: nat)
    requires at <= |s|
    ensures ImageAt(s, at + k) == LinkMoved(ImageAt(s[at..], k), at)
  {
    hide LinkAt;
    CharBehind(s, at, k);
    LinkBehind(s, at, k + 1);
  }

  lemma ImageInText(s: string, at: nat)
    ensures ImageAt(s, at).Some? ==> at + 1 < ImageAt(s, at).value.end <= |s|
    ensures ImageAt(s, at).Some? ==> '\n' !in ImageAt(s, at).value.title
  {
    LinkInText(s, at + 1);
  }

  function WordsOfPicture(s: string, at: nat, image: Link): string
    requires at <= image.end <= |s|
  {
    if image.title != [] then RichText.AsWords(image.title) else LeftBehind(s, at, image.end)
  }

  lemma PictureGoes(s: string, at: nat)
    requires at < |s|
    ensures ImageAt(s, at).None? ==>
              Shown(s, at) == [s[at]] + Shown(s, at + 1)
              && PicturesAsLinks(s, at) == [s[at]] + PicturesAsLinks(s, at + 1)
    ensures ImageAt(s, at).Some? ==>
              var image := ImageAt(s, at).value;
              && at + 1 < image.end <= |s|
              && Shown(s, at) == WordsOfPicture(s, at, image) + Shown(s, image.end)
              && PicturesAsLinks(s, at) == s[at + 1..image.end] + PicturesAsLinks(s, image.end)
  {
    ImageInText(s, at);
    hide ImageAt, LeftBehind;
  }

  lemma MarkAheadInLine(line: string, tail: string, at: nat)
    requires at <= |line| && Follows(tail)
    ensures MarkAhead(line + tail, at) == MarkAhead(line, at)
  {
    RunInLine(Blank, line, tail, at);
    var from := at + RunOf(Blank, line, at);
    assert from < |line + tail| ==> (line + tail)[from] == if from < |line| then line[from] else '\n';
    hide RunOf, Blank;
  }

  lemma LeftInLine(line: string, tail: string, start: nat, end: nat)
    requires start <= end <= |line| && Follows(tail)
    ensures LeftBehind(line + tail, start, end) == LeftBehind(line, start, end)
  {
    hide MarkAhead, MarkEnd, CountOf;
    var s := line + tail;
    assert s[start..end] == line[start..end];
    assert end < |s| ==> s[end] == if end < |line| then line[end] else '\n';
    MarkAheadInLine(line, tail, end);
  }

  lemma WordsBehind(s: string, at: nat, k: nat, image: Link)
    requires at <= |s| && k <= image.end <= |s| - at && (at > 0 ==> s[at - 1] == '\n')
    ensures WordsOfPicture(s, at + k, image.(end := at + image.end)) == WordsOfPicture(s[at..], k, image)
  {
    hide LeftBehind, RichText.AsWords;
    LeftBehindBehind(s, at, at + k, at + image.end);
  }

  /** Past the end of a line, pictures are dealt with as in the lines after it. */
  lemma {:induction false} PicturesBehind(s: string, at: nat, k: nat)
    requires at <= |s| && k <= |s| - at && (at > 0 ==> s[at - 1] == '\n')
    ensures Shown(s, at + k) == Shown(s[at..], k)
    ensures PicturesAsLinks(s, at + k) == PicturesAsLinks(s[at..], k)
    decreases |s| - at - k
  {
    hide ImageAt, WordsOfPicture, Shown, PicturesAsLinks;
    var rest := s[at..];
    if at + k < |s| {
      PictureGoes(s, at + k);
      PictureGoes(rest, k);
      ImageBehind(s, at, k);
      CharBehind(s, at, k);
      match ImageAt(rest, k)
      case Some(image) =>
        WordsBehind(s, at, k, image);
        assert ImageAt(s, at + k).value.title == image.title;
        SameWords(s, at + k, ImageAt(s, at + k).value, image.(end := at + image.end));
        SliceBehind(s, at, k + 1, image.end);
        PicturesBehind(s, at, image.end);
      case None =>
        PicturesBehind(s, at, k + 1);
    } else {
      NoPicturesLeft(s);
      NoPicturesLeft(rest);
    }
  }

  lemma SameWords(s: string, at: nat, a: Link, b: Link)
    requires at <= a.end <= |s| && a.end == b.end && a.title == b.title
    ensures WordsOfPicture(s, at, a) == WordsOfPicture(s, at, b)
  {
  }

  lemma NoPicturesLeft(s: string)
    ensures Shown(s, |s|) == "" && PicturesAsLinks(s, |s|) == ""
  {
  }

  lemma LinkInText(s: string, at: nat)
    ensures LinkAt(s, at).Some? ==> LinkAt(s, at).value.start == at < LinkAt(s, at).value.end <= |s|
    ensures LinkAt(s, at).Some? ==> forall c <- LinkAt(s, at).value.title :: c != '\n'
  {
  }

  lemma ImageInLine(line: string, tail: string, at: nat)
    requires at < |line| && Follows(tail)
    ensures ImageAt(line + tail, at) == ImageAt(line, at)
  {
    hide LinkAt;
    assert (line + tail)[at] == line[at];
    LinkInLine(line, tail, at + 1);
  }

  lemma WordsInLine(line: string, tail: string, at: nat, image: Link)
    requires at <= image.end <= |line| && Follows(tail)
    ensures WordsOfPicture(line + tail, at, image) == WordsOfPicture(line, at, image)
  {
    hide LeftBehind, RichText.AsWords;
    LeftInLine(line, tail, at, image.end);
  }

  lemma NoImageThere(s: string, at: nat)
    requires at < |s| && s[at] != '!'
    ensures ImageAt(s, at) == None
  {
    hide LinkAt;
  }

  lemma PicturesAtABreak(s: string, at: nat)
    requires at < |s| && s[at] == '\n'
    ensures Shown(s, at) == "\n" + Shown(s[at + 1..], 0)
    ensures PicturesAsLinks(s, at) == "\n" + PicturesAsLinks(s[at + 1..], 0)
  {
    hide Shown, PicturesAsLinks, ImageAt;
    NoImageThere(s, at);
    PictureGoes(s, at);
    PicturesBehind(s, at + 1, 0);
    assert [s[at]] == "\n";
  }

  /** On a line, pictures are dealt with as if it were all there is. */
  lemma {:induction false} PicturesInLine(line: string, rest: string, at: nat)
    requires at <= |line|
    ensures var s := line + "\n" + rest;
            && Shown(s, at) == Shown(line, at) + "\n" + Shown(rest, 0)
            && PicturesAsLinks(s, at) == PicturesAsLinks(line, at) + "\n" + PicturesAsLinks(rest, 0)
    decreases |line| - at
  {
    hide Shown, PicturesAsLinks, ImageAt, WordsOfPicture;
    var tail := "\n" + rest;
    var s := line + "\n" + rest;
    assert s == line + tail;
    if at == |line| {
      assert s[at] == '\n' && s[at + 1..] == rest;
      PicturesAtABreak(s, at);
      NoPicturesLeft(line);
    } else {
      PictureGoes(s, at);
      PictureGoes(line, at);
      ImageInLine(line, tail, at);
      assert s[at] == line[at];
      match ImageAt(line, at)
      case Some(image) =>
        WordsInLine(line, tail, at, image);
        PicturesInLine(line, rest, image.end);
        assert s[at + 1..image.end] == line[at + 1..image.end];
        Grouped(WordsOfPicture(line, at, image), Shown(line, image.end), Shown(rest, 0));
        Grouped(line[at + 1..image.end], PicturesAsLinks(line, image.end), PicturesAsLinks(rest, 0));
      case None =>
        PicturesInLine(line, rest, at + 1);
        Grouped([line[at]], Shown(line, at + 1), Shown(rest, 0));
        Grouped([line[at]], PicturesAsLinks(line, at + 1), PicturesAsLinks(rest, 0));
    }
  }

  lemma Grouped(a: string, b: string, c: string)
    ensures a + (b + "\n" + c) == a + b + "\n" + c
  {
  }

  /** Pictures make no line break and move no join off their line. */
  lemma PicturedLine(images: Images, line: string)
    requires '\n' !in line
    ensures '\n' !in Pictured(images, line) && CountOf(JOINED, Pictured(images, line)) == CountOf(JOINED, line)
  {
    hide Shown, PicturesAsLinks;
    PicturesMakeNoBreak(line, 0);
    PicturesKeepBreaks(line, 0);
    assert line[0..] == line;
    CountOfNone('\n', line);
    CountOfNone('\n', Pictured(images, line));
  }

  lemma {:induction false} PicturesMakeNoBreak(s: string, at: nat)
    requires at <= |s| && '\n' !in s
    ensures '\n' !in Shown(s, at) && '\n' !in PicturesAsLinks(s, at)
    decreases |s| - at
  {
    hide LinkAt, LeftBehind;
    if at < |s| {
      match ImageAt(s, at)
      case Some(image) =>
        LinkInText(s, at + 1);
        LeftHoldsJoins(s, at, image.end);
        PicturesMakeNoBreak(s, image.end);
      case None =>
        PicturesMakeNoBreak(s, at + 1);
    }
  }

  // ----- What is shown, line by line -----

  lemma ToBeShownIs(s: string, images: Images)
    ensures ToBeShown(s, images) == Pictured(images, WithoutComments(s, 0))
  {
  }

  /** The first line shown, and what is shown behind it: the same as of what was written behind the line
      break it ends on. */
  lemma ShownLine(s: string, images: Images) returns (stop: Option<nat>, first: string)
    requires JOINED !in s
    ensures '\n' !in first
    ensures stop.None? ==> ToBeShown(s, images) == first && CountOf(JOINED, first) == CountOf('\n', s)
    ensures stop.Some? ==>
              && stop.value < |s| && s[stop.value] == '\n'
              && ToBeShown(s, images) == first + "\n" + ToBeShown(s[stop.value + 1..], images)
              && CountOf(JOINED, first) == CountOf('\n', s[..stop.value])
  {
    hide WithoutComments, Shown, PicturesAsLinks, ToBeShown;
    ToBeShownIs(s, images);
    var line: string;
    stop, line := CommentLine(s, 0);
    assert LineLeft(s, 0, stop, line);
    assert s[0..] == s;
    first := Pictured(images, line);
    PicturedLine(images, line);
    if stop.Some? {
      var behind := stop.value + 1;
      assert s[0..stop.value] == s[..stop.value];
      CommentsBehind(s, behind, 0);
      ToBeShownIs(s[behind..], images);
      PicturesInLine(line, WithoutComments(s[behind..], 0), 0);
    }
  }

  lemma {:induction false} SplitBehind(s: string, at: nat)
    requires at < |s| && s[at] == '\n'
    ensures CountOf('\n', s[..at]) + 1 < |Split(s)|
    ensures Split(s)[CountOf('\n', s[..at]) + 1..] == Split(s[at + 1..])
    decreases at
  {
    hide Split;
    SplitFirst(s);
    if at > 0 {
      SplitBehind(s[1..], at - 1);
      assert s[..at][0] == s[0] && s[..at][1..] == s[1..][..at - 1];
      assert s[1..][at..] == s[at + 1..];
    }
  }

  /** The lines written above the k-th line shown. */
  function Above(shown: seq<string>, k: nat): nat
    requires k <= |shown|
  {
    Held(ShownLines(shown)[..k])
  }

  lemma AboveNext(first: string, rest: seq<string>, k: nat)
    requires k <= |rest|
    ensures Above([first] + rest, k + 1) == 1 + CountOf(JOINED, first) + Above(rest, k)
  {
    var shown := ShownLines([first] + rest)[..k + 1];
    assert shown[1..] == ShownLines(rest)[..k];
  }

  /** Line by line: what is shown from the k-th line on is what is shown of the body from the line on that
      the lines shown above it hold. So the k-th line shown opens right behind the line break written
      there, and every line break keeps its place. */
  lemma {:induction false} ShownLineByLine(s: string, images: Images, k: nat)
    requires JOINED !in s && k < |Split(ToBeShown(s, images))|
    ensures var (lines, shown) := (Split(s), Split(ToBeShown(s, images)));
            && Above(shown, k) < |lines|
            && Join(shown[k..]) == ToBeShown(Join(lines[Above(shown, k)..]), images)
    decreases |s|
  {
    hide ToBeShown, Join, Split;
    var lines, shown := Split(s), Split(ToBeShown(s, images));
    if k == 0 {
      JoinOfSplit(s);
      JoinOfSplit(ToBeShown(s, images));
      assert shown[0..] == shown && lines[0..] == lines && ShownLines(shown)[..0] == [];
      SomeLine(s);
    } else {
      var stop, first := ShownLine(s, images);
      if stop.None? {
        SplitOneLine(first);
        assert false;
      } else {
        var at := stop.value;
        var rest := Split(ToBeShown(s[at + 1..], images));
        SplitAtBreak(first, ToBeShown(s[at + 1..], images));
        SplitBehind(s, at);
        ShownLineByLine(s[at + 1..], images, k - 1);
        AboveNext(first, rest, k - 1);
        assert shown == [first] + rest && shown[k..] == rest[k - 1..];
        var n := CountOf('\n', s[..at]) + 1;
        assert lines[n..][Above(rest, k - 1)..] == lines[Above(shown, k)..];
      }
    }
  }

  lemma SomeLine(s: string)
    ensures |Split(s)| > 0
  {
  }

  // ----- A line nothing is taken out of -----

  /** A line with no comment and no picture begun on it or above it is shown as written. */
  lemma PlainLineIsShown(s: string, images: Images)
    requires var line := Split(s)[0]; '<' !in line && '!' !in line
    ensures Split(ToBeShown(s, images))[0] == Split(s)[0]
  {
    hide WithoutComments, Pictured, ToBeShown;
    var line := Split(s)[0];
    var tail := FirstLineOf(s);
    ToBeShownIs(s, images);
    NoCommentOnALine(line, tail, 0);
    assert line[0..] == line;
    assert s == line + tail;
    NoPictureOnALine(line, 0);
    PicturedPlain(images, line);
    if tail == "" {
      NothingWritten(s, |line|);
      assert line + "" == line;
      SplitOneLine(line);
    } else {
      var rest := WithoutComments(s, |line| + 1);
      BreakIsShown(s, |line|);
      assert WithoutComments(s, 0) == line + "\n" + rest by {
        assert line + ("\n" + rest) == line + "\n" + rest;
      }
      PicturesInLine(line, rest, 0);
      PicturedIs(images, line, rest);
      SplitAtBreak(line, Pictured(images, rest));
    }
  }

  lemma NothingWritten(s: string, at: nat)
    requires at == |s|
    ensures WithoutComments(s, at) == ""
  {
  }

  lemma BreakIsShown(s: string, at: nat)
    requires at < |s| && s[at] == '\n'
    ensures WithoutComments(s, at) == "\n" + WithoutComments(s, at + 1)
  {
    CommentGoes(s, at);
    NoCommentHere(s, at);
  }

  lemma PicturedPlain(images: Images, line: string)
    requires Shown(line, 0) == line[0..] && PicturesAsLinks(line, 0) == line[0..]
    ensures Pictured(images, line) == line
  {
  }

  lemma PicturedIs(images: Images, line: string, rest: string)
    requires Shown(line + "\n" + rest, 0) == Shown(line, 0) + "\n" + Shown(rest, 0)
    requires PicturesAsLinks(line + "\n" + rest, 0) == PicturesAsLinks(line, 0) + "\n" + PicturesAsLinks(rest, 0)
    ensures Pictured(images, line + "\n" + rest) == Pictured(images, line) + "\n" + Pictured(images, rest)
  {
  }

  lemma {:induction false} FirstLineOf(s: string) returns (tail: string)
    ensures Follows(tail) && s == Split(s)[0] + tail
    decreases |s|
  {
    if s == [] {
      tail := "";
    } else if s[0] == '\n' {
      tail := s;
      assert Split(s)[0] == [];
      assert [] + tail == s;
    } else {
      tail := FirstLineOf(s[1..]);
      assert Split(s)[0] == [s[0]] + Split(s[1..])[0];
    }
  }

  lemma {:induction false} NoCommentOnALine(line: string, tail: string, at: nat)
    requires at <= |line| && '<' !in line
    ensures WithoutComments(line + tail, at) == line[at..] + WithoutComments(line + tail, |line|)
    decreases |line| - at
  {
    var s := line + tail;
    if at < |line| {
      assert s[at] == line[at] && line[at] in line;
      NoCommentHere(s, at);
      NoCommentOnALine(line, tail, at + 1);
      assert line[at..] == [line[at]] + line[at + 1..];
    }
  }

  lemma NoCommentHere(s: string, at: nat)
    requires at < |s| && s[at] != '<'
    ensures CommentEnd(s, at) == None
  {
    StartsOn(s, at, "<!--");
  }

  lemma StartsOn(s: string, at: nat, prefix: string)
    requires prefix != ""
    ensures StartsAt(s, at, prefix) ==> at < |s| && s[at] == prefix[0]
  {
    assert at + |prefix| <= |s| ==> s[at..at + |prefix|][0] == s[at];
  }

  lemma {:induction false} NoPictureOnALine(line: string, at: nat)
    requires at <= |line| && '!' !in line
    ensures Shown(line, at) == line[at..] && PicturesAsLinks(line, at) == line[at..]
    decreases |line| - at
  {
    if at < |line| {
      assert line[at] in line;
      NoPictureOnALine(line, at + 1);
      assert line[at..] == [line[at]] + line[at + 1..];
    }
  }

  // ----- Headings of hashes alone -----

  lemma {:induction false} AnswerIsTheLine(s: State, lines: seq<string>, n: nat)
    requires n < |lines| && Answers(s, lines)[n].AHeading?
    ensures var heading := Answers(s, lines)[n].heading;
            heading.Valid() && heading.lead + heading.words == lines[n]
    decreases lines
  {
    hide Next;
    if n == 0 {
      HeadingIsTheLine(s, lines[0]);
    } else {
      AnswerIsTheLine(Next(s, lines[0]).0, lines[1..], n - 1);
    }
  }

  lemma HashesAloneAreBare(heading: Heading)
    requires heading.Valid() && heading.hashes >= |heading.words|
    ensures var line := heading.lead + heading.words;
            '<' !in line && '!' !in line && '`' !in line && '\n' !in line && JOINED !in line
  {
    var line := heading.lead + heading.words;
    forall i | 0 <= i < |line| ensures OpeningChar(line[i]) || line[i] == '#' {
      if i < |heading.lead| {
        assert heading.lead[i] in heading.lead;
      }
    }
  }

  lemma JoinOfLines(lines: seq<string>, n: nat)
    requires n < |lines| && forall i :: 0 <= i < |lines| ==> '\n' !in lines[i]
    ensures Split(Join(lines[n..]))[0] == lines[n]
  {
    SplitOfJoin(lines[n..]);
  }

  /** A line GitHub drew as a heading of hashes alone is shown just as it was written. */
  lemma HashesAloneAreShown(written: string, images: Images, k: nat)
    requires JOINED !in written && k < |Split(ToBeShown(written, images))|
    ensures var (lines, shown) := (Split(written), Split(ToBeShown(written, images)));
            && Above(shown, k) < |lines|
            && (OfHashesAlone(Answers(FRESH, lines)[Above(shown, k)]) ==>
                  shown[k] == lines[Above(shown, k)] && '`' !in shown[k] && JOINED !in shown[k])
  {
    hide Split, Join, ToBeShown, Answers, Above;
    var lines, shown := Split(written), Split(ToBeShown(written, images));
    ShownLineByLine(written, images, k);
    var n := Above(shown, k);
    if OfHashesAlone(Answers(FRESH, lines)[n]) {
      AnswerIsTheLine(FRESH, lines, n);
      HashesAloneAreBare(Answers(FRESH, lines)[n].heading);
      JoinOfLines(lines, n);
      JoinOfLines(shown, k);
      PlainLineIsShown(Join(lines[n..]), images);
    }
  }

  // ----- The opening of a heading -----

  lemma {:induction false} NoPictureInFront(front: string, tail: string, at: nat)
    requires at <= |front| && '!' !in front
    ensures var s := front + tail;
            && Shown(s, at) == front[at..] + Shown(s, |front|)
            && PicturesAsLinks(s, at) == front[at..] + PicturesAsLinks(s, |front|)
    decreases |front| - at
  {
    hide Shown, PicturesAsLinks, ImageAt;
    var s := front + tail;
    if at < |front| {
      assert s[at] == front[at] && front[at] in front;
      NoImageThere(s, at);
      PictureGoes(s, at);
      NoPictureInFront(front, tail, at + 1);
      assert front[at..] == [front[at]] + front[at + 1..];
      assert [front[at]] + (front[at + 1..] + Shown(s, |front|)) == front[at..] + Shown(s, |front|);
      assert [front[at]] + (front[at + 1..] + PicturesAsLinks(s, |front|)) == front[at..] + PicturesAsLinks(s, |front|);
    }
  }

  lemma PicturedInFront(images: Images, front: string, tail: string)
    requires '!' !in front
    ensures front <= Pictured(images, front + tail)
  {
    hide Shown, PicturesAsLinks;
    NoPictureInFront(front, tail, 0);
    assert front[0..] == front;
  }

  /** What a body opens on is shown, as far as no comment or picture begins in it. */
  lemma FrontIsShown(s: string, front: string, images: Images)
    requires front <= s && '<' !in front && '!' !in front
    ensures front <= ToBeShown(s, images)
  {
    hide WithoutComments, Pictured, ToBeShown;
    var tail := s[|front|..];
    assert s == front + tail;
    ToBeShownIs(s, images);
    NoCommentOnALine(front, tail, 0);
    assert front[0..] == front;
    PicturedInFront(images, front, WithoutComments(s, |front|));
  }

  lemma FirstLineOpens(s: string, front: string)
    requires front <= s && '\n' !in front
    ensures front <= Split(s)[0]
  {
    hide Split;
    var tail := FirstLineOf(s);
    var line := Split(s)[0];
    forall i | 0 <= i < |front| ensures s[i] == front[i] && s[i] != '\n' {
      assert front[i] in front;
    }
    assert |line| < |s| ==> s[|line|] == '\n';
    assert forall i :: 0 <= i < |line| ==> line[i] == s[i];
  }

  lemma FrontIsLeft(front: string, line: string)
    requires front <= line && JOINED !in front
    ensures front <= Without(JOINED, line)
  {
    var rest := line[|front|..];
    assert line == front + rest;
    WithoutAppend(JOINED, front, rest);
    WithoutNone(JOINED, front);
  }

  /** What GitHub read a heading's words behind: its opening and its hashes, and the space behind them. */
  function OpeningOf(heading: Heading): string
    requires heading.hashes < |heading.words|
  {
    heading.lead + heading.words[..heading.hashes + 1]
  }

  lemma OpeningIsBare(heading: Heading)
    requires heading.Valid() && heading.hashes < |heading.words|
    ensures var front := OpeningOf(heading); '<' !in front && '!' !in front && '\n' !in front && JOINED !in front
  {
    var front := OpeningOf(heading);
    forall i | 0 <= i < |front| ensures OpeningChar(front[i]) || front[i] == '#' {
      if i < |heading.lead| {
        assert heading.lead[i] in heading.lead;
      }
    }
  }

  /** Wherever GitHub drew a heading, the line shown there opens as the line written does, up to and with the
      space behind the hashes: nothing is taken out of a heading's opening. */
  lemma OpeningIsShown(written: string, images: Images, k: nat)
    requires JOINED !in written && k < |Split(ToBeShown(written, images))|
    ensures var (lines, shown) := (Split(written), Split(ToBeShown(written, images)));
            && Above(shown, k) < |lines|
            && (Answers(FRESH, lines)[Above(shown, k)].AHeading? ==>
                  var heading := Answers(FRESH, lines)[Above(shown, k)].heading;
                  heading.hashes < |heading.words| ==> OpeningOf(heading) <= Without(JOINED, shown[k]))
  {
    hide Split, Join, ToBeShown, Answers, Above, Without;
    var lines, shown := Split(written), Split(ToBeShown(written, images));
    ShownLineByLine(written, images, k);
    var n := Above(shown, k);
    if Answers(FRESH, lines)[n].AHeading? {
      AnswerIsTheLine(FRESH, lines, n);
      var heading := Answers(FRESH, lines)[n].heading;
      if heading.hashes < |heading.words| {
        var front := OpeningOf(heading);
        OpeningIsBare(heading);
        assert front <= lines[n];
        var tail := LinesFrom(lines, n);
        FrontIsShown(Join(lines[n..]), front, images);
        FirstLineOpens(Join(shown[k..]), front);
        JoinOfLines(shown, k);
        FrontIsLeft(front, shown[k]);
      }
    }
  }

  lemma LinesFrom(lines: seq<string>, n: nat) returns (tail: string)
    requires n < |lines|
    ensures Join(lines[n..]) == lines[n] + tail
  {
    tail := TailOf(lines, n);
  }

  /** What is shown behind the opening of a heading: nothing behind hashes alone. */
  function Behind(heading: Heading, line: string): string {
    if heading.hashes >= |heading.words| then "" else
    if |heading.lead| + heading.hashes + 1 > |line| then "" else line[|heading.lead| + heading.hashes + 1..]
  }

  /** A reader sees something of the heading GitHub drew. */
  predicate SeenBehind(heading: Heading, line: string) { exists c <- Closed(Behind(heading, line)) :: !Unseen(c) }

  /** GitHub drew a heading that Discord has one for, and a reader sees something of it. */
  predicate ToBeDrawn(drawn: Drawn, line: string) {
    drawn.AHeading? && drawn.heading.OnTop() && SeenBehind(drawn.heading, line)
  }

  /** So the line reader always finds a heading's opening where it looks for it. */
  lemma OpeningIsFound(heading: Heading, line: string)
    requires heading.hashes < |heading.words| ==> OpeningOf(heading) <= line
    ensures ShownAfter(heading, line) == Some(Behind(heading, line))
  {
  }

  // ----- The body as it is rewritten -----

  /** What is shown of a body loses no fence: every image of it holds the fences of its line. */
  lemma ShownLosesNothing(written: string, images: Images)
    requires JOINED !in written && Fits(written, Some(ToBeShown(written, images)))
    ensures LosesNothing(ImagesOf(written, Some(ToBeShown(written, images))))
  {
    hide Split, ToBeShown, Answers, Held, LostBy, FlipsAfter, Without, FencesIn, ShownAfter, Closed, Unseen, ImagesOf;
    var text := ToBeShown(written, images);
    var shown := Some(text);
    var all := ImagesOf(written, shown);
    assert ToShow(Split(written), shown) == ShownLines(Split(text));
    ImagesAreTheShown(written, shown);
    forall i | 0 <= i < |all| ensures LostBy(all[i]) == 0 {
      EveryImageIsAccountedFor(written, shown, i);
      HashesAloneAreShown(written, images, i);
      if LostBy(all[i]) > 0 {
        LineWithNoTick(all[i], Split(text)[i]);
      }
    }
  }

  lemma ImagesAreTheShown(written: string, shown: Option<string>)
    requires Fits(written, shown)
    ensures |ImagesOf(written, shown)| == |ToShow(Split(written), shown)|
  {
    hide Split, Next, Said, Without, FencesIn, ToShow;
    FitsIsHeld(written, shown);
  }

  lemma LineWithNoTick(image: Image, shown: string)
    requires image.line == Without(JOINED, shown) && '`' !in shown
    ensures LostBy(image) == 0
  {
    FenceNone(Without(FORM_FEED, image.line));
  }

  /** A body's lines for Discord as they are shown there, its comments and pictures dealt with. */
  function ShownRewritten(body: string, images: Images): string {
    WhatIsShownFits(body, images);
    Rewritten(Written(body), Some(ToBeShown(Written(body), images)))
  }

  function ShownImages(body: string, images: Images): seq<Image> {
    WhatIsShownFits(body, images);
    ImagesOf(Written(body), Some(ToBeShown(Written(body), images)))
  }

  /** Image by image: of which line written it is, which line shown, and how that was read; that it is not
      said exactly where it is a heading outside Discord's code with nothing to see behind its opening; and
      that what is said of it holds every fence of it, a line not said holding none. A heading of hashes
      alone is shown as it was written, and any other opens as it was. */
  lemma EveryLineShownIsAccountedFor(body: string, images: Images, i: nat)
    requires i < |Split(ToBeShown(Written(body), images))|
    ensures var (lines, shown) := (Split(Written(body)), Split(ToBeShown(Written(body), images)));
            var all := ShownImages(body, images);
            && |all| == |shown| && Above(shown, |shown|) == |lines| && Above(shown, i) < |lines|
            && all[i].line == Without(JOINED, shown[i])
            && all[i].drawn == Answers(FRESH, lines)[Above(shown, i)]
            && (OfHashesAlone(all[i].drawn) ==> all[i].line == lines[Above(shown, i)])
            && (all[i].drawn.AHeading? ==>
                  ShownAfter(all[i].drawn.heading, all[i].line) == Some(Behind(all[i].drawn.heading, all[i].line)))
            && (all[i].said.None? <==>
                  !all[i].inCode && all[i].drawn.AHeading? && !SeenBehind(all[i].drawn.heading, all[i].line))
            && all[i].inCode == (i > 0 && FlipsAfter(all[i - 1]))
            && FencesIn(Without(FORM_FEED, all[i].line))
               == (if all[i].said.Some? then FencesIn(all[i].said.value) else 0)
  {
    hide Split, ToBeShown, Answers, Held, LostBy, FlipsAfter, Without, FencesIn, ShownAfter, Closed, Unseen, ImagesOf;
    hide Fits, Written, Behind, OpeningOf;
    WhatIsShownFits(body, images);
    var written := Written(body);
    var text := ToBeShown(written, images);
    EveryImageIsAccountedFor(written, Some(text), i);
    assert ToShow(Split(written), Some(text)) == ShownLines(Split(text));
    assert ShownLines(Split(text))[..|Split(text)|] == ShownLines(Split(text));
    HashesAloneAreShown(written, images, i);
    OpeningIsShown(written, images, i);
    var image := ShownImages(body, images)[i];
    if image.drawn.AHeading? {
      OpeningIsFound(image.drawn.heading, image.line);
    }
    ShownLosesNothing(written, images);
    if JOINED !in Split(text)[i] {
      WithoutNone(JOINED, Split(text)[i]);
    }
  }

  lemma ShowsWhereDrawn(drawn: Drawn, line: string)
    requires drawn.AHeading? ==> ShownAfter(drawn.heading, line) == Some(Behind(drawn.heading, line))
    ensures Shows(drawn, line) <==> ToBeDrawn(drawn, line)
  {
    hide ShownAfter, Behind, Closed, Unseen;
  }

  /** Of every body as it is shown: line by line, what Discord is sent is the k-th line shown of all that
      are; outside its code, counted in the output, it draws a heading exactly where GitHub drew one that
      Discord has and a reader sees something of it, at its own level or the third; and there is no small
      print. */
  lemma HeadingsOfWhatIsShown(body: string, images: Images, k: nat)
    requires k < |DrawnLines.Kept(ShownImages(body, images))|
    ensures var kept := DrawnLines.Kept(ShownImages(body, images));
            var out := Split(ShownRewritten(body, images));
            && out == Saids(kept) && kept[k] in ShownImages(body, images)
            && kept[k].inCode == Odd(FencesIn(Join(out[..k])))
            && !LooksLikeSubtext(out[k])
            && (!kept[k].inCode ==>
                  && (LooksLikeHeading(out[k]) <==> ToBeDrawn(kept[k].drawn, kept[k].line))
                  && DiscordLevel(Join(out[k..]))
                     == (if ToBeDrawn(kept[k].drawn, kept[k].line) then Min(kept[k].drawn.heading.hashes, 3) else 0))
  {
    hide LooksLikeHeading, LooksLikeSubtext, DiscordLevel, Shows, ToBeDrawn, FencesIn, Join, Split, LostAbove, LostBy;
    hide Rewritten, ImagesOf, ToBeShown, Fits, Written, DrawnLines.Kept, Saids;
    WhatIsShownFits(body, images);
    var shown := Some(ToBeShown(Written(body), images));
    NoSmallPrintWhateverIsShown(Written(body), shown, k);
    ShownLosesNothing(Written(body), images);
    NothingLostAbove(ImagesOf(Written(body), shown), k);
    KeptAreImages(ShownImages(body, images));
    ImageIsDrawn(body, images, DrawnLines.Kept(ShownImages(body, images))[k]);
  }

  lemma ImageIsDrawn(body: string, images: Images, image: Image)
    requires image in ShownImages(body, images)
    ensures Shows(image.drawn, image.line) <==> ToBeDrawn(image.drawn, image.line)
  {
    hide Shows, ToBeDrawn, ShownImages, Split, ToBeShown, Written, ShownAfter, Behind, FencesIn, Without, Above, Answers;
    hide FlipsAfter, SeenBehind, OfHashesAlone;
    var i :| 0 <= i < |ShownImages(body, images)| && ShownImages(body, images)[i] == image;
    ImagesAreShown(body, images);
    EveryLineShownIsAccountedFor(body, images, i);
    ShowsWhereDrawn(image.drawn, image.line);
  }

  lemma ImagesAreShown(body: string, images: Images)
    ensures |ShownImages(body, images)| == |Split(ToBeShown(Written(body), images))|
  {
    hide Split, ToBeShown, Fits, Written, ImagesOf;
    WhatIsShownFits(body, images);
    ImagesAreTheShown(Written(body), Some(ToBeShown(Written(body), images)));
  }

  /** Over a whole body: Discord reads exactly the fences of what is shown. */
  lemma FencesOfWhatIsShown(body: string, images: Images)
    ensures FencesIn(ShownRewritten(body, images))
         == FencesIn(Without(FORM_FEED, Without(JOINED, ToBeShown(Written(body), images))))
  {
    hide Without, FencesIn, Rewritten, ImagesOf, LostBy, ToBeShown, Fits, Written;
    WhatIsShownFits(body, images);
    var shown := Some(ToBeShown(Written(body), images));
    FencesWhateverIsShown(Written(body), shown);
    ShownLosesNothing(Written(body), images);
    NothingLost(ImagesOf(Written(body), shown));
  }
}
