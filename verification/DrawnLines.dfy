/** A body's lines, each opened the way GitHub drew it: the fold over a body, and what its output is. */
module DrawnLines {
  import opened Text
  import opened Fences
  import opened Drawn
  import opened LineRules
  import opened LineTheorems
  import opened Reader
  import opened ReaderTheorems
  import Reading

  /** What stands in what is shown for a line break inside something taken out of it. */
  const JOINED: char := '\r'

  /** One line of what Discord is to be sent, and how many further lines GitHub read it holds. */
  datatype ShownLine = ShownLine(line: string, joined: nat)

  function ShownLines(lines: seq<string>): (shown: seq<ShownLine>)
    ensures |shown| == |lines|
    ensures forall i :: 0 <= i < |lines| ==> shown[i] == ShownLine(Without(JOINED, lines[i]), CountOf(JOINED, lines[i]))
  {
    seq(|lines|, i requires 0 <= i < |lines| => ShownLine(Without(JOINED, lines[i]), CountOf(JOINED, lines[i])))
  }

  /** Without anything taken out, what is shown is what was written. */
  function AsWritten(lines: seq<string>): (shown: seq<ShownLine>)
    ensures |shown| == |lines|
    ensures forall i :: 0 <= i < |lines| ==> shown[i] == ShownLine(lines[i], 0)
  {
    seq(|lines|, i requires 0 <= i < |lines| => ShownLine(lines[i], 0))
  }

  function ToShow(lines: seq<string>, shown: Option<string>): seq<ShownLine> {
    if shown.Some? then ShownLines(Split(shown.value)) else AsWritten(lines)
  }

  /** How many lines GitHub read the shown ones hold. */
  function Held(shown: seq<ShownLine>): nat {
    if shown == [] then 0 else 1 + shown[0].joined + Held(shown[1..])
  }

  /** What is shown holds the lines written, joined or not. */
  predicate Fits(written: string, shown: Option<string>) {
    shown.Some? ==> CountOf('\n', shown.value) + CountOf(JOINED, shown.value) == |Split(written)| - 1
  }

  /** What became of one shown line: how GitHub drew the first line in it, whether Discord shows it as
      code, and what it is shown as. */
  datatype Image = Image(drawn: Drawn, inCode: bool, line: string, said: Option<string>)

  function Images(s: State, inCode: bool, lines: seq<string>, shown: seq<ShownLine>): (images: seq<Image>)
    requires Held(shown) == |lines|
    ensures |images| == |shown|
    decreases |shown|
  {
    if shown == [] then []
    else
      var (after, drawn) := Next(s, lines[0]);
      var line := shown[0].line;
      var past := 1 + shown[0].joined;
      [Image(drawn, inCode, line, Said(drawn, inCode, line))]
      + Images(ReadAll(after, lines[1..past]), inCode != Odd(FencesIn(Without(FORM_FEED, line))),
               lines[past..], shown[1..])
  }

  function Kept(images: seq<Image>): (kept: seq<Image>)
    ensures forall i :: 0 <= i < |kept| ==> kept[i].said.Some?
  {
    if images == [] then []
    else (if images[0].said.Some? then [images[0]] else []) + Kept(images[1..])
  }

  lemma {:induction false} KeptAreImages(images: seq<Image>)
    ensures forall i :: 0 <= i < |Kept(images)| ==> Kept(images)[i] in images
  {
    if images != [] {
      KeptAreImages(images[1..]);
      hide Kept;
      KeptOfFirst(images);
    }
  }

  function Saids(kept: seq<Image>): (lines: seq<string>)
    requires forall i :: 0 <= i < |kept| ==> kept[i].said.Some?
    ensures |lines| == |kept| && forall i :: 0 <= i < |lines| ==> lines[i] == kept[i].said.value
  {
    seq(|kept|, i requires 0 <= i < |kept| => kept[i].said.value)
  }

  // ----- What is shown fits what was written -----

  lemma {:induction false} HeldByAll(lines: seq<string>)
    ensures Held(AsWritten(lines)) == |lines|
  {
    if lines != [] {
      HeldByAll(lines[1..]);
      assert AsWritten(lines)[1..] == AsWritten(lines[1..]);
    }
  }

  lemma HeldOfFirst(first: string, rest: seq<string>)
    ensures Held(ShownLines([first] + rest)) == 1 + CountOf(JOINED, first) + Held(ShownLines(rest))
  {
    assert ShownLines([first] + rest)[1..] == ShownLines(rest);
  }

  lemma {:induction false} HeldByShown(s: string)
    ensures Held(ShownLines(Split(s))) == 1 + CountOf('\n', s) + CountOf(JOINED, s)
  {
    hide Split, Held;
    if s == [] {
      NoLines();
      HeldOfFirst("", []);
      NothingHeld();
      assert [""] + [] == [""];
    } else {
      var rest := Split(s[1..]);
      HeldByShown(s[1..]);
      SplitFirst(s);
      HeldOfFirst(rest[0], rest[1..]);
      assert [rest[0]] + rest[1..] == rest;
      if s[0] == '\n' {
        HeldOfFirst("", rest);
      } else {
        var first := [s[0]] + rest[0];
        HeldOfFirst(first, rest[1..]);
        assert first[1..] == rest[0];
      }
    }
  }

  lemma NothingHeld()
    ensures Held(ShownLines([])) == 0
  {
  }

  lemma FitsIsHeld(written: string, shown: Option<string>)
    requires Fits(written, shown)
    ensures Held(ToShow(Split(written), shown)) == |Split(written)|
  {
    HeldByAll(Split(written));
    if shown.Some? {
      HeldByShown(shown.value);
    }
  }

  // ----- The fold -----

  /** Every image of `written` shown as `shown`, in order. */
  function ImagesOf(written: string, shown: Option<string>): seq<Image>
    requires Fits(written, shown)
  {
    FitsIsHeld(written, shown);
    Images(FRESH, false, Split(written), ToShow(Split(written), shown))
  }

  /** The lines of the output from a state, for the lines still to be read and shown. */
  function Output(s: State, inCode: bool, lines: seq<string>, shown: seq<ShownLine>): seq<string>
    requires Held(shown) == |lines|
  {
    Saids(Kept(Images(s, inCode, lines, shown)))
  }

  function Rewritten(written: string, shown: Option<string>): string
    requires Fits(written, shown)
  {
    FitsIsHeld(written, shown);
    Join(Output(FRESH, false, Split(written), ToShow(Split(written), shown)))
  }

  lemma OutputStep(s: State, inCode: bool, lines: seq<string>, shown: seq<ShownLine>)
    requires shown != [] && Held(shown) == |lines|
    ensures var (after, drawn) := Next(s, lines[0]);
            var past := 1 + shown[0].joined;
            var line := shown[0].line;
            var said := Said(drawn, inCode, line);
            && Held(shown[1..]) == |lines[past..]|
            && Output(s, inCode, lines, shown)
               == (if said.Some? then [said.value] else [])
                  + Output(ReadAll(after, lines[1..past]), inCode != Odd(FencesIn(Without(FORM_FEED, line))),
                           lines[past..], shown[1..])
  {
    hide Next, Said, Kept, Saids, Without, FencesIn;
    var images := Images(s, inCode, lines, shown);
    OutputOfFirst(images);
  }

  lemma OutputOfFirst(images: seq<Image>)
    requires images != []
    ensures Saids(Kept(images))
         == (if images[0].said.Some? then [images[0].said.value] else []) + Saids(Kept(images[1..]))
  {
    hide Kept, Saids;
    KeptOfFirst(images);
    if images[0].said.None? {
      assert Kept(images) == Kept(images[1..]);
    } else {
      SaidsOfFirst(images[0], Kept(images[1..]));
    }
  }

  lemma SaidsOfFirst(first: Image, rest: seq<Image>)
    requires first.said.Some? && forall i :: 0 <= i < |rest| ==> rest[i].said.Some?
    ensures Saids([first] + rest) == [first.said.value] + Saids(rest)
  {
  }

  lemma KeptOfFirst(images: seq<Image>)
    requires images != []
    ensures Kept(images) == (if images[0].said.Some? then [images[0]] else []) + Kept(images[1..])
  {
  }

  /** The lines something taken out ran across: each read as GitHub read it. */
  method ReadOn(github: Reading.Reading, lines: seq<string>)
    requires github.Valid()
    modifies github
    ensures github.Valid() && github.Read() == ReadAll(old(github.Read()), lines)
  {
    hide Next;
    ghost var before := github.Read();
    assert lines[..0] == [];
    for j := 0 to |lines|
      invariant github.Valid() && github.Read() == ReadAll(before, lines[..j])
    {
      assert lines[..j + 1] == lines[..j] + [lines[j]];
      ReadAllAppend(before, lines[..j], [lines[j]]);
      var _ := github.ReadLine(lines[j]);
    }
    assert lines[..|lines|] == lines;
  }

  lemma ReadAllStep(s: State, lines: seq<string>, next: nat, joined: nat)
    requires next + 1 + joined <= |lines|
    ensures var after := Next(s, lines[next]).0;
            ReadAll(s, lines[next..])
            == ReadAll(ReadAll(after, lines[next + 1..next + 1 + joined]), lines[next + 1 + joined..])
  {
    hide Next;
    var from, past := next + 1, next + 1 + joined;
    assert lines[next..][1..] == lines[from..past] + lines[past..];
    ReadAllAppend(Next(s, lines[next]).0, lines[from..past], lines[past..]);
  }

  /** What one turn of the loop does to what is still to be read and shown. */
  lemma Turn(s: State, inCode: bool, lines: seq<string>, next: nat, pieces: seq<ShownLine>, k: nat)
    requires k < |pieces| && next <= |lines| && Held(pieces[k..]) == |lines| - next
    ensures var past := next + 1 + pieces[k].joined;
            && past <= |lines| && Held(pieces[k + 1..]) == |lines| - past
            && var (after, drawn) := Next(s, lines[next]);
               var behind := ReadAll(after, lines[next + 1..past]);
               var line := pieces[k].line;
               var said := Said(drawn, inCode, line);
               && ReadAll(s, lines[next..]) == ReadAll(behind, lines[past..])
               && Output(s, inCode, lines[next..], pieces[k..])
                  == (if said.Some? then [said.value] else [])
                     + Output(behind, inCode != Odd(FencesIn(Without(FORM_FEED, line))), lines[past..], pieces[k + 1..])
  {
    hide Next, Said, Output, Without, FencesIn;
    var past := next + 1 + pieces[k].joined;
    assert pieces[k..][1..] == pieces[k + 1..];
    OutputStep(s, inCode, lines[next..], pieces[k..]);
    ReadAllStep(s, lines, next, pieces[k].joined);
    assert lines[next..][1..1 + pieces[k].joined] == lines[next + 1..past];
    assert lines[next..][1 + pieces[k].joined..] == lines[past..];
  }

  /** `shown` with each line opening the way GitHub drew `written`; None where the two do not fit, and
      otherwise GitHub has read every line written, once and in order. */
  method LinesAsGithubDrewThem(written: string, shown: Option<string>)
    returns (said: Option<string>, ghost end: State)
    ensures said == if Fits(written, shown) then Some(Rewritten(written, shown)) else None
    ensures said.Some? ==> end == ReadAll(FRESH, Split(written))
  {
    hide Next, Said, Split, Output, ToShow, ReadAll, Without, FencesIn, Healthy, Rewritten;
    hide Reading.QuotePositions;
    var lines := Split(written);
    end := FRESH;
    if shown.Some? && CountOf('\n', shown.value) + CountOf(JOINED, shown.value) != |lines| - 1 {
      return None, end;
    }
    FitsIsHeld(written, shown);
    var pieces := ToShow(lines, shown);
    var saidLines: seq<string> := [];
    var fences: nat := 0;
    var github := new Reading.Reading();
    var next := 0;
    ghost var all := Output(FRESH, false, lines, pieces);
    assert pieces[0..] == pieces && lines[0..] == lines;
    for k := 0 to |pieces|
      invariant github.Valid() && fresh(github)
      invariant next <= |lines| && Held(pieces[k..]) == |lines| - next
      invariant ReadAll(FRESH, lines) == ReadAll(github.Read(), lines[next..])
      invariant all == saidLines + Output(github.Read(), Odd(fences), lines[next..], pieces[k..])
    {
      Turn(github.Read(), Odd(fences), lines, next, pieces, k);
      var piece := pieces[k];
      var past := next + 1 + piece.joined;
      var drawn := github.ReadLine(lines[next]);
      ReadOn(github, lines[next + 1..past]);
      next := past;
      var line := Said(drawn, Odd(fences), piece.line);
      fences := fences + FencesIn(Without(FORM_FEED, piece.line));
      ghost var rest := Output(github.Read(), Odd(fences), lines[next..], pieces[k + 1..]);
      if line.Some? {
        assert saidLines + ([line.value] + rest) == saidLines + [line.value] + rest;
        saidLines := saidLines + [line.value];
      } else {
        assert [] + rest == rest;
      }
    }
    assert lines[next..] == [];
    end := github.Read();
    NothingLeft(end, Odd(fences), lines);
    assert saidLines + [] == saidLines;
    RewrittenIsTheOutput(written, shown);
    said := Some(Join(saidLines));
  }

  lemma RewrittenIsTheOutput(written: string, shown: Option<string>)
    requires Fits(written, shown)
    ensures Held(ToShow(Split(written), shown)) == |Split(written)|
    ensures Rewritten(written, shown) == Join(Output(FRESH, false, Split(written), ToShow(Split(written), shown)))
  {
    FitsIsHeld(written, shown);
  }

  lemma NothingLeft(s: State, inCode: bool, lines: seq<string>)
    ensures Output(s, inCode, [], []) == [] && ReadAll(s, []) == s
  {
  }

  // ----- What the output is -----

  /** An image as the fold makes them: of a line the reader answered, its heading a real one. */
  predicate Made(image: Image) {
    && image.said == Said(image.drawn, image.inCode, image.line)
    && (image.drawn.AHeading? ==> image.drawn.heading.Valid())
  }

  /** Whether `image` is of the line `written` itself, nothing taken out of it. */
  predicate Whole(image: Image) {
    image.drawn.AHeading? ==> image.drawn.heading.lead + image.drawn.heading.words == image.line
  }

  lemma {:induction false} ImagesAreMade(s: State, inCode: bool, lines: seq<string>, shown: seq<ShownLine>)
    requires Held(shown) == |lines|
    ensures forall i :: 0 <= i < |shown| ==> Made(Images(s, inCode, lines, shown)[i])
    decreases |shown|
  {
    hide Next, Said;
    if shown != [] {
      var (after, drawn) := Next(s, lines[0]);
      if drawn.AHeading? {
        HeadingIsTheLine(s, lines[0]);
      }
      var past := 1 + shown[0].joined;
      ImagesAreMade(ReadAll(after, lines[1..past]), inCode != Odd(FencesIn(Without(FORM_FEED, shown[0].line))),
                    lines[past..], shown[1..]);
    }
  }

  /** With nothing taken out, the images are of the lines written, each as the reader answered it. */
  lemma {:induction false} ImagesAreTheLines(s: State, inCode: bool, lines: seq<string>)
    ensures Held(AsWritten(lines)) == |lines|
    ensures var images := Images(s, inCode, lines, AsWritten(lines));
            forall i :: 0 <= i < |lines| ==>
              images[i].line == lines[i] && images[i].drawn == Answers(s, lines)[i] && Whole(images[i])
    decreases |lines|
  {
    hide Next, Said;
    HeldByAll(lines);
    if lines != [] {
      var (after, drawn) := Next(s, lines[0]);
      if drawn.AHeading? {
        HeadingIsTheLine(s, lines[0]);
      }
      assert AsWritten(lines)[1..] == AsWritten(lines[1..]);
      assert lines[1..1] == [];
      ImagesAreTheLines(after, inCode != Odd(FencesIn(Without(FORM_FEED, lines[0]))), lines[1..]);
    }
  }

  /** What GitHub shows after a heading's opening, and whether a reader would see any of it. */
  function HeadingText(heading: Heading): string {
    if heading.hashes < |heading.words| then heading.words[heading.hashes + 1..] else ""
  }

  predicate Seen(heading: Heading) { exists c <- Closed(HeadingText(heading)) :: !Unseen(c) }

  /** A heading GitHub drew that Discord has one for. */
  predicate DiscordHasIt(drawn: Drawn) {
    drawn.AHeading? && drawn.heading.OnTop() && Seen(drawn.heading)
  }

  /** On a line nothing was taken out of, what is shown after the opening is what GitHub shows. */
  lemma WholeIsShown(image: Image)
    requires Made(image) && Whole(image) && image.drawn.AHeading?
    ensures ShownAfter(image.drawn.heading, image.line) == Some(HeadingText(image.drawn.heading))
    ensures Shows(image.drawn, image.line) <==> DiscordHasIt(image.drawn)
    ensures OfHashesAlone(image.drawn) ==> FencesIn(Without(FORM_FEED, image.line)) == 0
  {
    hide Said, FencesIn, Without, Unseen, Closed;
    var heading := image.drawn.heading;
    if heading.hashes < |heading.words| {
      RestIsShown(heading, image.line);
    } else {
      NoFencesInAnOpening(heading);
    }
  }

  lemma RestIsShown(heading: Heading, line: string)
    requires heading.lead + heading.words == line && heading.hashes < |heading.words|
    ensures ShownAfter(heading, line) == Some(HeadingText(heading))
  {
    var opening := heading.lead + heading.words[..heading.hashes + 1];
    assert line == opening + heading.words[heading.hashes + 1..];
  }

  lemma NoFencesInAnOpening(heading: Heading)
    requires heading.Valid() && heading.hashes >= |heading.words|
    ensures FencesIn(Without(FORM_FEED, heading.lead + heading.words)) == 0
  {
    var line := heading.lead + heading.words;
    forall i | 0 <= i < |line| ensures line[i] != '`' {
      if i < |heading.lead| {
        assert OpeningChar(heading.lead[i]);
      }
    }
    FenceNone(Without(FORM_FEED, line));
  }

  /** The fences that go with a line that is not shown. */
  function LostBy(image: Image): nat {
    if image.said.None? then FencesIn(Without(FORM_FEED, image.line)) else 0
  }

  /** What one line comes to: a heading where GitHub drew one that is shown, small print nowhere, and
      nothing only for a heading with nothing to see in it. */
  lemma ImageReads(image: Image, tail: string)
    requires Made(image) && Follows(tail)
    ensures image.said.None? <==>
            && !image.inCode && image.drawn.AHeading? && ShownAfter(image.drawn.heading, image.line).Some?
            && forall c <- Closed(ShownAfter(image.drawn.heading, image.line).value) :: Unseen(c)
    ensures image.said.Some? ==> !LooksLikeSubtext(image.said.value)
    ensures image.said.Some? && !image.inCode ==>
              && (LooksLikeHeading(image.said.value) <==> Shows(image.drawn, image.line))
              && DiscordLevel(image.said.value + tail)
                 == (if Shows(image.drawn, image.line) then Min(image.drawn.heading.hashes, HEADING_LEVELS) else 0)
  {
    hide Said, LooksLikeHeading, LooksLikeSubtext, DiscordLevel, ShownAfter, Closed, Unseen, Shows;
    SaidReads(image.drawn, image.inCode, image.line, tail);
  }

  /** And it holds the fences of what is shown of it, but for those a line not shown takes with it: only
      one GitHub drew as a heading of hashes alone has any. */
  lemma ImageKeepsFences(image: Image)
    requires Made(image)
    ensures FencesIn(Without(FORM_FEED, image.line))
         == LostBy(image) + if image.said.Some? then FencesIn(image.said.value) else 0
    ensures LostBy(image) > 0 ==> !image.inCode && OfHashesAlone(image.drawn)
  {
    hide Said, Without, FencesIn;
    SaidKeepsFences(image.drawn, image.inCode, image.line);
    if !image.inCode && OfHashesAlone(image.drawn) {
      BareIsNotSaid(image);
    }
  }

  lemma BareIsNotSaid(image: Image)
    requires Made(image) && !image.inCode && OfHashesAlone(image.drawn)
    ensures image.said.None?
  {
    NothingIsShown(image.drawn.heading);
  }

  // ----- Where code is, in the output -----

  lemma {:induction false} FencesOfJoin(lines: seq<string>)
    requires lines != []
    ensures FencesIn(Join(lines)) == FencesIn(lines[0]) + if |lines| == 1 then 0 else FencesIn(Join(lines[1..]))
  {
    if |lines| > 1 {
      FenceNone("\n");
      FenceSeam(lines[0], "\n");
      FenceSeam(lines[0] + "\n", Join(lines[1..]));
    }
  }

  lemma SaidsAbove(kept: seq<Image>, k: nat)
    requires 0 < k <= |kept| && forall i :: 0 <= i < |kept| ==> kept[i].said.Some?
    ensures FencesIn(Join(Saids(kept)[..k])) == FencesIn(kept[0].said.value) + FencesIn(Join(Saids(kept[1..])[..k - 1]))
  {
    var above := Saids(kept)[..k];
    assert above[1..] == Saids(kept[1..])[..k - 1];
    FencesOfJoin(above);
  }

  /** The fences lost above the k-th line that is shown. */
  function LostAbove(images: seq<Image>, k: nat): nat {
    if images == [] || (k == 0 && images[0].said.Some?) then 0
    else LostBy(images[0]) + LostAbove(images[1..], if images[0].said.Some? then k - 1 else k)
  }

  /** Images as the fold makes them one after another, the first shown as code or not. */
  predicate Folded(images: seq<Image>, inCode: bool) {
    && (images != [] ==> images[0].inCode == inCode)
    && (forall i :: 0 <= i < |images| ==> Made(images[i]))
    && (forall i :: 0 < i < |images| ==> images[i].inCode == FlipsAfter(images[i - 1]))
  }

  lemma FoldedBehind(images: seq<Image>, inCode: bool)
    requires images != [] && Folded(images, inCode)
    ensures Made(images[0]) && images[0].inCode == inCode && Folded(images[1..], FlipsAfter(images[0]))
  {
    hide Made, FlipsAfter;
    assert forall i :: 0 <= i < |images[1..]| ==> images[1..][i] == images[i + 1];
  }

  /** A line the loop took for code is one with an odd number of fences above it, lost or in the output. */
  lemma {:induction false} CodeIsCodeAbove(images: seq<Image>, inCode: bool, k: nat)
    requires Folded(images, inCode) && k < |Kept(images)|
    ensures Kept(images)[k].inCode == (inCode != Odd(FencesIn(Join(Saids(Kept(images))[..k])) + LostAbove(images, k)))
    decreases |images|
  {
    hide Said, Made, Without, FencesIn, Join, Saids, LostBy, Kept, LostAbove, Odd, Folded;
    NothingKept();
    FoldedBehind(images, inCode);
    ImageKeepsFences(images[0]);
    var kept, rest := Kept(images), images[1..];
    KeptOfFirst(images);
    LostAboveFirst(images, k);
    var line := FencesIn(Without(FORM_FEED, images[0].line));
    if images[0].said.None? {
      assert kept == Kept(rest);
      CodeIsCodeAbove(rest, FlipsAfter(images[0]), k);
      OddSum(line, FencesIn(Join(Saids(kept)[..k])) + LostAbove(rest, k));
    } else if k == 0 {
      NothingAbove(kept);
      NoneIsEven();
    } else {
      assert kept[1..] == Kept(rest);
      SaidsAbove(kept, k);
      ShownLosesNothing(images[0]);
      CodeIsCodeAbove(rest, FlipsAfter(images[0]), k - 1);
      OddSum(line, FencesIn(Join(Saids(kept[1..])[..k - 1])) + LostAbove(rest, k - 1));
    }
  }

  lemma NothingKept()
    ensures Kept([]) == []
  {
  }

  lemma LostAboveFirst(images: seq<Image>, k: nat)
    requires images != []
    ensures LostAbove(images, k)
         == if images[0].said.None? then LostBy(images[0]) + LostAbove(images[1..], k)
            else if k == 0 then 0 else LostAbove(images[1..], k - 1)
  {
    hide Without, FencesIn;
  }

  lemma ShownLosesNothing(image: Image)
    requires image.said.Some?
    ensures LostBy(image) == 0
  {
  }

  ghost predicate LosesNothing(images: seq<Image>) {
    forall i :: 0 <= i < |images| ==> LostBy(images[i]) == 0
  }

  lemma {:induction false} NothingLostAbove(images: seq<Image>, k: nat)
    requires LosesNothing(images)
    ensures LostAbove(images, k) == 0
  {
    hide LostBy;
    if images != [] && !(k == 0 && images[0].said.Some?) {
      assert forall i :: 0 <= i < |images[1..]| ==> images[1..][i] == images[i + 1];
      NothingLostAbove(images[1..], if images[0].said.Some? then k - 1 else k);
    }
  }

  lemma NothingAbove(kept: seq<Image>)
    requires forall i :: 0 <= i < |kept| ==> kept[i].said.Some?
    ensures FencesIn(Join(Saids(kept)[..0])) == 0
  {
    assert Saids(kept)[..0] == [];
  }

  /** Whether the line under `image` is shown as code. */
  predicate FlipsAfter(image: Image) {
    image.inCode != Odd(FencesIn(Without(FORM_FEED, image.line)))
  }

  lemma {:induction false} ImagesFlip(s: State, inCode: bool, lines: seq<string>, shown: seq<ShownLine>)
    requires Held(shown) == |lines|
    ensures var images := Images(s, inCode, lines, shown);
            && (images != [] ==> images[0].inCode == inCode)
            && forall i :: 0 < i < |images| ==> images[i].inCode == FlipsAfter(images[i - 1])
    decreases |shown|
  {
    hide Next, Said, Without, FencesIn;
    if shown != [] {
      var past := 1 + shown[0].joined;
      ImagesFlip(ReadAll(Next(s, lines[0]).0, lines[1..past]),
                 inCode != Odd(FencesIn(Without(FORM_FEED, shown[0].line))), lines[past..], shown[1..]);
    }
  }

  /** A line of the output is one line, whatever was written. */
  lemma {:induction false} OneLineEach(images: seq<Image>)
    requires forall i :: 0 <= i < |images| ==> Made(images[i]) && '\n' !in images[i].line
    ensures forall i :: 0 <= i < |Kept(images)| ==> '\n' !in Kept(images)[i].said.value
  {
    hide Said, Made, Whole;
    KeptAreImages(images);
    forall i | 0 <= i < |Kept(images)| ensures '\n' !in Kept(images)[i].said.value {
      var image := Kept(images)[i];
      var j :| 0 <= j < |images| && images[j] == image;
      SaidIsOneLine(image);
    }
  }

  lemma InsertAddsNoBreak(a: string, between: string, b: string)
    requires '\n' !in a && '\n' !in between && '\n' !in b
    ensures '\n' !in a + between + b
  {
  }

  lemma RewritesAddNoBreak(line: string)
    requires '\n' !in line
    ensures '\n' !in NotAHeading(line) && '\n' !in NotSubtext(line) && '\n' !in PlusAsDash(line)
  {
    hide LooseEnd, HashesAt, LooksLikeSubtext, Blank;
    var end, n := LooseEnd(line, 0), RunOf(Blank, line, 0);
    InsertAddsNoBreak(line[..end], "\\", line[end..]);
    if LooksLikeSubtext(line) && end < |line| {
      InsertAddsNoBreak(line[..end + 1], [ZERO_WIDTH_SPACE], line[end + 1..]);
    }
    if n < |line| {
      InsertAddsNoBreak(line[..n], "-", line[n + 1..]);
    }
  }

  lemma WordsAddNoBreak(rest: string)
    requires '\n' !in rest
    ensures '\n' !in WordsOf(rest) && '\n' !in Bold(WordsOf(rest)) && '\n' !in HeadingWords(WordsOf(rest))
  {
    hide Closed, DiscordSpace;
    ClosedIsPrefix(rest);
    var front := DropFront(DiscordSpace, Without(FORM_FEED, Closed(rest)));
    assert '\n' !in Closed(rest);
    assert '\n' !in front;
    assert '\n' !in WordsOf(rest);
    LedAddsNoBreak(WordsOf(rest));
  }

  lemma LedAddsNoBreak(words: string)
    requires '\n' !in words
    ensures '\n' !in Bold(words) && '\n' !in HeadingWords(words)
  {
  }

  lemma DrawnAddsNoBreak(heading: Heading, rest: string)
    requires heading.Valid() && '\n' !in rest && AsDrawn(heading, rest).Some?
    ensures '\n' !in AsDrawn(heading, rest).value
  {
    hide WordsOf, NotAHeading, PlusAsDash, Bold, HeadingWords, Strip;
    WordsAddNoBreak(rest);
    var item := heading.lead + Bold(WordsOf(rest));
    assert '\n' !in heading.lead;
    RewritesAddNoBreak(item);
    RewritesAddNoBreak(PlusAsDash(item));
  }

  lemma SaidIsOneLine(image: Image)
    requires Made(image) && '\n' !in image.line && image.said.Some?
    ensures '\n' !in image.said.value
  {
    hide NotAHeading, NotSubtext, PlusAsDash, AsDrawn, Without;
    var line := image.line;
    RewritesAddNoBreak(line);
    RewritesAddNoBreak(Without(FORM_FEED, PlusAsDash(line)));
    RewritesAddNoBreak(Without(FORM_FEED, line));
    RewritesAddNoBreak(NotAHeading(Without(FORM_FEED, PlusAsDash(line))));
    RewritesAddNoBreak(NotAHeading(Without(FORM_FEED, line)));
    if !image.inCode && image.drawn.AHeading? && ShownAfter(image.drawn.heading, line).Some? {
      var rest := ShownAfter(image.drawn.heading, line).value;
      if AsDrawn(image.drawn.heading, rest).Some? {
        DrawnAddsNoBreak(image.drawn.heading, rest);
        RewritesAddNoBreak(AsDrawn(image.drawn.heading, rest).value);
      }
    }
  }

  lemma TailOf(lines: seq<string>, k: nat) returns (tail: string)
    requires k < |lines|
    ensures Follows(tail) && Join(lines[k..]) == lines[k] + tail
  {
    var rest := lines[k..];
    if |rest| == 1 {
      tail := "";
      assert lines[k] + "" == lines[k];
    } else {
      tail := "\n" + Join(rest[1..]);
      assert lines[k] + "\n" + Join(rest[1..]) == lines[k] + tail;
    }
  }

  /** The output, line by line, is what is said of the images shown. */
  lemma OutputIsSaid(written: string, shown: Option<string>)
    requires Fits(written, shown)
    ensures var (images, out) := (ImagesOf(written, shown), Split(Rewritten(written, shown)));
            && (forall i :: 0 <= i < |images| ==> Made(images[i]))
            && (forall k :: 0 <= k < |Kept(images)| ==> Kept(images)[k] in images)
            && (Kept(images) != [] ==> out == Saids(Kept(images)))
            && (Kept(images) == [] ==> out == [""])
  {
    hide Said, Made, Next, Split, Join, ToShow, Without, FencesIn;
    var lines, pieces, images := Split(written), ToShow(Split(written), shown), ImagesOf(written, shown);
    FitsIsHeld(written, shown);
    ImagesAreMade(FRESH, false, lines, pieces);
    ImagesAreOneLine(written, shown);
    OneLineEach(images);
    KeptAreImages(images);
    SplitOfJoin(Saids(Kept(images)));
  }

  /** Where the loop takes a line for code, and where Discord does. */
  lemma CodeIsCode(written: string, shown: Option<string>, k: nat)
    requires Fits(written, shown) && k < |Kept(ImagesOf(written, shown))|
    ensures var (images, out) := (ImagesOf(written, shown), Saids(Kept(ImagesOf(written, shown))));
            Kept(images)[k].inCode == Odd(FencesIn(Join(out[..k])) + LostAbove(images, k))
  {
    hide Said, Made, Next, Split, Join, ToShow, Without, FencesIn, LostAbove, Kept, Saids;
    var lines, pieces := Split(written), ToShow(Split(written), shown);
    FitsIsHeld(written, shown);
    ImagesAreMade(FRESH, false, lines, pieces);
    ImagesFlip(FRESH, false, lines, pieces);
    CodeIsCodeAbove(ImagesOf(written, shown), false, k);
  }

  /** The k-th line of the output, whatever was taken out of what is shown: it is the k-th image shown; it
      is no small print; it was taken for code exactly where the fences above it, lost or in the output,
      are odd; and outside code Discord, reading on from it, draws a heading exactly where it shows one
      GitHub drew, at its own level or the third. */
  lemma NoSmallPrintWhateverIsShown(written: string, shown: Option<string>, k: nat)
    requires Fits(written, shown) && k < |Kept(ImagesOf(written, shown))|
    ensures var (images, out) := (ImagesOf(written, shown), Split(Rewritten(written, shown)));
            var image := Kept(images)[k];
            && out == Saids(Kept(images))
            && image.inCode == Odd(FencesIn(Join(out[..k])) + LostAbove(images, k))
            && !LooksLikeSubtext(out[k])
            && (!image.inCode ==>
                  && (LooksLikeHeading(out[k]) <==> Shows(image.drawn, image.line))
                  && DiscordLevel(Join(out[k..]))
                     == (if Shows(image.drawn, image.line) then Min(image.drawn.heading.hashes, 3) else 0))
  {
    hide *;
    OutputIsSaid(written, shown);
    CodeIsCode(written, shown, k);
    var images := ImagesOf(written, shown);
    var out := Saids(Kept(images));
    var image := Kept(images)[k];
    var j :| 0 <= j < |images| && images[j] == image;
    var tail := TailOf(out, k);
    ImageReads(image, tail);
    LevelsAreThree();
  }

  lemma LevelsAreThree()
    ensures HEADING_LEVELS == 3
  {
  }

  /** What is read of what is shown: the lines something taken out ran across as one. */
  function ReadAs(written: string, shown: Option<string>): string {
    if shown.Some? then Without(JOINED, shown.value) else written
  }

  lemma ImagesAreOneLine(written: string, shown: Option<string>)
    requires Fits(written, shown)
    ensures forall i :: 0 <= i < |ImagesOf(written, shown)| ==> '\n' !in ImagesOf(written, shown)[i].line
  {
    hide Split, Next, Said, Without, FencesIn;
    FitsIsHeld(written, shown);
    var pieces := ToShow(Split(written), shown);
    forall i | 0 <= i < |pieces| ensures '\n' !in ImagesOf(written, shown)[i].line {
      ImageIsOf(FRESH, false, Split(written), pieces, i);
    }
  }

  /** The i-th image is of the line that comes behind all those the shown lines above it hold. */
  lemma {:induction false} ImageIsOf(s: State, inCode: bool, lines: seq<string>, shown: seq<ShownLine>, i: nat)
    requires Held(shown) == |lines| && i < |shown|
    ensures var image := Images(s, inCode, lines, shown)[i];
            && Held(shown[..i]) < |lines|
            && image.line == shown[i].line && image.drawn == Answers(s, lines)[Held(shown[..i])]
    decreases |shown|
  {
    hide Next, Said, Without, FencesIn, Answers;
    if i == 0 {
      assert shown[..0] == [];
      FirstAnswer(s, lines);
    } else {
      var past := 1 + shown[0].joined;
      var after := ReadAll(Next(s, lines[0]).0, lines[1..past]);
      assert shown[..i][1..] == shown[1..][..i - 1] && shown[..i][0] == shown[0];
      ImageIsOf(after, inCode != Odd(FencesIn(Without(FORM_FEED, shown[0].line))), lines[past..], shown[1..], i - 1);
      AnswersBehind(s, lines, past);
    }
  }

  lemma FirstAnswer(s: State, lines: seq<string>)
    requires lines != []
    ensures Answers(s, lines)[0] == Next(s, lines[0]).1
  {
    hide Next;
  }

  lemma {:induction false} AnswersBehind(s: State, lines: seq<string>, past: nat)
    requires 1 <= past <= |lines|
    ensures Answers(s, lines)[past..] == Answers(ReadAll(Next(s, lines[0]).0, lines[1..past]), lines[past..])
    decreases past
  {
    hide Next;
    if past == 1 {
      assert lines[1..1] == [];
    } else {
      var after := Next(s, lines[0]).0;
      assert lines[1..past][0] == lines[1] && lines[1..past][1..] == lines[1..][1..past - 1];
      assert lines[1..][past - 1..] == lines[past..];
      AnswersBehind(after, lines[1..], past - 1);
      assert Answers(s, lines)[past..] == Answers(after, lines[1..])[past - 1..];
    }
  }

  /** Image by image: of which line written each is, how it was shown, where code is, and that its fences
      are said or lost. */
  lemma EveryImageIsAccountedFor(written: string, shown: Option<string>, i: nat)
    requires Fits(written, shown) && i < |ToShow(Split(written), shown)|
    ensures var (lines, pieces) := (Split(written), ToShow(Split(written), shown));
            var images := ImagesOf(written, shown);
            var image := images[i];
            && |images| == |pieces| && Held(pieces) == |lines| && Held(pieces[..i]) < |lines|
            && image.line == pieces[i].line && image.drawn == Answers(FRESH, lines)[Held(pieces[..i])]
            && image.inCode == (i > 0 && FlipsAfter(images[i - 1]))
            && (image.said.None? <==>
                  && !image.inCode && image.drawn.AHeading? && ShownAfter(image.drawn.heading, image.line).Some?
                  && forall c <- Closed(ShownAfter(image.drawn.heading, image.line).value) :: Unseen(c))
            && FencesIn(Without(FORM_FEED, image.line))
               == LostBy(image) + (if image.said.Some? then FencesIn(image.said.value) else 0)
            && (LostBy(image) > 0 ==> OfHashesAlone(image.drawn))
  {
    hide Said, Made, FlipsAfter, Without, FencesIn, Split, Answers, LostBy, ToShow, Held, ShownAfter, Closed, Unseen;
    hide LooksLikeHeading, LooksLikeSubtext, DiscordLevel, Shows;
    var lines, pieces := Split(written), ToShow(Split(written), shown);
    FitsIsHeld(written, shown);
    ImagesAreMade(FRESH, false, lines, pieces);
    ImagesFlip(FRESH, false, lines, pieces);
    ImageIsOf(FRESH, false, lines, pieces, i);
    ImageReads(ImagesOf(written, shown)[i], "");
    ImageKeepsFences(ImagesOf(written, shown)[i]);
  }

  // ----- Fences over a whole body -----

  function Lost(images: seq<Image>): nat {
    if images == [] then 0 else LostBy(images[0]) + Lost(images[1..])
  }

  lemma {:induction false} NothingLost(images: seq<Image>)
    requires LosesNothing(images)
    ensures Lost(images) == 0
  {
    hide LostBy;
    if images != [] {
      assert forall i :: 0 <= i < |images[1..]| ==> images[1..][i] == images[i + 1];
      NothingLost(images[1..]);
    }
  }

  lemma {:induction false} FencesOfSaids(images: seq<Image>)
    requires forall i :: 0 <= i < |images| ==> Made(images[i])
    ensures FencesIn(Join(Saids(Kept(images)))) + Lost(images) == FencesWritten(images)
    decreases |images|
  {
    hide Said, Made, Without, FencesIn, Join, Saids, LostBy;
    if images == [] {
      NothingAbove([]);
      NothingSaid();
    } else {
      ImageKeepsFences(images[0]);
      FencesOfSaids(images[1..]);
      var kept := Kept(images);
      KeptOfFirst(images);
      if images[0].said.None? {
        assert kept == Kept(images[1..]);
      } else {
        assert kept[1..] == Kept(images[1..]);
        ShownLosesNothing(images[0]);
        WholeSaids(kept);
        WholeSaids(kept[1..]);
        SaidsAbove(kept, |kept|);
      }
    }
  }

  lemma NothingSaid()
    ensures Saids([])[..0] == Saids([])
  {
  }

  lemma WholeSaids(kept: seq<Image>)
    requires forall i :: 0 <= i < |kept| ==> kept[i].said.Some?
    ensures |Saids(kept)| == |kept| && Saids(kept)[..|kept|] == Saids(kept)
  {
  }

  function FencesWritten(images: seq<Image>): nat {
    if images == [] then 0 else FencesIn(Without(FORM_FEED, images[0].line)) + FencesWritten(images[1..])
  }

  lemma {:induction false} FencesOfLines(lines: seq<string>, images: seq<Image>)
    requires |lines| == |images| && lines != []
    requires forall i :: 0 <= i < |lines| ==> images[i].line == lines[i]
    ensures FencesIn(Without(FORM_FEED, Join(lines))) == FencesWritten(images)
    decreases |lines|
  {
    if |lines| == 1 {
      assert FencesWritten(images[1..]) == 0;
    } else {
      FencesOfLines(lines[1..], images[1..]);
      var first, rest := lines[0], Join(lines[1..]);
      FedMiddle(first, '\n', rest);
      FenceNone("\n");
      FenceSeam(Without(FORM_FEED, first), "\n");
      FenceSeam(Without(FORM_FEED, first) + "\n", Without(FORM_FEED, rest));
    }
  }

  function LinesOf(shown: seq<ShownLine>): (lines: seq<string>)
    ensures |lines| == |shown| && forall i :: 0 <= i < |lines| ==> lines[i] == shown[i].line
  {
    seq(|shown|, i requires 0 <= i < |shown| => shown[i].line)
  }

  lemma {:induction false} WithoutJoin(lines: seq<string>)
    ensures Join(LinesOf(ShownLines(lines))) == Without(JOINED, Join(lines))
  {
    if |lines| > 1 {
      WithoutJoin(lines[1..]);
      assert LinesOf(ShownLines(lines))[1..] == LinesOf(ShownLines(lines[1..]));
      WithoutAppend(JOINED, lines[0] + "\n", Join(lines[1..]));
      WithoutAppend(JOINED, lines[0], "\n");
      assert Without(JOINED, "\n") == "\n";
    }
  }

  lemma ReadAsLines(written: string, shown: Option<string>)
    ensures Join(LinesOf(ToShow(Split(written), shown))) == ReadAs(written, shown)
  {
    hide Split, Join;
    if shown.Some? {
      WithoutJoin(Split(shown.value));
      JoinOfSplit(shown.value);
    } else {
      JoinOfSplit(written);
      assert LinesOf(AsWritten(Split(written))) == Split(written);
    }
  }

  /** Over a whole body Discord reads the fences of what is shown, less those lost. */
  lemma FencesWhateverIsShown(written: string, shown: Option<string>)
    requires Fits(written, shown)
    ensures FencesIn(Rewritten(written, shown)) + Lost(ImagesOf(written, shown))
         == FencesIn(Without(FORM_FEED, ReadAs(written, shown)))
  {
    hide Said, Made, Without, FencesIn, Split, Join, Next, ToShow, ReadAs, Held, LostBy;
    var lines, pieces, images := Split(written), ToShow(Split(written), shown), ImagesOf(written, shown);
    FitsIsHeld(written, shown);
    ImagesAreMade(FRESH, false, lines, pieces);
    forall i | 0 <= i < |pieces| ensures images[i].line == LinesOf(pieces)[i] {
      ImageIsOf(FRESH, false, lines, pieces, i);
    }
    FencesOfSaids(images);
    SomethingIsShown(written, shown);
    FencesOfLines(LinesOf(pieces), images);
    ReadAsLines(written, shown);
  }

  lemma SomethingIsShown(written: string, shown: Option<string>)
    ensures ToShow(Split(written), shown) != []
  {
  }

  // ----- Nothing taken out -----

  lemma WholeLosesNothing(body: string)
    ensures LosesNothing(ImagesOf(body, None))
    ensures forall i :: 0 <= i < |ImagesOf(body, None)| ==>
              var image := ImagesOf(body, None)[i];
              Shows(image.drawn, image.line) <==> DiscordHasIt(image.drawn)
  {
    hide Said, Made, Without, FencesIn, Split, Next, LostBy, Shows, DiscordHasIt, OfHashesAlone;
    var lines, images := Split(body), ImagesOf(body, None);
    FitsIsHeld(body, None);
    ImagesAreMade(FRESH, false, lines, AsWritten(lines));
    ImagesAreTheLines(FRESH, false, lines);
    forall i | 0 <= i < |images|
      ensures LostBy(images[i]) == 0 && (Shows(images[i].drawn, images[i].line) <==> DiscordHasIt(images[i].drawn))
    {
      WholeReads(images[i]);
    }
  }

  lemma WholeReads(image: Image)
    requires Made(image) && Whole(image)
    ensures LostBy(image) == 0 && (Shows(image.drawn, image.line) <==> DiscordHasIt(image.drawn))
  {
    hide Made, Said, Without, FencesIn, ShownAfter;
    ImageKeepsFences(image);
    if image.drawn.AHeading? {
      WholeIsShown(image);
    }
  }

  /** Of a body shown whole: line by line, what Discord is sent holds a heading exactly where GitHub drew
      one that Discord has - at its own level or the third - outside what Discord shows as code, counted
      in the output, and small print nowhere at all. */
  lemma HeadingsWhereGitHubDrewThem(body: string, k: nat)
    requires k < |Kept(ImagesOf(body, None))|
    ensures var kept := Kept(ImagesOf(body, None));
            var out := Split(Rewritten(body, None));
            && out == Saids(kept)
            && kept[k].inCode == Odd(FencesIn(Join(out[..k])))
            && !LooksLikeSubtext(out[k])
            && (!kept[k].inCode ==>
                  && (LooksLikeHeading(out[k]) <==> DiscordHasIt(kept[k].drawn))
                  && DiscordLevel(Join(out[k..]))
                     == (if DiscordHasIt(kept[k].drawn) then Min(kept[k].drawn.heading.hashes, 3) else 0))
  {
    hide Said, LooksLikeHeading, LooksLikeSubtext, DiscordLevel, DiscordHasIt, Shows, Without, FencesIn, Join, Next;
    hide Split, ToShow, LostAbove, LostBy, Rewritten, ImagesOf;
    var images := ImagesOf(body, None);
    NoSmallPrintWhateverIsShown(body, None, k);
    WholeLosesNothing(body);
    NothingLostAbove(images, k);
    KeptAreImages(images);
    var j :| 0 <= j < |images| && images[j] == Kept(images)[k];
  }

  /** Line by line: how GitHub drew the line is how its image says, what is said of it keeps every fence
      it was written with, and nothing is said only of a heading with nothing in it. */
  lemma EveryLineIsAccountedFor(body: string, i: nat)
    requires i < |Split(body)|
    ensures var images := ImagesOf(body, None);
            && |images| == |Split(body)|
            && images[i].line == Split(body)[i] && images[i].drawn == Answers(FRESH, Split(body))[i]
            && images[i].inCode == (i > 0 && FlipsAfter(images[i - 1]))
            && (images[i].said.None? <==>
                  !images[i].inCode && images[i].drawn.AHeading? && !Seen(images[i].drawn.heading))
            && FencesIn(Without(FORM_FEED, Split(body)[i]))
               == (if images[i].said.Some? then FencesIn(images[i].said.value) else 0)
  {
    hide Said, Made, FlipsAfter, Without, FencesIn, Split, Answers, LostBy, ShownAfter, Closed, Unseen;
    hide LooksLikeHeading, LooksLikeSubtext, DiscordLevel, Shows, DiscordHasIt;
    var lines, images := Split(body), ImagesOf(body, None);
    FitsIsHeld(body, None);
    ImagesAreMade(FRESH, false, lines, AsWritten(lines));
    ImagesAreTheLines(FRESH, false, lines);
    ImagesFlip(FRESH, false, lines, AsWritten(lines));
    WholeLosesNothing(body);
    ImageReads(images[i], "");
    ImageKeepsFences(images[i]);
    if images[i].drawn.AHeading? {
      WholeIsShown(images[i]);
    }
  }

  /** Over a whole body no fence is lost or made: Discord reads as many as were written. */
  lemma FencesAreConserved(body: string)
    ensures FencesIn(Rewritten(body, None)) == FencesIn(Without(FORM_FEED, body))
  {
    hide Without, FencesIn, Rewritten, ImagesOf, LostBy;
    FencesWhateverIsShown(body, None);
    WholeLosesNothing(body);
    NothingLost(ImagesOf(body, None));
  }
}
