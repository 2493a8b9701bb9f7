/** Which mentions are live in a text whose links were rewritten: those of an address that is kept for a link
    to GitHub, and those made where what is typed meets a link off GitHub. Nothing typed is one. */
module MentionTheorems {
  import opened Text
  import opened Fences
  import opened RichText
  import opened LinkTheorems
  import opened JoinTheorems
  import Pipeline

  // ----- Live mentions -----

  /** A mention Discord would act on, or one discord.py escapes, at the front of a text. */
  predicate LiveHere(decimal: char -> bool, s: string) { EscapedAt(s, 0) || MentionAt(decimal, s, 0) }

  /** How many live mentions a text holds. */
  function LiveIn(decimal: char -> bool, s: string): nat {
    if s == [] then 0 else (if LiveHere(decimal, s) then 1 else 0) + LiveIn(decimal, s[1..])
  }

  /** How many become live by putting `b` after `a`. */
  function Across(decimal: char -> bool, a: string, b: string): nat {
    if a == [] then 0
    else (if LiveHere(decimal, a + b) && !LiveHere(decimal, a) then 1 else 0) + Across(decimal, a[1..], b)
  }

  /** Of the ASCII characters, only the digits are decimal, and the zero-width space is not. */
  predicate DigitsAreDecimal(decimal: char -> bool) {
    !decimal(ZERO_WIDTH_SPACE) && forall c: char :: decimal(c) && c as int < 128 ==> Digit(c)
  }

  lemma {:induction false} NoneLive(decimal: char -> bool, s: string)
    ensures LiveIn(decimal, s) == 0 <==> forall i :: 0 <= i < |s| ==> !EscapedAt(s, i) && !MentionAt(decimal, s, i)
  {
    hide EscapedAt, MentionAt;
    if s != [] {
      NoneLive(decimal, s[1..]);
      forall i | 0 < i < |s|
        ensures EscapedAt(s, i) == EscapedAt(s[1..], i - 1) && MentionAt(decimal, s, i) == MentionAt(decimal, s[1..], i - 1)
      {
        assert s == [s[0]] + s[1..];
        EscapedBehind([s[0]], s[1..], i);
        MentionBehind(decimal, [s[0]], s[1..], i);
      }
      assert forall i :: 0 <= i < |s[1..]| ==>
                           EscapedAt(s[1..], i) == EscapedAt(s, i + 1) && MentionAt(decimal, s[1..], i) == MentionAt(decimal, s, i + 1);
    }
  }

  /** Nothing inside a mention, nor the end of one. */
  predicate Stops(decimal: char -> bool, c: char) {
    c != '@' && c != '<' && c != '>' && c != '!' && c != '&' && c != '#' && !Letter(c) && !Digit(c) && !decimal(c)
  }

  lemma WordHolds(s: string, at: nat, word: string)
    requires StartsAt(s, at, word) && forall c <- word :: Letter(c)
    ensures forall i :: at <= i < at + |word| ==> Letter(s[i])
  {
    forall i | at <= i < at + |word| ensures Letter(s[i]) {
      assert s[at..at + |word|][i - at] in word;
    }
  }

  lemma EscapeHolds(decimal: char -> bool, s: string)
    requires EscapedAt(s, 0)
    ensures forall i :: 0 <= i < EscapeEnd(s) ==> !Stops(decimal, s[i])
  {
    hide StartsAt, Letter;
    if StartsAt(s, 1, "everyone") {
      WordHolds(s, 1, "everyone") by { LettersOfWords(); }
    } else if StartsAt(s, 1, "here") {
      WordHolds(s, 1, "here") by { LettersOfWords(); }
    }
  }

  lemma LettersOfWords()
    ensures forall c <- "everyone" :: Letter(c)
    ensures forall c <- "here" :: Letter(c)
  {
  }

  lemma MentionHolds(decimal: char -> bool, s: string)
    requires MentionAt(decimal, s, 0)
    ensures forall i :: 0 <= i < MentionEnd(decimal, s) ==> !Stops(decimal, s[i])
  {
    hide Letter;
  }

  /** What is live in front stays so whatever follows. */
  lemma LiveStays(decimal: char -> bool, a: string, b: string)
    requires LiveHere(decimal, a) && DigitsAreDecimal(decimal)
    ensures LiveHere(decimal, a + b)
  {
    hide EscapedAt, MentionAt, EscapeEnd, MentionEnd;
    if EscapedAt(a, 0) {
      EscapeIsItsCharacters(a, a + b);
    } else {
      MentionIsItsCharacters(decimal, a, a + b);
    }
  }

  /** A mention that is not all in `a` reaches over its end. */
  lemma LiveAcross(decimal: char -> bool, a: string, b: string)
    requires DigitsAreDecimal(decimal) && a != [] && LiveHere(decimal, a + b) && !LiveHere(decimal, a)
    ensures b != [] && !Stops(decimal, a[|a| - 1]) && !Stops(decimal, b[0])
  {
    hide EscapedAt, MentionAt, EscapeEnd, MentionEnd, Stops;
    var s := a + b;
    var end := if EscapedAt(s, 0) then EscapeEnd(s) else MentionEnd(decimal, s);
    if EscapedAt(s, 0) {
      EscapeHolds(decimal, s);
      if end <= |a| { EscapeIsItsCharacters(s, a); }
    } else {
      MentionHolds(decimal, s);
      if end <= |a| { MentionIsItsCharacters(decimal, s, a); }
    }
    assert end > |a|;
    assert s[|a| - 1] == a[|a| - 1] && s[|a|] == b[0];
  }

  lemma {:induction false} LiveAppend(decimal: char -> bool, a: string, b: string)
    requires DigitsAreDecimal(decimal)
    ensures LiveIn(decimal, a + b) == LiveIn(decimal, a) + LiveIn(decimal, b) + Across(decimal, a, b)
  {
    hide LiveHere;
    if a == [] {
      assert a + b == b;
    } else {
      assert (a + b)[1..] == a[1..] + b;
      LiveAppend(decimal, a[1..], b);
      if LiveHere(decimal, a) {
        LiveStays(decimal, a, b);
      }
    }
  }

  /** Nothing is made across an end or a front no mention can have in it. */
  lemma {:induction false} NothingAcross(decimal: char -> bool, a: string, b: string)
    requires DigitsAreDecimal(decimal)
    requires a == [] || b == [] || Stops(decimal, a[|a| - 1]) || Stops(decimal, b[0])
    ensures Across(decimal, a, b) == 0
  {
    hide LiveHere, Stops;
    if a != [] {
      NothingAcross(decimal, a[1..], b);
      if LiveHere(decimal, a + b) && !LiveHere(decimal, a) {
        LiveAcross(decimal, a, b);
      }
    }
  }

  /** Nothing live opens where there is no `@` and no `<`, nor reaches out of there. */
  lemma {:induction false} NothingOpensHere(decimal: char -> bool, a: string, b: string)
    requires '@' !in a && '<' !in a
    ensures LiveIn(decimal, a) == 0 && Across(decimal, a, b) == 0
  {
    if a != [] {
      NothingOpensHere(decimal, a[1..], b);
      assert a[0] in a && (a + b)[0] == a[0];
      OpensOnAMark(decimal, a);
      OpensOnAMark(decimal, a + b);
    }
  }

  lemma OpensOnAMark(decimal: char -> bool, s: string)
    ensures LiveHere(decimal, s) ==> s != [] && (s[0] == '@' || s[0] == '<')
  {
  }

  // ----- What is typed -----

  /** discord.py reads mentions by its own pattern, and Python's `\d` is what it is. */
  ghost predicate Reads(lib: Library) {
    DigitsAreDecimal(lib.decimal) && forall t, i :: lib.live(t, i) <==> EscapedAt(t, i)
  }

  lemma MentionHasNoBracket(decimal: char -> bool, s: string)
    requires MentionAt(decimal, s, 0) && DigitsAreDecimal(decimal)
    ensures forall i :: 0 <= i < MentionEnd(decimal, s) ==> s[i] != ']' && (i == 1 ==> s[i] != ZERO_WIDTH_SPACE)
  {
  }

  /** A mention in front of what is left where joins are broken was there before. */
  lemma MentionWasTyped(decimal: char -> bool, s: string, at: nat)
    requires at <= |s| && DigitsAreDecimal(decimal) && MentionAt(decimal, Broken(s, JoinAt, at), 0)
    ensures at < |s| && MentionAt(decimal, s, at)
  {
    hide MentionAt, MentionEnd, Broken;
    var out := Broken(s, JoinAt, at);
    var end := MentionEnd(decimal, out);
    MentionHasNoBracket(decimal, out);
    BrokenUpTo(s, JoinAt, ']', at, end);
    assert |s[at..]| >= end && forall i :: 0 <= i < end ==> s[at..][i] == out[i];
    MentionIsItsCharacters(decimal, out, s[at..]);
    MentionOfRest(decimal, s, at);
    MentionFits(decimal, s, at);
  }

  lemma MentionFits(decimal: char -> bool, s: string, at: nat)
    requires MentionAt(decimal, s, at)
    ensures at < |s|
  {
  }

  lemma {:induction false} NoMentionBetweenBroken(decimal: char -> bool, s: string, at: nat)
    requires at <= |s| && DigitsAreDecimal(decimal)
    requires forall i :: 0 <= i < |s| ==> !EscapedAt(s, i) && !MentionAt(decimal, s, i)
    ensures LiveIn(decimal, Broken(s, JoinAt, at)) == 0
    decreases |s| - at
  {
    hide EscapedAt, MentionAt, Broken, LiveIn;
    var out := Broken(s, JoinAt, at);
    if at == |s| {
      BrokenAtTheEnd(s, JoinAt);
      NothingLive(decimal);
    } else {
      var rest := Broken(s, JoinAt, at + 1);
      NoMentionBetweenBroken(decimal, s, at + 1);
      BrokenStep(s, JoinAt, at);
      if MentionAt(decimal, out, 0) { MentionWasTyped(decimal, s, at); }
      if EscapedAt(out, 0) { EscapeWasThere(s, JoinAt, ']', at); }
      if JoinAt(s, at) {
        assert out[1..] == [ZERO_WIDTH_SPACE] + rest;
        LiveStep(decimal, out);
        LiveStep(decimal, out[1..]);
        OpensOnAMark(decimal, out[1..]);
        assert out[1..][1..] == rest;
      } else {
        assert out[1..] == rest;
        LiveStep(decimal, out);
      }
    }
  }

  lemma NothingLive(decimal: char -> bool)
    ensures LiveIn(decimal, []) == 0
  {
  }

  lemma LiveStep(decimal: char -> bool, s: string)
    requires s != []
    ensures LiveIn(decimal, s) == (if LiveHere(decimal, s) then 1 else 0) + LiveIn(decimal, s[1..])
  {
  }

  lemma ReadsAreNoBrackets(lib: Library)
    requires Reads(lib)
    ensures !lib.decimal('<') && !lib.decimal('>')
  {
  }

  /** Whatever is typed, no mention in it is left live; nor in a link's words. */
  lemma TypedIsDead(lib: Library, text: string)
    requires Reads(lib)
    ensures LiveIn(lib.decimal, Render(lib, Typed(text))) == 0
    ensures LiveIn(lib.decimal, Defused(lib, text)) == 0
    ensures forall i :: 0 <= i < |Render(lib, Typed(text))| ==>
              !EscapedAt(Render(lib, Typed(text)), i) && !MentionAt(lib.decimal, Render(lib, Typed(text)), i)
  {
    hide EscapedAt, MentionAt, Broken, Defused, LiveIn;
    ReadsAreNoBrackets(lib);
    DefusedOnce(lib, text);
    NoneLive(lib.decimal, Defused(lib, text));
    NoMentionBetweenBroken(lib.decimal, Defused(lib, text), 0);
    NoneLive(lib.decimal, Inert(lib, text));
  }

  // ----- Links -----

  /** A host's name holds no `@` and no `<`. */
  predicate NameIsQuiet(lib: Library, title: string, url: string) {
    ShowsItsName(lib, title, url) ==> '@' !in NameOf(lib, url) && '<' !in NameOf(lib, url)
  }

  ghost predicate NamesAreQuiet(lib: Library, pieces: seq<Piece>) {
    forall i :: 0 <= i < |pieces| && pieces[i].Linked? ==> NameIsQuiet(lib, pieces[i].title, pieces[i].url)
  }

  lemma MarksStop(decimal: char -> bool)
    requires DigitsAreDecimal(decimal)
    ensures Stops(decimal, '[') && Stops(decimal, ']') && Stops(decimal, '(') && Stops(decimal, ')') && Stops(decimal, ' ')
    ensures Stops(decimal, '*') && Stops(decimal, '\n') && Stops(decimal, ZERO_WIDTH_SPACE)
  {
  }

  lemma AsLinkIsLive(decimal: char -> bool, title: string, url: string)
    requires DigitsAreDecimal(decimal)
    ensures LiveIn(decimal, AsLink(title, url)) == LiveIn(decimal, title) + LiveIn(decimal, url)
  {
    hide LiveIn, Across;
    MarksStop(decimal);
    hide Stops, DigitsAreDecimal;
    var front, back := "[" + title, url + ")";
    LiveAppend(decimal, "[", title);
    NothingOpensHere(decimal, "[", title);
    LiveAppend(decimal, url, ")");
    NothingAcross(decimal, url, ")");
    NothingOpensHere(decimal, ")", []);
    LiveAppend(decimal, "](", back);
    NothingOpensHere(decimal, "](", back);
    LiveAppend(decimal, front, "](" + back);
    NothingAcross(decimal, front, "](" + back);
    assert AsLink(title, url) == front + ("](" + back);
  }

  lemma WordsOffAreDead(decimal: char -> bool, title: string, name: string)
    requires DigitsAreDecimal(decimal) && LiveIn(decimal, title) == 0 && '@' !in name && '<' !in name
    ensures LiveIn(decimal, WordsOff(title, name)) == 0
  {
    hide LiveIn, Across;
    MarksStop(decimal);
    hide Stops, DigitsAreDecimal;
    NothingOpensHere(decimal, name, []);
    if title != [] {
      var behind := " (" + name + ")";
      NothingOpensHere(decimal, behind, []);
      NothingAcross(decimal, title, behind);
      LiveAppend(decimal, title, behind);
      assert WordsOff(title, name) == title + behind;
    }
  }

  lemma PutBackIsDead(decimal: char -> bool, words: string)
    requires DigitsAreDecimal(decimal) && LiveIn(decimal, words) == 0
    ensures LiveIn(decimal, PutBack(words)) == 0
  {
    hide LiveIn, Across;
    MarksStop(decimal);
    hide Stops, DigitsAreDecimal, OpensAMark;
    var zero := [ZERO_WIDTH_SPACE];
    NothingOpensHere(decimal, zero, words);
    NothingOpensHere(decimal, zero, []);
    LiveAppend(decimal, zero, words);
    var said := AsWords(words);
    NothingAcross(decimal, said, zero);
    LiveAppend(decimal, said, zero);
  }

  /** What is live in a link as it is published: what its address holds, where it is a link to GitHub. */
  function LiveInAddress(lib: Library, piece: Piece): nat {
    if piece.Linked? && FateOf(lib, piece.url).ToGitHub? then LiveIn(lib.decimal, piece.url) else 0
  }

  lemma LinkIsDead(lib: Library, title: string, url: string)
    requires Reads(lib) && NameIsQuiet(lib, title, url)
    ensures LiveIn(lib.decimal, Render(lib, Linked(title, url))) == LiveInAddress(lib, Linked(title, url))
  {
    hide LiveIn, FateOf, Defused, Inert, PutBack, WordsOff, AsLink;
    var said, name := Defused(lib, title), NameOf(lib, url);
    LinkComesTo(lib, title, url);
    TypedIsDead(lib, title);
    match FateOf(lib, url)
    case Kept => TypedIsDead(lib, AsLink(said, url));
    case ToGitHub =>
      AsLinkIsLive(lib.decimal, said, url);
      AsLinkIsLive(lib.decimal, name, url);
      if title == [] { NothingOpensHere(lib.decimal, name, []); }
    case Named =>
      WordsOffAreDead(lib.decimal, said, name);
      PutBackIsDead(lib.decimal, WordsOff(said, name));
  }

  // ----- The text as its pieces -----

  function LiveInAddresses(lib: Library, pieces: seq<Piece>): nat {
    if pieces == [] then 0 else LiveInAddress(lib, pieces[0]) + LiveInAddresses(lib, pieces[1..])
  }

  /** Typed text in front of a link off GitHub, which is shown as its words. */
  predicate MeetsWords(lib: Library, pieces: seq<Piece>) {
    |pieces| > 1 && pieces[0].Typed? && pieces[1].Linked? && FateOf(lib, pieces[1].url).Named?
  }

  /** How many mentions are made where typed text meets the words of a link off GitHub. */
  function Made(lib: Library, pieces: seq<Piece>): nat {
    if pieces == [] then 0
    else
      (if MeetsWords(lib, pieces) then Across(lib.decimal, Render(lib, pieces[0]), RenderAll(lib, pieces[1..])) else 0)
      + Made(lib, pieces[1..])
  }

  lemma {:induction false} BrokenLast(s: string, rule: (string, nat) -> bool, at: nat)
    requires at < |s|
    ensures var out := Broken(s, rule, at); out != [] && (out[|out| - 1] == s[|s| - 1] || out[|out| - 1] == ZERO_WIDTH_SPACE)
    decreases |s| - at
  {
    if at + 1 < |s| {
      BrokenLast(s, rule, at + 1);
    }
  }

  lemma InertLast(lib: Library, s: string)
    requires s != []
    ensures var out := Inert(lib, s);
            out != [] && out[0] == s[0] && (out[|out| - 1] == s[|s| - 1] || out[|out| - 1] == ZERO_WIDTH_SPACE)
  {
    hide Broken, MentionAt, JoinAt;
    InertEnds(lib, s);
    var live := (t: string, i: nat) => i < |t| && t[i] == '@' && lib.live(t, i);
    var mention := (t: string, i: nat) => MentionAt(lib.decimal, t, i);
    BrokenLast(s, live, 0);
    BrokenLast(Broken(s, live, 0), mention, 0);
    BrokenLast(Defused(lib, s), JoinAt, 0);
  }

  /** Nothing reaches out of a link as it is published, and into one only where it is shown as its words. */
  lemma LinkIsShut(lib: Library, title: string, url: string, before: string, after: string)
    requires Reads(lib) && NameIsQuiet(lib, title, url)
    ensures Across(lib.decimal, Render(lib, Linked(title, url)), after) == 0
    ensures !FateOf(lib, url).Named? ==> Across(lib.decimal, before, Render(lib, Linked(title, url)) + after) == 0
  {
    hide LiveIn, FateOf, Defused, Inert, PutBack, WordsOff, Across;
    var said, name := Defused(lib, title), NameOf(lib, url);
    var out := Render(lib, Linked(title, url));
    LinkComesTo(lib, title, url);
    MarksStop(lib.decimal);
    hide Stops;
    match FateOf(lib, url)
    case Kept =>
      InertLast(lib, AsLink(said, url));
      assert (out + after)[0] == '[';
      NothingAcross(lib.decimal, out, after);
      NothingAcross(lib.decimal, before, out + after);
    case ToGitHub =>
      assert (out + after)[0] == '[' && out[|out| - 1] == ')';
      NothingAcross(lib.decimal, out, after);
      NothingAcross(lib.decimal, before, out + after);
    case Named =>
      WordsEnd(lib.decimal, said, name, after);
  }

  lemma WordsEnd(decimal: char -> bool, title: string, name: string, after: string)
    requires DigitsAreDecimal(decimal) && '@' !in name && '<' !in name
    ensures Across(decimal, PutBack(WordsOff(title, name)), after) == 0
  {
    hide Across, OpensAMark;
    MarksStop(decimal);
    hide Stops;
    var out := PutBack(WordsOff(title, name));
    if title == [] {
      NothingOpensHere(decimal, out, after);
    } else {
      NothingAcross(decimal, out, after);
    }
  }

  lemma {:induction false} LiveOfPieces(lib: Library, pieces: seq<Piece>)
    requires Reads(lib) && NamesAreQuiet(lib, pieces) && Alternates(pieces)
    ensures LiveIn(lib.decimal, RenderAll(lib, pieces)) == LiveInAddresses(lib, pieces) + Made(lib, pieces)
    decreases |pieces|
  {
    hide Render, LiveIn, Across, Reads, NameIsQuiet, FateOf, TitleChar, AddressChar;
    var typed := pieces[0];
    var before := Render(lib, typed);
    TypedIsDead(lib, typed.text);
    if |pieces| == 1 {
      assert pieces == [typed] && pieces[1..] == [];
      OnePiece(lib, typed);
    } else {
      var link := pieces[1];
      assert pieces[1..][1..] == pieces[2..];
      assert forall i :: 0 <= i < |pieces[2..]| ==> pieces[2..][i] == pieces[i + 2];
      var middle, rest := Render(lib, link), RenderAll(lib, pieces[2..]);
      LinkIsDead(lib, link.title, link.url);
      LinkIsShut(lib, link.title, link.url, before, rest);
      LiveOfPieces(lib, pieces[2..]);
      assert RenderAll(lib, pieces[1..]) == middle + rest;
      ReadsDigits(lib);
      LiveAppend(lib.decimal, before, middle + rest);
      LiveAppend(lib.decimal, middle, rest);
      assert !MeetsWords(lib, pieces[1..]);
      TypedHasNoAddress(lib, typed);
    }
  }

  lemma TypedHasNoAddress(lib: Library, piece: Piece)
    requires piece.Typed?
    ensures LiveInAddress(lib, piece) == 0
  {
  }

  lemma ReadsDigits(lib: Library)
    requires Reads(lib)
    ensures DigitsAreDecimal(lib.decimal)
  {
  }

  /** Every mention that is live in a text whose links were rewritten is one an address of a link to GitHub
      holds, or was made where typed text meets the words of a link off GitHub. */
  lemma EveryMentionIsAccountedFor(lib: Library, text: string)
    requires Reads(lib) && NamesAreQuiet(lib, Pieces(text, 0))
    ensures LiveIn(lib.decimal, Relinked(lib, text)) == LiveInAddresses(lib, Pieces(text, 0)) + Made(lib, Pieces(text, 0))
  {
    PiecesAlternate(text, 0);
    LiveOfPieces(lib, Pieces(text, 0));
  }

  /** And closing what is open makes none, so it is the same of what is published. */
  lemma ClosingMakesNone(decimal: char -> bool, text: string)
    requires DigitsAreDecimal(decimal)
    ensures LiveIn(decimal, Balanced(text)) == LiveIn(decimal, text)
  {
    hide LiveIn, Across, Count;
    MarksStop(decimal);
    hide Stops, DigitsAreDecimal;
    var bold := ClosedWith(text, BOLD, "**");
    NothingOpensHere(decimal, "**", []);
    NothingOpensHere(decimal, "\n```", []);
    NothingAcross(decimal, text, "**");
    NothingAcross(decimal, bold, "\n```");
    LiveAppend(decimal, text, "**");
    LiveAppend(decimal, bold, "\n```");
  }

  lemma PublishedMentions(lib: Library, body: string, limit: nat, images: Images, repository: bool)
    requires var text := Pipeline.CutText(body, limit, images); repository ==> InOrder(lib.commits(text), 0, |text|)
    requires Reads(lib) && NamesAreQuiet(lib, Pieces(Pipeline.ToBeLinked(lib, body, limit, images, repository), 0))
    ensures var pieces := Pieces(Pipeline.ToBeLinked(lib, body, limit, images, repository), 0);
            LiveIn(lib.decimal, Balanced(Pipeline.LinkedText(lib, body, limit, images, repository)))
            == LiveInAddresses(lib, pieces) + Made(lib, pieces)
  {
    hide Pipeline.ToBeLinked, Pipeline.CutText, Balanced, LiveIn, LiveInAddresses, Made, Reads, Relinked, Pieces;
    var text := Pipeline.ToBeLinked(lib, body, limit, images, repository);
    EveryMentionIsAccountedFor(lib, text);
    ReadsDigits(lib);
    ClosingMakesNone(lib.decimal, Relinked(lib, text));
  }

  /** None is made where what is typed ends on a character no mention holds, or the words behind open on one. */
  lemma NoneIsMade(lib: Library, pieces: seq<Piece>, typed: string, words: string)
    requires DigitsAreDecimal(lib.decimal) && pieces != []
    requires typed == Render(lib, pieces[0]) && words == RenderAll(lib, pieces[1..])
    requires typed == [] || words == [] || Stops(lib.decimal, typed[|typed| - 1]) || Stops(lib.decimal, words[0])
    ensures Made(lib, pieces) == Made(lib, pieces[1..])
  {
    hide Stops, Render, RenderAll, Across;
    NothingAcross(lib.decimal, typed, words);
  }

  // ----- What is left as it was -----

  lemma {:induction false} BreakingOnlyAdds(s: string, rule: (string, nat) -> bool, at: nat)
    requires at <= |s|
    ensures Without(ZERO_WIDTH_SPACE, Broken(s, rule, at)) == Without(ZERO_WIDTH_SPACE, s[at..])
    decreases |s| - at
  {
    hide Broken, Without;
    if at == |s| {
      BrokenAtTheEnd(s, rule);
    } else {
      BreakingOnlyAdds(s, rule, at + 1);
      BrokenStep(s, rule, at);
      var first := if rule(s, at) then [s[at], ZERO_WIDTH_SPACE] else [s[at]];
      WithoutAppend(ZERO_WIDTH_SPACE, first, Broken(s, rule, at + 1));
      WithoutAppend(ZERO_WIDTH_SPACE, [s[at]], s[at + 1..]);
      OneMoreSpace(s[at]);
      assert s[at..] == [s[at]] + s[at + 1..];
    }
  }

  lemma OneMoreSpace(c: char)
    ensures Without(ZERO_WIDTH_SPACE, [c, ZERO_WIDTH_SPACE]) == Without(ZERO_WIDTH_SPACE, [c])
  {
    assert [c, ZERO_WIDTH_SPACE][1..] == [ZERO_WIDTH_SPACE] && [ZERO_WIDTH_SPACE][1..] == [] && [c][1..] == [];
  }

  /** Typed text gains zero-width spaces and nothing else, and none where nothing in it is live and no `](` is. */
  lemma TypedIsLeft(lib: Library, text: string)
    ensures Without(ZERO_WIDTH_SPACE, Render(lib, Typed(text))) == Without(ZERO_WIDTH_SPACE, text)
    ensures Reads(lib) && LiveIn(lib.decimal, text) == 0 && (forall i :: 0 <= i < |text| ==> !JoinAt(text, i)) ==>
              Render(lib, Typed(text)) == Defused(lib, text) == text
  {
    hide Broken, MentionAt, EscapedAt, JoinAt, LiveIn, Without;
    var live := (t: string, i: nat) => i < |t| && t[i] == '@' && lib.live(t, i);
    var mention := (t: string, i: nat) => MentionAt(lib.decimal, t, i);
    var escaped := Broken(text, live, 0);
    BreakingOnlyAdds(text, live, 0);
    BreakingOnlyAdds(escaped, mention, 0);
    BreakingOnlyAdds(Defused(lib, text), JoinAt, 0);
    assert text[0..] == text && escaped[0..] == escaped && Defused(lib, text)[0..] == Defused(lib, text);
    if Reads(lib) && LiveIn(lib.decimal, text) == 0 && forall i :: 0 <= i < |text| ==> !JoinAt(text, i) {
      NoneLive(lib.decimal, text);
      NothingToBreak(text, live, 0);
      NothingToBreak(text, mention, 0);
      NothingToBreak(text, JoinAt, 0);
    }
  }

  // ----- A mention made by a link -----

  const RINGING: string := "@[here](https://e.x)"

  lemma RingingCharacters()
    ensures |RINGING| == 20 && RINGING[0] == '@' && RINGING[1] == '[' && RINGING[6] == ']' && RINGING[7] == '(' && RINGING[19] == ')'
    ensures RINGING[2..6] == "here" && RINGING[8..19] == "https://e.x"
    ensures forall i :: 2 <= i < 6 ==> 'a' <= RINGING[i] <= 'z'
    ensures forall i :: 8 <= i < 19 ==> 'a' <= RINGING[i] <= 'z' || RINGING[i] == ':' || RINGING[i] == '/' || RINGING[i] == '.'
  {
  }

  lemma RingingHasOneLink()
    ensures LinkAt(RINGING, 0) == None
    ensures LinkAt(RINGING, 1) == Some(Link(1, "here", "https://e.x", |RINGING|))
  {
    RingingCharacters();
    forall i | 8 <= i < 19 ensures AddressChar(RINGING[i]) {
      PlainIsAddressed(RINGING[i]);
    }
    assert forall i :: 2 <= i < 6 ==> TitleChar(RINGING[i]);
    assert !AddressChar(')') && !TitleChar(']');
    RunIs(TitleChar, RINGING, 2, 4);
    RunIs(AddressChar, RINGING, 8, 11);
    hide RINGING, AddressChar, TitleChar;
  }

  lemma RingingInPieces()
    ensures Pieces(RINGING, 0) == [Typed("@"), Linked("here", "https://e.x"), Typed("")]
  {
    hide LinkAt;
    RingingHasOneLink();
    var link := Link(1, "here", "https://e.x", |RINGING|);
    assert NextLink(RINGING, 1) == Some(link);
    assert NextLink(RINGING, 0) == Some(link);
    NoLinkAtTheEnd(RINGING);
    assert RINGING[0..1] == "@" && RINGING[|RINGING|..] == "";
  }

  lemma QuietWords(lib: Library)
    requires Reads(lib)
    ensures Render(lib, Typed("@")) == "@" && Render(lib, Typed("")) == "" && Defused(lib, "here") == "here"
  {
    hide Render, Defused, Reads;
    var decimal := lib.decimal;
    LiveStep(decimal, "@");
    NothingLive(decimal);
    assert "@"[1..] == [];
    NothingOpensHere(decimal, "here", []);
    TypedIsLeft(lib, "@");
    TypedIsLeft(lib, "");
    TypedIsLeft(lib, "here");
  }

  lemma HereIsWords()
    ensures PutBack(WordsOff("here", "e.x")) == "here (e.x)"
  {
    var words := WordsOff("here", "e.x");
    assert words == "here (e.x)";
    assert words[0] == 'h' && words[|words| - 1] == ')';
    assert !OpensAMark('h');
  }

  /** The text that shows the condition is needed: it comes out as `@here (e.x)`. */
  lemma ALinkThatRings(lib: Library)
    requires Reads(lib) && lib.host("https://e.x") == Some("e.x") && lib.named("e.x") == "e.x"
    ensures Relinked(lib, RINGING) == "@here (e.x)"
    ensures EscapedAt(Relinked(lib, RINGING), 0)
  {
    hide Reads, FateOf, Defused, Inert, PutBack, WordsOff, Pieces, RINGING;
    RingingInPieces();
    ForgingIsOff(lib);
    QuietWords(lib);
    HereIsWords();
    LinkComesTo(lib, "here", "https://e.x");
    var typed, linked, last := Typed("@"), Linked("here", "https://e.x"), Typed("");
    assert [typed, linked, last][1..] == [linked, last] && [linked, last][1..] == [last];
    OnePiece(lib, last);
    assert Render(lib, linked) == "here (e.x)";
    assert RenderAll(lib, [linked, last]) == "here (e.x)" + "";
    assert RenderAll(lib, [typed, linked, last]) == "@" + ("here (e.x)" + "") == "@here (e.x)";
    RingsAtTheFront();
  }

  lemma RingsAtTheFront()
    ensures EscapedAt("@here (e.x)", 0)
  {
    assert "@here (e.x)"[1..5] == "here";
  }
}
