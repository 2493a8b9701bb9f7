/** Which `](` there are in a text whose links were rewritten: the ones this wrote, and exactly when
    there is another. */
module JoinTheorems {
  import opened Text
  import opened Fences
  import opened RichText
  import opened LinkTheorems

  /** How many `](` a text holds. */
  function JoinsIn(s: string): nat {
    if s == [] then 0 else (if JoinAt(s, 0) then 1 else 0) + JoinsIn(s[1..])
  }

  /** A join made by putting `b` after `a`. */
  predicate Seam(a: string, b: string) {
    a != [] && b != [] && a[|a| - 1] == ']' && b[0] == '('
  }

  lemma {:induction false} JoinsAppend(a: string, b: string)
    ensures JoinsIn(a + b) == JoinsIn(a) + JoinsIn(b) + if Seam(a, b) then 1 else 0
  {
    if a == [] {
      assert a + b == b;
    } else {
      assert (a + b)[1..] == a[1..] + b;
      JoinsAppend(a[1..], b);
    }
  }

  lemma {:induction false} NoJoins(s: string)
    requires ']' !in s
    ensures JoinsIn(s) == 0
  {
    if s != [] {
      NoJoins(s[1..]);
    }
  }

  /** Every join of a typed text is broken. */
  lemma {:induction false} BrokenHasNoJoins(s: string, at: nat)
    requires at <= |s|
    ensures JoinsIn(Broken(s, JoinAt, at)) == 0
    ensures Broken(s, JoinAt, at) != [] ==> at < |s| && Broken(s, JoinAt, at)[0] == s[at]
    decreases |s| - at
  {
    if at < |s| {
      var out, rest := Broken(s, JoinAt, at), Broken(s, JoinAt, at + 1);
      BrokenHasNoJoins(s, at + 1);
      if JoinAt(s, at) {
        assert out == [s[at]] + [ZERO_WIDTH_SPACE] + rest;
        assert out[1..] == [ZERO_WIDTH_SPACE] + rest;
        assert out[1..][1..] == rest;
      } else {
        assert out == [s[at]] + rest && out[1..] == rest;
      }
    }
  }

  lemma InertHasNoJoins(lib: Library, s: string)
    ensures JoinsIn(Inert(lib, s)) == 0
  {
    BrokenHasNoJoins(Defused(lib, s), 0);
  }

  // ----- What a rendered piece opens and closes on -----

  lemma {:induction false} BrokenEnds(s: string, rule: (string, nat) -> bool, at: nat, c: char)
    requires at <= |s| && c != ZERO_WIDTH_SPACE
    requires s != [] && s[|s| - 1] == c ==> !rule(s, |s| - 1)
    ensures EndsOn(Broken(s, rule, at), c) <==> EndsOn(s[at..], c)
    decreases |s| - at
  {
    if at < |s| {
      BrokenEnds(s, rule, at + 1, c);
      assert s[at..] == [s[at]] + s[at + 1..];
    }
  }

  predicate EndsOn(s: string, c: char) { s != [] && s[|s| - 1] == c }

  lemma {:induction false} BrokenOpens(s: string, rule: (string, nat) -> bool)
    ensures s == [] <==> Broken(s, rule, 0) == []
    ensures s != [] ==> Broken(s, rule, 0)[0] == s[0]
  {
  }

  lemma DefusedEnds(lib: Library, s: string)
    ensures EndsOn(Defused(lib, s), ']') <==> EndsOn(s, ']')
    ensures s == [] <==> Defused(lib, s) == []
    ensures s != [] ==> Defused(lib, s)[0] == s[0]
  {
    hide MentionAt;
    var live := (t: string, i: nat) => i < |t| && t[i] == '@' && lib.live(t, i);
    var mention := (t: string, i: nat) => MentionAt(lib.decimal, t, i);
    var escaped := Broken(s, live, 0);
    BrokenEnds(s, live, 0, ']');
    BrokenOpens(s, live);
    if EndsOn(escaped, ']') && mention(escaped, |escaped| - 1) {
      MentionOpens(lib.decimal, escaped, |escaped| - 1);
    }
    BrokenEnds(escaped, mention, 0, ']');
    BrokenOpens(escaped, mention);
    assert s[0..] == s && escaped[0..] == escaped;
  }

  lemma InertEnds(lib: Library, s: string)
    ensures EndsOn(Inert(lib, s), ']') <==> EndsOn(s, ']')
    ensures s == [] <==> Inert(lib, s) == []
    ensures s != [] ==> Inert(lib, s)[0] == s[0]
  {
    var defused := Defused(lib, s);
    DefusedEnds(lib, s);
    BrokenEnds(defused, JoinAt, 0, ']');
    BrokenOpens(defused, JoinAt);
    assert defused[0..] == defused;
  }

  // ----- Links to GitHub, and links nobody wrote -----

  predicate IsLinkToGitHub(lib: Library, piece: Piece) {
    piece.Linked? && FateOf(lib, piece.url).ToGitHub?
  }

  function LinksToGitHub(lib: Library, pieces: seq<Piece>): nat {
    if pieces == [] then 0 else (if IsLinkToGitHub(lib, pieces[0]) then 1 else 0) + LinksToGitHub(lib, pieces[1..])
  }

  /** A link shown as its words, which open on a parenthesis, right behind a bracket somebody typed. */
  predicate Forges(lib: Library, pieces: seq<Piece>, i: nat) {
    && i + 1 < |pieces| && pieces[i].Typed? && EndsOn(pieces[i].text, ']')
    && pieces[i + 1].Linked? && OpensOnAParenthesis(lib, pieces[i + 1].title, pieces[i + 1].url)
  }

  function Forged(lib: Library, pieces: seq<Piece>): nat {
    if pieces == [] then 0 else (if Forges(lib, pieces, 0) then 1 else 0) + Forged(lib, pieces[1..])
  }

  /** A list of pieces as the text was taken apart: typed and linked by turns, ending on typed. */
  predicate Alternates(pieces: seq<Piece>) {
    && pieces != [] && pieces[0].Typed?
    && (|pieces| > 1 ==>
          && pieces[1].Linked? && |pieces| > 2 && Alternates(pieces[2..])
          && (forall c <- pieces[1].title :: TitleChar(c)) && (forall c <- pieces[1].url :: AddressChar(c)))
  }

  lemma {:induction false} PiecesAlternate(s: string, from: nat)
    requires from <= |s|
    ensures Alternates(Pieces(s, from))
    decreases |s| - from
  {
    hide NextLink, TitleChar, AddressChar;
    if NextLink(s, from).Some? {
      LinkFound(s, from);
      var link := NextLink(s, from).value;
      PiecesAlternate(s, link.end);
      assert Pieces(s, from)[2..] == Pieces(s, link.end);
    }
  }

  lemma {:induction false} NothingOpens(s: string)
    requires '(' !in s
    ensures JoinsIn(s) == 0
  {
    if s != [] {
      NothingOpens(s[1..]);
    }
  }

  lemma LinkWordsHaveOneJoin(title: string, url: string)
    requires ']' !in title && '(' !in url
    ensures JoinsIn("[" + title + "](" + url + ")") == 1
  {
    NoJoins("[" + title);
    NothingOpens("]");
    JoinsAppend("[" + title, "]");
    NothingOpens(url + ")");
    NoJoins("(");
    JoinsAppend("(", url + ")");
    JoinsAppend("[" + title + "]", "(" + (url + ")"));
    assert "[" + title + "](" + url + ")" == "[" + title + "]" + ("(" + (url + ")"));
  }

  /** A name that is shown can be put between brackets: it closes none, and is something where it is all
      there is. */
  predicate NameIsOpen(lib: Library, title: string, url: string) {
    ShowsItsName(lib, title, url) ==>
      ']' !in NameOf(lib, url) && (FateOf(lib, url).Named? ==> NameOf(lib, url) != [])
  }

  predicate NamesAreOpen(lib: Library, pieces: seq<Piece>) {
    forall i :: 0 <= i < |pieces| && pieces[i].Linked? ==> NameIsOpen(lib, pieces[i].title, pieces[i].url)
  }

  lemma PutBackHasNoJoin(words: string)
    requires words != [] && ']' !in words
    ensures PutBack(words) != [] && ']' !in PutBack(words) && (PutBack(words)[0] == '(' <==> words[0] == '(')
    ensures JoinsIn(PutBack(words)) == 0
  {
    NoJoins(PutBack(words));
  }

  /** A link off GitHub opens, as it is shown, on a parenthesis. */
  predicate OpensOnAParenthesis(lib: Library, title: string, url: string) {
    && FateOf(lib, url).Named?
    && var words := if title == [] then NameOf(lib, url) else title; words != [] && words[0] == '('
  }

  /** A link to GitHub renders as one join of its own; any other link as none. */
  lemma LinkJoins(lib: Library, title: string, url: string)
    requires NameIsOpen(lib, title, url) && ']' !in title && '(' !in url
    ensures var out := Render(lib, Linked(title, url));
            && JoinsIn(out) == (if FateOf(lib, url).ToGitHub? then 1 else 0)
            && out != [] && !EndsOn(out, ']')
            && (out[0] == '(' <==> OpensOnAParenthesis(lib, title, url))
  {
    hide Defused, Inert, JoinsIn, AsWords, PutBack, FateOf;
    var said, name := Defused(lib, title), NameOf(lib, url);
    DefusedAddsNothingElse(lib, title, ']');
    DefusedEnds(lib, title);
    LinkComesTo(lib, title, url);
    match FateOf(lib, url)
    case Kept =>
      InertHasNoJoins(lib, AsLink(said, url));
      InertEnds(lib, AsLink(said, url));
    case ToGitHub =>
      LinkWordsHaveOneJoin(if title == [] then name else said, url);
    case Named =>
      PutBackHasNoJoin(WordsOff(said, name));
  }

  lemma {:induction false} JoinsOfPieces(lib: Library, pieces: seq<Piece>)
    requires NamesAreOpen(lib, pieces) && Alternates(pieces)
    ensures JoinsIn(RenderAll(lib, pieces)) == LinksToGitHub(lib, pieces) + Forged(lib, pieces)
    decreases |pieces|
  {
    hide Render, JoinsIn, NameIsOpen, OpensOnAParenthesis, TitleChar;
    var typed := pieces[0];
    var before := Render(lib, typed);
    TypedJoins(lib, typed.text);
    if |pieces| == 1 {
      assert pieces == [typed] && pieces[1..] == [];
      OnePiece(lib, typed);
    } else {
      var link := pieces[1];
      assert pieces[1..][1..] == pieces[2..];
      assert forall i :: 0 <= i < |pieces[2..]| ==> pieces[2..][i] == pieces[i + 2];
      var middle, rest := Render(lib, link), RenderAll(lib, pieces[2..]);
      NoBracketInAddress(link.url);
      TitleIsOneLine(link.title);
      LinkJoins(lib, link.title, link.url);
      JoinsOfPieces(lib, pieces[2..]);
      assert RenderAll(lib, pieces) == before + (middle + rest);
      JoinsAppend(before, middle + rest);
      JoinsAppend(middle, rest);
      assert !Forges(lib, pieces[1..], 0);
    }
  }

  lemma NoBracketInAddress(url: string)
    requires forall c <- url :: AddressChar(c)
    ensures '(' !in url
  {
  }

  lemma TypedJoins(lib: Library, text: string)
    ensures JoinsIn(Render(lib, Typed(text))) == 0
    ensures EndsOn(Render(lib, Typed(text)), ']') <==> EndsOn(text, ']')
  {
    InertHasNoJoins(lib, text);
    InertEnds(lib, text);
  }

  /** How many `](` come out: one for each link to a host GitHub serves, and one for each link off GitHub
      whose words open on `(` right behind a typed `]`. So every one there is was written here for such
      a host exactly when there is no such link. */
  lemma EveryJoinIsAccountedFor(lib: Library, text: string)
    requires NamesAreOpen(lib, Pieces(text, 0))
    ensures JoinsIn(Relinked(lib, text))
         == LinksToGitHub(lib, Pieces(text, 0)) + Forged(lib, Pieces(text, 0))
    ensures JoinsIn(Relinked(lib, text)) == LinksToGitHub(lib, Pieces(text, 0))
        <==> forall i :: 0 <= i < |Pieces(text, 0)| ==> !Forges(lib, Pieces(text, 0), i)
  {
    PiecesAlternate(text, 0);
    JoinsOfPieces(lib, Pieces(text, 0));
    NoneForged(lib, Pieces(text, 0));
  }

  lemma {:induction false} NoneForged(lib: Library, pieces: seq<Piece>)
    ensures Forged(lib, pieces) == 0 <==> forall i :: 0 <= i < |pieces| ==> !Forges(lib, pieces, i)
  {
    hide FateOf;
    if pieces != [] {
      NoneForged(lib, pieces[1..]);
      forall i | 0 < i < |pieces| ensures Forges(lib, pieces, i) == Forges(lib, pieces[1..], i - 1) {
      }
      assert forall i :: 0 <= i < |pieces[1..]| ==> Forges(lib, pieces[1..], i) == Forges(lib, pieces, i + 1);
    }
  }

  const FORGING: string := "][(](https://e.x)"

  lemma ForgingCharacters()
    ensures |FORGING| == 17 && FORGING[0] == ']'
    ensures FORGING[1] == '[' && FORGING[2] == '(' && FORGING[3] == ']' && FORGING[4] == '(' && FORGING[16] == ')'
    ensures FORGING[2..3] == "(" && FORGING[5..16] == "https://e.x"
    ensures forall i :: 5 <= i < 16 ==> 'a' <= FORGING[i] <= 'z' || FORGING[i] == ':' || FORGING[i] == '/' || FORGING[i] == '.'
  {
  }

  lemma ForgingHasOneLink()
    ensures LinkAt(FORGING, 0) == None
    ensures LinkAt(FORGING, 1) == Some(Link(1, "(", "https://e.x", |FORGING|))
  {
    ForgingCharacters();
    forall i | 5 <= i < 16 ensures AddressChar(FORGING[i]) {
      PlainIsAddressed(FORGING[i]);
    }
    assert !AddressChar(')') && TitleChar('(') && !TitleChar(']');
    RunIs(TitleChar, FORGING, 2, 1);
    RunIs(AddressChar, FORGING, 5, 11);
    hide FORGING, AddressChar, TitleChar;
  }

  lemma ForgingInPieces()
    ensures Pieces(FORGING, 0) == [Typed("]"), Linked("(", "https://e.x"), Typed("")]
  {
    hide LinkAt;
    ForgingHasOneLink();
    var link := Link(1, "(", "https://e.x", |FORGING|);
    assert NextLink(FORGING, 1) == Some(link);
    assert NextLink(FORGING, 0) == Some(link);
    NoLinkAtTheEnd(FORGING);
    assert FORGING[0..1] == "]" && FORGING[|FORGING|..] == "";
  }

  lemma ForgingIsOff(lib: Library)
    requires lib.host("https://e.x") == Some("e.x")
    ensures FateOf(lib, "https://e.x") == Named
  {
    hide FencesIn;
    var url := "https://e.x";
    FenceNone(url);
    FenceNone("e.x");
    assert !IsGitHub("e.x");
    assert url[0..8] == "https://";
  }

  lemma OnePieceForges(lib: Library, title: string, url: string)
    requires FateOf(lib, url) == Named && title != "" && title[0] == '('
    ensures var pieces := [Typed("]"), Linked(title, url), Typed("")];
            Forged(lib, pieces) == 1 && LinksToGitHub(lib, pieces) == 0
  {
    hide FateOf;
    var pieces := [Typed("]"), Linked(title, url), Typed("")];
    assert pieces[1..] == [Linked(title, url), Typed("")] && pieces[1..][1..] == [Typed("")] && [Typed("")][1..] == [];
    assert Forges(lib, pieces, 0) && !Forges(lib, pieces[1..], 0) && !Forges(lib, [Typed("")], 0);
    assert Forged(lib, [Typed("")]) == 0 && LinksToGitHub(lib, [Typed("")]) == 0;
    assert Forged(lib, pieces[1..]) == 0 && LinksToGitHub(lib, pieces[1..]) == 0;
  }

  /** The text that shows the condition is needed: it comes out as `]( (e.x)`, with a join nobody
      wrote. */
  lemma AForgedJoin(lib: Library)
    requires lib.host("https://e.x") == Some("e.x") && lib.named("e.x") == "e.x"
    ensures JoinsIn(Relinked(lib, FORGING)) == 1
    ensures LinksToGitHub(lib, Pieces(FORGING, 0)) == 0
  {
    hide Pieces, Relinked, JoinsIn, FateOf, Forged, LinksToGitHub, Forges;
    ForgingInPieces();
    ForgingIsOff(lib);
    OnePieceForges(lib, "(", "https://e.x");
    EveryJoinIsAccountedFor(lib, FORGING);
  }
}
