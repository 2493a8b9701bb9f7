/** GitHub-authored text for Discord: what is taken out, what is linked, and what is closed at the end. */
module RichText {
  import opened Text
  import opened Fences
  import opened DrawnLines

  /** What the pipeline asks of libraries, and of the commit finder: every answer is allowed unless a
      theorem says which. `live` is where discord.py reads a mention at an `@`, `decimal` is Python's
      `\d`, `host` the lowercase host of an address, `named` that host as its idna form, and `commits`
      the commit hashes named in a text. */
  datatype Library = Library(
    live: (string, nat) -> bool, decimal: char -> bool,
    host: string -> Option<string>, named: string -> string,
    commits: string -> seq<Commit>)

  /** A commit hash found at `start..end`, and the link to it where its address can be built. */
  datatype Commit = Commit(start: nat, end: nat, link: Option<string>)

  datatype Images = Lift | AsLinks

  const COMMIT_LINK_LIMIT: nat := 5
  const IMAGES_SHOWN: nat := 4

  // ----- Words put back -----

  predicate OpensAMark(c: char) {
    || PythonSpace(c) || DiscordSpace(c)
    || c == '#' || c == '>' || c == '*' || c == '+' || c == '.' || c == ')' || Digit(c) || c == '`' || c == '-'
  }

  function AsWords(words: string): string {
    if words != [] && OpensAMark(words[0]) then [ZERO_WIDTH_SPACE] + words else words
  }

  // ----- Comments and pictures -----

  function Find(s: string, sub: string, from: nat): (at: Option<nat>)
    ensures at.Some? ==> from <= at.value && StartsAt(s, at.value, sub)
    decreases |s| + 1 - from
  {
    if from > |s| then None else if StartsAt(s, from, sub) then Some(from) else Find(s, sub, from + 1)
  }

  /** Where a comment that opens at `at` ends. One never closed is no comment. */
  function CommentEnd(s: string, at: nat): (end: Option<nat>)
    ensures end.Some? ==> at + 7 <= end.value <= |s|
  {
    if !StartsAt(s, at, "<!--") then None
    else
      match Find(s, "-->", at + 4)
      case Some(close) => Some(close + 3)
      case None => None
  }

  predicate MarkEnd(c: char) { c == '#' || c == '-' || c == '*' || c == '+' || c == '.' || c == ')' }

  predicate MarkAhead(s: string, at: nat)
    requires at <= |s|
  {
    var from := at + RunOf(Blank, s, at);
    from < |s| && (s[from] == '>' || Digit(s[from]) || MarkEnd(s[from]))
  }

  /** What something taken out of `start..end` leaves: a `JOINED` for each line break it held, and a
      zero-width space where what is on either side could now open a mark. */
  function LeftBehind(s: string, start: nat, end: nat): string
    requires start <= end <= |s|
  {
    var left := Repeat(JOINED, CountOf('\n', s[start..end]));
    if start > 0 && MarkEnd(s[start - 1]) && end < |s| && Blank(s[end]) then left + [ZERO_WIDTH_SPACE]
    else if MarkAhead(s, end) then left + [ZERO_WIDTH_SPACE]
    else left
  }

  function WithoutComments(s: string, at: nat): string
    requires at <= |s|
    decreases |s| - at
  {
    if at == |s| then []
    else
      match CommentEnd(s, at)
      case Some(end) => LeftBehind(s, at, end) + WithoutComments(s, end)
      case None => [s[at]] + WithoutComments(s, at + 1)
  }

  predicate TitleChar(c: char) { c != '[' && c != ']' && c != '\n' }

  predicate AddressChar(c: char) { c != '(' && c != ')' && c != '<' && c != '>' && !PythonSpace(c) }

  datatype Link = Link(start: nat, title: string, url: string, end: nat)

  /** `[words](url)` at `at`: the words cross no bracket and no line break, the address no space. */
  function LinkAt(s: string, at: nat): (link: Option<Link>)
    ensures link.Some? ==>
              && link.value.start == at < link.value.end <= |s|
              && s[at..link.value.end] == "[" + link.value.title + "](" + link.value.url + ")"
              && (forall c <- link.value.title :: TitleChar(c)) && (forall c <- link.value.url :: AddressChar(c))
  {
    if at >= |s| || s[at] != '[' then None
    else
      var close := at + 1 + RunOf(TitleChar, s, at + 1);
      if close + 1 >= |s| || s[close] != ']' || s[close + 1] != '(' then None
      else
        var end := close + 2 + RunOf(AddressChar, s, close + 2);
        if end >= |s| || s[end] != ')' then None
        else
          LinkIsItsParts(s, at, close, end);
          Some(Link(at, s[at + 1..close], s[close + 2..end], end + 1))
  }

  lemma LinkIsItsParts(s: string, at: nat, close: nat, end: nat)
    requires at + 1 <= close && close + 2 <= end < |s|
    requires s[at] == '[' && s[close] == ']' && s[close + 1] == '(' && s[end] == ')'
    ensures s[at..end + 1] == "[" + s[at + 1..close] + "](" + s[close + 2..end] + ")"
  {
    var whole := "[" + s[at + 1..close] + "](" + s[close + 2..end] + ")";
    forall i | 0 <= i < |whole| ensures whole[i] == s[at + i] {}
    assert |whole| == end + 1 - at;
  }

  function ImageAt(s: string, at: nat): Option<Link> {
    if at < |s| && s[at] == '!' then LinkAt(s, at + 1) else None
  }

  /** Pictures as their words, or as nothing where they have none. */
  function Shown(s: string, at: nat): string
    requires at <= |s|
    decreases |s| - at
  {
    if at == |s| then []
    else
      match ImageAt(s, at)
      case Some(image) =>
        (if image.title != [] then AsWords(image.title) else LeftBehind(s, at, image.end)) + Shown(s, image.end)
      case None => [s[at]] + Shown(s, at + 1)
  }

  /** Pictures as ordinary links: only the bang goes. */
  function PicturesAsLinks(s: string, at: nat): string
    requires at <= |s|
    decreases |s| - at
  {
    if at == |s| then []
    else
      match ImageAt(s, at)
      case Some(image) => s[at + 1..image.end] + PicturesAsLinks(s, image.end)
      case None => [s[at]] + PicturesAsLinks(s, at + 1)
  }

  // ----- Links -----

  function HostOf(lib: Library, url: string): Option<string> {
    if StartsAt(url, 0, "https://") then lib.host(url) else None
  }

  predicate EndsIn(s: string, tail: string) { |tail| <= |s| && s[|s| - |tail|..] == tail }

  /** The whole host or a dot and the whole host, never a bare suffix. */
  predicate IsGitHub(host: string) {
    || host == "github.com" || EndsIn(host, ".github.com")
    || host == "githubusercontent.com" || EndsIn(host, ".githubusercontent.com")
  }

  /** `s` from `at` on, with a zero-width space after each place the rule names. */
  function Broken(s: string, rule: (string, nat) -> bool, at: nat): string
    requires at <= |s|
    decreases |s| - at
  {
    if at == |s| then []
    else [s[at]] + (if rule(s, at) then [ZERO_WIDTH_SPACE] else []) + Broken(s, rule, at + 1)
  }

  /** `<@`, `<@!`, `<@&` or `<#`, then digits and `>`. */
  predicate MentionAt(decimal: char -> bool, s: string, at: nat) {
    && at + 1 < |s| && s[at] == '<'
    && var digits := if s[at + 1] == '@' && at + 2 < |s| && (s[at + 2] == '!' || s[at + 2] == '&') then at + 3 else at + 2;
       && (s[at + 1] == '@' || s[at + 1] == '#') && digits <= |s|
       && var run := RunOf(decimal, s, digits);
          run > 0 && digits + run < |s| && s[digits + run] == '>'
  }

  predicate JoinAt(s: string, at: nat) { at + 1 < |s| && s[at] == ']' && s[at + 1] == '(' }

  function Defused(lib: Library, s: string): string {
    var escaped := Broken(s, (t: string, i: nat) => i < |t| && t[i] == '@' && lib.live(t, i), 0);
    Broken(escaped, (t: string, i: nat) => MentionAt(lib.decimal, t, i), 0)
  }

  /** Mentions dead, and no `](` left. */
  function Inert(lib: Library, s: string): string {
    Broken(Defused(lib, s), JoinAt, 0)
  }

  datatype Fate = Kept | ToGitHub | Named

  /** What becomes of a link: one to a host GitHub serves is a link; one whose address cannot be read,
      or would take an odd number of fences with it, is kept as written; any other is words. */
  function FateOf(lib: Library, url: string): Fate {
    match HostOf(lib, url)
    case None => Kept
    case Some(host) =>
      if IsGitHub(host) then ToGitHub
      else if Odd(FencesIn(url)) != Odd(FencesIn(host)) then Kept
      else Named
  }

  function Destination(lib: Library, title: string, url: string): string {
    match FateOf(lib, url)
    case Kept => Inert(lib, "[" + title + "](" + url + ")")
    case ToGitHub => "[" + (if title == [] then lib.named(HostOf(lib, url).value) else title) + "](" + url + ")"
    case Named =>
      var host := lib.named(HostOf(lib, url).value);
      var words := AsWords(if title == [] then host else title + " (" + host + ")");
      if words != [] && words[|words| - 1] == '`' then words + [ZERO_WIDTH_SPACE] else words
  }

  /** A text as its links and what is typed around them. */
  datatype Piece = Typed(text: string) | Linked(title: string, url: string)

  function NextLink(s: string, from: nat): (link: Option<Link>)
    ensures link.Some? ==> from <= link.value.start < link.value.end <= |s| && LinkAt(s, link.value.start) == link
    decreases |s| + 1 - from
  {
    if from > |s| then None
    else
      match LinkAt(s, from)
      case Some(link) => Some(link)
      case None => NextLink(s, from + 1)
  }

  function Pieces(s: string, from: nat): seq<Piece>
    requires from <= |s|
    decreases |s| - from
  {
    match NextLink(s, from)
    case None => [Typed(s[from..])]
    case Some(link) => [Typed(s[from..link.start]), Linked(link.title, link.url)] + Pieces(s, link.end)
  }

  function Render(lib: Library, piece: Piece): string {
    match piece
    case Typed(text) => Inert(lib, text)
    case Linked(title, url) => Destination(lib, Defused(lib, title), url)
  }

  function RenderAll(lib: Library, pieces: seq<Piece>): string {
    if pieces == [] then [] else Render(lib, pieces[0]) + RenderAll(lib, pieces[1..])
  }

  /** Every link rewritten, and everything around them made inert. */
  function Relinked(lib: Library, text: string): string { RenderAll(lib, Pieces(text, 0)) }

  lemma {:induction false} RenderAppend(lib: Library, a: seq<Piece>, b: seq<Piece>)
    ensures RenderAll(lib, a + b) == RenderAll(lib, a) + RenderAll(lib, b)
  {
    hide Render;
    if a == [] {
      assert a + b == b;
    } else {
      assert (a + b)[1..] == a[1..] + b;
      RenderAppend(lib, a[1..], b);
    }
  }

  method RewriteLinks(lib: Library, text: string) returns (out: string)
    ensures out == Relinked(lib, text)
  {
    hide NextLink, Inert, Destination, Defused, Render, RenderAll, Pieces;
    out := [];
    var typedFrom := 0;
    var link := NextLink(text, 0);
    NextLinkInText(text, 0);
    assert [] + RenderAll(lib, Pieces(text, 0)) == RenderAll(lib, Pieces(text, 0));
    while link.Some?
      invariant typedFrom <= |text| && link == NextLink(text, typedFrom)
      invariant link.Some? ==> typedFrom <= link.value.start < link.value.end <= |text|
      invariant Relinked(lib, text) == out + RenderAll(lib, Pieces(text, typedFrom))
      decreases |text| - typedFrom
    {
      OneLinkOn(lib, text, typedFrom);
      var typed := Render(lib, Typed(text[typedFrom..link.value.start]));
      var linked := Render(lib, Linked(link.value.title, link.value.url));
      ghost var rest := RenderAll(lib, Pieces(text, link.value.end));
      assert out + (typed + linked + rest) == out + typed + linked + rest;
      out := out + typed + linked;
      typedFrom := link.value.end;
      NextLinkInText(text, typedFrom);
      link := NextLink(text, typedFrom);
    }
    LastPiece(lib, text, typedFrom);
    out := out + Render(lib, Typed(text[typedFrom..]));
  }

  /** The next link and what is typed in front of it, and the rest. */
  lemma OneLinkOn(lib: Library, text: string, from: nat)
    requires from <= |text| && NextLink(text, from).Some?
    ensures var link := NextLink(text, from).value;
            RenderAll(lib, Pieces(text, from))
            == Render(lib, Typed(text[from..link.start])) + Render(lib, Linked(link.title, link.url))
               + RenderAll(lib, Pieces(text, link.end))
  {
    hide NextLink, Render;
    NextLinkInText(text, from);
    var link := NextLink(text, from).value;
    var typed, linked := Typed(text[from..link.start]), Linked(link.title, link.url);
    RenderAppend(lib, [typed, linked], Pieces(text, link.end));
    RenderAppend(lib, [typed], [linked]);
    assert [typed, linked] == [typed] + [linked];
    OnePiece(lib, typed);
    OnePiece(lib, linked);
  }

  lemma LastPiece(lib: Library, text: string, from: nat)
    requires from <= |text| && NextLink(text, from).None?
    ensures RenderAll(lib, Pieces(text, from)) == Render(lib, Typed(text[from..]))
  {
    OnePiece(lib, Typed(text[from..]));
  }

  lemma NextLinkInText(text: string, from: nat)
    ensures var link := NextLink(text, from); link.Some? ==> from <= link.value.start < link.value.end <= |text|
  {
  }

  lemma OnePiece(lib: Library, piece: Piece)
    ensures RenderAll(lib, [piece]) == Render(lib, piece)
  {
    hide Render;
  }

  // ----- Closing what is left open -----

  function ClosedWith(text: string, mark: string, tail: string): string
    requires mark != []
  {
    if Odd(Count(mark, text)) then text + tail else text
  }

  function Balanced(text: string): string {
    ClosedWith(ClosedWith(text, BOLD, "**"), FENCE, "\n```")
  }

  // ----- The whole pipeline -----

  /** Carriage returns folded into the line breaks GitHub reads. */
  function Folded(s: string): (r: string)
    ensures JOINED !in r
    decreases |s|
  {
    if s == [] then []
    else if s[0] == '\r' then "\n" + Folded(if |s| > 1 && s[1] == '\n' then s[2..] else s[1..])
    else [s[0]] + Folded(s[1..])
  }

  function Written(body: string): (r: string)
    ensures JOINED !in r
  {
    Folded(if body != [] && body[0] == '\U{FEFF}' then body[1..] else body)
  }

  function ToBeShown(written: string, images: Images): string {
    var text := WithoutComments(written, 0);
    if images.Lift? then Shown(text, 0) else PicturesAsLinks(text, 0)
  }

  predicate IsBreak(c: char) { c == '\n' }

  /** Runs of three line breaks or more as two. */
  function WithoutBlankRuns(s: string): string
    decreases |s|
  {
    if s == [] then []
    else
      var run := RunOf(IsBreak, s, 0);
      if run >= 3 then "\n\n" + WithoutBlankRuns(s[run..]) else [s[0]] + WithoutBlankRuns(s[1..])
  }

  function Cut(text: string, limit: nat): string {
    var stripped := Strip(PythonSpace, text);
    if |stripped| > limit then DropBack(PythonSpace, stripped[..limit]) + [ELLIPSIS] else stripped
  }

  predicate InOrder(commits: seq<Commit>, from: nat, to: nat) {
    commits == [] || (from <= commits[0].start <= commits[0].end <= to && InOrder(commits[1..], commits[0].end, to))
  }

  /** The text from `from` on with each linkable hash as its link. */
  function Spliced(text: string, from: nat, commits: seq<Commit>): string
    requires from <= |text| && InOrder(commits, from, |text|)
    decreases |commits|
  {
    if commits == [] then text[from..]
    else
      var first := commits[0];
      if first.link.None? then text[from..first.end] + Spliced(text, first.end, commits[1..])
      else text[from..first.start] + first.link.value + Spliced(text, first.end, commits[1..])
  }
}
