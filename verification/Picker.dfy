/** What somebody chose for a board, read back from every shape the picker and the address bar write. */
module Picker {
  import opened Text

  const LARGEST_BOARD: nat := 0x7FFF_FFFF
  const MOST_LABEL: nat := 100

  /** A board somebody named, and the owner where they named one. */
  datatype Chosen = Chosen(number: nat, owner: string)

  // ----- Numbers -----

  function Decimal(n: nat): (digits: string)
    ensures digits != [] && forall i :: 0 <= i < |digits| ==> Digit(digits[i])
  {
    (if n < 10 then [] else Decimal(n / 10)) + [('0' as int + n % 10) as char]
  }

  lemma {:induction false} DecimalReadsBack(n: nat)
    ensures ValueOf(Decimal(n)) == n
  {
    var digits := Decimal(n);
    if n >= 10 {
      DecimalReadsBack(n / 10);
      assert digits[..|digits| - 1] == Decimal(n / 10);
    }
  }

  lemma {:induction false} DecimalIsShort(n: nat, places: nat)
    requires places >= 1 && n < Ten(places)
    ensures |Decimal(n)| <= places
  {
    if n >= 10 {
      assert places > 1;
      DecimalIsShort(n / 10, places - 1);
    }
  }

  function Ten(places: nat): nat { if places == 0 then 1 else 10 * Ten(places - 1) }

  lemma BoardNumbersAreShort(n: nat)
    requires n <= LARGEST_BOARD
    ensures |Decimal(n)| <= 10
  {
    assert Ten(5) == 100000;
    assert Ten(10) == 10 * (10 * (10 * (10 * (10 * Ten(5)))));
    DecimalIsShort(n, 10);
  }

  // ----- A board -----

  predicate LoginChar(c: char) { Letter(c) || Digit(c) || c == '_' || c == '-' }

  /** A GitHub login: letters, digits, hyphens and an underscore, at most thirty-nine, the first a letter
      or a digit. */
  predicate Login(owner: string) {
    && 1 <= |owner| <= 39 && (Letter(owner[0]) || Digit(owner[0]))
    && forall i :: 0 <= i < |owner| ==> LoginChar(owner[i])
  }

  function Board(number: string, owner: string): Option<Chosen>
    requires forall i :: 0 <= i < |number| ==> Digit(number[i])
  {
    if |number| > 10 || !(0 < ValueOf(number) <= LARGEST_BOARD) then None
    else if owner != "" && !Login(owner) then None
    else Some(Chosen(ValueOf(number), owner))
  }

  // ----- The three shapes -----

  predicate WordChar(c: char) { Letter(c) || Digit(c) || c == '_' }

  /** The number of a label: digits behind a `#`, ending where a word does. */
  function LabelNumber(text: string): (number: Option<string>)
    ensures number.Some? ==> forall i :: 0 <= i < |number.value| ==> Digit(number.value[i])
  {
    if text == [] || text[0] != '#' then None
    else
      var run := RunOf(Digit, text, 1);
      if run == 0 || (1 + run < |text| && WordChar(text[1 + run])) then None else Some(text[1..1 + run])
  }

  /** A letter in any case, in Unicode's sense of it: a long s is an s, and a kelvin sign a k. */
  predicate Alike(c: char, letter: char) {
    || c == letter || ('A' <= c <= 'Z' && c as int + 32 == letter as int)
    || (letter == 's' && c == '\U{017F}') || (letter == 'k' && c == '\U{212A}')
    || (letter == 'i' && (c == '\U{0130}' || c == '\U{0131}'))
  }

  predicate AlikeAt(s: string, at: nat, words: string) {
    at + |words| <= |s| && forall i :: 0 <= i < |words| ==> Alike(s[at + i], words[i])
  }

  /** Past `words` at `at`, in any case; None where they are not. */
  function Past(s: string, at: Option<nat>, words: string): (end: Option<nat>)
    ensures end.Some? ==> end.value <= |s|
  {
    if at.Some? && AlikeAt(s, at.value, words) then Some(at.value + |words|) else None
  }

  /** Past `words` if they are there. */
  function PastIf(s: string, at: Option<nat>, words: string): (end: Option<nat>)
    requires at.Some? ==> at.value <= |s|
    ensures end.Some? ==> end.value <= |s|
  {
    if Past(s, at, words).Some? then Past(s, at, words) else at
  }

  predicate OwnerChar(c: char) { c != '/' && c != '?' && c != '#' }

  /** Past whatever GitHub appends to a board's address: a view, a slash, a query. */
  predicate OnlyAppended(s: string, at: nat)
    requires at <= |s|
  {
    var view := Past(s, Some(at), "/views/");
    var past := if view.Some? && RunOf(Digit, s, view.value) > 0 then view.value + RunOf(Digit, s, view.value) else at;
    var end := if past < |s| && s[past] == '/' then past + 1 else past;
    end == |s| || ((s[end] == '?' || s[end] == '#') && forall i :: end < i < |s| ==> s[i] != '\n')
  }

  /** Where the kind of owner begins in an address. */
  function SiteOf(s: string): (at: Option<nat>)
    ensures at.Some? ==> at.value <= |s|
  {
    var scheme := Past(s, PastIf(s, Past(s, Some(0), "http"), "s"), "://");
    Past(s, PastIf(s, scheme, "www."), "github.com/")
  }

  /** The owner and the number in a board's own address. */
  function Address(s: string): (found: Option<(string, string)>)
    ensures found.Some? ==> forall i :: 0 <= i < |found.value.1| ==> Digit(found.value.1[i])
  {
    var site := SiteOf(s);
    var kind := if Past(s, site, "users/").Some? then Past(s, site, "users/") else Past(s, site, "orgs/");
    if kind.None? then None
    else
      var owner := RunOf(OwnerChar, s, kind.value);
      var projects := Past(s, Some(kind.value + owner), "/projects/");
      if owner == 0 || projects.None? then None
      else
        var number := RunOf(Digit, s, projects.value);
        if number == 0 || !OnlyAppended(s, projects.value + number) then None
        else Some((s[kind.value..kind.value + owner], s[projects.value..projects.value + number]))
  }

  /** What somebody chose, or None for what is not a board. */
  function Wanted(board: string): Option<Chosen> {
    var text := Strip(PythonSpace, board);
    if text != [] && forall i :: 0 <= i < |text| ==> Digit(text[i]) then Board(text, "")
    else if LabelNumber(text).Some? then Board(LabelNumber(text).value, "")
    else if Address(text).Some? then Board(Address(text).value.1, Address(text).value.0)
    else None
  }

  function Clipped(text: string): string {
    if |text| <= MOST_LABEL then text else text[..MOST_LABEL - 1] + [ELLIPSIS]
  }

  /** How a board is named in the picker. */
  function LabelFor(number: nat, title: string): string { Clipped("#" + Decimal(number) + " " + title) }

  // ----- Every shape reads back -----

  /** Anything taken for a board is one there is room for, and its owner a login. */
  lemma WantedIsInRange(board: string)
    ensures Wanted(board).Some? ==>
              && 1 <= Wanted(board).value.number <= 2147483647
              && (Wanted(board).value.owner == "" || Login(Wanted(board).value.owner))
  {
    hide Address, LabelNumber, Strip, Login, ValueOf;
  }

  lemma StripOfSolid(text: string)
    requires text != [] && !PythonSpace(text[0]) && !PythonSpace(text[|text| - 1])
    ensures Strip(PythonSpace, text) == text
  {
    hide PythonSpace;
    assert text[0..] == text;
    assert DropFront(PythonSpace, text) == text;
  }

  lemma NumberIsABoard(n: nat, owner: string)
    requires 1 <= n <= LARGEST_BOARD && (owner == "" || Login(owner))
    ensures Board(Decimal(n), owner) == Some(Chosen(n, owner))
  {
    hide Login, Decimal, ValueOf;
    DecimalReadsBack(n);
    BoardNumbersAreShort(n);
  }

  lemma NumbersReadBack(n: nat)
    requires 1 <= n <= LARGEST_BOARD
    ensures Wanted(Decimal(n)) == Some(Chosen(n, ""))
  {
    hide Decimal, Board;
    StripOfSolid(Decimal(n));
    NumberIsABoard(n, "");
  }

  lemma {:induction false} StripKeepsTheStart(text: string, solid: nat)
    requires 1 <= solid <= |text| && !PythonSpace(text[0]) && !PythonSpace(text[solid - 1])
    ensures var kept := Strip(PythonSpace, text);
            solid <= |kept| <= |text| && forall i :: 0 <= i < |kept| ==> kept[i] == text[i]
  {
    hide PythonSpace;
    assert text[0..] == text;
    assert DropFront(PythonSpace, text) == text;
    BackKeepsTheStart(text, solid);
    hide DropFront, DropBack;
  }

  lemma BackKeepsTheStart(text: string, solid: nat)
    requires 1 <= solid <= |text| && !PythonSpace(text[solid - 1])
    ensures var kept := DropBack(PythonSpace, text);
            solid <= |kept| <= |text| && forall i :: 0 <= i < |kept| ==> kept[i] == text[i]
  {
    hide PythonSpace;
    var kept := DropBack(PythonSpace, text);
    forall i | 0 <= i < |kept| ensures kept[i] == text[i] {
      assert text[..|kept|][i] == text[i];
    }
  }

  /** What a label opens with, whatever was cut off its end. */
  lemma LabelOpens(digits: string, title: string)
    requires 1 <= |digits| <= 10
    ensures var clipped := Clipped("#" + digits + " " + title);
            && 2 + |digits| <= |clipped| && clipped[0] == '#' && clipped[1 + |digits|] == ' '
            && forall i :: 0 <= i < |digits| ==> clipped[1 + i] == digits[i]
  {
    var whole := "#" + digits + " " + title;
    assert whole[0] == '#' && whole[1 + |digits|] == ' ';
    assert forall i :: 0 <= i < |digits| ==> whole[1 + i] == digits[i];
  }

  lemma LabelIsRead(text: string, digits: string)
    requires digits != [] && 1 + |digits| <= |text| && text[0] == '#'
    requires forall i :: 0 <= i < |digits| ==> Digit(digits[i]) && text[1 + i] == digits[i]
    requires 1 + |digits| < |text| ==> text[1 + |digits|] == ' '
    ensures LabelNumber(text) == Some(digits)
  {
    assert forall i :: 1 <= i < 1 + |digits| ==> text[i] == digits[i - 1];
    RunIs(Digit, text, 1, |digits|);
    assert text[1..1 + |digits|] == digits;
  }

  /** A label, however long its title and wherever it was cut, reads back as its number. */
  lemma LabelsReadBack(n: nat, title: string)
    requires 1 <= n <= LARGEST_BOARD
    ensures Wanted(LabelFor(n, title)) == Some(Chosen(n, ""))
  {
    hide Decimal, Board, Strip, ValueOf, Clipped, LabelNumber;
    var digits := Decimal(n);
    BoardNumbersAreShort(n);
    NumberIsABoard(n, "");
    var clipped := LabelFor(n, title);
    LabelOpens(digits, title);
    assert clipped[1 + (|digits| - 1)] == digits[|digits| - 1];
    StripKeepsTheStart(clipped, 1 + |digits|);
    var text := Strip(PythonSpace, clipped);
    LabelIsRead(text, digits);
    assert !Digit(text[0]);
  }

  predicate Prefix(s: string, at: nat, words: string) {
    at + |words| <= |s| && forall i :: 0 <= i < |words| ==> s[at + i] == words[i]
  }

  lemma PastPrefix(s: string, at: nat, words: string)
    requires Prefix(s, at, words)
    ensures Past(s, Some(at), words) == Some(at + |words|)
  {
  }

  function AddressOf(kind: string, owner: string, number: string): string {
    "https://github.com/" + kind + owner + "/projects/" + number
  }

  lemma AddressStart(s: string, rest: string)
    requires s == "https://github.com/" + rest
    ensures SiteOf(s) == Some(19)
  {
    hide Alike;
    var start := "https://github.com/";
    assert forall i :: 0 <= i < 19 ==> s[i] == start[i];
    PastPrefix(s, 0, "http");
    PastPrefix(s, 4, "s");
    PastPrefix(s, 5, "://");
    PastPrefix(s, 8, "github.com/");
    NotWww(s);
  }

  lemma NotWww(s: string)
    requires 9 < |s| && s[8] == 'g'
    ensures Past(s, Some(8), "www.") == None
  {
    assert "www."[0] == 'w';
  }

  /** Where each part of what was joined is in it. */
  lemma JoinedParts(a: string, b: string, c: string, d: string, e: string)
    ensures var s := a + b + c + d + e;
            && |s| == |a| + |b| + |c| + |d| + |e| && s == a + (b + c + d + e)
            && Prefix(s, |a|, b) && Prefix(s, |a| + |b|, c) && Prefix(s, |a| + |b| + |c|, d)
            && Prefix(s, |a| + |b| + |c| + |d|, e)
  {
  }

  /** Where the parts of an address are in it. */
  lemma AddressParts(kind: string, owner: string, number: string)
    ensures var s := AddressOf(kind, owner, number);
            var (from, past) := (19 + |kind|, 19 + |kind| + |owner|);
            && |s| == past + 10 + |number|
            && s == "https://github.com/" + (kind + owner + "/projects/" + number)
            && Prefix(s, 19, kind) && Prefix(s, from, owner) && Prefix(s, past, "/projects/")
            && Prefix(s, past + 10, number)
  {
    hide Prefix;
    JoinedParts("https://github.com/", kind, owner, "/projects/", number);
  }

  lemma RunOfPrefix(p: char -> bool, s: string, at: nat, words: string)
    requires Prefix(s, at, words) && forall i :: 0 <= i < |words| ==> p(words[i])
    requires at + |words| < |s| ==> !p(s[at + |words|])
    ensures RunOf(p, s, at) == |words| && s[at..at + |words|] == words
  {
    assert forall i :: at <= i < at + |words| ==> s[i] == words[i - at];
  }

  lemma AddressOfReads(kind: string, owner: string, number: string)
    requires kind == "users/" || kind == "orgs/"
    requires owner != [] && forall i :: 0 <= i < |owner| ==> OwnerChar(owner[i])
    requires number != [] && forall i :: 0 <= i < |number| ==> Digit(number[i])
    ensures Address(AddressOf(kind, owner, number)) == Some((owner, number))
  {
    hide Alike, AddressOf, Past, PastIf, OwnerChar, Digit, Prefix, OnlyAppended, Address, SiteOf, RunOf, AlikeAt;
    var s := AddressOf(kind, owner, number);
    var from, past := 19 + |kind|, 19 + |kind| + |owner|;
    AddressParts(kind, owner, number);
    AddressStart(s, kind + owner + "/projects/" + number);
    KindOf(s, kind);
    SlashEnds(s, past);
    RunOfPrefix(OwnerChar, s, from, owner);
    PastPrefix(s, past, "/projects/");
    RunOfPrefix(Digit, s, past + 10, number);
    NothingAppended(s);
    AddressUnfolds(s, 19, from, |owner|, past + 10, |number|);
  }

  lemma SlashEnds(s: string, at: nat)
    requires Prefix(s, at, "/projects/")
    ensures at < |s| && !OwnerChar(s[at])
  {
    assert s[at + 0] == "/projects/"[0];
  }

  lemma NothingAppended(s: string)
    ensures OnlyAppended(s, |s|)
  {
  }

  lemma KindOf(s: string, kind: string)
    requires kind == "users/" || kind == "orgs/"
    requires Prefix(s, 19, kind)
    ensures (if Past(s, Some(19), "users/").Some? then Past(s, Some(19), "users/") else Past(s, Some(19), "orgs/"))
         == Some(19 + |kind|)
  {
    PastPrefix(s, 19, kind);
    if kind == "orgs/" {
      assert s[19 + 0] == kind[0] && "users/"[0] == 'u';
    }
  }

  /** A board's own page reads back as its number and its owner. */
  lemma AddressesReadBack(kind: string, owner: string, n: nat)
    requires kind == "users/" || kind == "orgs/"
    requires Login(owner) && 1 <= n <= LARGEST_BOARD
    ensures Wanted(AddressOf(kind, owner, Decimal(n))) == Some(Chosen(n, owner))
  {
    hide Decimal, Board, ValueOf, Address, Strip;
    var number := Decimal(n);
    var s := AddressOf(kind, owner, number);
    assert forall i :: 0 <= i < |owner| ==> LoginChar(owner[i]);
    AddressOfReads(kind, owner, number);
    assert s[0] == 'h' && s[|s| - 1] == number[|number| - 1];
    StripOfSolid(s);
    NumberIsABoard(n, owner);
  }

  /** A label is within what Discord takes: whole where it fits, and its front and the mark of the cut else. */
  lemma LabelsFit(number: nat, title: string)
    ensures var (said, whole) := (LabelFor(number, title), "#" + Decimal(number) + " " + title);
            && |said| <= 100
            && (said == whole || (|whole| > 100 == |said| && said == whole[..|said| - 1] + [ELLIPSIS]))
            && (|whole| <= 100 ==> said == whole)
  {
  }

  // ----- Which texts are a board -----

  /** `http` or `https`, `www.` or not, and the site, in any case: where the kind of owner begins. */
  predicate IsSite(s: string, secure: bool, www: bool, at: nat) {
    var scheme := if secure then 5 else 4;
    var host := scheme + 3 + if www then 4 else 0;
    && at == host + 11 && AlikeAt(s, 0, "http") && (secure ==> AlikeAt(s, 4, "s")) && AlikeAt(s, scheme, "://")
    && (www ==> AlikeAt(s, scheme + 3, "www.")) && AlikeAt(s, host, "github.com/")
  }

  /** A view's number, a slash, and a query or a fragment on the same line, each there or not. */
  predicate IsAppended(s: string, at: nat, view: nat, slash: bool) {
    var past := at + if view > 0 then 7 + view else 0;
    var end := past + if slash then 1 else 0;
    && (view > 0 ==> AlikeAt(s, at, "/views/") && past <= |s| && forall i :: at + 7 <= i < past ==> Digit(s[i]))
    && end <= |s| && (slash ==> s[past] == '/')
    && (end == |s| || ((s[end] == '?' || s[end] == '#') && forall i :: end < i < |s| ==> s[i] != '\n'))
  }

  /** An owner's board: the kind of owner, the owner, the number. */
  predicate IsBoard(s: string, site: nat, orgs: bool, owner: string, number: string) {
    var from := site + if orgs then 5 else 6;
    var past := from + |owner|;
    && AlikeAt(s, site, if orgs then "orgs/" else "users/")
    && owner != [] && past <= |s| && s[from..past] == owner && (forall i :: 0 <= i < |owner| ==> OwnerChar(owner[i]))
    && AlikeAt(s, past, "/projects/")
    && number != [] && past + 10 + |number| <= |s| && s[past + 10..past + 10 + |number|] == number
    && forall i :: 0 <= i < |number| ==> Digit(number[i])
  }

  function EndOfBoard(site: nat, orgs: bool, owner: string, number: string): nat {
    site + (if orgs then 5 else 6) + |owner| + 10 + |number|
  }

  lemma OneOrOther(s: string, at: nat)
    ensures AlikeAt(s, at, "s") ==> !AlikeAt(s, at, "://")
    ensures AlikeAt(s, at, "www.") ==> !AlikeAt(s, at, "github.com/")
    ensures AlikeAt(s, at, "users/") ==> !AlikeAt(s, at, "orgs/")
    ensures AlikeAt(s, at, "/projects/") ==> at < |s| && !OwnerChar(s[at])
    ensures AlikeAt(s, at, "/views/") ==> at < |s| && s[at] == '/' && at + 1 < |s| && s[at + 1] != '?' && s[at + 1] != '#'
  {
    if at < |s| {
      assert "s"[0] == 's' && "://"[0] == ':' && "www."[0] == 'w' && "github.com/"[0] == 'g' && "users/"[0] == 'u' && "orgs/"[0] == 'o';
      assert "/projects/"[0] == '/' && "/views/"[0] == '/' && "/views/"[1] == 'v';
      assert s[at + 0] == s[at];
    }
  }

  lemma SiteExactly(s: string, at: nat)
    ensures SiteOf(s) == Some(at) <==> exists secure: bool, www: bool :: IsSite(s, secure, www, at)
  {
    hide AlikeAt;
    OneOrOther(s, 4);
    OneOrOther(s, 7);
    OneOrOther(s, 8);
    if SiteOf(s) == Some(at) {
      var secure := Past(s, Some(4), "s").Some?;
      assert IsSite(s, secure, Past(s, Some(if secure then 8 else 7), "www.").Some?, at);
    }
  }

  lemma AppendedExactly(s: string, at: nat)
    requires at <= |s|
    ensures OnlyAppended(s, at) <==> exists view: nat, slash :: IsAppended(s, at, view, slash)
  {
    hide AlikeAt, IsAppended;
    if OnlyAppended(s, at) {
      var read := if AlikeAt(s, at, "/views/") && at + 7 <= |s| then RunOf(Digit, s, at + 7) else 0;
      var past := at + if read > 0 then 7 + read else 0;
      AppendedIsOne(s, at, read, past < |s| && s[past] == '/');
    }
    if view: nat, slash :| IsAppended(s, at, view, slash) {
      OneIsAppended(s, at, view, slash);
    }
  }

  lemma ViewsFit(s: string, at: nat)
    ensures AlikeAt(s, at, "/views/") ==> at + 7 <= |s|
  {
  }

  lemma AppendedIsOne(s: string, at: nat, read: nat, slash: bool)
    requires at <= |s| && OnlyAppended(s, at)
    requires read == if AlikeAt(s, at, "/views/") && at + 7 <= |s| then RunOf(Digit, s, at + 7) else 0
    requires var past := at + (if read > 0 then 7 + read else 0); slash <==> past < |s| && s[past] == '/'
    ensures IsAppended(s, at, read, slash)
  {
    ViewsFit(s, at);
    hide AlikeAt, Digit;
  }

  lemma OneIsAppended(s: string, at: nat, view: nat, slash: bool)
    requires at <= |s| && IsAppended(s, at, view, slash)
    ensures OnlyAppended(s, at)
  {
    OneOrOther(s, at);
    ViewsFit(s, at);
    var past := at + if view > 0 then 7 + view else 0;
    var end := past + if slash then 1 else 0;
    if view > 0 {
      assert past < |s| ==> !Digit(s[past]);
      RunIs(Digit, s, at + 7, view);
    }
    hide AlikeAt, Digit;
  }

  /** A board's own address, with nothing behind it but what GitHub appends. */
  ghost predicate IsAddress(s: string, owner: string, number: string, site: nat, orgs: bool) {
    && SiteOf(s) == Some(site) && IsBoard(s, site, orgs, owner, number)
    && OnlyAppended(s, EndOfBoard(site, orgs, owner, number))
  }

  lemma BoardFits(s: string, site: nat, orgs: bool, owner: string, number: string)
    requires IsBoard(s, site, orgs, owner, number)
    ensures EndOfBoard(site, orgs, owner, number) <= |s|
  {
  }

  lemma SliceIsPrefix(s: string, at: nat, words: string)
    requires at + |words| <= |s| && s[at..at + |words|] == words
    ensures Prefix(s, at, words)
  {
    forall i | 0 <= i < |words| ensures s[at + i] == words[i] {
      assert s[at..at + |words|][i] == s[at + i];
    }
  }

  lemma OwnerIsRead(s: string, from: nat, owner: string)
    requires from + |owner| <= |s| && s[from..from + |owner|] == owner && forall i :: 0 <= i < |owner| ==> OwnerChar(owner[i])
    requires AlikeAt(s, from + |owner|, "/projects/")
    ensures RunOf(OwnerChar, s, from) == |owner|
  {
    OneOrOther(s, from + |owner|);
    hide AlikeAt, OwnerChar;
    SliceIsPrefix(s, from, owner);
    RunOfPrefix(OwnerChar, s, from, owner);
  }

  lemma NumberIsRead(s: string, from: nat, number: string)
    requires from + |number| <= |s| && s[from..from + |number|] == number && forall i :: 0 <= i < |number| ==> Digit(number[i])
    requires OnlyAppended(s, from + |number|)
    ensures RunOf(Digit, s, from) == |number|
  {
    AppendedIsNoDigit(s, from + |number|);
    hide OnlyAppended, Digit;
    SliceIsPrefix(s, from, number);
    RunOfPrefix(Digit, s, from, number);
  }

  lemma AppendedIsNoDigit(s: string, at: nat)
    requires at <= |s| && OnlyAppended(s, at)
    ensures at < |s| ==> !Digit(s[at])
  {
    OneOrOther(s, at);
    hide AlikeAt;
  }

  lemma BoardIsThere(s: string, site: nat, orgs: bool, owner: string, number: string)
    requires IsBoard(s, site, orgs, owner, number)
    ensures var from := site + if orgs then 5 else 6;
            var past := from + |owner|;
            && owner != [] && number != [] && past + 10 + |number| <= |s|
            && s[from..past] == owner && s[past + 10..past + 10 + |number|] == number
            && (forall i :: 0 <= i < |owner| ==> OwnerChar(owner[i])) && (forall i :: 0 <= i < |number| ==> Digit(number[i]))
            && AlikeAt(s, past, "/projects/")
            && Past(s, Some(past), "/projects/") == Some(past + 10)
            && (if Past(s, Some(site), "users/").Some? then Past(s, Some(site), "users/") else Past(s, Some(site), "orgs/"))
               == Some(from)
  {
    OneOrOther(s, site);
    hide AlikeAt, OwnerChar, Digit;
  }

  lemma AddressUnfolds(s: string, site: nat, from: nat, owner: nat, number: nat, digits: nat)
    requires SiteOf(s) == Some(site) && from <= |s| && number <= |s|
    requires (if Past(s, Some(site), "users/").Some? then Past(s, Some(site), "users/") else Past(s, Some(site), "orgs/")) == Some(from)
    requires RunOf(OwnerChar, s, from) == owner > 0 && Past(s, Some(from + owner), "/projects/") == Some(number)
    requires RunOf(Digit, s, number) == digits > 0 && OnlyAppended(s, number + digits)
    ensures Address(s) == Some((s[from..from + owner], s[number..number + digits]))
  {
    hide AlikeAt, OnlyAppended, OwnerChar, Digit, Past, PastIf;
  }

  lemma AddressIsRead(s: string, owner: string, number: string, site: nat, orgs: bool)
    requires IsAddress(s, owner, number, site, orgs)
    ensures Address(s) == Some((owner, number))
  {
    hide IsBoard, AlikeAt, OnlyAppended, OwnerChar, Digit, Past, PastIf, RunOf, Address, SiteOf;
    BoardFits(s, site, orgs, owner, number);
    BoardIsThere(s, site, orgs, owner, number);
    var from := site + if orgs then 5 else 6;
    var past := from + |owner|;
    OwnerIsRead(s, from, owner);
    NumberIsRead(s, past + 10, number);
    AddressUnfolds(s, site, from, |owner|, past + 10, |number|);
  }

  lemma BoardWasRead(s: string, site: nat, from: nat, number: nat)
    requires Past(s, Some(site), "users/") == Some(from) || (Past(s, Some(site), "users/").None? && Past(s, Some(site), "orgs/") == Some(from))
    requires from <= |s| && RunOf(OwnerChar, s, from) > 0
    requires Past(s, Some(from + RunOf(OwnerChar, s, from)), "/projects/") == Some(number) && RunOf(Digit, s, number) > 0
    ensures var past := from + RunOf(OwnerChar, s, from);
            number == past + 10
            && IsBoard(s, site, Past(s, Some(site), "users/").None?, s[from..past], s[number..number + RunOf(Digit, s, number)])
  {
    hide AlikeAt, OwnerChar, Digit;
  }

  lemma ReadIsAnAddress(s: string) returns (site: nat, orgs: bool)
    requires Address(s).Some?
    ensures IsAddress(s, Address(s).value.0, Address(s).value.1, site, orgs)
  {
    hide AlikeAt, OnlyAppended, OwnerChar, Digit, Past, PastIf, IsBoard, SiteOf, Address;
    var from, owner, number, digits;
    site, from, owner, number, digits := AddressParsed(s);
    orgs := Past(s, Some(site), "users/").None?;
    AddressUnfolds(s, site, from, owner, number, digits);
    BoardWasRead(s, site, from, number);
    KindIsAsLong(s, site, from);
  }

  lemma KindIsAsLong(s: string, site: nat, from: nat)
    requires (if Past(s, Some(site), "users/").Some? then Past(s, Some(site), "users/") else Past(s, Some(site), "orgs/")) == Some(from)
    ensures from == site + if Past(s, Some(site), "users/").None? then 5 else 6
  {
    hide AlikeAt;
  }

  lemma NothingIsPast(s: string)
    ensures Past(s, None, "users/") == None == Past(s, None, "orgs/")
  {
  }

  lemma AddressParsed(s: string) returns (site: nat, from: nat, owner: nat, number: nat, digits: nat)
    requires Address(s).Some?
    ensures SiteOf(s) == Some(site) && from <= |s| && number <= |s|
    ensures (if Past(s, Some(site), "users/").Some? then Past(s, Some(site), "users/") else Past(s, Some(site), "orgs/")) == Some(from)
    ensures RunOf(OwnerChar, s, from) == owner > 0 && Past(s, Some(from + owner), "/projects/") == Some(number)
    ensures RunOf(Digit, s, number) == digits > 0 && OnlyAppended(s, number + digits)
  {
    hide AlikeAt, OnlyAppended, OwnerChar, Digit, Past, PastIf;
    NothingIsPast(s);
    site := SiteOf(s).value;
    from := (if Past(s, Some(site), "users/").Some? then Past(s, Some(site), "users/") else Past(s, Some(site), "orgs/")).value;
    owner := RunOf(OwnerChar, s, from);
    number := Past(s, Some(from + owner), "/projects/").value;
    digits := RunOf(Digit, s, number);
  }

  /** A text is read as an owner's board if and only if it is that board's address. */
  lemma AddressesExactly(s: string, owner: string, number: string)
    ensures Address(s) == Some((owner, number)) <==> exists site: nat, orgs: bool :: IsAddress(s, owner, number, site, orgs)
  {
    hide Address, IsAddress;
    if Address(s) == Some((owner, number)) {
      var site, orgs := ReadIsAnAddress(s);
    }
    if site: nat, orgs: bool :| IsAddress(s, owner, number, site, orgs) {
      AddressIsRead(s, owner, number, site, orgs);
    }
  }

  /** A hash and a number, ending where a word does. */
  predicate IsLabel(text: string, number: string) {
    && number != [] && "#" + number <= text && (forall i :: 0 <= i < |number| ==> Digit(number[i]))
    && (1 + |number| < |text| ==> !WordChar(text[1 + |number|]))
  }

  lemma LabelsExactly(text: string, number: string)
    ensures LabelNumber(text) == Some(number) <==> IsLabel(text, number)
  {
    if LabelNumber(text) == Some(number) {
      assert text[..1 + |number|] == "#" + number;
    }
    if IsLabel(text, number) {
      assert text[0] == '#' && text[1..1 + |number|] == number;
      assert forall i :: 1 <= i < 1 + |number| ==> text[i] == text[1..1 + |number|][i - 1];
      RunIs(Digit, text, 1, |number|);
    }
  }

  /** A number there is room for. */
  predicate InRange(number: string, n: nat) {
    (forall i :: 0 <= i < |number| ==> Digit(number[i])) && |number| <= 10 && ValueOf(number) == n && 1 <= n <= 2147483647
  }

  /** One of the shapes a board is named in: its number, a label of it, or its own address. */
  ghost predicate Names(text: string, owner: string, number: string) {
    || (owner == "" && number != [] && text == number)
    || (owner == "" && IsLabel(text, number))
    || (Login(owner) && exists site: nat, orgs: bool :: IsAddress(text, owner, number, site, orgs))
  }

  lemma ShapesDiffer(text: string)
    ensures LabelNumber(text).Some? ==> text != [] && text[0] == '#'
    ensures Address(text).Some? ==> text != [] && text[0] != '#' && !Digit(text[0]) && Address(text).value.0 != ""
  {
    if Address(text).Some? {
      var site, orgs := ReadIsAnAddress(text);
      var secure, www :| IsSite(text, secure, www, site) by { SiteExactly(text, site); }
      assert Alike(text[0 + 0], "http"[0]);
    }
  }

  /** Whatever somebody types is taken for a board if and only if, but for the space around it, it is one of
      those shapes of a number there is room for. */
  lemma WantedExactly(board: string, n: nat, owner: string)
    ensures Wanted(board) == Some(Chosen(n, owner))
            <==> exists number :: Names(Strip(PythonSpace, board), owner, number) && InRange(number, n)
  {
    var text := Strip(PythonSpace, board);
    hide Names, InRange, Wanted;
    if Wanted(board) == Some(Chosen(n, owner)) {
      WantedIsNamed(board, text, n, owner);
    }
    if number :| Names(text, owner, number) && InRange(number, n) {
      NamedIsWanted(board, text, n, owner, number);
    }
  }

  lemma WantedIsNamed(board: string, text: string, n: nat, owner: string)
    requires text == Strip(PythonSpace, board) && Wanted(board) == Some(Chosen(n, owner))
    ensures exists number :: Names(text, owner, number) && InRange(number, n)
  {
    hide Strip, Address, LabelNumber, IsAddress, IsLabel, Login, ValueOf, PythonSpace;
    ShapesDiffer(text);
    if text != [] && forall i :: 0 <= i < |text| ==> Digit(text[i]) {
      assert Names(text, owner, text) && InRange(text, n);
    } else if LabelNumber(text).Some? {
      LabelsExactly(text, LabelNumber(text).value);
      assert Names(text, owner, LabelNumber(text).value) && InRange(LabelNumber(text).value, n);
    } else {
      var number := Address(text).value.1;
      AddressesExactly(text, owner, number);
      assert Names(text, owner, number) && InRange(number, n);
    }
  }

  lemma NamedIsWanted(board: string, text: string, n: nat, owner: string, number: string)
    requires text == Strip(PythonSpace, board) && Names(text, owner, number) && InRange(number, n)
    ensures Wanted(board) == Some(Chosen(n, owner))
  {
    hide Strip, Address, LabelNumber, IsAddress, IsLabel, Login, ValueOf, PythonSpace;
    ShapesDiffer(text);
    LabelsExactly(text, number);
    AddressesExactly(text, owner, number);
  }
}
