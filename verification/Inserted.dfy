/** A line with a backslash or a zero-width space put in front of its first hash: GitHub reads it as it read
    the line, but that it is no heading. */
module Inserted {
  import opened Text
  import opened Drawn
  import opened Marks
  import opened LineRules
  import opened Reader
  import opened ReaderTheorems
  import Html

  // ----- A mark in front of the first hash -----

  predicate Mark(m: char) { m == '\\' || m == ZERO_WIDTH_SPACE }

  function Put(s: string, at: nat, m: char): (t: string)
    requires at <= |s|
    ensures |t| == |s| + 1 && t[at] == m
  {
    s[..at] + [m] + s[at..]
  }

  /** The first hash of a line that opens on nothing but what Discord could read marks in. */
  predicate FirstHash(s: string, at: nat) {
    at < |s| && s[at] == '#' && forall i :: 0 <= i < at ==> LooseChar(s[i])
  }

  lemma PutAt(s: string, at: nat, m: char, i: nat)
    requires at <= |s| && i < |s|
    ensures i < at ==> Put(s, at, m)[i] == s[i]
    ensures i >= at ==> Put(s, at, m)[i + 1] == s[i]
  {
  }

  lemma RunStops(p: char -> bool, s: string, at: nat, stop: nat)
    requires at <= stop < |s| && !p(s[stop])
    ensures at + RunOf(p, s, at) <= stop
  {
  }

  lemma RunPut(p: char -> bool, s: string, at: nat, m: char, k: nat)
    requires k <= at < |s| && !p(s[at]) && !p(m)
    ensures RunOf(p, Put(s, at, m), k) == RunOf(p, s, k) && k + RunOf(p, s, k) <= at
  {
    var t := Put(s, at, m);
    var n := RunOf(p, s, k);
    RunStops(p, s, k, at);
    forall i | k <= i < k + n ensures p(t[i]) {
      PutAt(s, at, m, i);
    }
    if k + n < at {
      PutAt(s, at, m, k + n);
    }
    RunIs(p, t, k, n);
  }

  lemma MarksAreNoSpaces(m: char)
    requires Mark(m)
    ensures !OpeningChar(m) && !Blank(m) && !Space(m) && !Digit(m) && !CellSpace(m) && !Hash(m) && !LooseChar(m)
    ensures !OpeningChar('#') && !Blank('#') && !Space('#') && !Digit('#') && !CellSpace('#') && !LooseChar('#')
  {
  }

  // ----- As columns -----

  lemma LeadPut(s: string, at: nat, m: char)
    requires FirstHash(s, at) && Mark(m)
    ensures Lead(Put(s, at, m)) == Lead(s) && |Lead(s)| <= at
  {
    MarksAreNoSpaces(m);
    LeadIs(s);
    LeadIs(Put(s, at, m));
    RunPut(OpeningChar, s, at, m, 0);
    hide LooseChar, OpeningChar, Lead;
    var n := RunOf(OpeningChar, s, 0);
    assert Put(s, at, m)[..n] == s[..n];
  }

  lemma LeadIs(s: string)
    ensures Lead(s) == s[..RunOf(OpeningChar, s, 0)]
  {
  }

  lemma OpeningIsLoose(c: char)
    requires OpeningChar(c)
    ensures LooseChar(c)
  {
  }

  /** Where the first hash is once tabs are laid out. */
  function HashColumn(s: string, at: nat): nat
    requires |Lead(s)| <= at
  {
    |Expanded(Lead(s), 0)| + at - |Lead(s)|
  }

  lemma ColumnsAreLoose(s: string, at: nat)
    requires FirstHash(s, at) && |Lead(s)| <= at
    ensures FirstHash(Columns(s), HashColumn(s, at))
  {
    hide LooseChar, Lead, OpeningChar;
    var n, lead := |Lead(s)|, Expanded(Lead(s), 0);
    forall i | 0 <= i < HashColumn(s, at) ensures LooseChar(Columns(s)[i]) {
      if i < |lead| {
        assert lead[i] in lead;
        OpeningIsLoose(lead[i]);
      } else {
        assert Columns(s)[i] == s[n..][i - |lead|];
      }
    }
    assert Columns(s)[HashColumn(s, at)] == s[n..][at - n];
  }

  lemma PutBehind(lead: string, rest: string, at: nat, m: char)
    requires at <= |rest|
    ensures lead + Put(rest, at, m) == Put(lead + rest, |lead| + at, m)
  {
    var whole := lead + rest;
    assert whole[..|lead| + at] == lead + rest[..at] && whole[|lead| + at..] == rest[at..];
  }

  lemma PutInTheRest(s: string, n: nat, at: nat, m: char)
    requires n <= at <= |s|
    ensures Put(s, at, m)[n..] == Put(s[n..], at - n, m)
  {
  }

  lemma ColumnsPut(s: string, at: nat, m: char)
    requires FirstHash(s, at) && Mark(m)
    ensures |Lead(s)| <= at && Lead(Put(s, at, m)) == Lead(s)
    ensures var (columns, hash) := (Columns(s), HashColumn(s, at));
            FirstHash(columns, hash) && Columns(Put(s, at, m)) == Put(columns, hash, m)
  {
    LeadPut(s, at, m);
    ColumnsAreLoose(s, at);
    hide FirstHash, Lead, Put, Mark;
    FirstHashIs(s, at);
    var n := |Lead(s)|;
    PutInTheRest(s, n, at, m);
    PutBehind(Expanded(Lead(s), 0), s[n..], at - n, m);
  }

  /** From here on only the hash matters, and that what is read lies in front of it. */
  predicate HashAt(c: string, at: nat) { at < |c| && c[at] == '#' }

  lemma HashBehind(c: string, at: nat, m: char)
    requires HashAt(c, at)
    ensures HashAt(Put(c, at, m), at + 1)
  {
  }

  lemma NeitherIsBlank(c: string, at: nat, m: char)
    requires HashAt(c, at) && Mark(m)
    ensures at < BlankFrom(c) && at < BlankFrom(Put(c, at, m))
  {
    assert !Blank(c[at]) && !Blank(Put(c, at, m)[at]);
  }

  lemma SpacesAtPut(c: string, at: nat, m: char, k: nat, width: nat)
    requires HashAt(c, at) && Mark(m) && k <= at
    ensures SpacesAt(Put(c, at, m), k, width) == SpacesAt(c, k, width)
    ensures SpacesAt(c, k, width) ==> k + width <= at
  {
    var t := Put(c, at, m);
    assert c[at] != ' ' && t[at] != ' ';
    forall i | 0 <= i < at ensures t[i] == c[i] {
      PutAt(c, at, m, i);
    }
  }

  /** Up to the hash the two are the same, and neither is a space, a digit or a mark there. */
  lemma SameUpTo(c: string, at: nat, m: char, i: nat)
    requires HashAt(c, at) && Mark(m) && i <= at
    ensures i < at ==> Put(c, at, m)[i] == c[i]
    ensures i == at ==> c[i] == '#' && Put(c, at, m)[i] == m
  {
    PutAt(c, at, m, i);
  }

  lemma QuoteMarkPut(c: string, at: nat, m: char, k: nat)
    requires HashAt(c, at) && Mark(m) && k <= at
    ensures QuoteMark(Put(c, at, m), k) == QuoteMark(c, k)
    ensures QuoteMark(c, k).Some? ==> QuoteMark(c, k).value <= at
  {
    hide Put;
    RunPut(Space, c, at, m, k);
    var mark := k + RunOf(Space, c, k);
    SameUpTo(c, at, m, mark);
    if mark < at {
      SameUpTo(c, at, m, mark + 1);
    }
  }

  lemma GapPut(c: string, at: nat, m: char, gap: nat, number: Option<nat>)
    requires HashAt(c, at) && Mark(m) && gap <= at
    ensures Gap(Put(c, at, m), gap, number) == Gap(c, gap, number)
    ensures Gap(c, gap, number).Item? ==> Gap(c, gap, number).end <= at
  {
    hide Put;
    RunPut(Space, c, at, m, gap);
  }

  lemma NumberPut(c: string, at: nat, m: char, from: nat)
    requires HashAt(c, at) && Mark(m) && from <= at
    ensures var (digits, t) := (RunOf(Digit, c, from), Put(c, at, m));
            && RunOf(Digit, t, from) == digits && from + digits <= at
            && t[from..from + digits] == c[from..from + digits]
  {
    RunPut(Digit, c, at, m, from);
    hide RunOf, Digit;
  }

  /** What is read at a mark that is there, once the spaces in front of it are read. */
  function MarkFrom(s: string, from: nat): Mark
    requires from < |s|
  {
    if s[from] == '>' then Quote(if from + 1 < |s| && s[from + 1] == ' ' then from + 2 else from + 1)
    else if s[from] == '-' || s[from] == '*' || s[from] == '+' then Gap(s, from + 1, None)
    else
      var digits := RunOf(Digit, s, from);
      if 1 <= digits <= 9 && from + digits < |s| && (s[from + digits] == '.' || s[from + digits] == ')') then
        Gap(s, from + digits + 1, Some(ValueOf(s[from..from + digits])))
      else NoMark
  }

  lemma MarkIsFrom(s: string, at: nat)
    requires at <= |s|
    ensures var from := at + RunOf(Space, s, at);
            MarkAt(s, at) == if from > at + 3 || from == |s| then NoMark else MarkFrom(s, from)
  {
    hide Gap, ValueOf, Digit;
  }

  lemma MarkFromPut(c: string, at: nat, m: char, from: nat)
    requires HashAt(c, at) && Mark(m) && from <= at
    ensures MarkFrom(Put(c, at, m), from) == MarkFrom(c, from)
    ensures !MarkFrom(c, from).NoMark? ==> MarkFrom(c, from).end <= at
  {
    hide Gap, ValueOf, Put, RunOf;
    SameUpTo(c, at, m, from);
    NumberPut(c, at, m, from);
    var digits := RunOf(Digit, c, from);
    SameUpTo(c, at, m, from + digits);
    if from == at {
      NoDigits(c, at);
    } else {
      SameUpTo(c, at, m, from + 1);
      GapPut(c, at, m, from + 1, None);
      if from + digits < at {
        GapPut(c, at, m, from + digits + 1, Some(ValueOf(c[from..from + digits])));
      }
    }
  }

  lemma NoDigits(c: string, at: nat)
    requires HashAt(c, at)
    ensures RunOf(Digit, c, at) == 0
  {
  }

  lemma MarkAtPut(c: string, at: nat, m: char, k: nat)
    requires HashAt(c, at) && Mark(m) && k <= at
    ensures MarkAt(Put(c, at, m), k) == MarkAt(c, k)
    ensures !MarkAt(c, k).NoMark? ==> MarkAt(c, k).end <= at
  {
    hide MarkFrom, MarkAt, Put;
    RunPut(Space, c, at, m, k);
    MarkIsFrom(c, k);
    MarkIsFrom(Put(c, at, m), k);
    MarkFromPut(c, at, m, k + RunOf(Space, c, k));
  }

  lemma NoBreakWithAHash(s: string, at: nat, k: nat)
    requires HashAt(s, at) && k <= at
    ensures !ThematicBreak(s, k)
  {
    RunStops(Space, s, k, at);
    var from := k + RunOf(Space, s, k);
    assert s[from..][at - from] == '#';
    assert '#' in s[from..];
  }

  lemma {:induction false} CarriedOnPut(open: seq<nat>, empty: bool, c: string, at: nat, m: char, k: nat, count: nat)
    requires count <= |open| && HashAt(c, at) && Mark(m) && k <= at
    ensures CarriedOn(open, empty, Put(c, at, m), k, count) == CarriedOn(open, empty, c, k, count)
    ensures CarriedOn(open, empty, c, k, count).1 <= at
    decreases |open| - count
  {
    hide QuoteMark, SpacesAt, BlankFrom, Mark, Put;
    NeitherIsBlank(c, at, m);
    if count < |open| {
      SpacesAtPut(c, at, m, k, open[count]);
      QuoteMarkPut(c, at, m, k);
      if open[count] == 0 {
        if QuoteMark(c, k).Some? {
          CarriedOnPut(open, empty, c, at, m, QuoteMark(c, k).value, count + 1);
        }
      } else if SpacesAt(c, k, open[count]) {
        CarriedOnPut(open, empty, c, at, m, k + open[count], count + 1);
      }
    }
  }

  lemma {:induction false} OpenedPut(c: string, at: nat, m: char, k: nat, interrupting: bool)
    requires HashAt(c, at) && Mark(m) && k <= at
    ensures Opened(Put(c, at, m), k, interrupting) == Opened(c, k, interrupting)
    ensures Opened(c, k, interrupting).1 <= at
    decreases |c| - k
  {
    hide ThematicBreak, MarkAt, BlankFrom, Mark, Put;
    HashBehind(c, at, m);
    NoBreakWithAHash(c, at, k);
    NoBreakWithAHash(Put(c, at, m), at + 1, k);
    NeitherIsBlank(c, at, m);
    MarkAtPut(c, at, m, k);
    match MarkAt(c, k)
    case NoMark =>
    case Quote(end) => OpenedPut(c, at, m, end, false);
    case Item(_, end, _) => OpenedPut(c, at, m, end, false);
  }

  // ----- What the line starts -----

  /** The words of the line have the mark in front of the same hash. */
  lemma WordsPut(c: string, at: nat, m: char, k: nat)
    requires FirstHash(c, at) && Mark(m) && k <= at
    ensures var (words, hash) := (WordsFrom(c, k), at - k - RunOf(Space, c, k));
            && k + RunOf(Space, c, k) <= at && FirstHash(words, hash)
            && WordsFrom(Put(c, at, m), k) == Put(words, hash, m)
            && (words[0] == '#' || LooseChar(words[0])) && words[0] != ' '
  {
    RunPut(Space, c, at, m, k);
    hide LooseChar;
    var from := k + RunOf(Space, c, k);
    assert c[from..][..at - from] == c[from..at] && c[from..][at - from..] == c[at..];
    assert Put(c, at, m)[from..] == c[from..at] + [m] + c[at..];
  }

  /** Words that open on nothing a block could. */
  predicate StartsNothing(words: string) {
    words != "" && words[0] != '`' && words[0] != '~' && words[0] != '<'
  }

  lemma NoBlockStarts(words: string)
    requires StartsNothing(words)
    ensures OpeningFence(words) == None && Html.Opens(words) == None && !Html.TagAlone(words)
  {
    hide Html.AnyCaseAt, Html.TagEndsAt, Html.BlockTagAt, Html.RAW_TAGS, Html.BLOCK_TAGS;
    NoAngle(words, "<");
    NoAngle(words, "<!--");
    NoAngle(words, "<?");
    NoAngle(words, "<!");
    NoCdata(words);
  }

  lemma NoAngle(words: string, mark: string)
    requires StartsNothing(words) && mark != "" && mark[0] == '<'
    ensures !StartsAt(words, 0, mark)
  {
    assert |mark| <= |words| ==> words[0..|mark|][0] == words[0];
  }

  lemma NoCdata(words: string)
    requires StartsNothing(words)
    ensures !Html.AnyCaseAt(words, 0, "<![CDATA[")
  {
    var name := "<![CDATA[";
    assert name[0] == '<' && Html.AsciiLower('<') == '<';
    assert Html.AsciiLower(words[0]) != '<';
    CaseOfFirst(words, name);
  }

  lemma CaseOfFirst(words: string, name: string)
    requires words != "" && name != "" && Html.AsciiLower(words[0]) != Html.AsciiLower(name[0])
    ensures !Html.AnyCaseAt(words, 0, name)
  {
    assert words[0 + 0] == words[0];
  }

  /** What starts where nothing but code or words can: whichever may. */
  lemma StartOfNothing(c: string, at: nat, code: bool, tag: bool)
    requires at <= |c| && !ThematicBreak(c, at)
    requires var words := WordsFrom(c, at); StartsNothing(words) && !HeadingAt(words, RunOf(Hash, words, 0))
    ensures StartAt(c, at, false, code, tag) == if SpacesAt(c, at, 4) && code then Code else Words
  {
    hide ThematicBreak, SpacesAt, HeadingAt, Html.Opens, Html.TagAlone, OpeningFence;
    NoBlockStarts(WordsFrom(c, at));
  }

  lemma LooseStartsNothing(words: string)
    requires words != "" && (words[0] == '#' || LooseChar(words[0]))
    ensures StartsNothing(words)
  {
  }

  lemma NoHeadingAt(words: string)
    requires words != "" && words[0] != '#'
    ensures !HeadingAt(words, RunOf(Hash, words, 0))
  {
  }

  lemma StartPut(c: string, at: nat, m: char, k: nat, code: bool, tag: bool)
    requires FirstHash(c, at) && Mark(m) && k <= at && !StartAt(c, k, false, code, tag).StartsHeading?
    ensures StartAt(Put(c, at, m), k, false, code, tag) == StartAt(c, k, false, code, tag)
    ensures StartAt(c, k, false, code, tag).Code? || StartAt(c, k, false, code, tag).Words?
  {
    hide ThematicBreak, HeadingAt, FirstHash, LooseChar, Put, SpacesAt, StartAt, WordsFrom;
    FirstHashIs(c, at);
    var t := Put(c, at, m);
    var words, others := WordsFrom(c, k), WordsFrom(t, k);
    HashBehind(c, at, m);
    NoBreakWithAHash(c, at, k);
    NoBreakWithAHash(t, at + 1, k);
    SpacesAtPut(c, at, m, k, 4);
    WordsPut(c, at, m, k);
    var hash := at - k - RunOf(Space, c, k);
    PutOpens(words, hash, m);
    LooseStartsNothing(words);
    NoHeadingAt(others);
    StartOfNothing(t, k, code, tag);
    if SpacesAt(c, k, 4) || !HeadingAt(words, RunOf(Hash, words, 0)) {
      StartOfWords(c, k, code, tag);
    } else {
      StartOfAHeading(c, k, code, tag);
    }
  }

  lemma FirstHashIs(s: string, at: nat)
    requires FirstHash(s, at)
    ensures at < |s| && s[at] == '#'
  {
  }

  lemma PutOpens(words: string, hash: nat, m: char)
    requires FirstHash(words, hash) && Mark(m)
    ensures var others := Put(words, hash, m); others[0] != '#' && StartsNothing(others)
    ensures words != ""
  {
    if hash > 0 {
      PutAt(words, hash, m, 0);
    }
  }

  lemma StartOfWords(c: string, at: nat, code: bool, tag: bool)
    requires at <= |c| && !ThematicBreak(c, at) && StartsNothing(WordsFrom(c, at))
    requires SpacesAt(c, at, 4) || !HeadingAt(WordsFrom(c, at), RunOf(Hash, WordsFrom(c, at), 0))
    ensures StartAt(c, at, false, code, tag) == if SpacesAt(c, at, 4) && code then Code else Words
  {
    hide ThematicBreak, SpacesAt, HeadingAt, Html.Opens, Html.TagAlone, OpeningFence;
    NoBlockStarts(WordsFrom(c, at));
  }

  lemma StartOfAHeading(c: string, at: nat, code: bool, tag: bool)
    requires at <= |c| && !ThematicBreak(c, at) && !SpacesAt(c, at, 4)
    requires HeadingAt(WordsFrom(c, at), RunOf(Hash, WordsFrom(c, at), 0))
    ensures StartAt(c, at, false, code, tag).StartsHeading?
  {
    hide ThematicBreak, SpacesAt, HeadingAt, Html.Opens, Html.TagAlone, OpeningFence;
  }

  // ----- Blocks -----

  /** A fence is of one of the two marks that open one. */
  predicate OfAFence(block: Option<Block>) {
    block.Some? && block.value.Fenced? ==> block.value.mark == '`' || block.value.mark == '~'
  }

  lemma NoClosingWithAHash(mark: char, width: nat, s: string, hash: nat, k: nat)
    requires HashAt(s, hash) && k <= hash && mark != '#'
    ensures !ClosingFence(mark, width, s, k)
  {
    RunStops(Space, s, k, hash);
    var from := k + RunOf(Space, s, k);
    RunStops(Is(mark), s, from, hash);
    var past := from + RunOf(Is(mark), s, from);
    var rest := s[past..];
    assert rest[hash - past] == '#';
    assert !ClosingFence(mark, width, s, k) by {
      assert rest[hash - past] in rest && !Blank(rest[hash - past]);
    }
  }

  /** As many characters from the one place on as from the other are the same. */
  predicate SameChars(s: string, at: nat, t: string, other: nat, n: nat) {
    at + n <= |s| && other + n <= |t| && s[at..at + n] == t[other..other + n]
  }

  lemma SliceOfSlice(s: string, at: nat, n: nat, k: nat, w: nat)
    requires at + n <= |s| && k + w <= n
    ensures s[at..at + n][k..k + w] == s[at + k..at + k + w]
  {
    var whole, part := s[at..at + n][k..k + w], s[at + k..at + k + w];
    assert |whole| == |part| == w;
    assert forall i :: 0 <= i < w ==> whole[i] == part[i];
  }

  lemma SameWithin(s: string, at: nat, t: string, other: nat, n: nat, k: nat, w: nat)
    requires SameChars(s, at, t, other, n) && k + w <= n
    ensures SameChars(s, at + k, t, other + k, w)
  {
    SliceOfSlice(s, at, n, k, w);
    SliceOfSlice(t, other, n, k, w);
  }

  lemma SameWordAt(s: string, at: nat, t: string, other: nat, word: string)
    requires StartsAt(s, at, word) && SameChars(s, at, t, other, |word|)
    ensures StartsAt(t, other, word)
  {
  }

  lemma SameCaseAt(s: string, at: nat, t: string, other: nat, name: string)
    requires Html.AnyCaseAt(s, at, name) && SameChars(s, at, t, other, |name|)
    ensures Html.AnyCaseAt(t, other, name)
  {
    hide Html.AsciiLower;
    var here, there := s[at..at + |name|], t[other..other + |name|];
    assert forall i :: 0 <= i < |name| ==> here[i] == s[at + i] && there[i] == t[other + i];
  }

  predicate NotClose(c: char) { c != '>' }

  /** How long the end of a block is where it stands. */
  function EndLength(end: Html.End, s: string, at: nat): nat
    requires at <= |s|
  {
    match end
    case ScriptEnd => RunOf(NotClose, s, at) + 1
    case CommentEnd => 3
    case ProcessingEnd => 2
    case DeclarationEnd => 1
    case CdataEnd => 3
  }

  /** What no end of a block has in it. */
  predicate NotOfAnEnd(c: char) { c == '#' || Mark(c) }

  lemma TagIsPlain(s: string, at: nat, tag: string)
    requires tag in Html.RAW_TAGS && Html.AnyCaseAt(s, at, tag)
    ensures forall i :: at <= i < at + |tag| ==> !NotOfAnEnd(s[i]) && NotClose(s[i])
  {
    forall i | at <= i < at + |tag| ensures !NotOfAnEnd(s[i]) && NotClose(s[i]) {
      assert Html.AsciiLower(s[at + (i - at)]) == Html.AsciiLower(tag[i - at]);
      assert 'a' <= tag[i - at] <= 'z';
    }
  }

  lemma WordIsPlain(s: string, at: nat, word: string)
    requires StartsAt(s, at, word) && forall c <- word :: !NotOfAnEnd(c)
    ensures at + |word| <= |s| && forall i :: at <= i < at + |word| ==> !NotOfAnEnd(s[i]) && s[i] == word[i - at]
  {
    forall i | at <= i < at + |word| ensures !NotOfAnEnd(s[i]) && s[i] == word[i - at] {
      assert s[at..at + |word|][i - at] == s[i] && word[i - at] in word;
    }
  }

  lemma ScriptEndIs(s: string, at: nat) returns (tag: string)
    requires at <= |s| && Html.EndAt(Html.ScriptEnd, s, at)
    ensures tag in Html.RAW_TAGS && Html.AnyCaseAt(s, at + 2, tag)
    ensures StartsAt(s, at, "</") && StartsAt(s, at + 2 + |tag|, ">")
    ensures at + 3 + |tag| <= |s| && EndLength(Html.ScriptEnd, s, at) == 3 + |tag|
    ensures forall i :: at <= i < at + 3 + |tag| ==> !NotOfAnEnd(s[i])
  {
    hide Html.RAW_TAGS, Html.AnyCaseAt, StartsAt;
    tag :| tag in Html.RAW_TAGS && Html.AnyCaseAt(s, at + 2, tag) && StartsAt(s, at + 2 + |tag|, ">");
    TagIsPlain(s, at + 2, tag);
    WordIsPlain(s, at, "</");
    WordIsPlain(s, at + 2 + |tag|, ">");
    assert s[at] == '<' && s[at + 1] == '/' && s[at + 2 + |tag|] == '>';
    assert forall i :: at <= i < at + 2 + |tag| ==> NotClose(s[i]);
    RunIs(NotClose, s, at, 2 + |tag|);
  }

  lemma EndIsPlain(end: Html.End, s: string, at: nat)
    requires at <= |s| && Html.EndAt(end, s, at)
    ensures 1 <= EndLength(end, s, at) && at + EndLength(end, s, at) <= |s|
    ensures forall i :: at <= i < at + EndLength(end, s, at) ==> !NotOfAnEnd(s[i])
  {
    hide StartsAt;
    match end
    case ScriptEnd =>
      var tag := ScriptEndIs(s, at);
    case CommentEnd => WordIsPlain(s, at, "-->");
    case ProcessingEnd => WordIsPlain(s, at, "?>");
    case DeclarationEnd => WordIsPlain(s, at, ">");
    case CdataEnd => WordIsPlain(s, at, "]]>");
  }

  lemma ScriptEndIsItsCharacters(s: string, at: nat, t: string, other: nat)
    requires at <= |s| && other <= |t| && Html.EndAt(Html.ScriptEnd, s, at)
    requires SameChars(s, at, t, other, EndLength(Html.ScriptEnd, s, at))
    ensures Html.EndAt(Html.ScriptEnd, t, other)
  {
    hide StartsAt, Html.AnyCaseAt, Html.RAW_TAGS, SameChars;
    var tag := ScriptEndIs(s, at);
    var n := 3 + |tag|;
    hide EndLength;
    SameWithin(s, at, t, other, n, 0, 2);
    SameWithin(s, at, t, other, n, 2, |tag|);
    SameWithin(s, at, t, other, n, 2 + |tag|, 1);
    SameWordAt(s, at, t, other, "</");
    SameCaseAt(s, at + 2, t, other + 2, tag);
    SameWordAt(s, at + 2 + |tag|, t, other + 2 + |tag|, ">");
  }

  lemma EndIsItsCharacters(end: Html.End, s: string, at: nat, t: string, other: nat)
    requires at <= |s| && other <= |t| && Html.EndAt(end, s, at)
    requires SameChars(s, at, t, other, EndLength(end, s, at))
    ensures Html.EndAt(end, t, other)
  {
    hide StartsAt, SameChars;
    match end
    case ScriptEnd => ScriptEndIsItsCharacters(s, at, t, other);
    case CommentEnd => SameWordAt(s, at, t, other, "-->");
    case ProcessingEnd => SameWordAt(s, at, t, other, "?>");
    case DeclarationEnd => SameWordAt(s, at, t, other, ">");
    case CdataEnd => SameWordAt(s, at, t, other, "]]>");
  }

  /** An end lies in front of any character it has none of, or behind it. */
  lemma EndOneSide(end: Html.End, s: string, at: nat, p: nat)
    requires p < |s| && NotOfAnEnd(s[p]) && at <= |s| && Html.EndAt(end, s, at)
    ensures at + EndLength(end, s, at) <= p || p < at
  {
    hide NotOfAnEnd, Html.EndAt, EndLength;
    EndIsPlain(end, s, at);
  }

  lemma EndFits(end: Html.End, s: string, at: nat)
    requires at <= |s| && Html.EndAt(end, s, at)
    ensures 1 <= EndLength(end, s, at) && at + EndLength(end, s, at) <= |s|
  {
    hide NotOfAnEnd, Html.EndAt, EndLength;
    EndIsPlain(end, s, at);
  }

  lemma SliceOfPut(s: string, at: nat, m: char, i: nat, n: nat)
    requires at <= |s| && i + n <= |s|
    ensures i + n <= at ==> SameChars(s, i, Put(s, at, m), i, n)
    ensures i >= at ==> SameChars(s, i, Put(s, at, m), i + 1, n)
  {
  }

  lemma SameBothWays(s: string, at: nat, t: string, other: nat, n: nat)
    requires SameChars(s, at, t, other, n)
    ensures SameChars(t, other, s, at, n)
  {
  }

  lemma EndPut(end: Html.End, s: string, at: nat, m: char, i: nat)
    requires HashAt(s, at) && Mark(m) && i <= |s| && Html.EndAt(end, s, i)
    ensures Html.EndAt(end, Put(s, at, m), if i < at then i else i + 1)
  {
    EndOneSide(end, s, i, at);
    hide Html.EndAt, EndLength, NotOfAnEnd, SameChars, Put;
    EndFits(end, s, i);
    SliceOfPut(s, at, m, i, EndLength(end, s, i));
    EndIsItsCharacters(end, s, i, Put(s, at, m), if i < at then i else i + 1);
  }

  lemma EndPutBack(end: Html.End, s: string, at: nat, m: char, i: nat)
    requires HashAt(s, at) && Mark(m) && i <= |s| + 1 && Html.EndAt(end, Put(s, at, m), i)
    ensures i != at && i != at + 1
    ensures Html.EndAt(end, s, if i < at then i else i - 1)
  {
    hide Html.EndAt, EndLength, SameChars, Put;
    var t := Put(s, at, m);
    HashBehind(s, at, m);
    EndOneSide(end, t, i, at);
    EndOneSide(end, t, i, at + 1);
    EndFits(end, t, i);
    var n := EndLength(end, t, i);
    var other := if i < at then i else i - 1;
    SliceOfPut(s, at, m, other, n);
    SameBothWays(s, other, t, i, n);
    EndIsItsCharacters(end, t, i, s, other);
  }

  lemma EndsFromPut(end: Html.End, s: string, at: nat, m: char, k: nat)
    requires HashAt(s, at) && Mark(m) && k <= at
    ensures Html.EndsFrom(end, Put(s, at, m), k) == Html.EndsFrom(end, s, k)
  {
    hide Html.EndAt;
    var t := Put(s, at, m);
    if Html.EndsFrom(end, s, k) {
      var i :| k <= i < |s| && Html.EndAt(end, s, i);
      EndPut(end, s, at, m, i);
      assert Html.EndAt(end, t, if i < at then i else i + 1);
    }
    if Html.EndsFrom(end, t, k) {
      var i :| k <= i < |t| && Html.EndAt(end, t, i);
      EndPutBack(end, s, at, m, i);
      assert Html.EndAt(end, s, if i < at then i else i - 1);
    }
  }

  /** So a block goes on through the line, or ends on it, as it did. */
  lemma EndsPut(block: Block, s: string, at: nat, m: char, k: nat)
    requires HashAt(s, at) && Mark(m) && k <= at && OfAFence(Some(block))
    ensures Ends(block, Put(s, at, m), k) == Ends(block, s, k)
  {
    hide Html.EndsFrom, ClosingFence, Put, Mark;
    match block
    case Fenced(mark, width) =>
      HashBehind(s, at, m);
      NoClosingWithAHash(mark, width, s, at, k);
      NoClosingWithAHash(mark, width, Put(s, at, m), at + 1, k);
    case OfHtml(end) =>
      if end.Some? {
        EndsFromPut(end.value, s, at, m, k);
      }
  }

  // ----- Tables -----

  /** The pipes behind the mark, one further on. */
  function Moved(pipes: seq<nat>, at: nat): (moved: seq<nat>)
    ensures |moved| == |pipes|
    ensures forall i :: 0 <= i < |pipes| ==> moved[i] == if pipes[i] < at then pipes[i] else pipes[i] + 1
  {
    seq(|pipes|, i requires 0 <= i < |pipes| => if pipes[i] < at then pipes[i] else pipes[i] + 1)
  }

  lemma PipeAtPut(row: string, at: nat, m: char, i: nat)
    requires HashAt(row, at) && Mark(m) && i < |row|
    ensures PipeAt(Put(row, at, m), if i < at then i else i + 1) == PipeAt(row, i)
    ensures !PipeAt(Put(row, at, m), at)
  {
    PutAt(row, at, m, i);
    if i > 0 {
      PutAt(row, at, m, i - 1);
    }
  }

  lemma PipesFrom(row: string, from: nat)
    requires from < |row|
    ensures Pipes(row, from) == (if PipeAt(row, from) then [from] else []) + Pipes(row, from + 1)
  {
    hide PipeAt;
  }

  lemma MovedOne(from: nat, rest: seq<nat>, at: nat)
    ensures Moved([from] + rest, at) == [if from < at then from else from + 1] + Moved(rest, at)
    ensures Moved([], at) == [] && Moved([] + rest, at) == Moved(rest, at)
  {
    assert [] + rest == rest;
  }

  lemma {:induction false} PipesPut(row: string, at: nat, m: char, from: nat)
    requires HashAt(row, at) && Mark(m) && from <= |row|
    ensures Pipes(Put(row, at, m), if from < at then from else from + 1) == Moved(Pipes(row, from), at)
    decreases |row| - from
  {
    hide PipeAt, Put, Mark, Pipes, Moved;
    var t := Put(row, at, m);
    if from == |row| {
      NoPipesLeft(row);
      NoPipesLeft(t);
      MovedOne(0, [], at);
    } else {
      PipeAtPut(row, at, m, from);
      PipesPut(row, at, m, from + 1);
      PipesFrom(row, from);
      PipesFrom(t, if from < at then from else from + 1);
      MovedOne(from, Pipes(row, from + 1), at);
      if from + 1 == at {
        PipesFrom(t, at);
        assert [] + Pipes(t, at + 1) == Pipes(t, at + 1);
      }
    }
  }

  lemma NoPipesLeft(row: string)
    ensures Pipes(row, |row|) == []
  {
  }

  /** All the pipes, the mark being none. */
  lemma AllPipesPut(row: string, at: nat, m: char)
    requires HashAt(row, at) && Mark(m)
    ensures Pipes(Put(row, at, m), 0) == Moved(Pipes(row, 0), at)
  {
    hide PipeAt, Put, Mark, Pipes, Moved;
    PipesPut(row, at, m, 0);
    if at == 0 {
      PipeAtPut(row, at, m, 0);
      PipesFrom(Put(row, at, m), 0);
      assert [] + Pipes(Put(row, at, m), 1) == Pipes(Put(row, at, m), 1);
    }
  }

  lemma {:induction false} DropBackIs(p: char -> bool, s: string, n: nat)
    requires n <= |s| && (n > 0 ==> !p(s[n - 1])) && forall i :: n <= i < |s| ==> p(s[i])
    ensures |DropBack(p, s)| == n
    decreases |s|
  {
    if n < |s| {
      DropBackIs(p, s[..|s| - 1], n);
    }
  }

  lemma LengthPut(row: string, at: nat, m: char)
    requires HashAt(row, at) && Mark(m)
    ensures |DropBack(CellSpace, Put(row, at, m))| == |DropBack(CellSpace, row)| + 1
    ensures at < |DropBack(CellSpace, row)|
  {
    MarksAreNoSpaces(m);
    hide CellSpace, Mark, Put;
    var t, n := Put(row, at, m), |DropBack(CellSpace, row)|;
    assert at < n;
    PutAt(row, at, m, n - 1);
    assert !CellSpace(row[n - 1]) by {
      assert DropBack(CellSpace, row)[n - 1] == row[n - 1];
    }
    forall i | n + 1 <= i < |t| ensures CellSpace(t[i]) {
      PutAt(row, at, m, i - 1);
    }
    DropBackIs(CellSpace, t, n + 1);
  }

  lemma {:induction false} WithinMoved(pipes: seq<nat>, at: nat, start: int, end: int)
    requires start <= 1 && (start == 1 ==> at >= 1) && at < end
    requires forall p <- pipes :: p != at
    ensures Within(Moved(pipes, at), start, end + 1) == Within(pipes, start, end)
  {
    if pipes != [] {
      assert Moved(pipes, at)[1..] == Moved(pipes[1..], at);
      assert pipes[0] in pipes && forall p <- pipes[1..] :: p in pipes;
      WithinMoved(pipes[1..], at, start, end);
    }
  }

  lemma {:induction false} PipesAreNotHashes(row: string, at: nat, from: nat)
    requires HashAt(row, at) && from <= |row|
    ensures at !in Pipes(row, from)
    ensures forall p <- Pipes(row, from) :: p < |row| && row[p] == '|'
    decreases |row| - from
  {
    if from < |row| {
      PipesAreNotHashes(row, at, from + 1);
    }
  }

  /** The cells between pipes, once they are found and the space behind the row is gone. */
  function CellsOf(pipes: seq<nat>, length: nat): nat
    requires pipes != []
  {
    var start := if pipes[0] == 0 then 1 else 0;
    var end := if pipes[|pipes| - 1] == length - 1 && length - 1 >= start then length - 1 else length;
    if end > start || |pipes| > 1 then Within(pipes, start, end) + 1 else 0
  }

  lemma CellsAre(row: string)
    ensures Cells(row) == if Pipes(row, 0) == [] then if row == [] then 0 else 1
                          else CellsOf(Pipes(row, 0), |DropBack(CellSpace, row)|)
  {
    hide Pipes, DropBack, Within, CellSpace;
  }

  lemma CellsMoved(pipes: seq<nat>, at: nat, length: nat)
    requires pipes != [] && at < length && (forall p <- pipes :: p != at) && (pipes[0] == 0 ==> at > 0)
    requires forall i, j :: 0 <= i < j < |pipes| ==> pipes[i] < pipes[j]
    ensures CellsOf(Moved(pipes, at), length + 1) == CellsOf(pipes, length)
  {
    hide Within;
    var moved, first, last := Moved(pipes, at), pipes[0], pipes[|pipes| - 1];
    assert first in pipes && last in pipes;
    var start := if first == 0 then 1 else 0;
    assert (moved[0] == 0) == (first == 0);
    var end := if last == length - 1 && length - 1 >= start then length - 1 else length;
    assert (moved[|pipes| - 1] == length) == (last == length - 1);
    assert last == length - 1 ==> at < last;
    WithinMoved(pipes, at, start, end);
  }

  lemma {:induction false} PipesInOrder(row: string, from: nat)
    requires from <= |row|
    ensures forall i, j :: 0 <= i < j < |Pipes(row, from)| ==> Pipes(row, from)[i] < Pipes(row, from)[j]
    decreases |row| - from
  {
    hide PipeAt;
    if from < |row| {
      PipesInOrder(row, from + 1);
      var rest := Pipes(row, from + 1);
      assert forall i :: 0 <= i < |rest| ==> rest[i] in rest;
    }
  }

  /** A row has as many cells with the mark as without. */
  lemma CellsPut(row: string, at: nat, m: char)
    requires HashAt(row, at) && Mark(m)
    ensures Cells(Put(row, at, m)) == Cells(row)
  {
    hide Put, Mark, Pipes, Cells, CellsOf, CellSpace;
    CellsAre(row);
    CellsAre(Put(row, at, m));
    AllPipesPut(row, at, m);
    PipesAreNotHashes(row, at, 0);
    PipesInOrder(row, 0);
    LengthPut(row, at, m);
    var pipes := Pipes(row, 0);
    if pipes != [] {
      assert pipes[0] in pipes;
      CellsMoved(pipes, at, |DropBack(CellSpace, row)|);
    }
  }

  lemma HashIsNoCell()
    ensures !CellSpace('#') && !Dash('#')
  {
  }

  lemma ColonPut(s: string, at: nat, hash: nat)
    requires at <= hash && HashAt(s, hash)
    ensures at <= PastColon(s, at) <= hash
  {
  }

  lemma CellOfARow(s: string, at: nat, hash: nat)
    requires at <= hash && HashAt(s, hash) && DelimiterCell(s, at).Some?
    ensures DelimiterCell(s, at).value <= hash
  {
    hide PastColon, CellSpace, Dash, RunOf;
    HashIsNoCell();
    RunStops(CellSpace, s, at, hash);
    var spaces := at + RunOf(CellSpace, s, at);
    ColonPut(s, spaces, hash);
    var dashes := PastColon(s, spaces);
    RunStops(Dash, s, dashes, hash);
    var past := dashes + RunOf(Dash, s, dashes);
    ColonPut(s, past, hash);
    RunStops(CellSpace, s, PastColon(s, past), hash);
  }

  lemma {:induction false} NoRestOfARow(s: string, at: nat, hash: nat)
    requires at <= hash && HashAt(s, hash)
    ensures !DelimiterRest(s, at)
    decreases |s| - at
  {
    hide DelimiterCell, CellSpace, RunOf;
    HashIsNoCell();
    RunStops(CellSpace, s, at, hash);
    if s[at] == '|' {
      assert at < hash;
      RunStops(CellSpace, s, at + 1, hash);
      if DelimiterCell(s, at + 1).Some? {
        CellOfARow(s, at + 1, hash);
        NoRestOfARow(s, DelimiterCell(s, at + 1).value, hash);
      }
    }
  }

  lemma NoUnderline(words: string, hash: nat)
    requires HashAt(words, hash)
    ensures !Underline(words)
  {
    var run := DropBack(Blank, words);
    assert hash < |run|;
    assert run[hash] == '#' && run[hash] in run;
  }

  /** A line with a hash on it is no table's second line, and underlines nothing. */
  lemma NoRowWithAHash(words: string, hash: nat)
    requires HashAt(words, hash)
    ensures !DelimiterRow(words) && !Underline(words)
  {
    hide DelimiterRest, DelimiterCell;
    NoUnderline(words, hash);
    var from := if words[0] == '|' then 1 else 0;
    if DelimiterCell(words, from).Some? {
      CellOfARow(words, from, hash);
      NoRestOfARow(words, DelimiterCell(words, from).value, hash);
    }
  }
}
