/** Which lines open a block of HTML: the kinds told apart, and the one complete tag alone on its line by its
    grammar, section 6.10 of the GFM specification. */
module HtmlTheorems {
  import opened Text
  import opened Html

  predicate Spans(p: char -> bool, s: string, from: nat, to: nat) {
    from <= to <= |s| && forall i :: from <= i < to ==> p(s[i])
  }

  lemma SpanIsARun(p: char -> bool, s: string, from: nat, to: nat)
    requires Spans(p, s, from, to) && (to < |s| ==> !p(s[to]))
    ensures from + RunOf(p, s, from) == to
  {
    RunIs(p, s, from, to - from);
  }

  // ----- The grammar of a tag -----

  /** A value with no space and no quote, angle, equals sign or backtick in it, or one between quotes. */
  predicate IsValue(s: string, from: nat, to: nat) {
    || (from < to && Spans(Unquoted, s, from, to))
    || (from + 2 <= to <= |s| && (s[from] == '\'' || s[from] == '"') && s[to - 1] == s[from]
        && forall i :: from < i < to - 1 ==> s[i] != s[from])
  }

  /** An equals sign, any space around it, and a value behind. */
  predicate IsValued(s: string, end: nat, equals: nat, value: nat, to: nat) {
    && end <= equals < value && Spans(TagSpace, s, end, equals) && equals < |s| && s[equals] == '='
    && Spans(TagSpace, s, equals + 1, value) && IsValue(s, value, to)
  }

  ghost predicate HasValue(s: string, end: nat, to: nat) {
    exists equals: nat, value: nat :: IsValued(s, end, equals, value, to)
  }

  /** Space, a name, and a value or none. */
  ghost predicate IsAttribute(s: string, from: nat, name: nat, end: nat, to: nat) {
    && from < name < end && Spans(TagSpace, s, from, name)
    && name < |s| && AttributeStart(s[name]) && Spans(AttributeChar, s, name + 1, end)
    && (to == end || HasValue(s, end, to))
  }

  ghost predicate AttributeTo(s: string, from: nat, to: nat) {
    exists name: nat, end: nat :: IsAttribute(s, from, name, end, to)
  }

  ghost predicate AttributesTo(s: string, from: nat, ends: seq<nat>, to: nat)
    decreases |ends|
  {
    if ends == [] then from == to <= |s| else AttributeTo(s, from, ends[0]) && AttributesTo(s, ends[0], ends[1..], to)
  }

  /** Space, a slash where one may stand, `>`, and nothing but space up to the end of the line. */
  predicate IsClose(s: string, from: nat, space: nat, close: nat, slash: bool) {
    && Spans(TagSpace, s, from, space)
    && (close == space || (slash && close == space + 1 && space < |s| && s[space] == '/'))
    && close < |s| && s[close] == '>' && Spans(LineSpace, s, close + 1, |s|)
  }

  ghost predicate IsOpeningTag(words: string, name: nat, ends: seq<nat>, to: nat, space: nat, close: nat) {
    && |words| > 1 && words[0] == '<' && Letter(words[1]) && 2 <= name && Spans(NameChar, words, 2, name)
    && AttributesTo(words, name, ends, to) && IsClose(words, to, space, close, true)
  }

  predicate IsClosingTag(words: string, name: nat, space: nat, close: nat) {
    && |words| > 2 && words[0] == '<' && words[1] == '/' && Letter(words[2]) && 3 <= name && Spans(NameChar, words, 3, name)
    && IsClose(words, name, space, close, false)
  }

  // ----- Where a tag closes -----

  lemma NoCloserIsSpace()
    ensures !TagSpace('/') && !TagSpace('>') && !TagSpace('=') && !TagSpace('\'') && !TagSpace('"')
    ensures !AttributeStart('/') && !AttributeStart('>') && !AttributeChar('/') && !AttributeChar('>') && !AttributeChar('=')
    ensures !NameChar('/') && !NameChar('>') && !Unquoted('>') && Unquoted('/') && !Unquoted('\'') && !Unquoted('"')
    ensures forall c :: TagSpace(c) ==> !AttributeStart(c) && !AttributeChar(c) && !NameChar(c) && !Unquoted(c)
    ensures forall c :: AttributeStart(c) ==> c != '='
  {
  }

  lemma ClosesExactly(s: string, at: nat, slash: bool)
    requires at <= |s|
    ensures ClosesAt(s, at, slash) <==> exists space: nat, close: nat :: IsClose(s, at, space, close, slash)
  {
    hide ClosesAt, IsClose;
    if ClosesAt(s, at, slash) {
      CloserIsOne(s, at, slash);
    }
    if space: nat, close: nat :| IsClose(s, at, space, close, slash) {
      OneIsACloser(s, at, space, close, slash);
    }
  }

  lemma CloserIsOne(s: string, at: nat, slash: bool)
    requires at <= |s| && ClosesAt(s, at, slash)
    ensures exists space: nat, close: nat :: IsClose(s, at, space, close, slash)
  {
    hide TagSpace, LineSpace;
    var space := at + RunOf(TagSpace, s, at);
    assert IsClose(s, at, space, if slash && space < |s| && s[space] == '/' then space + 1 else space, slash);
  }

  lemma OneIsACloser(s: string, at: nat, space: nat, close: nat, slash: bool)
    requires at <= |s| && IsClose(s, at, space, close, slash)
    ensures ClosesAt(s, at, slash)
  {
    NoCloserIsSpace();
    hide TagSpace, LineSpace;
    SpanIsARun(TagSpace, s, at, space);
    SpanIsARun(LineSpace, s, close + 1, |s|);
  }

  /** What may stand behind an attribute or a name. */
  predicate Behind(s: string, at: nat) {
    at < |s| && (TagSpace(s[at]) || s[at] == '/' || s[at] == '>')
  }

  /** And behind the space there. */
  predicate BehindSpace(s: string, at: nat)
    requires at <= |s|
  {
    var past := at + RunOf(TagSpace, s, at);
    past < |s| && (AttributeStart(s[past]) || s[past] == '/' || s[past] == '>')
  }

  lemma CloseBehind(s: string, at: nat, space: nat, close: nat)
    requires at <= |s| && IsClose(s, at, space, close, true)
    ensures Behind(s, at) && BehindSpace(s, at)
    ensures var past := at + RunOf(TagSpace, s, at); past < |s| && (s[past] == '/' || s[past] == '>')
    ensures s[at] == '/' ==> at + 1 < |s| && s[at + 1] == '>'
    ensures s[at] == '/' ==> IsClose(s, at + 1, at + 1, at + 1, true)
  {
    NoCloserIsSpace();
    hide TagSpace, AttributeStart, LineSpace;
    SpanIsARun(TagSpace, s, at, space);
  }

  lemma AttributeBehind(s: string, at: nat, to: nat)
    requires at <= |s| && AttributeTo(s, at, to)
    ensures at < to <= |s| && Behind(s, at) && BehindSpace(s, at) && s[at] != '/'
  {
    NoCloserIsSpace();
    hide TagSpace, AttributeStart, AttributeChar, IsValue;
    var name: nat, end: nat :| IsAttribute(s, at, name, end, to);
    SpanIsARun(TagSpace, s, at, name);
    if to != end {
      var equals: nat, value: nat :| IsValued(s, end, equals, value, to);
      ValueIsIn(s, value, to);
    }
  }

  lemma ValueIsIn(s: string, from: nat, to: nat)
    requires IsValue(s, from, to)
    ensures from < to <= |s|
  {
  }

  // ----- Attributes as they are read -----

  lemma ValueEndIsOne(s: string, end: nat)
    requires end <= |s|
    ensures ValueEnd(s, end) == end || HasValue(s, end, ValueEnd(s, end))
  {
    hide TagSpace, Unquoted;
    var equals := end + RunOf(TagSpace, s, end);
    if equals < |s| && s[equals] == '=' {
      var value := equals + 1 + RunOf(TagSpace, s, equals + 1);
      var to := ValueEnd(s, end);
      if to != end {
        assert IsValue(s, value, to);
        assert IsValued(s, end, equals, value, to);
      }
    }
  }

  /** Where the first attribute from a place on is read to. */
  function FirstEnd(s: string, at: nat): (end: Option<nat>)
    requires at <= |s|
    ensures end.Some? ==> at < end.value <= |s|
  {
    var name := at + RunOf(TagSpace, s, at);
    if name > at && name < |s| && AttributeStart(s[name]) then
      Some(ValueEnd(s, name + 1 + RunOf(AttributeChar, s, name + 1)))
    else None
  }

  lemma AttributesStep(s: string, at: nat)
    requires at <= |s|
    ensures AttributesEnd(s, at) == if FirstEnd(s, at).None? then at else AttributesEnd(s, FirstEnd(s, at).value)
  {
    hide TagSpace, AttributeStart, AttributeChar, ValueEnd;
  }

  lemma FirstIsOne(s: string, at: nat)
    requires at <= |s| && FirstEnd(s, at).Some?
    ensures AttributeTo(s, at, FirstEnd(s, at).value)
  {
    hide TagSpace, AttributeStart, AttributeChar, ValueEnd, HasValue;
    var name := at + RunOf(TagSpace, s, at);
    var end := name + 1 + RunOf(AttributeChar, s, name + 1);
    ValueEndIsOne(s, end);
    assert IsAttribute(s, at, name, end, ValueEnd(s, end));
  }

  lemma {:induction false} ReadIsAttributes(s: string, at: nat) returns (ends: seq<nat>)
    requires at <= |s|
    ensures AttributesTo(s, at, ends, AttributesEnd(s, at))
    decreases |s| - at
  {
    hide AttributesEnd, AttributeTo, FirstEnd;
    AttributesStep(s, at);
    ends := [];
    if FirstEnd(s, at).Some? {
      FirstIsOne(s, at);
      var rest := ReadIsAttributes(s, FirstEnd(s, at).value);
      ends := [FirstEnd(s, at).value] + rest;
      assert ends[1..] == rest;
    }
  }

  lemma QuotedIsRead(s: string, value: nat, to: nat, otherwise: nat)
    requires otherwise <= |s| && value + 2 <= to <= |s| && s[to - 1] == s[value] && forall i :: value < i < to - 1 ==> s[i] != s[value]
    ensures QuotedEnd(s[value], s, value + 1, otherwise) == to
  {
    var quote := s[value];
    RunIs(c => c != quote, s, value + 1, to - value - 2);
  }

  /** A value is read to its end, or over the slash of a tag that closes right behind it. */
  lemma ValueIsRead(s: string, end: nat, equals: nat, value: nat, to: nat)
    requires IsValued(s, end, equals, value, to) && Behind(s, to) && end <= |s|
    requires s[to] == '/' ==> to + 1 < |s| && s[to + 1] == '>'
    ensures ValueEnd(s, end) == to || (s[to] == '/' && ValueEnd(s, end) == to + 1)
  {
    ValueIsIn(s, value, to);
    ValueIsFound(s, end, equals, value, to);
    hide RunOf, IsValued, TagSpace, Unquoted;
    if s[value] == '\'' || s[value] == '"' {
      ValueIsQuoted(s, value, to);
      QuotedIsRead(s, value, to, end);
    } else {
      UnquotedIsRead(s, value, to);
    }
  }

  lemma ValueIsQuoted(s: string, value: nat, to: nat)
    requires IsValue(s, value, to) && (s[value] == '\'' || s[value] == '"')
    ensures value + 2 <= to <= |s| && s[to - 1] == s[value] && forall i :: value < i < to - 1 ==> s[i] != s[value]
  {
    NoCloserIsSpace();
    hide Unquoted;
  }

  lemma ValueIsFound(s: string, end: nat, equals: nat, value: nat, to: nat)
    requires IsValued(s, end, equals, value, to) && end <= |s|
    ensures value < |s| && equals == end + RunOf(TagSpace, s, end) && s[equals] == '='
    ensures value == equals + 1 + RunOf(TagSpace, s, equals + 1)
    ensures IsValue(s, value, to)
  {
    NoCloserIsSpace();
    ValueIsIn(s, value, to);
    ValueIsNoSpace(s, value, to);
    hide TagSpace, IsValue;
    SpanIsARun(TagSpace, s, end, equals);
    SpanIsARun(TagSpace, s, equals + 1, value);
  }

  lemma ValueIsNoSpace(s: string, value: nat, to: nat)
    requires IsValue(s, value, to)
    ensures !TagSpace(s[value])
  {
  }

  lemma UnquotedIsRead(s: string, value: nat, to: nat)
    requires IsValue(s, value, to) && s[value] != '\'' && s[value] != '"' && Behind(s, to)
    requires s[to] == '/' ==> to + 1 < |s| && s[to + 1] == '>'
    ensures var run := value + RunOf(Unquoted, s, value); run == to || (s[to] == '/' && run == to + 1)
    ensures RunOf(Unquoted, s, value) > 0
  {
    NoCloserIsSpace();
    hide TagSpace, Unquoted;
    SpanIsARun(Unquoted, s, value, if s[to] == '/' then to + 1 else to);
  }

  /** An attribute is read to its end, or over the slash behind it. */
  lemma AttributeIsRead(s: string, at: nat, to: nat)
    requires at <= |s| && AttributeTo(s, at, to) && Behind(s, to) && BehindSpace(s, to)
    requires s[to] == '/' ==> to + 1 < |s| && s[to + 1] == '>'
    ensures AttributesEnd(s, at) == AttributesEnd(s, to) || (s[to] == '/' && AttributesEnd(s, at) == AttributesEnd(s, to + 1))
  {
    hide TagSpace, AttributeStart, AttributeChar, ValueEnd, Behind, BehindSpace, IsValued, Spans, AttributesEnd, FirstEnd;
    var name: nat, end: nat :| IsAttribute(s, at, name, end, to);
    AttributesStep(s, at);
    FirstIsNamed(s, at, name, end, to);
    if to == end {
      NoValueIsRead(s, end);
    } else {
      var equals: nat, value: nat :| IsValued(s, end, equals, value, to);
      BehindIsIn(s, to);
      ValueIsRead(s, end, equals, value, to);
    }
  }

  lemma FirstIsNamed(s: string, at: nat, name: nat, end: nat, to: nat)
    requires at <= |s| && IsAttribute(s, at, name, end, to) && Behind(s, to)
    ensures end <= |s| && FirstEnd(s, at) == Some(ValueEnd(s, end))
  {
    hide TagSpace, AttributeStart, AttributeChar, ValueEnd, Behind, IsAttribute, RunOf;
    NameIsRead(s, at, name, end, to);
  }

  lemma BehindIsIn(s: string, at: nat)
    requires Behind(s, at)
    ensures at < |s|
  {
  }

  lemma NameIsRead(s: string, at: nat, name: nat, end: nat, to: nat)
    requires at <= |s| && IsAttribute(s, at, name, end, to) && Behind(s, to)
    ensures at < name < end <= |s| && AttributeStart(s[name])
    ensures at + RunOf(TagSpace, s, at) == name && name + 1 + RunOf(AttributeChar, s, name + 1) == end
  {
    NoCloserIsSpace();
    hide TagSpace, AttributeStart, AttributeChar, IsValue;
    SpanIsARun(TagSpace, s, at, name);
    if to != end {
      var equals: nat, value: nat :| IsValued(s, end, equals, value, to);
      assert end < |s| && (TagSpace(s[end]) || s[end] == '=');
    }
    SpanIsARun(AttributeChar, s, name + 1, end);
  }

  lemma NoValueIsRead(s: string, end: nat)
    requires end <= |s| && BehindSpace(s, end)
    ensures ValueEnd(s, end) == end
  {
    NoCloserIsSpace();
    hide TagSpace, AttributeStart;
  }

  /** However the attributes of a tag are parted, they are read up to where it closes. */
  lemma {:induction false} AttributesAreRead(s: string, at: nat, ends: seq<nat>, to: nat, space: nat, close: nat)
    requires at <= |s| && AttributesTo(s, at, ends, to) && IsClose(s, to, space, close, true)
    ensures ClosesAt(s, AttributesEnd(s, at), true)
    ensures at < |s| && Behind(s, at) && BehindSpace(s, at)
    ensures s[at] == '/' ==> at + 1 < |s| && s[at + 1] == '>'
    decreases |ends|
  {
    hide AttributeTo, IsClose, ClosesAt, Behind, BehindSpace, AttributesEnd;
    if ends == [] {
      CloseBehind(s, at, space, close);
      NothingRead(s, at);
      ClosesExactly(s, at, true);
    } else {
      AttributeBehind(s, at, ends[0]);
      AttributesAreRead(s, ends[0], ends[1..], to, space, close);
      AttributeIsRead(s, at, ends[0]);
      if s[ends[0]] == '/' {
        SlashCloses(s, ends[0], ends[1..], to, space, close);
      }
    }
  }

  lemma SlashCloses(s: string, at: nat, ends: seq<nat>, to: nat, space: nat, close: nat)
    requires at < |s| && s[at] == '/' && AttributesTo(s, at, ends, to) && IsClose(s, to, space, close, true)
    ensures ClosesAt(s, AttributesEnd(s, at + 1), true)
  {
    hide AttributeTo, IsClose, ClosesAt, Behind, BehindSpace, AttributesEnd;
    if ends != [] {
      AttributeBehind(s, at, ends[0]);
    }
    CloseBehind(s, at, space, close);
    CloseBehind(s, at + 1, at + 1, at + 1);
    NothingRead(s, at + 1);
    ClosesExactly(s, at + 1, true);
  }

  lemma NothingRead(s: string, at: nat)
    requires at <= |s| && var past := at + RunOf(TagSpace, s, at); past < |s| && (s[past] == '/' || s[past] == '>')
    ensures AttributesEnd(s, at) == at
  {
    NoCloserIsSpace();
    hide TagSpace, AttributeStart, AttributeChar;
  }

  /** One complete tag alone on its line: an opening tag with its attributes, or a closing one. */
  lemma TagsAloneExactly(words: string)
    ensures TagAlone(words)
            <==> || (exists name: nat, ends: seq<nat>, to: nat, space: nat, close: nat :: IsOpeningTag(words, name, ends, to, space, close))
                 || (exists name: nat, space: nat, close: nat :: IsClosingTag(words, name, space, close))
  {
    hide IsOpeningTag, IsClosingTag;
    if TagAlone(words) {
      TagIsOne(words);
    }
    if name: nat, ends, to: nat, space: nat, close: nat :| IsOpeningTag(words, name, ends, to, space, close) {
      OpeningTagIsAlone(words, name, ends, to, space, close);
    }
    if name: nat, space: nat, close: nat :| IsClosingTag(words, name, space, close) {
      ClosingTagIsAlone(words, name, space, close);
    }
  }

  lemma TagIsOne(words: string)
    requires TagAlone(words)
    ensures || (exists name: nat, ends: seq<nat>, to: nat, space: nat, close: nat :: IsOpeningTag(words, name, ends, to, space, close))
            || (exists name: nat, space: nat, close: nat :: IsClosingTag(words, name, space, close))
  {
    hide NameChar, Letter, AttributesEnd, ClosesAt, IsClose;
    if words[1] == '/' {
      var name := 3 + RunOf(NameChar, words, 3);
      ClosesExactly(words, name, false);
      var space: nat, close: nat :| IsClose(words, name, space, close, false);
      assert IsClosingTag(words, name, space, close);
    } else {
      var name := 2 + RunOf(NameChar, words, 2);
      var to := AttributesEnd(words, name);
      ClosesExactly(words, to, true);
      var space: nat, close: nat :| IsClose(words, to, space, close, true);
      var ends := ReadIsAttributes(words, name);
      assert IsOpeningTag(words, name, ends, to, space, close);
    }
  }

  lemma OpeningTagIsAlone(words: string, name: nat, ends: seq<nat>, to: nat, space: nat, close: nat)
    requires IsOpeningTag(words, name, ends, to, space, close)
    ensures TagAlone(words)
  {
    hide AttributesTo, IsClose, ClosesAt, AttributesEnd, NameChar, TagSpace, Letter;
    AttributesAreRead(words, name, ends, to, space, close);
    NameEnds(words, name);
    assert words[1] != '/' by { SlashIsNoLetter(); }
  }

  lemma SlashIsNoLetter()
    ensures !Letter('/')
  {
  }

  lemma NameEnds(words: string, name: nat)
    requires 2 <= name && Spans(NameChar, words, 2, name) && Behind(words, name)
    ensures 2 + RunOf(NameChar, words, 2) == name
  {
    NoCloserIsSpace();
    hide NameChar, TagSpace;
    SpanIsARun(NameChar, words, 2, name);
  }

  lemma ClosingTagIsAlone(words: string, name: nat, space: nat, close: nat)
    requires IsClosingTag(words, name, space, close)
    ensures TagAlone(words)
  {
    NoCloserIsSpace();
    ClosesExactly(words, name, false);
    hide LineSpace, NameChar, TagSpace;
    SpanIsARun(NameChar, words, 3, name);
  }

  // ----- The other kinds -----

  /** A raw tag in any case, and the end of its name. */
  predicate RawTagAt(words: string) {
    |words| > 0 && words[0] == '<' && exists tag <- RAW_TAGS :: AnyCaseAt(words, 1, tag) && TagEndsAt(words, 1 + |tag|)
  }

  /** A block-level tag, opening or closing. */
  predicate BlockTagOpens(words: string) {
    |words| > 0 && words[0] == '<' && (BlockTagAt(words, 1) || (|words| > 1 && words[1] == '/' && BlockTagAt(words, 2)))
  }

  lemma CharactersOf(words: string)
    ensures StartsAt(words, 0, "<") <==> |words| > 0 && words[0] == '<'
    ensures StartsAt(words, 1, "/") <==> |words| > 1 && words[1] == '/'
    ensures StartsAt(words, 0, "<?") <==> |words| > 1 && words[0] == '<' && words[1] == '?'
    ensures StartsAt(words, 0, "<!") <==> |words| > 1 && words[0] == '<' && words[1] == '!'
  {
  }

  lemma CommentCharacters(words: string)
    ensures StartsAt(words, 0, "<!--") <==> |words| > 3 && words[0] == '<' && words[1] == '!' && words[2] == words[3] == '-'
  {
    assert "<!--"[0] == '<' && "<!--"[1] == '!' && "<!--"[2] == '-' && "<!--"[3] == '-';
    if StartsAt(words, 0, "<!--") {
      assert words[0..4][0] == words[0] && words[0..4][1] == words[1] && words[0..4][2] == words[2] && words[0..4][3] == words[3];
    }
  }

  lemma RawTagsAreNamed(words: string)
    ensures RawTagAt(words) ==> 1 < |words| && Letter(words[1])
  {
    if tag :| tag in RAW_TAGS && AnyCaseAt(words, 1, tag) {
      assert AsciiLower(words[1 + 0]) == AsciiLower(tag[0]);
    }
  }

  lemma CdataCharacters(words: string)
    ensures AnyCaseAt(words, 0, "<![CDATA[") ==> |words| > 2 && words[0] == '<' && words[1] == '!' && words[2] == '['
  {
    if AnyCaseAt(words, 0, "<![CDATA[") {
      var opening := "<![CDATA[";
      assert AsciiLower(words[0 + 0]) == AsciiLower(opening[0]) && AsciiLower(words[0 + 1]) == AsciiLower(opening[1])
             && AsciiLower(words[0 + 2]) == AsciiLower(opening[2]);
    }
  }

  /** The kinds are told apart by what they open on, in whatever order they are tried: a raw tag, a comment, a
      processing instruction, a declaration, a CDATA section, and any other block-level tag. */
  lemma KindsExactly(words: string)
    ensures var comment := |words| > 3 && words[..4] == "<!--";
            var declaration := |words| > 2 && words[0] == '<' && words[1] == '!' && 'A' <= words[2] <= 'Z';
            && (Opens(words) == Some(Some(ScriptEnd)) <==> RawTagAt(words))
            && (Opens(words) == Some(Some(CommentEnd)) <==> comment)
            && (Opens(words) == Some(Some(ProcessingEnd)) <==> |words| > 1 && words[0] == '<' && words[1] == '?')
            && (Opens(words) == Some(Some(DeclarationEnd)) <==> declaration)
            && (Opens(words) == Some(Some(CdataEnd)) <==> AnyCaseAt(words, 0, "<![CDATA["))
            && (Opens(words) == Some(None) ==> BlockTagOpens(words))
            && (BlockTagOpens(words) ==> Opens(words).Some?)
  {
    CharactersOf(words);
    CommentCharacters(words);
    RawTagsAreNamed(words);
    CdataCharacters(words);
    hide AnyCaseAt, TagEndsAt, BlockTagAt, RAW_TAGS, StartsAt;
    assert StartsAt(words, 0, "<!--") <==> |words| > 3 && words[..4] == "<!--" by { CommentFront(words); }
  }

  lemma CommentFront(words: string)
    ensures StartsAt(words, 0, "<!--") <==> |words| > 3 && words[..4] == "<!--"
  {
    if |words| > 3 {
      assert words[0..4] == words[..4];
    }
  }

  lemma SlashFront(s: string, at: nat)
    ensures StartsAt(s, at, "</") <==> at + 1 < |s| && s[at] == '<' && s[at + 1] == '/'
  {
  }

  lemma DashesEnd(s: string, at: nat)
    ensures EndAt(CommentEnd, s, at) <==> at + 2 < |s| && s[at] == '-' && s[at + 1] == '-' && s[at + 2] == '>'
    ensures EndAt(CdataEnd, s, at) <==> at + 2 < |s| && s[at] == ']' && s[at + 1] == ']' && s[at + 2] == '>'
  {
    if at + 2 < |s| {
      var end := s[at..at + 3];
      assert end[0] == s[at] && end[1] == s[at + 1] && end[2] == s[at + 2];
    }
  }

  /** Where a block of HTML ends, kind by kind, in characters: the first kind on any raw tag's closing one. */
  lemma EndsExactly(s: string, at: nat)
    ensures EndAt(CommentEnd, s, at) <==> at + 2 < |s| && s[at] == '-' && s[at + 1] == '-' && s[at + 2] == '>'
    ensures EndAt(CdataEnd, s, at) <==> at + 2 < |s| && s[at] == ']' && s[at + 1] == ']' && s[at + 2] == '>'
    ensures EndAt(ProcessingEnd, s, at) <==> at + 1 < |s| && s[at] == '?' && s[at + 1] == '>'
    ensures EndAt(DeclarationEnd, s, at) <==> at < |s| && s[at] == '>'
    ensures EndAt(ScriptEnd, s, at)
            <==> at + 1 < |s| && s[at] == '<' && s[at + 1] == '/'
                 && exists tag <- RAW_TAGS :: AnyCaseAt(s, at + 2, tag) && at + 2 + |tag| < |s| && s[at + 2 + |tag|] == '>'
  {
    DashesEnd(s, at);
    SlashFront(s, at);
    hide AnyCaseAt, RAW_TAGS;
    forall n: nat ensures StartsAt(s, n, ">") <==> n < |s| && s[n] == '>' {}
  }
}
