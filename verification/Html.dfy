/** What opens and ends GitHub's blocks of HTML: section 4.6 of the GFM specification, version 0.29. */
module Html {
  import opened Text

  /** The five kinds of HTML block that end on the line holding an end of their own. */
  datatype End = ScriptEnd | CommentEnd | ProcessingEnd | DeclarationEnd | CdataEnd

  const RAW_TAGS: seq<string> := ["script", "pre", "style", "textarea"]

  const BLOCK_TAGS: seq<string> := [
    "address", "article", "aside", "base", "basefont", "blockquote", "body", "caption", "center", "col", "colgroup",
    "dd", "details", "dialog", "dir", "div", "dl", "dt", "fieldset", "figcaption", "figure", "footer", "form", "frame",
    "frameset", "h1", "h2", "h3", "h4", "h5", "h6", "head", "header", "hr", "html", "iframe", "legend", "li", "link",
    "main", "menu", "menuitem", "nav", "noframes", "ol", "optgroup", "option", "p", "param", "section", "source",
    "summary", "table", "tbody", "td", "tfoot", "th", "thead", "title", "tr", "track", "ul"
  ]

  predicate TagSpace(c: char) {
    c == ' ' || c == '\t' || c == VERTICAL_TAB || c == FORM_FEED || c == '\r'
  }

  function AsciiLower(c: char): char {
    if 'A' <= c <= 'Z' then (c as int - 'A' as int + 'a' as int) as char else c
  }

  /** `name` in any case, in ASCII's sense of case alone. */
  predicate AnyCaseAt(s: string, at: nat, name: string) {
    at + |name| <= |s| && forall i :: 0 <= i < |name| ==> AsciiLower(s[at + i]) == AsciiLower(name[i])
  }

  predicate TagEndsAt(s: string, at: nat) {
    at == |s| || (at < |s| && (TagSpace(s[at]) || s[at] == '>'))
  }

  /** The kind of block `words` open: an end to wait for, or none for a block-level tag. */
  function Opens(words: string): Option<Option<End>> {
    if StartsAt(words, 0, "<") && exists tag <- RAW_TAGS :: AnyCaseAt(words, 1, tag) && TagEndsAt(words, 1 + |tag|)
    then Some(Some(ScriptEnd))
    else if StartsAt(words, 0, "<!--") then Some(Some(CommentEnd))
    else if StartsAt(words, 0, "<?") then Some(Some(ProcessingEnd))
    else if StartsAt(words, 0, "<!") && 2 < |words| && 'A' <= words[2] <= 'Z' then Some(Some(DeclarationEnd))
    else if AnyCaseAt(words, 0, "<![CDATA[") then Some(Some(CdataEnd))
    else if StartsAt(words, 0, "<") && (BlockTagAt(words, 1) || (StartsAt(words, 1, "/") && BlockTagAt(words, 2)))
    then Some(None)
    else None
  }

  predicate BlockTagAt(words: string, at: nat) {
    exists tag <- BLOCK_TAGS ::
      AnyCaseAt(words, at, tag)
      && (TagEndsAt(words, at + |tag|) || StartsAt(words, at + |tag|, "/>"))
  }

  predicate EndAt(end: End, s: string, at: nat) {
    match end
    case ScriptEnd =>
      StartsAt(s, at, "</") && exists tag <- RAW_TAGS :: AnyCaseAt(s, at + 2, tag) && StartsAt(s, at + 2 + |tag|, ">")
    case CommentEnd => StartsAt(s, at, "-->")
    case ProcessingEnd => StartsAt(s, at, "?>")
    case DeclarationEnd => StartsAt(s, at, ">")
    case CdataEnd => StartsAt(s, at, "]]>")
  }

  /** Whether the end is anywhere from `at` on. */
  predicate EndsFrom(end: End, s: string, at: nat) {
    exists i :: at <= i < |s| && EndAt(end, s, i)
  }

  // ----- One complete tag alone on its line -----

  predicate NameChar(c: char) { Letter(c) || Digit(c) || c == '-' }

  predicate AttributeStart(c: char) { Letter(c) || c == '_' || c == ':' }

  predicate AttributeChar(c: char) { AttributeStart(c) || Digit(c) || c == '.' || c == '-' }

  predicate Unquoted(c: char) {
    !TagSpace(c) && c != '"' && c != '\'' && c != '=' && c != '<' && c != '>' && c != '`'
  }

  function QuotedEnd(quote: char, s: string, at: nat, otherwise: nat): (end: nat)
    requires at <= |s| && otherwise <= |s|
    ensures end <= |s| && (end == otherwise || end > at)
  {
    var close := at + RunOf(c => c != quote, s, at);
    if close < |s| then close + 1 else otherwise
  }

  /** Past an attribute's value, or where its name ended if it has none. */
  function ValueEnd(s: string, name: nat): (end: nat)
    requires name <= |s|
    ensures name <= end <= |s|
  {
    var equals := name + RunOf(TagSpace, s, name);
    if equals < |s| && s[equals] == '=' then
      var value := equals + 1 + RunOf(TagSpace, s, equals + 1);
      if value == |s| then name
      else if s[value] == '\'' || s[value] == '"' then QuotedEnd(s[value], s, value + 1, name)
      else if RunOf(Unquoted, s, value) > 0 then value + RunOf(Unquoted, s, value)
      else name
    else name
  }

  function AttributesEnd(s: string, at: nat): (end: nat)
    requires at <= |s|
    ensures at <= end <= |s|
    decreases |s| - at
  {
    var name := at + RunOf(TagSpace, s, at);
    if name > at && name < |s| && AttributeStart(s[name]) then
      AttributesEnd(s, ValueEnd(s, name + 1 + RunOf(AttributeChar, s, name + 1)))
    else at
  }

  predicate LineSpace(c: char) { c == ' ' || c == '\t' || c == FORM_FEED }

  /** `>` after any space, or after a slash where one may stand, and then nothing but space. */
  predicate ClosesAt(s: string, at: nat, slash: bool)
    requires at <= |s|
  {
    var end := at + RunOf(TagSpace, s, at);
    var close := if slash && end < |s| && s[end] == '/' then end + 1 else end;
    close < |s| && s[close] == '>' && close + 1 + RunOf(LineSpace, s, close + 1) == |s|
  }

  predicate TagAlone(words: string) {
    && |words| > 1 && words[0] == '<'
    && (if words[1] == '/' then
          |words| > 2 && Letter(words[2]) && ClosesAt(words, 3 + RunOf(NameChar, words, 3), false)
        else
          Letter(words[1]) && ClosesAt(words, AttributesEnd(words, 2 + RunOf(NameChar, words, 2)), true))
  }
}
