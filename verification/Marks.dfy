/** The marks GitHub reads a line by, each pattern as the recogniser of what it matches. */
module Marks {
  import opened Text
  import opened Drawn
  import Html

  predicate Space(c: char) { c == ' ' }

  // ----- A line as columns -----

  /** What a line opens with: everything up to the first character no mark is made of. */
  function Lead(written: string): (lead: string)
    ensures lead <= written
    ensures forall c <- lead :: OpeningChar(c)
    ensures |lead| < |written| ==> !OpeningChar(written[|lead|])
  {
    written[..RunOf(OpeningChar, written, 0)]
  }

  /** Tabs laid out as spaces, at stops of four. */
  function Expanded(lead: string, column: nat): (columns: string)
    requires forall c <- lead :: OpeningChar(c)
    ensures forall c <- columns :: OpeningChar(c) && c != '\t'
  {
    if lead == [] then []
    else if lead[0] == '\t' then
      var stop := 4 - column % 4;
      seq(stop, i => ' ') + Expanded(lead[1..], column + stop)
    else [lead[0]] + Expanded(lead[1..], column + 1)
  }

  function Columns(written: string): string {
    Expanded(Lead(written), 0) + written[|Lead(written)|..]
  }

  /** Where the line is nothing but spaces and tabs from. */
  function BlankFrom(columns: string): nat { |DropBack(Blank, columns)| }

  // ----- Quote and list marks -----

  datatype Mark = NoMark | Quote(end: nat) | Item(gap: nat, end: nat, number: Option<nat>)

  /** A quote mark behind up to three spaces, and the space that belongs to it. */
  function QuoteMark(s: string, at: nat): (end: Option<nat>)
    requires at <= |s|
    ensures end.Some? ==> at < end.value <= |s|
  {
    var mark := at + RunOf(Space, s, at);
    if mark <= at + 3 && mark < |s| && s[mark] == '>' then
      Some(if mark + 1 < |s| && s[mark + 1] == ' ' then mark + 2 else mark + 1)
    else None
  }

  /** The spaces after a list mark: one to four, one of five or more, none at the end of the line. */
  function Gap(s: string, gap: nat, number: Option<nat>): (mark: Mark)
    requires gap <= |s|
    ensures mark.Item? ==> mark.gap == gap <= mark.end <= |s|
    ensures !mark.Quote?
  {
    var spaces := RunOf(Space, s, gap);
    if 1 <= spaces <= 4 then Item(gap, gap + spaces, number)
    else if spaces >= 5 then Item(gap, gap + 1, number)
    else if gap == |s| then Item(gap, gap, number)
    else NoMark
  }

  function MarkAt(s: string, at: nat): (mark: Mark)
    requires at <= |s|
    ensures mark.Quote? ==> at < mark.end <= |s|
    ensures mark.Item? ==> at < mark.gap <= mark.end <= |s|
    ensures mark.Quote? ==> QuoteMark(s, at) == Some(mark.end)
  {
    var from := at + RunOf(Space, s, at);
    if from > at + 3 || from == |s| then NoMark
    else if s[from] == '>' then Quote(if from + 1 < |s| && s[from + 1] == ' ' then from + 2 else from + 1)
    else if s[from] == '-' || s[from] == '*' || s[from] == '+' then Gap(s, from + 1, None)
    else
      var digits := RunOf(Digit, s, from);
      if 1 <= digits <= 9 && from + digits < |s| && (s[from + digits] == '.' || s[from + digits] == ')') then
        Gap(s, from + digits + 1, Some(ValueOf(s[from..from + digits])))
      else NoMark
  }

  // ----- Thematic breaks -----

  predicate BreakChar(c: char) { c == '*' || c == '-' || c == '_' }

  predicate BreakRest(kind: char, s: string) {
    (forall c <- s :: c == kind || Blank(c)) && CountOf(kind, s) >= 3
  }

  predicate ThematicBreak(s: string, at: nat)
    requires at <= |s|
  {
    var from := at + RunOf(Space, s, at);
    from <= at + 3 && from < |s| && BreakChar(s[from]) && BreakRest(s[from], s[from..])
  }

  // ----- Blocks -----

  function Is(mark: char): char -> bool { c => c == mark }

  datatype Block = Fenced(mark: char, width: nat) | OfHtml(end: Option<Html.End>)

  /** A fence that opens on three or more of its mark; one of backticks with another after it on the
      line is a code span instead. */
  function OpeningFence(words: string): Option<Option<Block>> {
    if words == [] || (words[0] != '`' && words[0] != '~') then None
    else
      var mark := words[0];
      var width := RunOf(Is(mark), words, 0);
      if width < 3 then None
      else if mark == '`' && '`' in words[width..] then Some(None)
      else Some(Some(Fenced(mark, width)))
  }

  predicate ClosingFence(mark: char, width: nat, s: string, at: nat)
    requires at <= |s|
  {
    var from := at + RunOf(Space, s, at);
    var run := RunOf(Is(mark), s, from);
    from <= at + 3 && run >= 3 && run >= width && forall c <- s[from + run..] :: Blank(c)
  }

  /** Whether a line inside `block` from `at` is the last of it. */
  predicate Ends(block: Block, s: string, at: nat)
    requires at <= |s|
  {
    match block
    case Fenced(mark, width) => ClosingFence(mark, width, s, at)
    case OfHtml(end) => end.Some? && Html.EndsFrom(end.value, s, at)
  }

  // ----- Tables and underlined headings -----

  predicate CellSpace(c: char) { Blank(c) || c == VERTICAL_TAB || c == FORM_FEED }

  /** A heading's underline: a run of `=` or of `-`, and spaces after it. */
  predicate Underline(words: string) {
    var run := DropBack(Blank, words);
    run != [] && ((forall c <- run :: c == '=') || (forall c <- run :: c == '-'))
  }

  predicate Dash(c: char) { c == '-' }

  function PastColon(s: string, at: nat): (end: nat)
    requires at <= |s|
    ensures at <= end <= |s|
  {
    if at < |s| && s[at] == ':' then at + 1 else at
  }

  /** Past one cell of a delimiter row: dashes, a colon at either end, and space around them. */
  function DelimiterCell(s: string, at: nat): (end: Option<nat>)
    requires at <= |s|
    ensures end.Some? ==> at < end.value <= |s|
  {
    var dashes := PastColon(s, at + RunOf(CellSpace, s, at));
    var run := RunOf(Dash, s, dashes);
    if run == 0 then None
    else
      var past := PastColon(s, dashes + run);
      Some(past + RunOf(CellSpace, s, past))
  }

  predicate DelimiterRest(s: string, at: nat)
    requires at <= |s|
    decreases |s| - at
  {
    if at < |s| && s[at] == '|' then
      match DelimiterCell(s, at + 1)
      case Some(end) => DelimiterRest(s, end)
      case None => at + 1 + RunOf(CellSpace, s, at + 1) == |s|
    else at + RunOf(CellSpace, s, at) == |s|
  }

  /** A table's second line. */
  predicate DelimiterRow(words: string) {
    var from := if words != [] && words[0] == '|' then 1 else 0;
    match DelimiterCell(words, from)
    case Some(end) => DelimiterRest(words, end)
    case None => false
  }

  /** A pipe between cells: one no backslash stands right before. */
  predicate PipeAt(row: string, at: nat) {
    at < |row| && row[at] == '|' && !(at > 0 && row[at - 1] == '\\')
  }

  function Pipes(row: string, from: nat): (pipes: seq<nat>)
    requires from <= |row|
    ensures forall p <- pipes :: from <= p < |row|
    decreases |row| - from
  {
    if from == |row| then []
    else (if PipeAt(row, from) then [from] else []) + Pipes(row, from + 1)
  }

  function Within(pipes: seq<nat>, start: int, end: int): nat {
    if pipes == [] then 0 else (if start <= pipes[0] < end then 1 else 0) + Within(pipes[1..], start, end)
  }

  /** How many cells a table's row has, a pipe at either end dividing nothing. */
  function Cells(row: string): nat {
    var pipes := Pipes(row, 0);
    if pipes == [] then if row == [] then 0 else 1
    else
      var length := |DropBack(CellSpace, row)|;
      var start := if pipes[0] == 0 then 1 else 0;
      var end := if pipes[|pipes| - 1] == length - 1 && length - 1 >= start then length - 1 else length;
      if end > start || |pipes| > 1 then Within(pipes, start, end) + 1 else 0
  }
}
