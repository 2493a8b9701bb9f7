/** GitHub's reading of a body in its simplest form: containers walked one at a time, a thematic
    break looked for at every mark, and quotes counted off the stack. `Reading` is the fast form. */
module Reader {
  import opened Text
  import opened Drawn
  import opened Marks
  import Html

  /** The quotes and list items open, innermost last - a quote is nought, an item the columns its later
      lines carry on by - and what the innermost of them holds open. */
  datatype State = State(
    open: seq<nat>, empty: bool, block: Option<Block>, paragraph: bool, table: bool, header: string, tried: bool)

  const FRESH: State := State([], false, None, false, false, "", false)

  datatype Start = Words | BlankLine | Break | Code | StartsHeading(hashes: nat) | StartsBlock(block: Block)

  // ----- Containers -----

  predicate SpacesAt(s: string, at: nat, width: nat) {
    at + width <= |s| && forall i :: at <= i < at + width ==> s[i] == ' '
  }

  /** The open containers from `count` on that a line carries on, and where it leaves them: a quote by
      its mark, an item by its width in spaces, or by having nothing left on it - unless the item is
      the innermost and nothing has been put in it yet. */
  function CarriedOn(open: seq<nat>, empty: bool, columns: string, at: nat, count: nat): (r: (nat, nat))
    requires count <= |open| && at <= |columns|
    ensures count <= r.0 <= |open| && at <= r.1 <= |columns|
    decreases |open| - count
  {
    if count == |open| then (count, at)
    else if open[count] == 0 then
      match QuoteMark(columns, at)
      case Some(end) => CarriedOn(open, empty, columns, end, count + 1)
      case None => (count, at)
    else if SpacesAt(columns, at, open[count]) then
      CarriedOn(open, empty, columns, at + open[count], count + 1)
    else if at >= BlankFrom(columns) && !(empty && count == |open| - 1) then
      CarriedOn(open, empty, columns, |columns|, count + 1)
    else (count, at)
  }

  /** The quotes and items a line opens from `at`, and where its words start after them. */
  function Opened(columns: string, at: nat, interrupting: bool): (r: (seq<nat>, nat))
    requires at <= |columns|
    ensures at <= r.1 <= |columns|
    decreases |columns| - at
  {
    hide ThematicBreak, BlankFrom, MarkAt;
    if ThematicBreak(columns, at) then ([], at)
    else
      match MarkAt(columns, at)
      case NoMark => ([], at)
      case Quote(end) =>
        var (added, from) := Opened(columns, end, false);
        ([0] + added, from)
      case Item(gap, end, number) =>
        var empty := end >= BlankFrom(columns);
        if interrupting && (empty || (number.Some? && number.value != 1)) then ([], at)
        else
          var (added, from) := Opened(columns, end, false);
          ([if empty then gap - at + 1 else end - at] + added, from)
  }

  // ----- What a line starts -----

  /** The words of a line from `at`, the spaces in front of them gone. */
  function WordsFrom(columns: string, at: nat): string
    requires at <= |columns|
  {
    columns[at + RunOf(Space, columns, at)..]
  }

  function StartAt(columns: string, at: nat, blank: bool, code: bool, tag: bool): Start
    requires at <= |columns|
  {
    var words := WordsFrom(columns, at);
    var hashes := RunOf(Hash, words, 0);
    if blank then BlankLine
    else if SpacesAt(columns, at, 4) then if code then Code else Words
    else if ThematicBreak(columns, at) then Break
    else if HeadingAt(words, hashes) then StartsHeading(hashes)
    else
      match OpeningFence(words)
      case Some(None) => Words
      case Some(Some(block)) => StartsBlock(block)
      case None =>
        match Html.Opens(words)
        case Some(end) => StartsBlock(OfHtml(end))
        case None => if tag && Html.TagAlone(words) then StartsBlock(OfHtml(None)) else Words
  }

  function Quotes(open: seq<nat>): nat {
    if open == [] then 0 else (if open[0] == 0 then 1 else 0) + Quotes(open[1..])
  }

  // ----- One line -----

  /** Whether a line stays inside the open block: the kinds with no end of their own end before a blank
      line. */
  predicate Holds(block: Block, columns: string, at: nat) {
    block.Fenced? || block.end.Some? || at < BlankFrom(columns)
  }

  /** What a paragraph or a table makes of a line of words. */
  function Paragraph(s: State, columns: string, at: nat, carriesOn: bool): State
    requires at <= |columns|
  {
    var words := WordsFrom(columns, at);
    var next :=
      if carriesOn then
        if SpacesAt(columns, at, 4) then s
        else if Underline(words) then s.(paragraph := false)
        else if s.tried || !DelimiterRow(words) then s
        else if Cells(words) == Cells(s.header) then s.(tried := true, paragraph := false, table := true)
        else s.(tried := true)
      else if s.table && Cells(words) > 0 then s
      else s.(paragraph := true, table := false, tried := false);
    next.(header := words)
  }

  /** The state after a line that starts something, or words, in containers already settled. */
  function Settled(s: State, lead: string, columns: string, at: nat, start: Start, carriesOn: bool): (State, Drawn)
    requires at <= |columns|
  {
    var closed := s.(paragraph := false, table := false);
    match start
    case StartsHeading(hashes) =>
      var quotes := Quotes(s.open);
      (closed, AHeading(Heading(lead, hashes, WordsFrom(columns, at), quotes, |s.open| > quotes)))
    case StartsBlock(block) =>
      var ended := block.OfHtml? && block.end.Some? && Html.EndsFrom(block.end.value, columns, at);
      (if ended then closed else closed.(block := Some(block)), AsWords)
    case Code => (closed, AsCode)
    case BlankLine => (closed, AsWords)
    case Break => (closed, AsWords)
    case Words => (Paragraph(s, columns, at, carriesOn), AsWords)
  }

  /** The containers a line leaves open, and what of the old is still open in them. */
  function Contained(s: State, matched: nat, added: seq<nat>, blank: bool): State
    requires matched <= |s.open|
  {
    var everything := matched == |s.open|;
    var kept := everything && added == [];
    var empty := if added != [] then added[|added| - 1] > 0 && blank else s.empty && everything && blank;
    State(s.open[..matched] + added, empty, None, s.paragraph && kept, s.table && kept, s.header, s.tried)
  }

  /** A line read on from where the first `matched` of the open containers leave it. */
  function NextFrom(s: State, written: string, matched: nat, at: nat): (State, Drawn)
    requires matched <= |s.open| && at <= |Columns(written)|
  {
    var columns := Columns(written);
    var everything := matched == |s.open|;
    if s.block.Some? && everything && Holds(s.block.value, columns, at) then
      (s.(block := if Ends(s.block.value, columns, at) then None else s.block), AsCode)
    else
      var here := everything && s.paragraph;
      var (added, from) := Opened(columns, at, here);
      var blank := from >= BlankFrom(columns);
      var carriesOn := here && added == [];
      var start := StartAt(columns, from, blank, !s.paragraph || added != [], !carriesOn);
      if !everything && s.paragraph && added == [] && start.Words? then
        (s.(block := None, header := columns[from..]), AsWords)
      else
        Settled(Contained(s, matched, added, blank), Lead(written), columns, from, start, carriesOn)
  }

  /** How GitHub drew `written` after every line that brought it to `s`, and what that leaves open. */
  function Next(s: State, written: string): (State, Drawn) {
    var (matched, at) := CarriedOn(s.open, s.empty, Columns(written), 0, 0);
    NextFrom(s, written, matched, at)
  }

  function ReadAll(s: State, lines: seq<string>): State
    decreases |lines|
  {
    if lines == [] then s else ReadAll(Next(s, lines[0]).0, lines[1..])
  }
}
