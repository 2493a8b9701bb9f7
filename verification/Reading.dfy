/** The reader as it runs: fields changed line by line, with a side index of where the quotes are and
    two short-cuts, each held to the simple reading in `Reader`. */
module Reading {
  import opened Text
  import opened Drawn
  import opened Marks
  import opened Reader
  import opened ReaderTheorems
  import Html

  // ----- The side index of quotes -----

  /** `bisect.bisect_left` on an increasing list: how many of its elements come before `x`. */
  function BisectLeft(a: seq<nat>, x: nat): (n: nat)
    ensures n <= |a| && (forall i :: 0 <= i < n ==> a[i] < x) && (n < |a| ==> x <= a[n])
  {
    if a == [] || x <= a[0] then 0 else 1 + BisectLeft(a[1..], x)
  }

  /** The quotes among the first `count` containers. */
  function QuotesBelow(open: seq<nat>, count: nat): (quotes: seq<nat>)
    requires count <= |open|
    ensures forall i :: 0 <= i < |quotes| ==> quotes[i] < count
  {
    if count == 0 then []
    else QuotesBelow(open, count - 1) + if open[count - 1] == 0 then [count - 1] else []
  }

  function QuotePositions(open: seq<nat>): seq<nat> { QuotesBelow(open, |open|) }

  /** The index holds each quote once, in increasing order, and nothing else. */
  lemma {:induction false} QuotesBelowAreTheQuotes(open: seq<nat>, count: nat)
    requires count <= |open|
    ensures var quotes := QuotesBelow(open, count);
            && (forall i, j :: 0 <= i < j < |quotes| ==> quotes[i] < quotes[j])
            && (forall p :: p in quotes <==> 0 <= p < count && open[p] == 0)
            && |quotes| == Quotes(open[..count])
  {
    if count > 0 {
      QuotesBelowAreTheQuotes(open, count - 1);
      assert open[..count] == open[..count - 1] + [open[count - 1]];
      QuotesAppend(open[..count - 1], [open[count - 1]]);
    }
  }

  lemma {:induction false} QuotesAppend(a: seq<nat>, b: seq<nat>)
    ensures Quotes(a + b) == Quotes(a) + Quotes(b)
  {
    if a == [] {
      assert a + b == b;
    } else {
      assert (a + b)[1..] == a[1..] + b;
      QuotesAppend(a[1..], b);
    }
  }

  lemma QuotePositionsCount(open: seq<nat>)
    ensures |QuotePositions(open)| == Quotes(open)
  {
    QuotesBelowAreTheQuotes(open, |open|);
    assert open[..|open|] == open;
  }

  lemma {:induction false} SameQuotesBelow(a: seq<nat>, b: seq<nat>, count: nat)
    requires count <= |a| && count <= |b| && forall i :: 0 <= i < count ==> a[i] == b[i]
    ensures QuotesBelow(a, count) == QuotesBelow(b, count)
  {
    if count > 0 {
      SameQuotesBelow(a, b, count - 1);
    }
  }

  lemma QuotePositionsAppend(open: seq<nat>, container: nat)
    ensures QuotePositions(open + [container])
         == QuotePositions(open) + if container == 0 then [|open|] else []
  {
    SameQuotesBelow(open, open + [container], |open|);
  }

  lemma {:induction false} BisectAppend(a: seq<nat>, y: nat, x: nat)
    requires x <= y
    ensures BisectLeft(a + [y], x) == BisectLeft(a, x)
  {
    if a == [] {
    } else {
      assert (a + [y])[1..] == a[1..] + [y];
      BisectAppend(a[1..], y, x);
    }
  }

  lemma {:induction false} BisectAll(a: seq<nat>, x: nat)
    requires forall i :: 0 <= i < |a| ==> a[i] < x
    ensures BisectLeft(a, x) == |a|
  {
    if a != [] {
      BisectAll(a[1..], x);
    }
  }

  lemma {:induction false} QuotesBelowByBisect(open: seq<nat>, count: nat, all: nat)
    requires count <= all <= |open|
    ensures var quotes := QuotesBelow(open, all);
            QuotesBelow(open, count) == quotes[..BisectLeft(quotes, count)]
  {
    hide BisectLeft;
    if count == all {
      BisectAll(QuotesBelow(open, count), count);
    } else {
      QuotesBelowByBisect(open, count, all - 1);
      var before := QuotesBelow(open, all - 1);
      if open[all - 1] == 0 {
        BisectAppend(before, all - 1, count);
        assert QuotesBelow(open, all) == before + [all - 1];
        assert (before + [all - 1])[..BisectLeft(before, count)] == before[..BisectLeft(before, count)];
      } else {
        assert QuotesBelow(open, all) == before;
      }
    }
  }

  /** Dropping the containers from `count` on drops from the index what bisecting it says. */
  lemma QuotePositionsOfPrefix(open: seq<nat>, count: nat)
    requires count <= |open|
    ensures QuotePositions(open[..count])
         == QuotePositions(open)[..BisectLeft(QuotePositions(open), count)]
  {
    SameQuotesBelow(open[..count], open, count);
    QuotesBelowByBisect(open, count, |open|);
  }

  // ----- The short-cut through a blank line -----

  function Sum(widths: seq<nat>): nat {
    if widths == [] then 0 else widths[0] + Sum(widths[1..])
  }

  function FirstQuote(open: seq<nat>, count: nat): (q: nat)
    requires count <= |open|
    ensures count <= q <= |open|
    ensures q < |open| ==> open[q] == 0
    ensures forall i :: count <= i < q ==> open[i] > 0
    decreases |open| - count
  {
    if count == |open| || open[count] == 0 then count else FirstQuote(open, count + 1)
  }

  lemma {:induction false} FirstQuoteByBisect(open: seq<nat>, count: nat)
    requires count <= |open|
    ensures var quotes := QuotePositions(open);
            var later := BisectLeft(quotes, count);
            && (later < |quotes| ==> quotes[later] < |open|)
            && FirstQuote(open, count) == if later < |quotes| then quotes[later] else |open|
  {
    QuotesBelowAreTheQuotes(open, |open|);
    var quotes := QuotePositions(open);
    var later := BisectLeft(quotes, count);
    var first := FirstQuote(open, count);
    if later < |quotes| {
      assert quotes[later] in quotes;
    }
    if first < |open| {
      assert first in quotes;
      var i :| 0 <= i < |quotes| && quotes[i] == first;
      assert i >= later;
    }
  }

  predicate SpacesFrom(columns: string, at: nat) {
    at <= |columns| && forall i :: at <= i < |columns| ==> columns[i] == ' '
  }

  lemma NoQuoteOnSpaces(columns: string, at: nat)
    requires SpacesFrom(columns, at)
    ensures QuoteMark(columns, at).None? && MarkAt(columns, at).NoMark? && !ThematicBreak(columns, at)
  {
    assert RunOf(Space, columns, at) == |columns| - at;
  }

  /** One look at the index and one sum of widths say what walking a blank line would: it stops at the
      first quote, and an empty item at the end needs its own width left. */
  lemma {:induction false} BlankWalk(open: seq<nat>, empty: bool, columns: string, at: nat, count: nat)
    requires count <= |open| && SpacesFrom(columns, at) && at >= BlankFrom(columns)
    requires empty ==> open != [] && open[|open| - 1] > 0
    ensures var first := FirstQuote(open, count);
            CarriedOn(open, empty, columns, at, count).0
            == if first < |open| then first
               else if empty && count < |open| && |columns| - at < Sum(open[count..]) then |open| - 1
               else |open|
    decreases |open| - count
  {
    hide BlankFrom;
    if count < |open| {
      NoQuoteOnSpaces(columns, at);
      assert open[count..][1..] == open[count + 1..];
      if open[count] > 0 {
        if SpacesAt(columns, at, open[count]) {
          BlankWalk(open, empty, columns, at + open[count], count + 1);
        } else if !(empty && count == |open| - 1) {
          BlankWalk(open, empty, columns, |columns|, count + 1);
          SumIsPositive(open, count + 1);
        }
      }
    }
  }

  lemma SumIsPositive(open: seq<nat>, count: nat)
    requires count <= |open|
    ensures count < |open| && open[count] > 0 ==> Sum(open[count..]) > 0
  {
  }

  // ----- The short-cut to a thematic break -----

  /** The first column a thematic break could start at: where the line's last run of one break
      character, with spaces and tabs between, begins. */
  function BreaksFrom(columns: string): nat {
    var end := BlankFrom(columns);
    if end == 0 || !BreakChar(columns[end - 1]) then |columns| + 1
    else
      var kind := columns[end - 1];
      |DropBack(c => c == kind || Blank(c), columns[..end])|
  }

  /** No thematic break starts before there. */
  lemma NoBreakBefore(columns: string, at: nat)
    requires at <= |columns| && ThematicBreak(columns, at)
    ensures at >= BreaksFrom(columns)
  {
    hide DropBack;
    var from := at + RunOf(Space, columns, at);
    var kind := columns[from];
    var rest := columns[from..];
    assert forall i :: from <= i < |columns| ==> columns[i] == rest[i - from];
    var end := BlankFrom(columns);
    assert end > from;
    assert columns[end - 1] == kind;
    assert forall i :: at <= i < |columns| ==> columns[i] == kind || Blank(columns[i]);
    var kept := DropBack(c => c == kind || Blank(c), columns[..end]);
    assert kept == columns[..|kept|];
  }

  // ----- Nothing is left of a blank line -----

  lemma BlankRest(written: string, at: nat, interrupting: bool)
    requires InOpening(Columns(written), at) && at >= BlankFrom(Columns(written))
    ensures Opened(Columns(written), at, interrupting) == ([], at)
    ensures forall block :: !Ends(block, Columns(written), at)
  {
    hide Columns, BlankFrom, Html.EndAt, Opened;
    AllSpaces(written, at);
    NoQuoteOnSpaces(Columns(written), at);
    forall block ensures !Ends(block, Columns(written), at) {
      NoEndOnSpaces(block, Columns(written), at);
    }
    NothingOpened(Columns(written), at, interrupting);
  }

  lemma NothingOpened(columns: string, at: nat, interrupting: bool)
    requires at <= |columns| && !ThematicBreak(columns, at) && MarkAt(columns, at).NoMark?
    ensures Opened(columns, at, interrupting) == ([], at)
  {
  }

  lemma NoEndOnSpaces(block: Block, columns: string, at: nat)
    requires SpacesFrom(columns, at)
    ensures !Ends(block, columns, at)
  {
    match block
    case Fenced(mark, width) =>
      assert RunOf(Space, columns, at) == |columns| - at;
    case OfHtml(end) =>
      forall i | at <= i < |columns| && end.Some?
        ensures !Html.EndAt(end.value, columns, i)
      {
        assert columns[i] == ' ';
      }
  }

  lemma BlankStart(columns: string, a: nat, b: nat, code: bool, tag: bool)
    requires a <= |columns| && b <= |columns|
    ensures StartAt(columns, a, true, code, tag) == StartAt(columns, b, true, code, tag) == BlankLine
  {
    hide Html.Opens, Html.TagAlone, OpeningFence, ThematicBreak;
  }

  /** Where on a blank line the containers leave it makes no difference to the rest of its reading. */
  lemma BlankIsBlank(s: State, written: string, matched: nat, a: nat, b: nat)
    requires matched <= |s.open| && InOpening(Columns(written), a) && InOpening(Columns(written), b)
    requires a >= BlankFrom(Columns(written)) && b >= BlankFrom(Columns(written))
    ensures NextFrom(s, written, matched, a) == NextFrom(s, written, matched, b)
  {
    hide Columns, BlankFrom, Lead, Opened, StartAt, Ends, WordsFrom, Contained, InOpening, Paragraph, Html.EndsFrom;
    var here := matched == |s.open| && s.paragraph;
    BlankRest(written, a, here);
    BlankRest(written, b, here);
    BlankStart(Columns(written), a, b, !s.paragraph, !here);
  }

  // ----- The reader -----

  /** The quotes and items a line opens, a thematic break looked for only where one could start. */
  method Open(columns: string, start: nat, blankFrom: nat, interrupting: bool) returns (added: seq<nat>, at: nat)
    requires start <= |columns| && blankFrom == BlankFrom(columns)
    ensures (added, at) == Opened(columns, start, interrupting)
  {
    hide ThematicBreak, MarkAt, BreaksFrom, BlankFrom, Opened;
    added, at := [], start;
    var breaksFrom := BreaksFrom(columns);
    ghost var whole := Opened(columns, start, interrupting);
    assert [] + whole.0 == whole.0;
    while true
      invariant at <= |columns|
      invariant var rest := Opened(columns, at, interrupting && added == []);
                whole.0 == added + rest.0 && whole.1 == rest.1
      decreases |columns| - at
    {
      OpenedStep(columns, at, interrupting && added == []);
      assert added + [] == added;
      if ThematicBreak(columns, at) {
        NoBreakBefore(columns, at);
      }
      if at >= breaksFrom && ThematicBreak(columns, at) {
        break;
      }
      var container: nat := 0;
      var end: nat := at;
      match MarkAt(columns, at) {
        case NoMark => break;
        case Quote(e) => end := e;
        case Item(gap, e, number) =>
          var empty := e >= blankFrom;
          var numbered := number.Some? && number.value != 1;
          if interrupting && added == [] && (empty || numbered) {
            break;
          }
          container, end := if empty then gap - at + 1 else e - at, e;
      }
      ghost var rest := Opened(columns, end, false).0;
      assert added + ([container] + rest) == added + [container] + rest;
      added, at := added + [container], end;
    }
  }

  lemma OpenedStep(columns: string, at: nat, interrupting: bool)
    requires at <= |columns|
    ensures var found := Opened(columns, at, interrupting);
            if ThematicBreak(columns, at) then found == ([], at)
            else
              match MarkAt(columns, at)
              case NoMark => found == ([], at)
              case Quote(end) => found == ([0] + Opened(columns, end, false).0, Opened(columns, end, false).1)
              case Item(gap, end, number) =>
                if interrupting && (end >= BlankFrom(columns) || (number.Some? && number.value != 1))
                then found == ([], at)
                else found == ([if end >= BlankFrom(columns) then gap - at + 1 else end - at]
                                + Opened(columns, end, false).0, Opened(columns, end, false).1)
  {
    hide ThematicBreak, MarkAt, BlankFrom;
  }

  class Reading {
    var open: seq<nat>
    var quotes: seq<nat>
    var empty: bool
    var block: Option<Block>
    var paragraph: bool
    var table: bool
    var header: string
    var tried: bool

    /** The index is exact, and the rest is in one of the shapes a reading can be in. */
    ghost predicate Valid()
      reads this
    {
      quotes == QuotePositions(open) && Healthy(Read())
    }

    /** What the fields stand for. */
    ghost function Read(): State
      reads this
    {
      State(open, empty, block, paragraph, table, header, tried)
    }

    constructor ()
      ensures Valid() && Read() == FRESH
    {
      open, quotes, empty, block := [], [], false, None;
      paragraph, table, header, tried := false, false, "", false;
    }

    /** How many of the open quotes and items a line carries on, and where it leaves them. */
    method CarryOn(ghost written: string, columns: string, blankFrom: nat) returns (matched: nat, at: nat)
      requires Valid() && columns == Columns(written) && blankFrom == BlankFrom(columns)
      ensures at <= |columns| && InOpening(columns, at)
      ensures var walked := CarriedOn(open, empty, columns, 0, 0);
              matched == walked.0 && (at == walked.1 || (at >= blankFrom && walked.1 >= blankFrom))
    {
      hide Columns, BlankFrom, Healthy;
      at := 0;
      for count := 0 to |open|
        invariant InOpening(columns, at)
        invariant CarriedOn(open, empty, columns, 0, 0) == CarriedOn(open, empty, columns, at, count)
      {
        if at >= blankFrom {
          var later := BisectLeft(quotes, count);
          BlankIsWalked(written, at, count);
          if later < |quotes| {
            return quotes[later], at;
          }
          if empty && |columns| - at < Sum(open[count..]) {
            return |open| - 1, at;
          }
          return |open|, at;
        }
        if open[count] == 0 {
          var mark := QuoteMark(columns, at);
          if mark.None? {
            return count, at;
          }
          QuoteInOpening(columns, at);
          at := mark.value;
        } else if SpacesAt(columns, at, open[count]) {
          at := at + open[count];
        } else {
          return count, at;
        }
      }
      return |open|, at;
    }

    lemma BlankIsWalked(written: string, at: nat, count: nat)
      requires Valid() && count < |open|
      requires InOpening(Columns(written), at) && at >= BlankFrom(Columns(written))
      ensures var columns, later := Columns(written), BisectLeft(quotes, count);
              CarriedOn(open, empty, columns, at, count).0
              == if later < |quotes| then quotes[later]
                 else if empty && |columns| - at < Sum(open[count..]) then |open| - 1
                 else |open|
    {
      hide Columns;
      AllSpaces(written, at);
      BlankWalk(open, empty, Columns(written), at, count);
      FirstQuoteByBisect(open, count);
    }

    /** The containers a line ends and opens, and what of the old they leave open. */
    method Contain(matched: nat, added: seq<nat>, blank: bool)
      requires Valid() && matched <= |open|
      modifies this
      ensures quotes == QuotePositions(open) && block == None
      ensures Read() == Contained(old(Read()), matched, added, blank)
    {
      hide QuotePositions, BisectLeft, Healthy;
      ghost var before := Read();
      var everything := matched == |open|;
      block := None;
      if !everything {
        QuotePositionsOfPrefix(open, matched);
        open := open[..matched];
        quotes := quotes[..BisectLeft(quotes, matched)];
        paragraph, table := false, false;
      }
      assert open == before.open[..matched];
      if added != [] {
        for i := 0 to |added|
          invariant open == before.open[..matched] + added[..i] && quotes == QuotePositions(open)
          invariant block == None && empty == before.empty && header == before.header && tried == before.tried
        {
          QuotePositionsAppend(open, added[i]);
          if added[i] == 0 {
            quotes := quotes + [|open|];
          }
          open := open + [added[i]];
        }
        paragraph, table := false, false;
        empty := added[|added| - 1] > 0 && blank;
      } else {
        empty := empty && everything && blank;
      }
      assert open == before.open[..matched] + added;
    }

    /** What a line starts in the containers it leaves open, or what its words carry on. */
    method Settle(lead: string, columns: string, at: nat, start: Start, carriesOn: bool) returns (drawn: Drawn)
      requires at <= |columns| && quotes == QuotePositions(open) && block == None
      modifies this
      ensures quotes == old(quotes) && open == old(open)
      ensures (Read(), drawn) == Settled(old(Read()), lead, columns, at, start, carriesOn)
    {
      hide QuotePositions, WordsFrom, SpacesAt, Cells, Underline, DelimiterRow, Html.EndsFrom, Quotes;
      QuotePositionsCount(open);
      match start
      case StartsHeading(hashes) =>
        paragraph, table := false, false;
        return AHeading(Heading(lead, hashes, WordsFrom(columns, at), |quotes|, |open| > |quotes|));
      case StartsBlock(started) =>
        paragraph, table := false, false;
        if started.Fenced? || started.end.None? || !Html.EndsFrom(started.end.value, columns, at) {
          block := Some(started);
        }
        return AsWords;
      case Code =>
        paragraph, table := false, false;
        return AsCode;
      case BlankLine =>
        paragraph, table := false, false;
        return AsWords;
      case Break =>
        paragraph, table := false, false;
        return AsWords;
      case Words =>
        var words := WordsFrom(columns, at);
        if carriesOn {
          // The paragraph carries on, unless the line makes it a heading or a table's header.
          if !SpacesAt(columns, at, 4) {
            if Underline(words) {
              paragraph := false;
            } else if !tried && DelimiterRow(words) {
              tried := true;
              if Cells(words) == Cells(header) {
                paragraph, table := false, true;
              }
            }
          }
        } else if !table || Cells(words) == 0 {
          paragraph, table, tried := true, false, false;
        }
        header := words;
        return AsWords;
    }

    /** How GitHub drew `written`, given every line before it. */
    method ReadLine(written: string) returns (drawn: Drawn)
      requires Valid()
      modifies this
      ensures Valid()
      ensures (Read(), drawn) == Next(old(Read()), written)
    {
      hide Columns, BlankFrom, Lead, Opened, StartAt, CarriedOn, Ends, QuotePositions, InOpening, Settled, Contained;
      ghost var before := Read();
      NextIsHealthy(before, written);
      var lead := Lead(written);
      var columns := Columns(written);
      var blankFrom := BlankFrom(columns);
      var matched, at := CarryOn(written, columns, blankFrom);
      AnyPlaceOnABlank(before, written, matched, at);
      var everything := matched == |open|;
      if block.Some? {
        if everything && (block.value.Fenced? || block.value.end.Some? || at < blankFrom) {
          if Ends(block.value, columns, at) {
            block := None;
          }
          return AsCode;
        }
      }
      var here := everything && paragraph;
      var added, from := Open(columns, at, blankFrom, here);
      var start := StartAt(columns, from, from >= blankFrom, !paragraph || added != [], !(here && added == []));
      if !everything && paragraph && added == [] && start.Words? {
        block, header := None, columns[from..];
        return AsWords;
      }
      Contain(matched, added, from >= blankFrom);
      drawn := Settle(lead, columns, from, start, here && added == []);
    }
  }

  lemma AnyPlaceOnABlank(s: State, written: string, matched: nat, at: nat)
    requires InOpening(Columns(written), at)
    requires var walked := CarriedOn(s.open, s.empty, Columns(written), 0, 0);
             && matched == walked.0
             && (at == walked.1 || (at >= BlankFrom(Columns(written)) && walked.1 >= BlankFrom(Columns(written))))
    ensures Next(s, written) == NextFrom(s, written, matched, at)
  {
    hide Columns, BlankFrom, CarriedOn, NextFrom;
    CarriedOnInOpening(s.open, s.empty, written, 0, 0);
    var walked := CarriedOn(s.open, s.empty, Columns(written), 0, 0).1;
    if at != walked {
      BlankIsBlank(s, written, matched, at, walked);
    }
  }
}
