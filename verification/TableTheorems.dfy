/** What makes a table of two lines: the cells its pipes divide a row into, and the dashes of its second line. */
module TableTheorems {
  import opened Text
  import opened Marks
  import opened MarkTheorems

  // ----- Cells -----

  function PipesOf(row: string, from: nat): set<nat> { set i: nat | from <= i < |row| && PipeAt(row, i) }

  lemma PipesOfStep(row: string, from: nat)
    requires from < |row|
    ensures PipesOf(row, from) == (if PipeAt(row, from) then {from} else {}) + PipesOf(row, from + 1)
    ensures from !in PipesOf(row, from + 1)
  {
    hide PipeAt;
  }

  predicate Increasing(pipes: seq<nat>) { forall i, j :: 0 <= i < j < |pipes| ==> pipes[i] < pipes[j] }

  lemma OneBefore(first: nat, later: seq<nat>)
    requires Increasing(later) && forall p <- later :: first < p
    ensures Increasing([first] + later)
  {
    forall i | 0 <= i < |later| ensures first < later[i] {
      assert later[i] in later;
    }
  }

  lemma {:induction false} PipesAreAll(row: string, from: nat)
    requires from <= |row|
    ensures var pipes := Pipes(row, from);
            |pipes| == |PipesOf(row, from)| && Increasing(pipes) && forall p :: p in pipes <==> p in PipesOf(row, from)
    decreases |row| - from
  {
    if from < |row| {
      PipesAreAll(row, from + 1);
      PipesOfStep(row, from);
      hide PipeAt, PipesOf, Increasing;
      var later := Pipes(row, from + 1);
      assert [] + later == later;
      if PipeAt(row, from) {
        OneBefore(from, later);
      }
    }
  }

  /** Of increasing places, those from `start` on, where only the first can be in front of it. */
  lemma {:induction false} WithinAll(pipes: seq<nat>, start: nat, end: nat)
    requires Increasing(pipes)
    requires forall i :: 0 <= i < |pipes| ==> start <= pipes[i] < end || (i == 0 && pipes[i] < start) || (i == |pipes| - 1 && pipes[i] >= end)
    ensures Within(pipes, start, end)
         == |pipes| - (if pipes != [] && (pipes[0] < start || pipes[|pipes| - 1] >= end) then 1 else 0)
                    - (if |pipes| > 1 && pipes[0] < start && pipes[|pipes| - 1] >= end then 1 else 0)
  {
    if pipes != [] {
      WithinAll(pipes[1..], start, end);
      if |pipes| > 1 {
        assert pipes[1..][|pipes| - 2] == pipes[|pipes| - 1];
        assert pipes[1..][0] == pipes[1];
      }
    }
  }

  lemma CellsOfPipes(row: string)
    requires Pipes(row, 0) != []
    ensures var pipes := Pipes(row, 0);
            Cells(row) == |pipes| + 1 - (if pipes[0] == 0 then 1 else 0)
                          - (if pipes[|pipes| - 1] == |DropBack(CellSpace, row)| - 1 then 1 else 0)
  {
    hide Within, Pipes;
    PipesAreAll(row, 0);
    var pipes, length := Pipes(row, 0), |DropBack(CellSpace, row)|;
    forall i | 0 <= i < |pipes| ensures pipes[i] < length {
      assert pipes[i] in PipesOf(row, 0);
      assert !CellSpace(row[pipes[i]]);
    }
    hide PipeAt;
    var start := if pipes[0] == 0 then 1 else 0;
    var end := if pipes[|pipes| - 1] == length - 1 && length - 1 >= start then length - 1 else length;
    WithinAll(pipes, start, end);
  }

  /** A row has a cell for each stretch its pipes divide it into, but for an empty one at either end; and
      with no pipe, one cell unless it is empty. */
  lemma FirstAndLast(row: string)
    requires Pipes(row, 0) != []
    ensures var (all, pipes, last) := (PipesOf(row, 0), Pipes(row, 0), |DropBack(CellSpace, row)| - 1);
            && all != {} && (pipes[0] == 0 <==> 0 in all) && (pipes[|pipes| - 1] == last <==> last in all)
  {
    PipesAreAll(row, 0);
    hide Pipes;
    var all, pipes, last := PipesOf(row, 0), Pipes(row, 0), |DropBack(CellSpace, row)| - 1;
    assert pipes[0] in pipes && pipes[|pipes| - 1] in pipes;
    if last in all {
      var i :| 0 <= i < |pipes| && pipes[i] == last;
      assert row[pipes[|pipes| - 1]] == '|' && !CellSpace('|');
    }
    if 0 in all {
      var i :| 0 <= i < |pipes| && pipes[i] == 0;
    }
  }

  /** A row has a cell for each stretch its pipes divide it into, but for an empty one at either end; and
      with no pipe, one cell unless it is empty. */
  lemma CellsExactly(row: string)
    ensures var pipes := PipesOf(row, 0);
            Cells(row) ==
            if pipes == {} then if row == [] then 0 else 1
            else |pipes| + 1 - (if 0 in pipes then 1 else 0) - (if |DropBack(CellSpace, row)| - 1 in pipes then 1 else 0)
  {
    hide PipesOf, Pipes;
    PipesAreAll(row, 0);
    if Pipes(row, 0) != [] {
      CellsOfPipes(row);
      FirstAndLast(row);
    } else {
      assert PipesOf(row, 0) == {};
    }
  }

  // ----- The row of dashes -----

  /** A text parted at every pipe. */
  function Parted(s: string): (parts: seq<string>)
    ensures parts != []
  {
    if s == [] then [[]]
    else
      var rest := Parted(s[1..]);
      if s[0] == '|' then [[]] + rest else [[s[0]] + rest[0]] + rest[1..]
  }

  predicate Spaced(s: string) { forall i :: 0 <= i < |s| ==> CellSpace(s[i]) }

  /** Dashes, a colon at either end or none, and space around them. */
  predicate Dashes(part: string, before: nat, open: nat, dashes: nat, close: nat) {
    && before + open + dashes + close <= |part| && open <= 1 && close <= 1 && dashes > 0
    && Spaced(part[..before]) && Run(part, before, ':', open) && Run(part, before + open, '-', dashes)
    && Run(part, before + open + dashes, ':', close) && Spaced(part[before + open + dashes + close..])
  }

  ghost predicate OfDashes(part: string) {
    exists before, open, dashes, close :: Dashes(part, before, open, dashes, close)
  }

  /** The parts behind a pipe: dashes in each, or nothing in the last. */
  ghost predicate OnlyDashes(parts: seq<string>) {
    forall i :: 0 <= i < |parts| ==> OfDashes(parts[i]) || (i == |parts| - 1 && Spaced(parts[i]))
  }

  lemma {:induction false} FirstPart(s: string)
    ensures var first := Parted(s)[0];
            && '|' !in first && |first| <= |s| && s[..|first|] == first
            && (if |first| == |s| then Parted(s) == [s] else s[|first|] == '|' && Parted(s) == [first] + Parted(s[|first| + 1..]))
  {
    if s != [] && s[0] != '|' {
      FirstPart(s[1..]);
      var first, rest := Parted(s)[0], Parted(s[1..]);
      assert first == [s[0]] + rest[0];
      assert s[..|first|] == [s[0]] + s[1..][..|rest[0]|];
      if |rest[0]| < |s[1..]| {
        assert s[1..][|rest[0]| + 1..] == s[|first| + 1..];
        assert s[1..][|rest[0]|] == s[|first|];
        assert rest[1..] == Parted(s[|first| + 1..]);
      } else {
        assert rest == [s[1..]];
        assert [s[0]] + s[1..] == s;
        assert Parted(s) == [s];
      }
    } else if s != [] {
      assert s[0 + 1..] == s[1..];
      assert Parted(s) == [[]] + Parted(s[1..]);
    }
  }

  lemma NoPipeBefore(s: string, at: nat, end: nat)
    requires at <= end <= |s| && '|' !in s[at..end]
    ensures forall i :: at <= i < end ==> s[i] != '|'
  {
    forall i | at <= i < end ensures s[i] != '|' {
      assert s[i] == s[at..end][i - at];
    }
  }

  /** A run of what is no pipe stops at the next one. */
  lemma RunStays(p: char -> bool, s: string, at: nat, end: nat)
    requires at <= end <= |s| && (end < |s| ==> s[end] == '|') && !p('|')
    ensures at + RunOf(p, s, at) <= end
  {
  }

  lemma SpacedIsARun(s: string, at: nat, end: nat)
    requires at <= end <= |s| && (end < |s| ==> s[end] == '|')
    ensures Spaced(s[at..end]) <==> at + RunOf(CellSpace, s, at) == end
  {
    if Spaced(s[at..end]) {
      forall i | at <= i < end ensures CellSpace(s[i]) {
        assert s[i] == s[at..end][i - at];
      }
      RunIs(CellSpace, s, at, end - at);
    }
  }

  lemma SpacedIs(s: string, from: nat, to: nat)
    requires from <= to <= |s|
    ensures Spaced(s[from..to]) <==> SpacedTo(s, from, to)
  {
    hide CellSpace;
    if Spaced(s[from..to]) {
      forall i | from <= i < to ensures CellSpace(s[i]) {
        assert s[i] == s[from..to][i - from];
      }
    }
  }

  lemma RunIn(s: string, at: nat, end: nat, from: nat, c: char, n: nat)
    requires at <= end <= |s| && from + n <= end - at
    ensures Run(s[at..end], from, c, n) <==> Run(s, at + from, c, n)
  {
    if Run(s[at..end], from, c, n) {
      forall i | at + from <= i < at + from + n ensures s[i] == c {
        assert s[i] == s[at..end][i - at];
      }
    }
  }

  /** Where the parts of a cell of dashes begin, and where the space behind them ends. */
  predicate CellAt(s: string, at: nat, colon: nat, first: nat, last: nat, past: nat, end: nat) {
    && at <= colon <= first < last <= past <= end <= |s|
    && SpacedTo(s, at, colon) && ColonTo(s, colon, first) && Run(s, first, '-', last - first)
    && ColonTo(s, last, past) && SpacedTo(s, past, end)
  }

  predicate SpacedTo(s: string, from: nat, to: nat)
    requires from <= to <= |s|
  {
    forall i :: from <= i < to ==> CellSpace(s[i])
  }

  predicate ColonTo(s: string, from: nat, to: nat)
    requires from <= to <= |s|
  {
    to == from || (to == from + 1 && s[from] == ':')
  }

  lemma PipeIsNoSpace()
    ensures !CellSpace('|') && !CellSpace('-') && !CellSpace(':')
  {
  }

  lemma SpacesEnd(s: string, from: nat, to: nat)
    requires from <= to <= |s| && SpacedTo(s, from, to) && (to < |s| ==> s[to] == ':' || s[to] == '-' || s[to] == '|')
    ensures from + RunOf(CellSpace, s, from) == to
  {
    RunIs(CellSpace, s, from, to - from);
  }

  lemma DashesEnd(s: string, from: nat, to: nat)
    requires from <= to <= |s| && Run(s, from, '-', to - from) && (to < |s| ==> s[to] != '-')
    ensures from + RunOf(Dash, s, from) == to
  {
    RunIs(Dash, s, from, to - from);
  }

  lemma Behind(s: string, from: nat, to: nat, end: nat)
    requires from <= to <= end <= |s| && ColonTo(s, from, to) && SpacedTo(s, to, end) && (end < |s| ==> s[end] == '|')
    ensures from < |s| ==> s[from] != '-'
    ensures PastColon(s, from) == to
  {
    if to < end { assert CellSpace(s[to]); }
  }

  lemma InFront(s: string, from: nat, to: nat)
    requires from <= to < |s| && ColonTo(s, from, to) && s[to] == '-'
    ensures s[from] == ':' || s[from] == '-'
    ensures PastColon(s, from) == to
  {
  }

  /** A cell of dashes is read to its end. */
  lemma CellIsRead(s: string, at: nat, colon: nat, first: nat, last: nat, past: nat, end: nat)
    requires CellAt(s, at, colon, first, last, past, end) && (end < |s| ==> s[end] == '|')
    ensures DelimiterCell(s, at) == Some(end) && at + RunOf(CellSpace, s, at) < end
  {
    hide PastColon, ColonTo, SpacedTo, CellSpace;
    assert s[first] == '-';
    hide Run;
    InFront(s, colon, first);
    Behind(s, last, past, end);
    SpacesEnd(s, at, colon);
    DashesEnd(s, first, last);
    SpacesEnd(s, past, end);
  }

  /** And a cell that is read is one of dashes as far as it goes. */
  lemma ReadIsACell(s: string, at: nat)
    requires at <= |s| && DelimiterCell(s, at).Some?
    ensures exists colon, first, last, past :: CellAt(s, at, colon, first, last, past, DelimiterCell(s, at).value)
    ensures var end := DelimiterCell(s, at).value; end < |s| ==> !CellSpace(s[end])
  {
    hide *;
    CellUnfolds(s, at);
    var colon := at + RunOf(CellSpace, s, at);
    var first := PastColon(s, colon);
    var last := first + RunOf(Dash, s, first);
    var past := PastColon(s, last);
    var end := past + RunOf(CellSpace, s, past);
    SpaceIsSpaced(s, at);
    SpaceIsSpaced(s, past);
    DashesAreARun(s, first);
    ColonIsOne(s, colon);
    ColonIsOne(s, last);
    CellFits(s, at, colon, first, last, past, end);
  }

  lemma CellUnfolds(s: string, at: nat)
    requires at <= |s| && DelimiterCell(s, at).Some?
    ensures var first := PastColon(s, at + RunOf(CellSpace, s, at));
            var last := first + RunOf(Dash, s, first);
            var past := PastColon(s, last);
            first < last && DelimiterCell(s, at) == Some(past + RunOf(CellSpace, s, past))
  {
    hide CellSpace, Dash, PastColon, RunOf;
  }

  lemma CellFits(s: string, at: nat, colon: nat, first: nat, last: nat, past: nat, end: nat)
    requires at <= colon <= first < last <= past <= end <= |s|
    requires SpacedTo(s, at, colon) && ColonTo(s, colon, first) && Run(s, first, '-', last - first)
    requires ColonTo(s, last, past) && SpacedTo(s, past, end)
    ensures CellAt(s, at, colon, first, last, past, end)
  {
    hide SpacedTo, ColonTo, Run;
  }

  lemma SpaceIsSpaced(s: string, at: nat)
    requires at <= |s|
    ensures var end := at + RunOf(CellSpace, s, at); SpacedTo(s, at, end) && (end < |s| ==> !CellSpace(s[end]))
  {
    hide CellSpace;
  }

  lemma DashesAreARun(s: string, at: nat)
    requires at <= |s|
    ensures Run(s, at, '-', RunOf(Dash, s, at))
  {
  }

  lemma ColonIsOne(s: string, at: nat)
    requires at <= |s|
    ensures ColonTo(s, at, PastColon(s, at))
  {
  }

  /** No cell reaches past a pipe. */
  lemma CellHasNoPipe(s: string, at: nat, colon: nat, first: nat, last: nat, past: nat, end: nat)
    requires CellAt(s, at, colon, first, last, past, end)
    ensures forall i :: at <= i < end ==> s[i] != '|'
  {
    PipeIsNoSpace();
    hide CellSpace;
  }

  /** A part is one of dashes where it is a cell in place. */
  lemma PartIsACell(s: string, at: nat, end: nat)
    requires at <= end <= |s|
    ensures OfDashes(s[at..end]) <==> exists colon, first, last, past :: CellAt(s, at, colon, first, last, past, end)
  {
    hide Dashes, CellAt;
    var part := s[at..end];
    if OfDashes(part) {
      var before, open, dashes, close :| Dashes(part, before, open, dashes, close);
      FitsPart(part, before, open, dashes, close);
      var past := before + open + dashes + close;
      SamePlaces(s, at, end, before, open, dashes, close);
      assert CellAt(s, at, at + before, at + before + open, at + before + open + dashes, at + past, end);
    }
    if colon: nat, first: nat, last: nat, past: nat :| CellAt(s, at, colon, first, last, past, end) {
      InOrderHere(s, at, colon, first, last, past, end);
      SamePlaces(s, at, end, colon - at, first - colon, last - first, past - last);
      assert Dashes(part, colon - at, first - colon, last - first, past - last);
    }
  }

  lemma FitsPart(part: string, before: nat, open: nat, dashes: nat, close: nat)
    requires Dashes(part, before, open, dashes, close)
    ensures before + open + dashes + close <= |part|
  {
  }

  lemma InOrderHere(s: string, at: nat, colon: nat, first: nat, last: nat, past: nat, end: nat)
    requires CellAt(s, at, colon, first, last, past, end)
    ensures at <= colon <= first < last <= past <= end <= |s|
  {
  }

  lemma SamePlaces(s: string, at: nat, end: nat, before: nat, open: nat, dashes: nat, close: nat)
    requires at <= end <= |s| && before + open + dashes + close <= end - at
    ensures Dashes(s[at..end], before, open, dashes, close)
            <==> CellAt(s, at, at + before, at + before + open, at + before + open + dashes,
                        at + before + open + dashes + close, end)
  {
    hide CellSpace;
    var part, past := s[at..end], before + open + dashes + close;
    assert part[..before] == s[at..at + before] && part[past..] == s[at + past..end];
    SpacedIs(s, at, at + before);
    SpacedIs(s, at + past, end);
    RunIn(s, at, end, before, ':', open);
    RunIn(s, at, end, before + open, '-', dashes);
    RunIn(s, at, end, before + open + dashes, ':', close);
    ColonRun(s, at + before, open);
    ColonRun(s, at + before + open + dashes, close);
    hide Run, Spaced, ColonTo;
  }

  lemma ColonRun(s: string, at: nat, n: nat)
    requires at + n <= |s|
    ensures n <= 1 && Run(s, at, ':', n) <==> ColonTo(s, at, at + n)
  {
  }

  /** Where a cell of dashes ends, if there is one: right behind its part, or in front of what is no cell. */
  lemma CellOfDashes(s: string, at: nat, end: nat)
    requires at <= end <= |s| && (end < |s| ==> s[end] == '|') && '|' !in s[at..end]
    ensures DelimiterCell(s, at) == Some(end) <==> OfDashes(s[at..end])
    ensures DelimiterCell(s, at).Some? ==>
              var past := DelimiterCell(s, at).value; past <= end && (past < end ==> s[past] != '|' && !CellSpace(s[past]))
    ensures Spaced(s[at..end]) <==> at + RunOf(CellSpace, s, at) == end
    ensures OfDashes(s[at..end]) ==> !Spaced(s[at..end])
  {
    hide DelimiterCell, CellAt, OfDashes, CellSpace, Spaced;
    NoPipeBefore(s, at, end);
    SpacedIsARun(s, at, end);
    PartIsACell(s, at, end);
    if colon: nat, first: nat, last: nat, past: nat :| CellAt(s, at, colon, first, last, past, end) {
      CellIsRead(s, at, colon, first, last, past, end);
    }
    if DelimiterCell(s, at).Some? {
      ReadIsACell(s, at);
      var past := DelimiterCell(s, at).value;
      var colon, first, last, p :| CellAt(s, at, colon, first, last, p, past);
      CellHasNoPipe(s, at, colon, first, last, p, past);
    }
  }

  /** Where the first part from a place on ends, and what is left behind it. */
  lemma PartAt(s: string, from: nat) returns (end: nat)
    requires from <= |s|
    ensures from <= end <= |s| && Parted(s[from..])[0] == s[from..end]
    ensures '|' !in s[from..end] && (end < |s| ==> s[end] == '|')
    ensures end == |s| ==> (OnlyDashes(Parted(s[from..])) <==> OfDashes(s[from..end]) || Spaced(s[from..end]))
    ensures end < |s| ==> (OnlyDashes(Parted(s[from..])) <==> OfDashes(s[from..end]) && OnlyDashes(Parted(s[end + 1..])))
  {
    hide OfDashes, Spaced, OnlyDashes, Parted;
    var rest := s[from..];
    FirstPart(rest);
    FirstOnly(rest);
    var first := Parted(rest)[0];
    end := from + |first|;
    assert s[from..end] == rest[..|first|] == first;
    assert end == |s| ==> first == rest;
    assert end < |s| ==> rest[|first|] == s[end] && rest[|first| + 1..] == s[end + 1..];
  }

  /** Behind a cell comes the end of the line, or a pipe and further cells. */
  lemma {:induction false} RestOfDashes(s: string, at: nat)
    requires at <= |s|
    ensures DelimiterRest(s, at)
            <==> Spaced(s[at..]) || (at < |s| && s[at] == '|' && OnlyDashes(Parted(s[at + 1..])))
    decreases |s| - at
  {
    hide DelimiterCell, OfDashes, Spaced, OnlyDashes, Parted, CellSpace;
    SpacedToTheEnd(s, at);
    if at < |s| && s[at] == '|' {
      PipeIsNoSpace();
      var end := PartAt(s, at + 1);
      CellOfDashes(s, at + 1, end);
      match DelimiterCell(s, at + 1)
      case Some(past) =>
        RestOfDashes(s, past);
        SpacedToTheEnd(s, past);
      case None =>
        RunStays(CellSpace, s, at + 1, end);
    }
  }

  lemma SpacedToTheEnd(s: string, at: nat)
    requires at <= |s|
    ensures Spaced(s[at..]) <==> at + RunOf(CellSpace, s, at) == |s|
  {
    hide Spaced, CellSpace;
    SpacedIsARun(s, at, |s|);
    assert s[at..|s|] == s[at..];
  }

  lemma FirstOnly(s: string)
    ensures var first := Parted(s)[0];
            && (|first| == |s| ==> (OnlyDashes(Parted(s)) <==> OfDashes(s) || Spaced(s)))
            && (|first| < |s| ==> (OnlyDashes(Parted(s)) <==> OfDashes(first) && OnlyDashes(Parted(s[|first| + 1..]))))
  {
    hide OfDashes, Spaced, Parted;
    FirstPart(s);
    var first := Parted(s)[0];
    if |first| < |s| {
      var parts, rest := Parted(s), Parted(s[|first| + 1..]);
      assert parts[1..] == rest;
      if OnlyDashes(parts) {
        assert OfDashes(parts[0]);
        forall i | 0 <= i < |rest| ensures OfDashes(rest[i]) || (i == |rest| - 1 && Spaced(rest[i])) {
          assert rest[i] == parts[i + 1];
        }
      }
    } else {
      assert Parted(s)[0] == s;
    }
  }

  lemma RestStops(s: string, past: nat)
    requires past <= |s|
    ensures past == |s| ==> DelimiterRest(s, past)
    ensures past < |s| && s[past] == '|' ==> (DelimiterRest(s, past) <==> OnlyDashes(Parted(s[past + 1..])))
    ensures past < |s| && s[past] != '|' && !CellSpace(s[past]) ==> !DelimiterRest(s, past)
  {
    hide DelimiterCell, OfDashes, Spaced, OnlyDashes, Parted, CellSpace, DelimiterRest;
    PipeIsNoSpace();
    RestOfDashes(s, past);
    SpacedToTheEnd(s, past);
  }

  lemma CellAndRest(s: string, from: nat, end: nat)
    requires from <= end <= |s| && (end < |s| ==> s[end] == '|') && '|' !in s[from..end]
    ensures (match DelimiterCell(s, from) case Some(past) => DelimiterRest(s, past) case None => false)
            <==> OfDashes(s[from..end]) && (end < |s| ==> OnlyDashes(Parted(s[end + 1..])))
  {
    hide *;
    CellOfDashes(s, from, end);
    var cell := DelimiterCell(s, from);
    if cell == Some(end) {
      RestStops(s, end);
    } else if cell.Some? {
      RestStops(s, cell.value);
    }
  }

  lemma FirstThenRest(s: string, from: nat)
    requires from <= |s|
    ensures (match DelimiterCell(s, from) case Some(end) => DelimiterRest(s, end) case None => false)
            <==> OfDashes(Parted(s[from..])[0]) && OnlyDashes(Parted(s[from..]))
  {
    hide *;
    var end := PartAt(s, from);
    CellAndRest(s, from, end);
  }

  /** A table's second line: parted at its pipes, but for one it opens on, a cell of dashes and only cells of
      dashes behind it, the last of which may be nothing but space. */
  lemma DelimiterRowsExactly(words: string)
    ensures DelimiterRow(words)
            <==> var parts := if words != [] && words[0] == '|' then Parted(words[1..]) else Parted(words);
                 OfDashes(parts[0]) && OnlyDashes(parts)
  {
    hide DelimiterCell, OfDashes, OnlyDashes, Parted, DelimiterRest;
    FirstThenRest(words, if words != [] && words[0] == '|' then 1 else 0);
    assert words[0..] == words;
  }
}
