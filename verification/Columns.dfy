/** The order a board's columns put its moves in: forward one column at a time, back as far as you like. */
module Columns {
  import opened Text

  predicate Separator(c: char) { PythonSpace(c) || c == '_' || c == '-' || c == ':' || c == '/' }

  /** Every run of separators as one space. */
  function Collapsed(s: string): string
    decreases |s|
  {
    if s == [] then []
    else
      var run := RunOf(Separator, s, 0);
      if run == 0 then [s[0]] + Collapsed(s[1..]) else [' '] + Collapsed(s[run..])
  }

  /** A column's name without its case, as Python's `lower` reads it, and without its punctuation. */
  function Normalised(lower: string -> string, column: string): string {
    Strip(PythonSpace, Collapsed(lower(Strip(PythonSpace, column))))
  }

  function Names(lower: string -> string, columns: seq<string>): (names: seq<string>)
    ensures |names| == |columns|
    ensures forall i :: 0 <= i < |names| ==> names[i] == Normalised(lower, columns[i])
  {
    seq(|columns|, i requires 0 <= i < |columns| => Normalised(lower, columns[i]))
  }

  /** The first column of a name. */
  function FirstAt(names: seq<string>, name: string): (at: Option<nat>)
    ensures at.Some? ==> at.value < |names| && names[at.value] == name
    ensures at.Some? ==> forall i :: 0 <= i < at.value ==> names[i] != name
    ensures at.None? ==> forall i :: 0 <= i < |names| ==> names[i] != name
  {
    if names == [] then None
    else
      var last := |names| - 1;
      match FirstAt(names[..last], name)
      case Some(at) => Some(at)
      case None => if names[last] == name then Some(last) else None
  }

  /** Where a move comes from: nowhere for a card whose column nobody has recorded. */
  function Here(lower: string -> string, columns: seq<string>, from: Option<string>): Option<nat> {
    if from.None? || from.value == "" then None else FirstAt(Names(lower, columns), Normalised(lower, from.value))
  }

  function There(lower: string -> string, columns: seq<string>, to: string): Option<nat> {
    FirstAt(Names(lower, columns), Normalised(lower, to))
  }

  /** The columns a move has to go through first. */
  function Route(lower: string -> string, columns: seq<string>, from: Option<string>, to: string): seq<string> {
    var (here, there) := (Here(lower, columns, from), There(lower, columns, to));
    if here.None? || there.None? || there.value <= here.value then []
    else columns[here.value + 1..there.value]
  }

  lemma NothingIsFirst()
    ensures forall name :: FirstAt([], name) == None
  {
  }

  lemma OneMoreName(names: seq<string>, name: string)
    ensures forall other :: FirstAt(names + [name], other)
                            == if FirstAt(names, other).None? && other == name then Some(|names|) else FirstAt(names, other)
  {
    assert (names + [name])[..|names|] == names;
  }

  method MustPassThrough(lower: string -> string, columns: seq<string>, from: Option<string>, to: string)
    returns (route: seq<string>)
    ensures route == Route(lower, columns, from, to)
  {
    hide Normalised, FirstAt, Names;
    var order: map<string, nat> := map[];
    ghost var names := Names(lower, columns);
    assert names[..0] == [];
    NothingIsFirst();
    for at := 0 to |columns|
      invariant forall name :: name in order <==> FirstAt(names[..at], name).Some?
      invariant forall name :: name in order ==> FirstAt(names[..at], name) == Some(order[name])
    {
      assert names[..at + 1] == names[..at] + [names[at]];
      OneMoreName(names[..at], names[at]);
      var name := Normalised(lower, columns[at]);
      if name !in order {
        order := order[name := at];
      }
    }
    assert names[..|columns|] == names;
    if from.None? || from.value == "" || Normalised(lower, from.value) !in order {
      return [];
    }
    var here := order[Normalised(lower, from.value)];
    if Normalised(lower, to) !in order {
      return [];
    }
    var there := order[Normalised(lower, to)];
    if there <= here {
      return [];
    }
    route := columns[here + 1..there];
  }

  // ----- The rule -----

  predicate AllDifferent(names: seq<string>) {
    forall i, j :: 0 <= i < j < |names| ==> names[i] != names[j]
  }

  /** A column nothing before it reads like. */
  predicate ReadsFirst(names: seq<string>, i: nat)
    requires i < |names|
  {
    forall j :: 0 <= j < i ==> names[j] != names[i]
  }

  /** A board lets a card be moved from one column straight to another. */
  predicate Allowed(lower: string -> string, columns: seq<string>, from: string, to: string) {
    Route(lower, columns, Some(from), to) == []
  }

  /** Taking the columns of a route one at a time, and then the column it leads to. */
  predicate Walkable(lower: string -> string, columns: seq<string>, from: string, to: string) {
    var stops := [from] + Route(lower, columns, Some(from), to) + [to];
    forall i :: 0 <= i < |stops| - 1 ==> Allowed(lower, columns, stops[i], stops[i + 1])
  }

  /** The route is the columns between, and a move back is always allowed, as is one from a column with
      no name. */
  lemma RouteIsBetween(lower: string -> string, columns: seq<string>, i: nat, j: nat)
    requires AllDifferent(Names(lower, columns)) && i < |columns| && j < |columns|
    ensures Route(lower, columns, Some(columns[i]), columns[j])
         == if i < j && columns[i] != "" then columns[i + 1..j] else []
  {
    hide Normalised;
    assert FirstAt(Names(lower, columns), Names(lower, columns)[i]) == Some(i);
    assert FirstAt(Names(lower, columns), Names(lower, columns)[j]) == Some(j);
  }

  /** A hop is allowed exactly to a column known to come no later than the next one, and always from or
      to one the board knows nothing of. */
  lemma AllowedIsOneStep(lower: string -> string, columns: seq<string>, from: string, to: string)
    ensures Allowed(lower, columns, from, to)
       <==> var (here, there) := (Here(lower, columns, Some(from)), There(lower, columns, to));
            here.Some? && there.Some? ==> there.value <= here.value + 1
  {
    hide Normalised, FirstAt;
  }

  lemma FirstAtOrBefore(names: seq<string>, k: nat)
    requires k < |names|
    ensures var at := FirstAt(names, names[k]);
            at.Some? && at.value <= k && (at.value == k <==> ReadsFirst(names, k))
  {
  }

  /** Where the board takes the k-th column to be, as the column to leave or to reach. */
  function Known(names: seq<string>, k: nat): nat
    requires k < |names|
  {
    FirstAt(names, names[k]).GetOr(k)
  }

  /** From a first column to a first column, every hop is one step at most exactly when all the columns
      between are first as well. */
  lemma {:induction false} StepsExactly(names: seq<string>, here: nat, there: nat)
    requires here < there < |names| && ReadsFirst(names, there)
    ensures (forall k :: here < k < there ==> Known(names, k + 1) <= Known(names, k) + 1)
       <==> forall k :: here < k < there ==> ReadsFirst(names, k)
    decreases there - here
  {
    forall k | here <= k <= there ensures Known(names, k) <= k && (Known(names, k) == k <==> ReadsFirst(names, k)) {
      FirstAtOrBefore(names, k);
    }
    hide ReadsFirst, Known;
    if here + 1 < there {
      StepsExactly(names, here + 1, there);
      var next := here + 1;
      if forall k :: here < k < there ==> Known(names, k + 1) <= Known(names, k) + 1 {
        assert Known(names, next + 1) <= Known(names, next) + 1;
        assert ReadsFirst(names, next + 1);
        forall k | here < k < there ensures ReadsFirst(names, k) {
        }
      }
    }
  }

  /** Nothing on the way from the k-th column to the next is skipped: the board takes the next one to come
      at most one after where it takes this one to be, or knows no place for one with no name. */
  predicate StepsOn(lower: string -> string, columns: seq<string>, k: nat)
    requires k + 1 < |columns|
  {
    columns[k] == "" || Known(Names(lower, columns), k + 1) <= Known(Names(lower, columns), k) + 1
  }

  /** Every hop of a route is allowed exactly when the board steps on from every column between. */
  lemma WalkableExactly(lower: string -> string, columns: seq<string>, from: string, to: string)
    requires Route(lower, columns, Some(from), to) != []
    ensures var (here, there) := (Here(lower, columns, Some(from)).value, There(lower, columns, to).value);
            Walkable(lower, columns, from, to)
            <==> forall k :: here < k < there ==> StepsOn(lower, columns, k)
  {
    hide Normalised, FirstAt, Allowed, ReadsFirst, Known, Names, StepsOn;
    var here, there := Here(lower, columns, Some(from)).value, There(lower, columns, to).value;
    var stops := [from] + columns[here + 1..there] + [to];
    forall i | 0 <= i < |stops| - 1
      ensures Allowed(lower, columns, stops[i], stops[i + 1]) <==> i == 0 || StepsOn(lower, columns, here + i)
    {
      StopsAt(columns, from, to, here, there, i);
      HopExactly(lower, columns, from, to, here, there, i, stops[i], stops[i + 1]);
    }
    WalkableByHops(lower, columns, from, to, stops, here, there);
  }

  /** Where every column between has a name, that is when each is the first its name reads as: where two
      of them read alike, the rule's own advice runs into itself. */
  lemma WalkableWhereNamed(lower: string -> string, columns: seq<string>, from: string, to: string)
    requires Route(lower, columns, Some(from), to) != []
    requires forall c <- Route(lower, columns, Some(from), to) :: c != ""
    ensures var (here, there) := (Here(lower, columns, Some(from)).value, There(lower, columns, to).value);
            Walkable(lower, columns, from, to)
            <==> forall k :: here < k < there ==> ReadsFirst(Names(lower, columns), k)
  {
    hide Normalised, FirstAt, Allowed, ReadsFirst, Known, Names, Walkable;
    var names := Names(lower, columns);
    var here, there := Here(lower, columns, Some(from)).value, There(lower, columns, to).value;
    WalkableExactly(lower, columns, from, to);
    forall k | here < k < there
      ensures StepsOn(lower, columns, k) <==> Known(names, k + 1) <= Known(names, k) + 1
    {
      assert columns[k] == Route(lower, columns, Some(from), to)[k - here - 1];
      assert columns[k] in Route(lower, columns, Some(from), to);
    }
    LastIsFirst(lower, columns, to);
    StepsExactly(names, here, there);
  }

  lemma WalkableByHops(
    lower: string -> string, columns: seq<string>, from: string, to: string, stops: seq<string>, here: nat, there: nat)
    requires here < there < |columns| && |stops| == there - here + 1
    requires stops == [from] + Route(lower, columns, Some(from), to) + [to]
    requires forall i :: 0 <= i < |stops| - 1 ==>
               (Allowed(lower, columns, stops[i], stops[i + 1]) <==> i == 0 || StepsOn(lower, columns, here + i))
    ensures Walkable(lower, columns, from, to)
       <==> forall k :: here < k < there ==> StepsOn(lower, columns, k)
  {
    hide Normalised, FirstAt, Allowed, Known, Names, Route, StepsOn;
    if Walkable(lower, columns, from, to) {
      forall k | here < k < there ensures StepsOn(lower, columns, k) {
        assert Allowed(lower, columns, stops[k - here], stops[k - here + 1]);
      }
    }
  }

  lemma StopsAt(columns: seq<string>, from: string, to: string, here: nat, there: nat, i: nat)
    requires here < there < |columns| && i < there - here
    ensures var stops := [from] + columns[here + 1..there] + [to];
            && |stops| == there - here + 1
            && stops[i] == (if i == 0 then from else columns[here + i])
            && (i > 0 ==> stops[i] == columns[here + 1..there][i - 1])
            && stops[i + 1] == if here + 1 + i == there then to else columns[here + 1 + i]
  {
  }

  lemma LastIsFirst(lower: string -> string, columns: seq<string>, to: string)
    requires There(lower, columns, to).Some?
    ensures var there := There(lower, columns, to).value;
            ReadsFirst(Names(lower, columns), there) && Known(Names(lower, columns), there) == there
  {
    hide Normalised;
  }

  lemma HopExactly(
    lower: string -> string, columns: seq<string>, from: string, to: string, here: nat, there: nat, i: nat,
    a: string, b: string)
    requires Here(lower, columns, Some(from)) == Some(here) && There(lower, columns, to) == Some(there)
    requires here + 1 + i <= there && here + 1 < there
    requires if i == 0 then a == from else a == columns[here + i]
    requires if here + 1 + i == there then b == to else b == columns[here + 1 + i]
    ensures Allowed(lower, columns, a, b) <==> i == 0 || StepsOn(lower, columns, here + i)
  {
    hide Normalised, Allowed, FirstAt;
    var names := Names(lower, columns);
    AllowedIsOneStep(lower, columns, a, b);
    FirstAtOrBefore(names, here + i);
    FirstAtOrBefore(names, here + 1 + i);
    LastIsFirst(lower, columns, to);
  }

  /** So on a board whose columns all read differently, the advice can always be taken. */
  lemma DifferentColumnsAreWalkable(lower: string -> string, columns: seq<string>, from: string, to: string)
    requires AllDifferent(Names(lower, columns))
    ensures Walkable(lower, columns, from, to)
  {
    hide Normalised, FirstAt, Allowed;
    var names := Names(lower, columns);
    if Route(lower, columns, Some(from), to) == [] {
      assert [from] + [] + [to] == [from, to];
      AllowedIsOneStep(lower, columns, from, to);
      assert Allowed(lower, columns, from, to) by { NoRouteIsAllowed(lower, columns, from, to); }
    } else {
      var here, there := Here(lower, columns, Some(from)).value, There(lower, columns, to).value;
      var stops := [from] + columns[here + 1..there] + [to];
      forall i | 0 <= i < |stops| - 1 ensures Allowed(lower, columns, stops[i], stops[i + 1]) {
        StopsAt(columns, from, to, here, there, i);
        HopExactly(lower, columns, from, to, here, there, i, stops[i], stops[i + 1]);
        FirstAtOrBefore(names, here + i);
        FirstAtOrBefore(names, here + 1 + i);
      }
    }
  }

  lemma NoRouteIsAllowed(lower: string -> string, columns: seq<string>, from: string, to: string)
    requires Route(lower, columns, Some(from), to) == []
    ensures Allowed(lower, columns, from, to)
  {
  }

  const REPEATING: seq<string> := ["a", "b", "a", "c"]

  lemma RepeatingNames(lower: string -> string)
    requires lower("a") == "a" && lower("b") == "b" && lower("c") == "c"
    ensures Names(lower, REPEATING) == REPEATING
    ensures Normalised(lower, "a") == "a" && Normalised(lower, "c") == "c"
  {
    hide *;
    OneLetter(lower, 'a');
    OneLetter(lower, 'b');
    OneLetter(lower, 'c');
    RepeatingAt();
  }

  lemma RepeatingAt()
    ensures |REPEATING| == 4
    ensures REPEATING[0] == "a" && REPEATING[1] == "b" && REPEATING[2] == "a" && REPEATING[3] == "c"
    ensures REPEATING[1..3] == ["b", "a"]
  {
  }

  lemma FirstIs(names: seq<string>, name: string, k: nat)
    requires k < |names| && names[k] == name && forall i :: 0 <= i < k ==> names[i] != name
    ensures FirstAt(names, name) == Some(k)
  {
    hide *;
  }

  lemma RepeatingRoute(lower: string -> string)
    requires lower("a") == "a" && lower("b") == "b" && lower("c") == "c"
    ensures Here(lower, REPEATING, Some("a")) == Some(0) && There(lower, REPEATING, "c") == Some(3)
    ensures Route(lower, REPEATING, Some("a"), "c") == ["b", "a"]
  {
    hide *;
    RepeatingNames(lower);
    RepeatingAt();
    FirstIs(REPEATING, "a", 0);
    FirstIs(REPEATING, "c", 3);
    RouteIs(lower, REPEATING, "a", "c", 0, 3);
  }

  lemma RouteIs(lower: string -> string, columns: seq<string>, from: string, to: string, here: nat, there: nat)
    requires from != "" && here < there
    requires FirstAt(Names(lower, columns), Normalised(lower, from)) == Some(here)
    requires FirstAt(Names(lower, columns), Normalised(lower, to)) == Some(there)
    ensures Here(lower, columns, Some(from)) == Some(here) && There(lower, columns, to) == Some(there)
    ensures Route(lower, columns, Some(from), to) == columns[here + 1..there]
  {
    hide FirstAt, Normalised, Names;
  }

  lemma SameAsEarlier(names: seq<string>, j: nat, i: nat)
    requires j < i < |names| && names[j] == names[i]
    ensures !ReadsFirst(names, i)
  {
  }

  /** Where two columns between read alike, advice that cannot be taken: from `a` to `c` the way is said
      to lead by `b` and `a`, and from that `a` it is as far as before. */
  lemma AdviceThatCannotBeTaken(lower: string -> string)
    requires lower("a") == "a" && lower("b") == "b" && lower("c") == "c"
    ensures Route(lower, REPEATING, Some("a"), "c") == ["b", "a"]
    ensures !Walkable(lower, REPEATING, "a", "c")
  {
    hide *;
    RepeatingNames(lower);
    RepeatingRoute(lower);
    RepeatingAt();
    WalkableWhereNamed(lower, REPEATING, "a", "c");
    SameAsEarlier(REPEATING, 0, 2);
  }

  lemma OneLetter(lower: string -> string, c: char)
    requires lower([c]) == [c] && 'a' <= c <= 'c'
    ensures Normalised(lower, [c]) == [c]
  {
    assert !PythonSpace(c) && RunOf(Separator, [c], 0) == 0;
    assert [c][0..] == [c] && [c][1..] == [];
    assert DropFront(PythonSpace, [c]) == [c];
    assert Strip(PythonSpace, [c]) == [c];
    assert Collapsed([c]) == [c];
  }

  // ----- What a name reads as -----

  predicate Plain(c: char) { !Separator(c) }

  /** The stretches of a text no separator is in. */
  function Fields(s: string): seq<string>
    decreases |s|
  {
    if s == [] then []
    else
      var separators := RunOf(Separator, s, 0);
      if separators > 0 then Fields(s[separators..])
      else
        var plain := RunOf(Plain, s, 0);
        [s[..plain]] + Fields(s[plain..])
  }

  function Spaced(fields: seq<string>): string {
    if fields == [] then [] else if |fields| == 1 then fields[0] else fields[0] + " " + Spaced(fields[1..])
  }

  predicate OfFields(fields: seq<string>) {
    forall i :: 0 <= i < |fields| ==> fields[i] != [] && forall j :: 0 <= j < |fields[i]| ==> !Separator(fields[i][j])
  }

  lemma {:induction false} FieldsAreSolid(s: string)
    ensures OfFields(Fields(s))
    decreases |s|
  {
    hide Separator;
    if s != [] {
      var separators, plain := RunOf(Separator, s, 0), RunOf(Plain, s, 0);
      FieldsAreSolid(if separators > 0 then s[separators..] else s[plain..]);
    }
  }

  lemma {:induction false} CollapsedPlain(s: string, n: nat)
    requires n <= |s| && forall i :: 0 <= i < n ==> !Separator(s[i])
    ensures Collapsed(s) == s[..n] + Collapsed(s[n..])
    decreases n
  {
    if n > 0 {
      CollapsedPlain(s[1..], n - 1);
      assert s[1..][n - 1..] == s[n..];
      assert s[..n] == [s[0]] + s[1..][..n - 1];
    } else {
      assert s[..0] + Collapsed(s) == Collapsed(s) && s[0..] == s;
    }
  }

  /** Collapsed, a text is its fields with a space between, and one in front or behind where it had any. */
  predicate IsCollapsed(s: string, back: string) {
    && Collapsed(s) == (if s != [] && Separator(s[0]) then " " else "") + Spaced(Fields(s)) + back
    && (back == "" || (back == " " && Fields(s) != []))
  }

  lemma {:induction false} CollapsedIsFields(s: string) returns (back: string)
    ensures IsCollapsed(s, back)
    decreases |s|
  {
    hide Separator, Spaced, Fields, Collapsed;
    back := "";
    if s == [] {
      FieldsOfNothing();
      NothingSpaced();
    } else {
      var separators, plain := RunOf(Separator, s, 0), RunOf(Plain, s, 0);
      if separators > 0 {
        SeparatorsStep(s, separators);
        hide RunOf;
        back := CollapsedIsFields(s[separators..]);
        var said := Spaced(Fields(s));
        assert " " + ("" + said + back) == " " + said + back;
      } else {
        var behind := CollapsedIsFields(s[plain..]);
        back := FieldThenRest(s, plain, behind);
      }
    }
  }

  lemma SeparatorsStep(s: string, separators: nat)
    requires s != [] && separators == RunOf(Separator, s, 0) > 0
    ensures Fields(s) == Fields(s[separators..]) && Collapsed(s) == " " + Collapsed(s[separators..])
    ensures Separator(s[0]) && (s[separators..] != [] ==> !Separator(s[separators..][0]))
  {
    hide Separator;
  }

  lemma FieldStep(s: string, plain: nat)
    requires s != [] && !Separator(s[0]) && plain == RunOf(Plain, s, 0)
    ensures Fields(s) == [s[..plain]] + Fields(s[plain..]) && Collapsed(s) == s[..plain] + Collapsed(s[plain..])
    ensures s[plain..] != [] ==> Separator(s[plain..][0])
  {
    hide Separator;
    assert plain > 0 && RunOf(Separator, s, 0) == 0;
    assert forall i :: 0 <= i < plain ==> Plain(s[i]);
    assert plain < |s| ==> !Plain(s[plain]);
    CollapsedPlain(s, plain);
  }

  lemma SpacedStep(field: string, fields: seq<string>)
    ensures Spaced([field] + fields) == if fields == [] then field else field + " " + Spaced(fields)
  {
    assert ([field] + fields)[1..] == fields;
  }

  lemma FieldThenRest(s: string, plain: nat, behind: string) returns (back: string)
    requires s != [] && !Separator(s[0]) && plain == RunOf(Plain, s, 0) && IsCollapsed(s[plain..], behind)
    ensures IsCollapsed(s, back)
  {
    hide Separator, Spaced, Fields, Collapsed, RunOf;
    var field, rest := s[..plain], s[plain..];
    FieldStep(s, plain);
    var fields := Fields(rest);
    SpacedStep(field, fields);
    if fields == [] {
      back := Collapsed(rest);
      NothingSpaced();
      assert "" + field + back == field + back;
    } else {
      back := behind;
      FieldsOfNothing();
      assert field + (" " + Spaced(fields) + back) == "" + (field + " " + Spaced(fields)) + back;
    }
  }

  lemma NothingSpaced()
    ensures Spaced([]) == "" && forall a: string :: "" + "" + a == a
  {
  }

  lemma FieldsOfNothing()
    ensures Fields("") == [] && Collapsed("") == ""
  {
  }

  /** What is left of a column's name once its case is gone: its words, with one space between. */
  lemma NormalisedExactly(lower: string -> string, column: string)
    ensures Normalised(lower, column) == Spaced(Fields(lower(Strip(PythonSpace, column))))
  {
    hide Separator, PythonSpace, Fields, Strip;
    var s := lower(Strip(PythonSpace, column));
    var back := CollapsedIsFields(s);
    FieldsAreSolid(s);
    var front := if s != [] && Separator(s[0]) then " " else "";
    SpacedIsSolid(Fields(s));
    SpaceAroundIsStripped(front, Spaced(Fields(s)), back);
  }

  lemma SpacesAreSeparators()
    ensures PythonSpace(' ') && forall c :: PythonSpace(c) ==> Separator(c)
  {
  }

  lemma {:induction false} SpacedIsSolid(fields: seq<string>)
    requires OfFields(fields)
    ensures var s := Spaced(fields);
            && (fields == [] ==> s == [])
            && (fields != [] ==> s != [] && !Separator(s[0]) && !Separator(s[|s| - 1]))
  {
    hide Separator;
    if |fields| > 1 {
      SpacedIsSolid(fields[1..]);
    }
  }

  lemma SpaceAroundIsStripped(front: string, s: string, back: string)
    requires (front == "" || front == " ") && (back == "" || (back == " " && s != []))
    requires s != [] ==> !Separator(s[0]) && !Separator(s[|s| - 1])
    ensures Strip(PythonSpace, front + s + back) == s
  {
    SpacesAreSeparators();
    hide Separator, PythonSpace, Strip;
    var whole := front + s + back;
    var from, to := if s == [] then |whole| else |front|, |front| + |s|;
    assert whole[from..to] == s;
    assert s != [] ==> whole[from] == s[0] && whole[to - 1] == s[|s| - 1];
    StripExactly(PythonSpace, whole, from, to);
  }
}
