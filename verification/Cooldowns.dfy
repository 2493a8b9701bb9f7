/** One run at a time per key, and a wait after each one finishes: the record that forgets spent waits
    answers as one that forgets nothing. */
module Cooldowns {
  import opened Text

  /** Why a run may not start yet. */
  datatype NotYet = NotYet(running: bool, seconds: int)

  function Ceiling(x: real): (n: int)
    ensures n as real >= x && (n - 1) as real < x
  {
    if x.Floor as real == x then x.Floor else x.Floor + 1
  }

  // ----- Every finish remembered -----

  /** The runs under way, and when each key's last run finished. */
  datatype Record = Record(running: set<int>, finished: map<int, real>)

  const EMPTY: Record := Record({}, map[])

  datatype Call = Begin(key: int, now: real) | Finish(key: int, now: real)

  /** Whether a key's wait is still on. */
  predicate Waits(r: Record, spacing: real, key: int, now: real) {
    key in r.finished && now - r.finished[key] < spacing
  }

  /** What a call is answered: None for a run that begins, and for every finish. */
  function Answer(r: Record, spacing: real, call: Call): Option<NotYet> {
    if call.Finish? then None
    else if call.key in r.running then Some(NotYet(true, 0))
    else if Waits(r, spacing, call.key, call.now) then
      Some(NotYet(false, Ceiling(spacing - (call.now - r.finished[call.key]))))
    else None
  }

  function After(r: Record, spacing: real, call: Call): Record {
    match call
    case Begin(key, now) => if Answer(r, spacing, call) == None then r.(running := r.running + {key}) else r
    case Finish(key, now) => Record(r.running - {key}, r.finished[key := now])
  }

  function AfterAll(r: Record, spacing: real, calls: seq<Call>): Record
    decreases |calls|
  {
    if calls == [] then r else AfterAll(After(r, spacing, calls[0]), spacing, calls[1..])
  }

  function Answers(r: Record, spacing: real, calls: seq<Call>): (answers: seq<Option<NotYet>>)
    ensures |answers| == |calls|
    decreases |calls|
  {
    if calls == [] then []
    else [Answer(r, spacing, calls[0])] + Answers(After(r, spacing, calls[0]), spacing, calls[1..])
  }

  /** The clock never goes back. */
  predicate InTime(calls: seq<Call>, since: real)
    decreases |calls|
  {
    calls == [] || (since <= calls[0].now && InTime(calls[1..], calls[0].now))
  }

  // ----- Spent waits forgotten -----

  /** What `begin` keeps of the finishes. */
  function Unspent(finished: map<int, real>, spacing: real, now: real): map<int, real> {
    map key | key in finished && now - finished[key] < spacing :: finished[key]
  }

  function ForgetfulAfter(r: Record, spacing: real, call: Call): Record {
    match call
    case Begin(_, now) => After(r.(finished := Unspent(r.finished, spacing, now)), spacing, call)
    case Finish(_, _) => After(r, spacing, call)
  }

  function ForgetfulAnswers(r: Record, spacing: real, calls: seq<Call>): (answers: seq<Option<NotYet>>)
    ensures |answers| == |calls|
    decreases |calls|
  {
    if calls == [] then []
    else [Answer(r, spacing, calls[0])] + ForgetfulAnswers(ForgetfulAfter(r, spacing, calls[0]), spacing, calls[1..])
  }

  /** `r` holds of `whole` every wait not spent by `now`, and nothing else. */
  ghost predicate Keeps(r: Record, whole: Record, spacing: real, now: real) {
    && r.running == whole.running
    && (forall key :: key in r.finished ==> key in whole.finished && r.finished[key] == whole.finished[key])
    && (forall key :: Waits(whole, spacing, key, now) ==> key in r.finished)
  }

  lemma KeepsAfter(r: Record, whole: Record, spacing: real, since: real, call: Call)
    requires Keeps(r, whole, spacing, since) && since <= call.now
    ensures Answer(r, spacing, call) == Answer(whole, spacing, call)
    ensures Keeps(ForgetfulAfter(r, spacing, call), After(whole, spacing, call), spacing, call.now)
  {
    assert Waits(whole, spacing, call.key, call.now) ==> Waits(whole, spacing, call.key, since);
    forall key | Waits(After(whole, spacing, call), spacing, key, call.now)
      ensures key in ForgetfulAfter(r, spacing, call).finished
    {
      assert call.Begin? || key != call.key ==> Waits(whole, spacing, key, since);
    }
  }

  /** Every history of calls is answered alike, whatever was forgotten on the way. */
  lemma {:induction false} ForgettingChangesNoAnswer(
    r: Record, whole: Record, spacing: real, since: real, calls: seq<Call>)
    requires Keeps(r, whole, spacing, since) && InTime(calls, since)
    ensures ForgetfulAnswers(r, spacing, calls) == Answers(whole, spacing, calls)
    decreases |calls|
  {
    if calls != [] {
      KeepsAfter(r, whole, spacing, since, calls[0]);
      ForgettingChangesNoAnswer(
        ForgetfulAfter(r, spacing, calls[0]), After(whole, spacing, calls[0]), spacing, calls[0].now, calls[1..]);
    }
  }

  // ----- What the answers mean -----

  /** A run for a key is under way at `i`: one began before, and none has finished since. */
  predicate UnderWay(r: Record, spacing: real, calls: seq<Call>, i: nat, key: int)
    requires i <= |calls|
  {
    key in AfterAll(r, spacing, calls[..i]).running
  }

  lemma {:induction false} AfterPrefix(r: Record, spacing: real, calls: seq<Call>, i: nat)
    requires i < |calls|
    ensures Answers(r, spacing, calls)[i] == Answer(AfterAll(r, spacing, calls[..i]), spacing, calls[i])
    ensures AfterAll(r, spacing, calls[..i + 1]) == After(AfterAll(r, spacing, calls[..i]), spacing, calls[i])
    decreases |calls|
  {
    if i == 0 {
      assert calls[..1] == [calls[0]] && calls[..1][1..] == [] && calls[..0] == [];
    } else {
      var next := After(r, spacing, calls[0]);
      AfterPrefix(next, spacing, calls[1..], i - 1);
      assert calls[..i][1..] == calls[1..][..i - 1] && calls[..i + 1][1..] == calls[1..][..i];
    }
  }

  /** Whether a call at `i` began a run. */
  predicate Began(spacing: real, calls: seq<Call>, i: nat)
    requires i < |calls|
  {
    calls[i].Begin? && Answers(EMPTY, spacing, calls)[i] == None
  }

  lemma {:induction false} FinishIsRecorded(spacing: real, calls: seq<Call>, i: nat, j: nat)
    requires i < j <= |calls| && calls[i].Finish?
    requires forall k :: i < k < j ==> calls[k].Begin? || calls[k].key != calls[i].key
    ensures var r := AfterAll(EMPTY, spacing, calls[..j]);
            calls[i].key in r.finished && r.finished[calls[i].key] == calls[i].now
    decreases j
  {
    AfterPrefix(EMPTY, spacing, calls, j - 1);
    if j > i + 1 {
      FinishIsRecorded(spacing, calls, i, j - 1);
    }
  }

  lemma {:induction false} BeginIsUnderWay(spacing: real, calls: seq<Call>, i: nat, j: nat)
    requires i < j <= |calls| && Began(spacing, calls, i)
    requires forall k :: i < k < j ==> calls[k].Begin? || calls[k].key != calls[i].key
    ensures UnderWay(EMPTY, spacing, calls, j, calls[i].key)
    decreases j
  {
    AfterPrefix(EMPTY, spacing, calls, j - 1);
    if j > i + 1 {
      BeginIsUnderWay(spacing, calls, i, j - 1);
    }
  }

  /** One key never has two runs: between two that began, the first finished. */
  lemma OneRunAtATime(spacing: real, calls: seq<Call>, i: nat, j: nat)
    requires i < j < |calls| && Began(spacing, calls, i) && Began(spacing, calls, j) && calls[i].key == calls[j].key
    ensures exists k :: i < k < j && calls[k].Finish? && calls[k].key == calls[i].key
  {
    if forall k :: i < k < j ==> calls[k].Begin? || calls[k].key != calls[i].key {
      BeginIsUnderWay(spacing, calls, i, j);
      AfterPrefix(EMPTY, spacing, calls, j);
    }
  }

  lemma {:induction false} TimesAreInOrder(calls: seq<Call>, since: real, i: nat, j: nat)
    requires InTime(calls, since) && i <= j < |calls|
    ensures since <= calls[i].now <= calls[j].now
    decreases |calls|
  {
    if i > 0 {
      TimesAreInOrder(calls[1..], calls[0].now, i - 1, j - 1);
    } else if j > 0 {
      TimesAreInOrder(calls[1..], calls[0].now, 0, j - 1);
    }
  }

  /** A run begins no sooner than the spacing after its key last finished. */
  lemma RunsAreSpaced(spacing: real, calls: seq<Call>, since: real, i: nat, j: nat)
    requires InTime(calls, since) && i < j < |calls|
    requires calls[i].Finish? && Began(spacing, calls, j) && calls[i].key == calls[j].key
    ensures calls[j].now - calls[i].now >= spacing
  {
    var k := LastFinish(calls, i, j);
    FinishIsRecorded(spacing, calls, k, j);
    AfterPrefix(EMPTY, spacing, calls, j);
    TimesAreInOrder(calls, since, i, k);
  }

  lemma {:induction false} LastFinish(calls: seq<Call>, i: nat, j: nat) returns (k: nat)
    requires i < j <= |calls| && calls[i].Finish?
    ensures i <= k < j && calls[k].Finish? && calls[k].key == calls[i].key
    ensures forall l :: k < l < j ==> calls[l].Begin? || calls[l].key != calls[i].key
  {
    k := j - 1;
    while calls[k].Begin? || calls[k].key != calls[i].key
      decreases k
      invariant i <= k < j
      invariant forall l :: k < l < j ==> calls[l].Begin? || calls[l].key != calls[i].key
    {
      k := k - 1;
    }
  }

  /** A key is under way only by a run of it that began and has not finished. */
  lemma {:induction false} UnderWayBegan(spacing: real, calls: seq<Call>, j: nat, key: int) returns (i: nat)
    requires j <= |calls| && UnderWay(EMPTY, spacing, calls, j, key)
    ensures i < j && Began(spacing, calls, i) && calls[i].key == key
    ensures forall k :: i < k < j ==> calls[k].Begin? || calls[k].key != key
    decreases j
  {
    NothingAfterNothing(spacing, calls);
    AfterPrefix(EMPTY, spacing, calls, j - 1);
    if UnderWay(EMPTY, spacing, calls, j - 1, key) {
      i := UnderWayBegan(spacing, calls, j - 1, key);
    } else {
      i := j - 1;
    }
  }

  lemma NothingAfterNothing(spacing: real, calls: seq<Call>)
    ensures AfterAll(EMPTY, spacing, calls[..0]) == EMPTY
  {
  }

  /** And a finish is held only where there was one. */
  lemma {:induction false} HeldFinished(spacing: real, calls: seq<Call>, j: nat, key: int) returns (i: nat)
    requires j <= |calls| && key in AfterAll(EMPTY, spacing, calls[..j]).finished
    ensures i < j && calls[i] == Finish(key, AfterAll(EMPTY, spacing, calls[..j]).finished[key])
    decreases j
  {
    NothingAfterNothing(spacing, calls);
    AfterPrefix(EMPTY, spacing, calls, j - 1);
    if calls[j - 1].Finish? && calls[j - 1].key == key {
      i := j - 1;
    } else {
      i := HeldFinished(spacing, calls, j - 1, key);
    }
  }

  /** A run asked for begins if and only if every run of its key that began has finished since, and every
      finish of its key is at least the spacing ago. */
  lemma RunsBeginExactly(spacing: real, calls: seq<Call>, since: real, j: nat)
    requires InTime(calls, since) && j < |calls| && calls[j].Begin?
    ensures Began(spacing, calls, j)
            <==> && (forall i :: 0 <= i < j && Began(spacing, calls, i) && calls[i].key == calls[j].key ==>
                       exists k :: i < k < j && calls[k].Finish? && calls[k].key == calls[j].key)
                 && (forall i :: 0 <= i < j && calls[i].Finish? && calls[i].key == calls[j].key ==>
                       calls[j].now - calls[i].now >= spacing)
  {
    var key, r := calls[j].key, AfterAll(EMPTY, spacing, calls[..j]);
    AfterPrefix(EMPTY, spacing, calls, j);
    if Began(spacing, calls, j) {
      forall i | 0 <= i < j && Began(spacing, calls, i) && calls[i].key == key
        ensures exists k :: i < k < j && calls[k].Finish? && calls[k].key == key
      {
        OneRunAtATime(spacing, calls, i, j);
      }
      forall i | 0 <= i < j && calls[i].Finish? && calls[i].key == key ensures calls[j].now - calls[i].now >= spacing {
        RunsAreSpaced(spacing, calls, since, i, j);
      }
    } else if key in r.running {
      var i := UnderWayBegan(spacing, calls, j, key);
    } else {
      var i := HeldFinished(spacing, calls, j, key);
    }
  }

  /** A refusal changes nothing, whatever it is for. One for a run under way promises no wait; the wait
      the other promises is the least whole number of seconds after which the same call would begin,
      were nothing else asked. */
  lemma WaitsAreExact(r: Record, spacing: real, key: int, now: real, n: nat)
    requires Answer(r, spacing, Begin(key, now)).Some?
    ensures After(r, spacing, Begin(key, now)) == r
    ensures var answer := Answer(r, spacing, Begin(key, now)).value;
            && (answer.running <==> key in r.running)
            && (if answer.running then
                  answer.seconds == 0 && Answer(r, spacing, Begin(key, now + n as real)).Some?
                else
                  answer.seconds >= 1
                  && (Answer(r, spacing, Begin(key, now + n as real)) == None <==> n >= answer.seconds))
  {
    if key in r.running {
      return;
    }
    var left := spacing - (now - r.finished[key]);
    assert n as real >= left <==> n >= Ceiling(left);
  }

  // ----- The cooldown as it runs -----

  class Cooldown {
    const spacing: real
    var running: set<int>
    var finished: map<int, real>
    /** Everything that ever finished, and when the clock was last read. */
    ghost var whole: Record
    ghost var read: real

    ghost predicate Valid()
      reads this
    {
      Keeps(Record(running, finished), whole, spacing, read)
    }

    constructor (spacing: real, ghost since: real)
      ensures Valid() && this.spacing == spacing && whole == EMPTY && read == since
    {
      this.spacing := spacing;
      running, finished := {}, map[];
      whole, read := EMPTY, since;
    }

    /** Start a run for `key`, or say why not - as the record that forgets nothing would. */
    method BeginRun(key: int, now: real) returns (answer: Option<NotYet>)
      requires Valid() && read <= now
      modifies this
      ensures Valid() && read == now
      ensures answer == Answer(old(whole), spacing, Begin(key, now))
      ensures whole == After(old(whole), spacing, Begin(key, now))
    {
      KeepsAfter(Record(running, finished), whole, spacing, read, Begin(key, now));
      ghost var before := whole;
      whole, read := After(whole, spacing, Begin(key, now)), now;
      finished := map waiting | waiting in finished && now - finished[waiting] < spacing :: finished[waiting];
      if key in running {
        return Some(NotYet(true, 0));
      }
      if key in finished {
        return Some(NotYet(false, Ceiling(spacing - (now - finished[key]))));
      }
      running := running + {key};
      answer := None;
    }

    /** End the run for `key`, which starts its wait. */
    method FinishRun(key: int, now: real)
      requires Valid() && read <= now
      modifies this
      ensures Valid() && read == now
      ensures whole == After(old(whole), spacing, Finish(key, now))
    {
      KeepsAfter(Record(running, finished), whole, spacing, read, Finish(key, now));
      whole, read := After(whole, spacing, Finish(key, now)), now;
      running := running - {key};
      finished := finished[key := now];
    }
  }
}
