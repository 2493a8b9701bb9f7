/** What holds in every run of the token cache, whatever interleaves. */
module TokenTheorems {
  import opened Text
  import opened Tokens

  // ----- The directory -----

  lemma RememberKeepsIdsUnique(rows: Rows, account: string, row: Row)
    requires UniqueIds(rows)
    ensures UniqueIds(Remember(rows, account, row)) && UniqueIds(Forget(rows, row.id))
    ensures Lookup(Remember(rows, account, row), account)
         == if row.suspended then ASuspension else AnInstallation(row.id)
  {
  }

  // ----- The log -----

  lemma LogGrows(log: seq<Event>, event: Event)
    ensures var more := log + [event];
            && more[..|log|] == log
            && (forall id :: LastGiven(more, id)
                  == if event.MintAnswered? && event.installation == id
                     then (match event.reply
                           case Minted(_, expires) => Some(expires)
                           case Gone => None
                           case NotMinted => LastGiven(log, id))
                     else LastGiven(log, id))
            && (forall id :: Unanswered(more, id)
                  <==> if event.MintSent? && event.installation == id then true
                       else if event.MintAnswered? && event.installation == id then false
                       else Unanswered(log, id))
            && (forall c :: ListsBy(more, c) == ListsBy(log, c) + if event == ListSent(c) then 1 else 0)
  {
    assert (log + [event])[..|log|] == log;
  }

  lemma CausesGrow(log: seq<Event>, event: Event)
    requires MintsWithCause(log)
    requires event.MintSent? ==>
               && !Unanswered(log, event.installation)
               && (LastGiven(log, event.installation).Some?
                   ==> !StillGood(LastGiven(log, event.installation).value, event.at))
    ensures MintsWithCause(log + [event])
  {
    hide LastGiven, Unanswered;
    var more := log + [event];
    forall k | 0 <= k < |more| && more[k].MintSent?
      ensures !Unanswered(more[..k], more[k].installation)
      ensures LastGiven(more[..k], more[k].installation).Some?
              ==> !StillGood(LastGiven(more[..k], more[k].installation).value, more[k].at)
    {
      assert more[..k] == log[..k];
      if k == |log| {
        assert log[..k] == log;
      }
    }
  }

  // ----- One step -----

  lemma StepKeepsIdsUnique(s: State, a: Action)
    requires Inv(s) && Enabled(s, a)
    ensures UniqueIds(Apply(s, a).rows)
  {
    hide LocksAreHeld, CacheIsTheLog, WalksAreShort;
    if a.DirectoryWrites? {
      match s.calls[a.call]
      case Remembering(account, row) => RememberKeepsIdsUnique(s.rows, account, row);
      case Forgetting(account, id) => RememberKeepsIdsUnique(s.rows, account, Row(id, false));
    }
  }

  /** The call a step moves; a webhook and the clock move none. */
  predicate Moves(a: Action) { !a.Webhook? && !a.Clock? }

  /** Who holds the discovery lock once `c` is at `to`. */
  function DiscoveryAfter(s: State, c: nat, to: Call): Option<nat> {
    if to.Discovering() then Some(c)
    else if c in s.calls && s.calls[c].Discovering() then None
    else s.discovery
  }

  /** And which installations are locked. */
  function LocksAfter(s: State, c: nat, to: Call): map<int, nat> {
    if to.Minting() then if to.id in s.locks then s.locks else s.locks[to.id := c]
    else if c in s.calls && s.calls[c].Minting() then s.locks - {s.calls[c].id}
    else s.locks
  }

  /** A call that takes a lock finds it free, and one that keeps it keeps the same. */
  predicate MayMove(s: State, c: nat, to: Call) {
    && (to.Discovering() ==> s.discovery == Some(c) || s.discovery == None)
    && (to.Minting() ==>
          if c in s.calls && s.calls[c].Minting() then to.id == s.calls[c].id else to.id !in s.locks)
    && (to.Posting? ==> !(c in s.calls && s.calls[c].Minting()))
    && !(to.Discovering() && c in s.calls && s.calls[c].Minting())
    && !(to.Minting() && c in s.calls && s.calls[c].Discovering())
  }

  /** The locks `c` itself holds where it stands. */
  predicate HoldsItsLocks(s: State, c: nat) {
    c in s.calls ==>
      && (s.calls[c].Discovering() ==> s.discovery == Some(c))
      && (s.calls[c].Minting() ==> s.calls[c].id in s.locks && s.locks[s.calls[c].id] == c)
  }

  /** `t` is `s` with `c` moved to where it stands in `t`, and its locks with it. */
  predicate IsAMove(s: State, c: nat, t: State) {
    && c in t.calls && t.calls == s.calls[c := t.calls[c]]
    && MayMove(s, c, t.calls[c])
    && t.discovery == DiscoveryAfter(s, c, t.calls[c])
    && t.locks == LocksAfter(s, c, t.calls[c])
  }

  /** Where a call goes that has its answer: on to a lock or a page, or to its end. */
  predicate GoesOn(s: State, c: nat, t: State)
    requires c in s.calls
  {
    && c in t.calls && t.calls == s.calls[c := t.calls[c]] && t.minted == s.minted
    && var (from, to) := (s.calls[c], t.calls[c]);
       && (to.Done? || to.QueuedToMint? || (to.QueuedToDiscover? && from.Told?) || (to.Walking? && from.Rechecked? && to.sent == 1))
       && t.discovery == (if from.Discovering() && !to.Walking? then None else s.discovery)
       && t.locks == (if from.Forgotten? then s.locks - {from.id} else s.locks)
       && t.log == (if to.Walking? then s.log + [ListSent(c)] else s.log)
  }

  lemma InHandGoesOn(s: State, c: nat, account: string, id: int)
    ensures InHand(s, c, account, id) == Moved(s, c, InHand(s, c, account, id).calls[c])
    ensures var to := InHand(s, c, account, id).calls[c]; to.Done? || to.QueuedToMint?
  {
    hide Fresh;
  }

  lemma ResumeGoesOn(s: State, c: nat)
    requires Enabled(s, Resume(c))
    ensures GoesOn(s, c, Resumed(s, c))
  {
    hide InHand;
    match s.calls[c]
    case Told(account, AnInstallation(id)) => InHandGoesOn(s, c, account, id);
    case Rechecked(account, AnInstallation(id)) => InHandGoesOn(s, c, account, id);
    case Remembered(account, row) => InHandGoesOn(s, c, account, row.id);
    case _ =>
  }

  lemma ResumeIsAMove(s: State, c: nat)
    requires HoldsItsLocks(s, c) && Enabled(s, Resume(c))
    ensures IsAMove(s, c, Resumed(s, c))
  {
    ResumeGoesOn(s, c);
    hide Resumed;
  }

  lemma PageIsAMove(s: State, c: nat, page: ListReply)
    requires HoldsItsLocks(s, c) && Enabled(s, ListAnswers(c, page))
    ensures IsAMove(s, c, Paged(s, c, page))
  {
    hide Covering;
  }

  lemma MintIsAMove(s: State, c: nat, reply: MintReply)
    requires HoldsItsLocks(s, c) && Enabled(s, MintAnswers(c, reply))
    ensures IsAMove(s, c, Posted(s, c, reply))
  {
  }

  lemma FailIsAMove(s: State, c: nat)
    requires HoldsItsLocks(s, c) && Enabled(s, Fail(c))
    ensures IsAMove(s, c, Apply(s, Fail(c)))
  {
  }

  lemma StepIsAMove(s: State, a: Action)
    requires LocksAreHeld(s) && Enabled(s, a) && Moves(a)
    ensures IsAMove(s, a.call, Apply(s, a))
  {
    assert HoldsItsLocks(s, a.call);
    hide LocksAreHeld, Resumed, Paged, Posted, Fresh, Remember, Forget, Lookup;
    match a
    case Resume(c) => ResumeIsAMove(s, c);
    case ListAnswers(c, page) => PageIsAMove(s, c, page);
    case MintAnswers(c, reply) => MintIsAMove(s, c, reply);
    case Fail(c) => FailIsAMove(s, c);
    case _ =>
  }

  lemma StillIsNoMove(s: State, a: Action)
    requires Enabled(s, a) && !Moves(a)
    ensures var t := Apply(s, a);
            t.calls == s.calls && t.discovery == s.discovery && t.locks == s.locks && t.minted == s.minted && t.log == s.log
  {
  }

  lemma MoveKeepsLocks(s: State, c: nat, to: Call, t: State)
    requires LocksAreHeld(s) && MayMove(s, c, to)
    requires t.calls == s.calls[c := to]
    requires t.discovery == DiscoveryAfter(s, c, to) && t.locks == LocksAfter(s, c, to)
    ensures LocksAreHeld(t)
  {
  }

  lemma StepKeepsLocks(s: State, a: Action)
    requires Inv(s) && Enabled(s, a)
    ensures LocksAreHeld(Apply(s, a))
  {
    hide CacheIsTheLog, WalksAreShort, UniqueIds, Apply, Enabled, MayMove, DiscoveryAfter, LocksAfter, LocksAreHeld;
    if Moves(a) {
      StepIsAMove(s, a);
      MoveKeepsLocks(s, a.call, Apply(s, a).calls[a.call], Apply(s, a));
    } else {
      StillIsNoMove(s, a);
      SameLocks(s, Apply(s, a));
    }
  }

  lemma SameLocks(s: State, t: State)
    requires LocksAreHeld(s) && t.calls == s.calls && t.discovery == s.discovery && t.locks == s.locks
    ensures LocksAreHeld(t)
  {
  }

  lemma MoveWaits(s: State, c: nat, to: Call, t: State, id: int)
    requires LocksAreHeld(s) && MayMove(s, c, to)
    requires t.calls == s.calls[c := to] && t.locks == LocksAfter(s, c, to)
    ensures Waiting(t, id)
       <==> if to.Posting? && to.id == id then true
            else if c in s.calls && s.calls[c].Minting() && s.calls[c].id == id then false
            else Waiting(s, id)
  {
  }

  /** What moving `c` from `s` to `t` writes to the log and to the cache. */
  ghost predicate Logged(s: State, c: nat, t: State) {
    && c in t.calls
    && var (to, left) := (t.calls[c], c in s.calls && s.calls[c].Posting?);
       && (to.Posting? ==> !left && t.log == s.log + [MintSent(c, to.id, s.now)] && !Fresh(s, to.id))
       && (left ==> exists reply ::
             && t.log == s.log + [MintAnswered(s.calls[c].id, reply)]
             && t.minted == Stored(s.minted, s.calls[c].id, reply))
       && (!left ==> t.minted == s.minted)
       && (!left && !to.Posting? ==> t.log == s.log || t.log == s.log + [ListSent(c)])
  }

  lemma ResumeIsLogged(s: State, c: nat)
    requires Enabled(s, Resume(c))
    ensures Logged(s, c, Resumed(s, c))
  {
    ResumeGoesOn(s, c);
    hide Resumed, Fresh, Stored;
  }

  lemma PageIsLogged(s: State, c: nat, page: ListReply)
    requires Enabled(s, ListAnswers(c, page))
    ensures Logged(s, c, Paged(s, c, page))
  {
    hide Covering, Fresh;
  }

  lemma StepIsLogged(s: State, a: Action)
    requires Enabled(s, a) && Moves(a)
    ensures Logged(s, a.call, Apply(s, a))
  {
    hide Covering, Lookup, Remember, Forget, Fresh, Resumed, Paged;
    match a
    case Resume(c) => ResumeIsLogged(s, c);
    case ListAnswers(c, page) => PageIsLogged(s, c, page);
    case MintAnswers(c, reply) =>
      assert Apply(s, a).log == s.log + [MintAnswered(s.calls[c].id, reply)];
    case Fail(c) =>
      assert s.calls[c].Posting? ==> Apply(s, a).log == s.log + [MintAnswered(s.calls[c].id, NotMinted)];
    case _ =>
  }

  /** The cache after an answer. */
  function Stored(minted: map<int, Cached>, id: int, reply: MintReply): map<int, Cached> {
    match reply
    case Gone => minted - {id}
    case NotMinted => minted
    case Minted(token, expires) => minted[id := Cached(token, expires)]
  }

  lemma StepKeepsCache(s: State, a: Action)
    requires Inv(s) && Enabled(s, a)
    ensures CacheIsTheLog(Apply(s, a))
  {
    hide WalksAreShort, UniqueIds, Apply, Enabled, MayMove, LocksAfter, DiscoveryAfter, LastGiven, Unanswered, MintsWithCause;
    var t := Apply(s, a);
    if Moves(a) {
      StepIsAMove(s, a);
      StepIsLogged(s, a);
      var c, to := a.call, t.calls[a.call];
      forall id ensures Waiting(t, id)
                   <==> if to.Posting? && to.id == id then true
                        else if c in s.calls && s.calls[c].Minting() && s.calls[c].id == id then false
                        else Waiting(s, id) {
        MoveWaits(s, c, to, t, id);
      }
      CacheFollows(s, c, to, t);
    } else {
      StillIsNoMove(s, a);
    }
  }

  lemma CacheFollows(s: State, c: nat, to: Call, t: State)
    requires LocksAreHeld(s) && CacheIsTheLog(s)
    requires forall id :: Waiting(t, id)
                     <==> if to.Posting? && to.id == id then true
                          else if c in s.calls && s.calls[c].Minting() && s.calls[c].id == id then false
                          else Waiting(s, id)
    requires MayMove(s, c, to) && Logged(s, c, t) && t.calls[c] == to
    ensures CacheIsTheLog(t)
  {
    hide LastGiven, Unanswered, MintsWithCause;
    if to.Posting? {
      LogGrows(s.log, MintSent(c, to.id, s.now));
      assert !Waiting(s, to.id);
      CausesGrow(s.log, MintSent(c, to.id, s.now));
      assert forall i :: Unanswered(t.log, i) <==> Waiting(t, i);
    } else if c in s.calls && s.calls[c].Posting? {
      var id := s.calls[c].id;
      var reply :| t.log == s.log + [MintAnswered(id, reply)] && t.minted == Stored(s.minted, id, reply);
      LogGrows(s.log, MintAnswered(id, reply));
      CausesGrow(s.log, MintAnswered(id, reply));
      assert forall i :: LastGiven(t.log, i) == if i in t.minted then Some(t.minted[i].expires) else None;
      assert forall i :: Unanswered(t.log, i) <==> Waiting(t, i);
    } else {
      assert forall id :: Waiting(t, id) <==> Waiting(s, id);
      assert t.minted == s.minted;
      if t.log != s.log {
        LogGrows(s.log, ListSent(c));
        CausesGrow(s.log, ListSent(c));
      }
      assert forall id :: Unanswered(t.log, id) <==> Waiting(t, id);
    }
  }

  /** A call that has asked GitHub for no page yet. */
  predicate NotWalking(s: State, c: nat) {
    c !in s.calls || s.calls[c].Asking? || s.calls[c].Told? || s.calls[c].QueuedToDiscover?
    || s.calls[c].Rechecking? || s.calls[c].Rechecked?
  }

  /** From `s` to `t` the call `c` asked for its next page, its first if it had asked for none, or for
      none at all. */
  ghost predicate OnePage(s: State, c: nat, t: State) {
    && c in t.calls && t.calls == s.calls[c := t.calls[c]]
    && (if t.calls[c].Walking? then
          && t.log == s.log + [ListSent(c)]
          && (if c in s.calls && s.calls[c].Walking?
              then s.calls[c].sent < MAX_INSTALLATION_PAGES && t.calls[c].sent == s.calls[c].sent + 1
              else t.calls[c].sent == 1 && NotWalking(s, c))
        else
          && (t.log == s.log || exists event: Event :: !event.ListSent? && t.log == s.log + [event])
          && (NotWalking(t, c) ==> NotWalking(s, c)))
  }

  lemma ResumeIsOnePage(s: State, c: nat)
    requires Enabled(s, Resume(c))
    ensures OnePage(s, c, Resumed(s, c))
  {
    ResumeGoesOn(s, c);
    hide Resumed;
  }

  lemma PageIsOnePage(s: State, c: nat, page: ListReply)
    requires Enabled(s, ListAnswers(c, page))
    ensures OnePage(s, c, Paged(s, c, page))
  {
    hide Covering;
  }

  lemma MintIsOnePage(s: State, c: nat, reply: MintReply)
    requires Enabled(s, MintAnswers(c, reply))
    ensures OnePage(s, c, Posted(s, c, reply))
  {
    assert Posted(s, c, reply).log == s.log + [MintAnswered(s.calls[c].id, reply)];
  }

  lemma FailIsOnePage(s: State, c: nat)
    requires Enabled(s, Fail(c))
    ensures OnePage(s, c, Apply(s, Fail(c)))
  {
    var t := Apply(s, Fail(c));
    assert t.log != s.log ==> t.log == s.log + [MintAnswered(s.calls[c].id, NotMinted)];
  }

  lemma StepIsOnePage(s: State, a: Action)
    requires Enabled(s, a) && Moves(a)
    ensures OnePage(s, a.call, Apply(s, a))
  {
    hide Covering, Lookup, Remember, Forget, Fresh, Resumed, Paged, Posted;
    match a
    case Resume(c) => ResumeIsOnePage(s, c);
    case ListAnswers(c, page) => PageIsOnePage(s, c, page);
    case TakeLock(c) =>
      assert Apply(s, a).log != s.log ==> Apply(s, a).log == s.log + [MintSent(c, s.calls[c].id, s.now)];
    case MintAnswers(c, reply) => MintIsOnePage(s, c, reply);
    case Fail(c) => FailIsOnePage(s, c);
    case _ =>
  }

  lemma StepKeepsWalks(s: State, a: Action)
    requires Inv(s) && Enabled(s, a)
    ensures WalksAreShort(Apply(s, a))
  {
    hide CacheIsTheLog, LocksAreHeld, UniqueIds, Apply, Enabled, ListsBy;
    var t := Apply(s, a);
    if Moves(a) {
      StepIsOnePage(s, a);
      if t.log == s.log + [ListSent(a.call)] {
        LogGrows(s.log, ListSent(a.call));
      }
      if t.log != s.log && !t.calls[a.call].Walking? {
        var event: Event :| !event.ListSent? && t.log == s.log + [event];
        LogGrows(s.log, event);
      }
    } else {
      StillIsNoMove(s, a);
    }
  }

  lemma StepKeepsInv(s: State, a: Action)
    requires Inv(s) && Enabled(s, a)
    ensures Inv(Apply(s, a))
  {
    hide CacheIsTheLog, LocksAreHeld, UniqueIds, WalksAreShort, Apply, Enabled;
    StepKeepsIdsUnique(s, a);
    StepKeepsLocks(s, a);
    StepKeepsCache(s, a);
    StepKeepsWalks(s, a);
  }

  lemma {:induction false} RunKeepsInv(s: State, actions: seq<Action>)
    requires Inv(s) && Run(s, actions)
    ensures Inv(After(s, actions))
    decreases |actions|
  {
    hide Inv, Apply, Enabled;
    if actions != [] {
      StepKeepsInv(s, actions[0]);
      RunKeepsInv(Apply(s, actions[0]), actions[1..]);
    }
  }

  // ----- Over every run -----

  lemma StartIsSound()
    ensures Inv(START)
  {
  }

  /** However calls interleave: two mints for one installation never overlap; none is sent while the
      token last given for it has more than five minutes left; what is cached is what was last given;
      at most one walk is under way; and no call ever asks for more than ten pages. */
  lemma EveryRun(actions: seq<Action>)
    requires Run(START, actions)
    ensures var s := After(START, actions);
            && MintsWithCause(s.log)
            && (forall id :: LastGiven(s.log, id) == if id in s.minted then Some(s.minted[id].expires) else None)
            && (forall c, d | c in s.calls && d in s.calls && s.calls[c].Minting() && s.calls[d].Minting() ::
                  s.calls[c].id == s.calls[d].id ==> c == d)
            && (forall c, d | c in s.calls && d in s.calls && s.calls[c].Discovering() && s.calls[d].Discovering() ::
                  c == d)
            && (forall c: nat :: ListsBy(s.log, c) <= 10)
            && UniqueIds(s.rows)
  {
    StartIsSound();
    RunKeepsInv(START, actions);
  }

  /** The cached token of an installation changes only by the answer to a mint, under its lock. */
  lemma WrittenUnderItsLock(s: State, a: Action, id: int)
    requires Inv(s) && Enabled(s, a)
    requires var t := Apply(s, a); (id in t.minted) != (id in s.minted) || (id in s.minted && t.minted[id] != s.minted[id])
    ensures a.MintAnswers? && id in s.locks && s.locks[id] == a.call && s.calls[a.call].Posting? && s.calls[a.call].id == id
  {
    hide CacheIsTheLog, WalksAreShort, UniqueIds, Covering, Lookup, Remember, Forget, Fresh, Resumed, Paged;
    if Moves(a) {
      StepIsLogged(s, a);
    } else {
      StillIsNoMove(s, a);
    }
  }

  // ----- What the directory holds, and who asks GitHub -----

  /** The directory answers `says` for the account in every state of the run. */
  predicate Steady(s: State, actions: seq<Action>, account: string, says: Says)
    requires Run(s, actions)
    decreases |actions|
  {
    && Lookup(s.rows, account) == says
    && (actions != [] ==> Steady(Apply(s, actions[0]), actions[1..], account, says))
  }

  /** Nothing `c` sent between the two. */
  predicate Silent(before: seq<Event>, after: seq<Event>, c: nat) {
    && before <= after
    && forall k :: |before| <= k < |after| ==> after[k] != ListSent(c) && !(after[k].MintSent? && after[k].call == c)
  }

  /** No list `c` asked for between the two, and no mint but for `id`. */
  predicate OnlyMints(before: seq<Event>, after: seq<Event>, c: nat, id: int) {
    && before <= after
    && forall k :: |before| <= k < |after| ==>
         && after[k] != ListSent(c)
         && (after[k].MintSent? && after[k].call == c ==> after[k].installation == id)
  }

  /** A call from which GitHub can still be asked something, though its account be suspended: it was told
      of an installation, or of nothing under the discovery lock, before the suspension was written. */
  predicate MaySend(call: Call) {
    match call
    case Told(_, says) => says.AnInstallation?
    case Rechecked(_, says) => !says.ASuspension?
    case Walking(_, sent) => sent < MAX_INSTALLATION_PAGES
    case Remembered(_, row) => !row.suspended
    case QueuedToMint(_, _) => true
    case _ => false
  }

  /** A call for the account that has nothing in hand: it has not read the map, or was told of nothing
      and will read it again, or was told of the suspension. */
  predicate TurnedAway(call: Call, account: string) {
    && call.account == account && !MaySend(call) && !call.Minting()
    && (call.Done? ==> !call.outcome.Token?)
  }

  /** A step leaves every other call where it is, and sends nothing in its name. */
  lemma OthersStep(s: State, a: Action, c: nat)
    requires Enabled(s, a) && c in s.calls && (Moves(a) ==> a.call != c)
    ensures var t := Apply(s, a); c in t.calls && t.calls[c] == s.calls[c] && Silent(s.log, t.log, c)
  {
    hide Apply, Enabled, NotWalking, Stored, Fresh;
    if Moves(a) {
      StepIsOnePage(s, a);
      StepIsLogged(s, a);
      var t := Apply(s, a);
      assert t.log == s.log || t.log == s.log + [t.log[|s.log|]];
      assert t.log != s.log && t.log[|s.log|].MintSent? ==> t.log[|s.log|].call == a.call;
    } else {
      StillIsNoMove(s, a);
    }
  }

  /** Where a step of its own leaves a call that may send nothing: nothing is sent, and nothing gained. */
  ghost predicate StaysQuiet(s: State, t: State, c: nat, account: string)
    requires c in s.calls
  {
    && c in t.calls && t.calls[c].account == account && !MaySend(t.calls[c])
    && (t.log == s.log || exists id, reply :: t.log == s.log + [MintAnswered(id, reply)])
    && (TurnedAway(s.calls[c], account) ==> TurnedAway(t.calls[c], account))
  }

  lemma QuietResume(s: State, c: nat, account: string)
    requires Enabled(s, Resume(c)) && s.calls[c].account == account && !MaySend(s.calls[c])
    ensures StaysQuiet(s, Resumed(s, c), c, account)
  {
    hide InHand;
  }

  lemma QuietPage(s: State, c: nat, account: string, page: ListReply)
    requires Enabled(s, ListAnswers(c, page)) && s.calls[c].account == account && !MaySend(s.calls[c])
    ensures StaysQuiet(s, Paged(s, c, page), c, account)
  {
    hide Covering;
  }

  lemma QuietAnswer(s: State, c: nat, account: string, reply: MintReply)
    requires Enabled(s, MintAnswers(c, reply)) && s.calls[c].account == account && !MaySend(s.calls[c])
    ensures StaysQuiet(s, Posted(s, c, reply), c, account)
  {
    assert Posted(s, c, reply).log == s.log + [MintAnswered(s.calls[c].id, reply)];
  }

  lemma QuietOwnStep(s: State, a: Action, c: nat, account: string)
    requires Enabled(s, a) && Moves(a) && a.call == c
    requires Lookup(s.rows, account) == ASuspension && Lookup(Apply(s, a).rows, account) == ASuspension
    requires c in s.calls && s.calls[c].account == account && !MaySend(s.calls[c])
    ensures StaysQuiet(s, Apply(s, a), c, account)
  {
    hide UniqueIds, Covering, Fresh, Resumed, Paged, Posted;
    match a
    case Resume(_) => QuietResume(s, c, account);
    case ListAnswers(_, page) => QuietPage(s, c, account, page);
    case MintAnswers(_, reply) => QuietAnswer(s, c, account, reply);
    case Fail(_) =>
      assert s.calls[c].Posting? ==> Apply(s, a).log == s.log + [MintAnswered(s.calls[c].id, NotMinted)];
    case _ =>
  }

  lemma QuietStep(s: State, a: Action, c: nat, account: string)
    requires Enabled(s, a) && Lookup(s.rows, account) == ASuspension
    requires Lookup(Apply(s, a).rows, account) == ASuspension
    requires c in s.calls && s.calls[c].account == account && !MaySend(s.calls[c])
    ensures var t := Apply(s, a);
            && c in t.calls && t.calls[c].account == account && !MaySend(t.calls[c])
            && Silent(s.log, t.log, c)
            && (TurnedAway(s.calls[c], account) ==> TurnedAway(t.calls[c], account))
  {
    hide Apply, Enabled, MaySend, Lookup;
    if Moves(a) && a.call == c {
      QuietOwnStep(s, a, c, account);
    } else {
      OthersStep(s, a, c);
    }
  }

  /** While the directory holds a suspension, no call for that account sends GitHub anything but one past
      its read; and one that has nothing in hand yet comes back with no token. */
  lemma {:induction false} NothingSentWhileSuspended(s: State, actions: seq<Action>, c: nat, account: string)
    requires Run(s, actions) && Steady(s, actions, account, ASuspension)
    requires c in s.calls && s.calls[c].account == account && !MaySend(s.calls[c])
    ensures var t := After(s, actions);
            && c in t.calls && t.calls[c].account == account && !MaySend(t.calls[c])
            && Silent(s.log, t.log, c)
            && (TurnedAway(s.calls[c], account) ==> TurnedAway(t.calls[c], account))
    decreases |actions|
  {
    hide Apply, Enabled, MaySend, TurnedAway, Lookup;
    if actions != [] {
      var next := Apply(s, actions[0]);
      assert Lookup(next.rows, account) == ASuspension;
      QuietStep(s, actions[0], c, account);
      NothingSentWhileSuspended(next, actions[1..], c, account);
    }
  }

  /** Something `c` sent between the two. */
  predicate Sent(before: seq<Event>, after: seq<Event>, c: nat) {
    exists k :: |before| <= k < |after| && (after[k] == ListSent(c) || (after[k].MintSent? && after[k].call == c))
  }

  /** In some run through which the account stays suspended, `c` sends GitHub something. */
  ghost predicate StillSends(s: State, c: nat, account: string) {
    exists actions :: Run(s, actions) && Steady(s, actions, account, ASuspension) && Sent(s.log, After(s, actions).log, c)
  }

  lemma SendsAtOnce(s: State, a: Action, c: nat, account: string)
    requires Enabled(s, a) && Lookup(s.rows, account) == ASuspension && Apply(s, a).rows == s.rows
    requires Sent(s.log, Apply(s, a).log, c)
    ensures StillSends(s, c, account)
  {
    hide Apply, Enabled, Lookup, Sent;
    assert [a][1..] == [];
    assert Run(s, [a]) && After(s, [a]) == Apply(s, a);
    assert Steady(Apply(s, a), [], account, ASuspension);
    assert Steady(s, [a], account, ASuspension);
  }

  lemma SendsLater(s: State, a: Action, c: nat, account: string)
    requires Enabled(s, a) && Lookup(s.rows, account) == ASuspension && |s.log| <= |Apply(s, a).log|
    requires StillSends(Apply(s, a), c, account)
    ensures StillSends(s, c, account)
  {
    hide Apply, Enabled, Lookup;
    var t := Apply(s, a);
    var rest :| Run(t, rest) && Steady(t, rest, account, ASuspension) && Sent(t.log, After(t, rest).log, c);
    RunStep(s, a, rest);
    assert ([a] + rest)[1..] == rest;
    assert Steady(s, [a] + rest, account, ASuspension);
  }

  lemma SendsFromTheQueue(s: State, c: nat, account: string)
    requires c in s.calls && s.calls[c].QueuedToMint? && s.calls[c].account == account
    requires s.calls[c].id !in s.locks && !Fresh(s, s.calls[c].id) && Lookup(s.rows, account) == ASuspension
    ensures StillSends(s, c, account)
  {
    hide Fresh, Lookup;
    var t := Apply(s, TakeLock(c));
    assert t.log[|s.log|] == MintSent(c, s.calls[c].id, s.now);
    SendsAtOnce(s, TakeLock(c), c, account);
  }

  /** The installation a call has in hand. */
  function InItsHand(call: Call): Option<int> {
    match call
    case Told(_, AnInstallation(id)) => Some(id)
    case Rechecked(_, AnInstallation(id)) => Some(id)
    case Remembered(_, row) => if row.suspended then None else Some(row.id)
    case QueuedToMint(_, id) => Some(id)
    case _ => None
  }

  lemma SendsOnceUnlocked(s: State, c: nat, account: string)
    requires c in s.calls && s.calls[c].account == account && Lookup(s.rows, account) == ASuspension
    requires var id := InItsHand(s.calls[c]); id.Some? && id.value !in s.locks && !Fresh(s, id.value)
    ensures StillSends(s, c, account)
  {
    hide Fresh, Lookup;
    if s.calls[c].QueuedToMint? {
      SendsFromTheQueue(s, c, account);
    } else {
      var t := Apply(s, Resume(c));
      assert t.calls[c] == QueuedToMint(account, InItsHand(s.calls[c]).value) && t.rows == s.rows && t.log == s.log;
      assert t.minted == s.minted && t.now == s.now && t.locks == s.locks;
      FreshAlike(s, t, t.calls[c].id);
      SendsFromTheQueue(t, c, account);
      SendsLater(s, Resume(c), c, account);
    }
  }

  lemma FreshAlike(s: State, t: State, id: int)
    requires s.minted == t.minted && s.now == t.now
    ensures Fresh(s, id) == Fresh(t, id)
  {
  }

  /** A mint under way for what the call has in hand may fail, which frees the lock it holds. */
  lemma SendsOnceStale(s: State, c: nat, account: string)
    requires LocksAreHeld(s) && c in s.calls && s.calls[c].account == account && Lookup(s.rows, account) == ASuspension
    requires var id := InItsHand(s.calls[c]); id.Some? && !Fresh(s, id.value)
    ensures StillSends(s, c, account)
  {
    hide Fresh, Lookup;
    var id := InItsHand(s.calls[c]).value;
    if id in s.locks {
      var holder := s.locks[id];
      var t := Apply(s, Fail(holder));
      assert holder in s.calls && s.calls[holder].Minting() && holder != c;
      assert t.calls[c] == s.calls[c] && t.rows == s.rows && id !in t.locks;
      FreshAlike(s, t, id);
      SendsOnceUnlocked(t, c, account);
      SendsLater(s, Fail(holder), c, account);
    } else {
      SendsOnceUnlocked(s, c, account);
    }
  }

  lemma SendsOnceGrownOld(s: State, c: nat, account: string)
    requires LocksAreHeld(s) && c in s.calls && s.calls[c].account == account && Lookup(s.rows, account) == ASuspension
    requires InItsHand(s.calls[c]).Some?
    ensures StillSends(s, c, account)
  {
    hide Lookup;
    var id := InItsHand(s.calls[c]).value;
    var later := Clock(if id in s.minted then s.minted[id].expires else s.now);
    var t := Apply(s, later);
    assert !Fresh(t, id);
    SendsOnceStale(t, c, account);
    SendsLater(s, later, c, account);
  }

  /** These are exactly the calls that can: for each there is a run, the account suspended throughout, in
      which it does. */
  lemma SuspendedCallsThatSend(s: State, c: nat, account: string)
    requires Inv(s) && c in s.calls && s.calls[c].account == account && Lookup(s.rows, account) == ASuspension
    ensures StillSends(s, c, account) <==> MaySend(s.calls[c])
  {
    hide Lookup, CacheIsTheLog, WalksAreShort, UniqueIds, Fresh, LocksAreHeld;
    if !MaySend(s.calls[c]) {
      if actions :| Run(s, actions) && Steady(s, actions, account, ASuspension) && Sent(s.log, After(s, actions).log, c) {
        NothingSentWhileSuspended(s, actions, c, account);
      }
    } else if InItsHand(s.calls[c]).Some? {
      SendsOnceGrownOld(s, c, account);
    } else {
      var asks := if s.calls[c].Walking? then ListAnswers(c, Page([], true)) else Resume(c);
      var t := Apply(s, asks);
      assert t.log[|s.log|] == ListSent(c) && t.rows == s.rows;
      SendsAtOnce(s, asks, c, account);
    }
  }

  /** A call on its way to a token of `id` by the row that names it. */
  predicate Follows(call: Call, account: string, id: int) {
    || call == QueuedToDiscover(account) || call == Rechecking(account)
    || call == Rechecked(account, AnInstallation(id)) || call == QueuedToMint(account, id)
    || call == Posting(account, id) || call == Forgetting(account, id) || call == Forgotten(account, id) || call.Done?
  }

  lemma FollowingOwnStep(s: State, a: Action, c: nat, account: string, id: int)
    requires Enabled(s, a) && Moves(a) && a.call == c && Lookup(s.rows, account) == AnInstallation(id)
    requires c in s.calls && Follows(s.calls[c], account, id)
    ensures var t := Apply(s, a); c in t.calls && Follows(t.calls[c], account, id) && !t.calls[c].Walking?
  {
    hide UniqueIds, Covering, Remember, Forget, Fresh, Paged;
    assert !a.Begin? && !a.ListAnswers?;
  }

  lemma FollowingStep(s: State, a: Action, c: nat, account: string, id: int)
    requires Enabled(s, a) && Lookup(s.rows, account) == AnInstallation(id)
    requires c in s.calls && Follows(s.calls[c], account, id)
    ensures var t := Apply(s, a); c in t.calls && Follows(t.calls[c], account, id) && OnlyMints(s.log, t.log, c, id)
  {
    if Moves(a) && a.call == c {
      FollowingOwnStep(s, a, c, account, id);
      StepIsOnePage(s, a);
      StepIsLogged(s, a);
      hide Apply, Enabled, Lookup, NotWalking, Stored, Fresh;
      var t := Apply(s, a);
      assert t.log == s.log || t.log == s.log + [t.log[|s.log|]];
    } else {
      OthersStep(s, a, c);
    }
  }

  /** A call queued for discovery whose account gets a row while it waits uses that row: it asks GitHub
      for no list, and mints for no other installation. */
  lemma {:induction false} QueuedCallsUseTheRow(s: State, actions: seq<Action>, c: nat, account: string, id: int)
    requires Run(s, actions) && Steady(s, actions, account, AnInstallation(id))
    requires c in s.calls && Follows(s.calls[c], account, id)
    ensures var t := After(s, actions);
            c in t.calls && Follows(t.calls[c], account, id) && OnlyMints(s.log, t.log, c, id)
    decreases |actions|
  {
    hide Apply, Enabled, Follows, Lookup;
    if actions != [] {
      FollowingStep(s, actions[0], c, account, id);
      QueuedCallsUseTheRow(Apply(s, actions[0]), actions[1..], c, account, id);
    }
  }

  // ----- After a mint was answered 404 -----

  predicate Names(rows: Rows, id: int) { exists account :: account in rows && rows[account].id == id }

  /** No step of the run tells the directory of `id`: neither a walk that found it, nor a webhook. */
  predicate Untold(s: State, actions: seq<Action>, id: int)
    requires Run(s, actions)
    decreases |actions|
  {
    actions == [] ||
    (var a := actions[0];
     && (a.Webhook? ==> !Names(a.rows, id))
     && (a.DirectoryWrites? && s.calls[a.call].Remembering? ==> s.calls[a.call].row.id != id)
     && Untold(Apply(s, a), actions[1..], id))
  }

  lemma UntoldStep(s: State, a: Action, id: int)
    requires Enabled(s, a) && !Names(s.rows, id)
    requires a.Webhook? ==> !Names(a.rows, id)
    requires a.DirectoryWrites? && s.calls[a.call].Remembering? ==> s.calls[a.call].row.id != id
    ensures !Names(Apply(s, a).rows, id)
  {
    hide UniqueIds, Covering, Fresh;
  }

  lemma {:induction false} UntoldStaysUnnamed(s: State, actions: seq<Action>, id: int)
    requires Run(s, actions) && Untold(s, actions, id) && !Names(s.rows, id)
    ensures !Names(After(s, actions).rows, id)
    decreases |actions|
  {
    hide Apply, Enabled, Names;
    if actions != [] {
      UntoldStep(s, actions[0], id);
      UntoldStaysUnnamed(Apply(s, actions[0]), actions[1..], id);
    }
  }

  /** Once an installation GitHub answered 404 for is forgotten, the directory names it for no account
      until something tells it again. */
  lemma ForgottenStaysForgotten(s: State, c: nat, actions: seq<Action>)
    requires Enabled(s, DirectoryWrites(c)) && s.calls[c].Forgetting?
    requires Run(Apply(s, DirectoryWrites(c)), actions)
    requires Untold(Apply(s, DirectoryWrites(c)), actions, s.calls[c].id)
    ensures forall account :: Lookup(After(Apply(s, DirectoryWrites(c)), actions).rows, account)
                              != AnInstallation(s.calls[c].id)
  {
    UntoldStaysUnnamed(Apply(s, DirectoryWrites(c)), actions, s.calls[c].id);
  }

  lemma RunStep(s: State, a: Action, rest: seq<Action>)
    requires Enabled(s, a) && Run(Apply(s, a), rest)
    ensures Run(s, [a] + rest) && After(s, [a] + rest) == After(Apply(s, a), rest)
  {
    assert ([a] + rest)[1..] == rest;
  }

  lemma ThreeSteps(s: State, a: Action, b: Action, c: Action, rest: seq<Action>)
    requires Enabled(s, a) && Enabled(Apply(s, a), b) && Enabled(Apply(Apply(s, a), b), c)
    requires Run(Apply(Apply(Apply(s, a), b), c), rest)
    ensures Run(s, [a, b, c] + rest)
    ensures After(s, [a, b, c] + rest) == After(Apply(Apply(Apply(s, a), b), c), rest)
  {
    hide Run, After, Apply, Enabled;
    RunStep(Apply(Apply(s, a), b), c, rest);
    RunStep(Apply(s, a), b, [c] + rest);
    RunStep(s, a, [b] + ([c] + rest));
    assert [a, b, c] + rest == [a] + ([b] + ([c] + rest));
  }

  /** A call on its way to asking GitHub about an account the directory has nothing on. */
  predicate OnItsWay(call: Call, account: string) {
    || call == Asking(account) || call == Told(account, Nothing) || call == QueuedToDiscover(account)
    || call == Rechecking(account) || call == Rechecked(account, Nothing)
  }

  lemma AskingStep(s: State, a: Action, c: nat, account: string)
    requires Enabled(s, a) && Lookup(s.rows, account) == Nothing
    requires c in s.calls && OnItsWay(s.calls[c], account)
    ensures var t := Apply(s, a);
            && c in t.calls && s.log <= t.log
            && (OnItsWay(t.calls[c], account) || t.calls[c] == Done(account, Raised)
                || t.log == s.log + [ListSent(c)])
  {
    if Moves(a) && a.call == c {
      hide UniqueIds, Covering, Remember, Forget, Fresh, Paged, Posted;
    } else {
      hide Apply, Enabled, Lookup;
      OthersStep(s, a, c);
    }
  }

  /** Whatever interleaves: a call for an account the directory has nothing on is on its way to asking
      GitHub, or was ended by an exception, or has asked. */
  lemma {:induction false} UnnamedIsAskedAbout(s: State, actions: seq<Action>, c: nat, account: string)
    requires Run(s, actions) && Steady(s, actions, account, Nothing)
    requires c in s.calls && OnItsWay(s.calls[c], account)
    ensures var t := After(s, actions);
            && c in t.calls
            && (OnItsWay(t.calls[c], account) || t.calls[c] == Done(account, Raised)
                || exists k :: |s.log| <= k < |t.log| && t.log[k] == ListSent(c))
    decreases |actions|
  {
    hide Apply, Enabled, OnItsWay, Lookup;
    if actions != [] {
      var next := Apply(s, actions[0]);
      AskingStep(s, actions[0], c, account);
      if OnItsWay(next.calls[c], account) {
        UnnamedIsAskedAbout(next, actions[1..], c, account);
      } else {
        RunKeepsLog(next, actions[1..], c);
        if next.log == s.log + [ListSent(c)] {
          assert After(s, actions).log[|s.log|] == next.log[|s.log|];
        }
      }
    }
  }

  /** The log is only ever added to, and a call that is over stays so. */
  lemma StepKeepsLog(s: State, a: Action, c: nat)
    requires Enabled(s, a)
    ensures s.log <= Apply(s, a).log
    ensures c in s.calls ==> c in Apply(s, a).calls
    ensures c in s.calls && s.calls[c].Done? ==> Apply(s, a).calls[c] == s.calls[c]
  {
    if Moves(a) {
      StepIsLogged(s, a);
      StepIsOnePage(s, a);
      hide Apply, Logged, NotWalking, Stored, Fresh;
    } else {
      StillIsNoMove(s, a);
    }
  }

  lemma {:induction false} RunKeepsLog(s: State, actions: seq<Action>, c: nat)
    requires Run(s, actions)
    ensures s.log <= After(s, actions).log
    ensures c in s.calls ==> c in After(s, actions).calls
    ensures c in s.calls && s.calls[c].Done? ==> After(s, actions).calls[c] == s.calls[c]
    decreases |actions|
  {
    hide Apply, Enabled;
    if actions != [] {
      StepKeepsLog(s, actions[0], c);
      RunKeepsLog(Apply(s, actions[0]), actions[1..], c);
    }
  }

  /** And one nothing interrupts asks in six steps. */
  lemma AskedAboutAtOnce(s: State, c: nat, account: string)
    requires Lookup(s.rows, account) == Nothing && s.discovery == None && c !in s.calls
    ensures var actions :=
              [Begin(c, account, true), DirectoryReads(c), Resume(c)]
              + ([TakeDiscovery(c), DirectoryReads(c), Resume(c)] + []);
            && Run(s, actions)
            && c in After(s, actions).calls && After(s, actions).calls[c] == Walking(account, 1)
            && After(s, actions).log == s.log + [ListSent(c)]
  {
    var queued := Apply(Apply(Apply(s, Begin(c, account, true)), DirectoryReads(c)), Resume(c));
    assert queued.calls[c] == QueuedToDiscover(account) && queued.discovery == None;
    assert queued.rows == s.rows && queued.log == s.log;
    Asks(queued, c, account);
    hide Apply, Enabled, Run, After;
    ThreeSteps(s, Begin(c, account, true), DirectoryReads(c), Resume(c),
               [TakeDiscovery(c), DirectoryReads(c), Resume(c)] + []);
  }

  lemma Asks(s: State, c: nat, account: string)
    requires c in s.calls && s.calls[c] == QueuedToDiscover(account) && s.discovery == None
    requires Lookup(s.rows, account) == Nothing
    ensures var actions := [TakeDiscovery(c), DirectoryReads(c), Resume(c)] + [];
            && Run(s, actions)
            && c in After(s, actions).calls && After(s, actions).calls[c] == Walking(account, 1)
            && After(s, actions).log == s.log + [ListSent(c)]
  {
    var held := Apply(s, TakeDiscovery(c));
    var told := Apply(held, DirectoryReads(c));
    assert told.calls[c] == Rechecked(account, Nothing) && told.log == s.log;
    ThreeSteps(s, TakeDiscovery(c), DirectoryReads(c), Resume(c), []);
  }
}
