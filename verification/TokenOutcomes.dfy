/** What a call for a token is given, in every run, and what it rests on. */
module TokenOutcomes {
  import opened Text
  import opened Tokens
  import opened TokenTheorems

  // ----- The token last given -----

  /** The token GitHub last gave for an installation, none once it answered that the installation is gone. */
  function LastMinted(log: seq<Event>, id: int): Option<Cached> {
    if log == [] then None
    else
      var (before, last) := (LastMinted(log[..|log| - 1], id), log[|log| - 1]);
      if !last.MintAnswered? || last.installation != id then before
      else match last.reply
           case Minted(token, expires) => Some(Cached(token, expires))
           case Gone => None
           case NotMinted => before
  }

  ghost predicate HoldsWhatWasGiven(s: State) {
    forall id :: LastMinted(s.log, id) == if id in s.minted then Some(s.minted[id]) else None
  }

  lemma OneMoreEvent(log: seq<Event>, event: Event)
    ensures forall id :: LastMinted(log + [event], id)
              == if event.MintAnswered? && event.installation == id
                 then (match event.reply
                       case Minted(token, expires) => Some(Cached(token, expires))
                       case Gone => None
                       case NotMinted => LastMinted(log, id))
                 else LastMinted(log, id)
  {
    assert (log + [event])[..|log|] == log;
  }

  lemma StepHoldsWhatWasGiven(s: State, a: Action)
    requires HoldsWhatWasGiven(s) && Enabled(s, a)
    ensures HoldsWhatWasGiven(Apply(s, a))
  {
    hide LastMinted, Apply, Enabled;
    var t := Apply(s, a);
    if Moves(a) {
      StepIsLogged(s, a);
      var (c, to) := (a.call, t.calls[a.call]);
      if to.Posting? {
        OneMoreEvent(s.log, MintSent(c, to.id, s.now));
      } else if c in s.calls && s.calls[c].Posting? {
        var id := s.calls[c].id;
        var reply :| t.log == s.log + [MintAnswered(id, reply)] && t.minted == Stored(s.minted, id, reply);
        OneMoreEvent(s.log, MintAnswered(id, reply));
      } else if t.log != s.log {
        OneMoreEvent(s.log, ListSent(c));
      }
    } else {
      StillIsNoMove(s, a);
    }
  }

  // ----- What ends a call -----

  /** The call was told of a suspension, or has had its installation forgotten after a 404. */
  predicate Refused(call: Call) {
    match call
    case Told(_, says) => says.ASuspension?
    case Rechecked(_, says) => says.ASuspension?
    case Remembered(_, row) => row.suspended
    case Forgotten(_, _) => true
    case _ => false
  }

  /** The list was refused, or was read to its end or to the tenth page without the account. */
  predicate NotListed(page: ListReply, account: string, sent: nat) {
    page.Refused?
    || (&& (forall i :: 0 <= i < |page.listings| ==> !Covers(page.listings[i], account))
        && (!page.more || sent >= 10))
  }

  /** The token last given for an installation, where it has more than five minutes left. */
  predicate StillGiven(s: State, id: int, token: string) {
    var given := LastMinted(s.log, id);
    given.Some? && given.value.token == token && given.value.expires - 300 > s.now
  }

  /** What has to happen for a call to come back with `outcome`. */
  predicate Ends(s: State, a: Action, account: string, outcome: Outcome)
    requires Enabled(s, a) && Moves(a)
  {
    var c := a.call;
    if a.Begin? then a.account == account && !a.signed && outcome == NoToken
    else
      && s.calls[c].account == account
      && match outcome
         case Token(token) =>
           || (a.MintAnswers? && a.reply.Minted? && a.reply.token == token)
           || ((a.Resume? || a.TakeLock?) && InItsHand(s.calls[c]).Some? && StillGiven(s, InItsHand(s.calls[c]).value, token))
         case NoToken => (a.Resume? && Refused(s.calls[c])) || (a.ListAnswers? && NotListed(a.page, account, s.calls[c].sent))
         case Raised => a.Fail? || (a.MintAnswers? && a.reply.NotMinted?)
  }

  lemma FreshIsStillGiven(s: State, id: int)
    requires HoldsWhatWasGiven(s)
    ensures Fresh(s, id) <==> exists token :: StillGiven(s, id, token)
    ensures Fresh(s, id) ==> forall token :: StillGiven(s, id, token) <==> token == s.minted[id].token
  {
    hide LastMinted;
    if Fresh(s, id) {
      assert StillGiven(s, id, s.minted[id].token);
    }
  }

  /** Where a call goes that has an installation in hand, without a look at the cache. */
  lemma InHandEnds(s: State, c: nat, account: string, id: int, outcome: Outcome)
    requires HoldsWhatWasGiven(s)
    ensures c in InHand(s, c, account, id).calls
    ensures InHand(s, c, account, id).calls[c] == Done(account, outcome)
            <==> outcome.Token? && StillGiven(s, id, outcome.token)
    ensures !InHand(s, c, account, id).calls[c].Done? ==> InHand(s, c, account, id).calls[c] == QueuedToMint(account, id)
    ensures InHand(s, c, account, id).calls[c].account == account
  {
    FreshIsStillGiven(s, id);
    hide Fresh, StillGiven, LastMinted;
  }

  lemma ResumeEnds(s: State, c: nat, account: string, outcome: Outcome)
    requires HoldsWhatWasGiven(s) && Enabled(s, Resume(c))
    ensures c in Resumed(s, c).calls
    ensures Resumed(s, c).calls[c] == Done(account, outcome) <==> Ends(s, Resume(c), account, outcome)
  {
    hide InHand, StillGiven, HoldsWhatWasGiven, Fresh;
    match s.calls[c]
    case Told(owner, AnInstallation(id)) => InHandEnds(s, c, owner, id, outcome);
    case Rechecked(owner, AnInstallation(id)) => InHandEnds(s, c, owner, id, outcome);
    case Remembered(owner, row) => InHandEnds(s, c, owner, row.id, outcome);
    case _ =>
  }

  lemma TakeLockEnds(s: State, c: nat, account: string, outcome: Outcome)
    requires HoldsWhatWasGiven(s) && Enabled(s, TakeLock(c))
    ensures c in Apply(s, TakeLock(c)).calls
    ensures Apply(s, TakeLock(c)).calls[c] == Done(account, outcome) <==> Ends(s, TakeLock(c), account, outcome)
  {
    FreshIsStillGiven(s, s.calls[c].id);
    hide StillGiven, HoldsWhatWasGiven, Fresh;
  }

  lemma PageEnds(s: State, c: nat, page: ListReply, account: string, outcome: Outcome)
    requires Enabled(s, ListAnswers(c, page))
    ensures c in Paged(s, c, page).calls
    ensures Paged(s, c, page).calls[c] == Done(account, outcome) <==> Ends(s, ListAnswers(c, page), account, outcome)
  {
    hide Covers;
    if page.Page? {
      assert Covering(page.listings, s.calls[c].account).None?
        <==> forall i :: 0 <= i < |page.listings| ==> !Covers(page.listings[i], s.calls[c].account);
    }
    hide Covering, InItsHand, Refused;
  }

  /** A step ends the call it moves with an outcome exactly where what ends one so has happened: with the
      token just minted for it, or with the one last given for the installation it has in hand, if and only
      if that has more than five minutes left when it looks; and with none only unsigned, refused or unlisted. */
  lemma EndingsExactly(s: State, a: Action, account: string, outcome: Outcome)
    requires HoldsWhatWasGiven(s) && Enabled(s, a) && Moves(a)
    ensures a.call in Apply(s, a).calls
    ensures Apply(s, a).calls[a.call] == Done(account, outcome) <==> Ends(s, a, account, outcome)
  {
    hide HoldsWhatWasGiven, StillGiven, NotListed, Resumed, Paged, Fresh, Lookup, Remember, Forget;
    match a
    case Resume(c) => ResumeEnds(s, c, account, outcome);
    case TakeLock(c) => TakeLockEnds(s, c, account, outcome);
    case ListAnswers(c, page) => PageEnds(s, c, page, account, outcome);
    case _ =>
  }

  // ----- Over every run -----

  /** The state a run is in before its step `k`. */
  function Before(actions: seq<Action>, k: nat): State
    requires Run(START, actions) && k <= |actions|
  {
    RunOfPrefix(START, actions, k);
    After(START, actions[..k])
  }

  lemma {:induction false} RunOfPrefix(s: State, actions: seq<Action>, k: nat)
    requires Run(s, actions) && k <= |actions|
    ensures Run(s, actions[..k])
    ensures k < |actions| ==>
              && Enabled(After(s, actions[..k]), actions[k])
              && Run(s, actions[..k + 1])
              && After(s, actions[..k + 1]) == Apply(After(s, actions[..k]), actions[k])
    decreases k
  {
    hide Apply, Enabled;
    if k > 0 {
      RunOfPrefix(Apply(s, actions[0]), actions[1..], k - 1);
      assert actions[1..][..k - 1] == actions[..k][1..];
      if k < |actions| {
        assert actions[1..][..k] == actions[..k + 1][1..];
      }
    } else if actions != [] {
      assert actions[..1][1..] == [] && actions[..1][0] == actions[0];
    }
  }

  lemma {:induction false} RunHoldsWhatWasGiven(actions: seq<Action>, k: nat)
    requires Run(START, actions) && k <= |actions|
    ensures HoldsWhatWasGiven(Before(actions, k))
    decreases k
  {
    hide HoldsWhatWasGiven, Apply, Enabled;
    if k > 0 {
      RunHoldsWhatWasGiven(actions, k - 1);
      RunOfPrefix(START, actions, k - 1);
      StepHoldsWhatWasGiven(Before(actions, k - 1), actions[k - 1]);
    } else {
      NothingGivenYet();
      NothingBefore(actions);
    }
  }

  lemma NothingBefore(actions: seq<Action>)
    requires Run(START, actions)
    ensures Before(actions, 0) == START
  {
    assert actions[..0] == [];
  }

  lemma NothingGivenYet()
    ensures HoldsWhatWasGiven(START)
  {
  }

  /** Step `k` of the run ended the call, for a reason that has it come back with `outcome`. */
  ghost predicate EndedBy(actions: seq<Action>, k: nat, c: nat, account: string, outcome: Outcome)
    requires Run(START, actions)
  {
    && k < |actions| && Enabled(Before(actions, k), actions[k]) && Moves(actions[k]) && actions[k].call == c
    && Ends(Before(actions, k), actions[k], account, outcome)
  }

  lemma DoneByAStep(s: State, a: Action, c: nat)
    requires Enabled(s, a) && c in Apply(s, a).calls && Apply(s, a).calls[c].Done?
    requires !(c in s.calls && s.calls[c] == Apply(s, a).calls[c])
    ensures Moves(a) && a.call == c
  {
    hide Apply, Enabled, NotWalking, Stored, Fresh;
    if Moves(a) {
      StepIsOnePage(s, a);
    } else {
      StillIsNoMove(s, a);
    }
  }

  /** Whatever interleaves: every call that is over came to its end so. */
  lemma {:induction false} WhatCallsAreGiven(actions: seq<Action>, n: nat, c: nat)
    requires Run(START, actions) && n <= |actions|
    requires c in Before(actions, n).calls && Before(actions, n).calls[c].Done?
    ensures var call := Before(actions, n).calls[c];
            exists k: nat :: k < n && EndedBy(actions, k, c, call.account, call.outcome)
    decreases n
  {
    hide Apply, Enabled, Ends, HoldsWhatWasGiven;
    NothingBefore(actions);
    if n > 0 {
      RunOfPrefix(START, actions, n - 1);
      var (s, a) := (Before(actions, n - 1), actions[n - 1]);
      var call := Before(actions, n).calls[c];
      if c in s.calls && s.calls[c] == call {
        WhatCallsAreGiven(actions, n - 1, c);
      } else {
        DoneByAStep(s, a, c);
        RunHoldsWhatWasGiven(actions, n - 1);
        EndingsExactly(s, a, call.account, call.outcome);
        assert EndedBy(actions, n - 1, c, call.account, call.outcome);
      }
    }
  }

  lemma EndedAtOnce(actions: seq<Action>, k: nat, c: nat, account: string, outcome: Outcome)
    requires Run(START, actions) && EndedBy(actions, k, c, account, outcome)
    ensures c in Before(actions, k + 1).calls && Before(actions, k + 1).calls[c] == Done(account, outcome)
  {
    hide Ends, Apply, Enabled, HoldsWhatWasGiven;
    RunHoldsWhatWasGiven(actions, k);
    RunOfPrefix(START, actions, k);
    EndingsExactly(Before(actions, k), actions[k], account, outcome);
  }

  lemma {:induction false} DoneStaysDone(actions: seq<Action>, k: nat, n: nat, c: nat)
    requires Run(START, actions) && k <= n <= |actions|
    requires c in Before(actions, k).calls && Before(actions, k).calls[c].Done?
    ensures c in Before(actions, n).calls && Before(actions, n).calls[c] == Before(actions, k).calls[c]
    decreases n - k
  {
    hide Apply, Enabled;
    if k < n {
      RunOfPrefix(START, actions, k);
      StepKeepsLog(Before(actions, k), actions[k], c);
      DoneStaysDone(actions, k + 1, n, c);
    }
  }

  /** So a call has come back with an outcome if and only if a step of the run gave it that outcome. */
  lemma OutcomesExactly(actions: seq<Action>, n: nat, c: nat, account: string, outcome: Outcome)
    requires Run(START, actions) && n <= |actions|
    ensures c in Before(actions, n).calls && Before(actions, n).calls[c] == Done(account, outcome)
            <==> exists k: nat :: k < n && EndedBy(actions, k, c, account, outcome)
  {
    hide EndedBy, Before, Run, Enabled;
    if c in Before(actions, n).calls && Before(actions, n).calls[c] == Done(account, outcome) {
      WhatCallsAreGiven(actions, n, c);
    }
    if k: nat :| k < n && EndedBy(actions, k, c, account, outcome) {
      EndedAtOnce(actions, k, c, account, outcome);
      DoneStaysDone(actions, k + 1, n, c);
    }
  }

  /** So a token a call comes back with is the one last given for an installation: by the answer to its own
      mint, or by an earlier one with more than five minutes left. */
  lemma TokensAreTheLastGiven(actions: seq<Action>, n: nat, c: nat)
    requires Run(START, actions) && n <= |actions|
    requires c in Before(actions, n).calls && Before(actions, n).calls[c].Done? && Before(actions, n).calls[c].outcome.Token?
    ensures var token := Before(actions, n).calls[c].outcome.token;
            exists k: nat, id: int, cached: Cached :: k < n && GivenFor(actions, k, c, id, cached) && cached.token == token
  {
    var call := Before(actions, n).calls[c];
    WhatCallsAreGiven(actions, n, c);
    hide EndedBy, GivenFor, Apply, Enabled;
    var k: nat :| k < n && EndedBy(actions, k, c, call.account, call.outcome);
    GivenByItsEnd(actions, k, c, call.account, call.outcome);
  }

  /** Step `k` left `cached` the token last given for an installation the call had in hand in front of it, and
      either gave it or found it good. */
  ghost predicate GivenFor(actions: seq<Action>, k: nat, c: nat, id: int, cached: Cached)
    requires Run(START, actions)
  {
    && k < |actions| && c in Before(actions, k).calls && LastMinted(Before(actions, k + 1).log, id) == Some(cached)
    && (|| (Before(actions, k).calls[c].Posting? && Before(actions, k).calls[c].id == id
            && actions[k] == MintAnswers(c, Minted(cached.token, cached.expires)))
        || (InItsHand(Before(actions, k).calls[c]) == Some(id) && cached.expires - 300 > Before(actions, k).now))
  }

  lemma GivenByItsEnd(actions: seq<Action>, k: nat, c: nat, account: string, outcome: Outcome)
    requires Run(START, actions) && EndedBy(actions, k, c, account, outcome) && outcome.Token?
    ensures exists id, cached :: GivenFor(actions, k, c, id, cached) && cached.token == outcome.token
  {
    hide LastMinted, Resumed, Fresh, Lookup, HoldsWhatWasGiven;
    RunOfPrefix(START, actions, k);
    var (s, a) := (Before(actions, k), actions[k]);
    if a.MintAnswers? {
      var id, cached := s.calls[c].id, Cached(a.reply.token, a.reply.expires);
      OneMoreEvent(s.log, MintAnswered(id, a.reply));
      assert GivenFor(actions, k, c, id, cached);
    } else {
      var id := InItsHand(s.calls[c]).value;
      var cached := LastMinted(s.log, id).value;
      ResumeGivesNothing(s, a);
      assert GivenFor(actions, k, c, id, cached);
    }
  }

  lemma ResumeGivesNothing(s: State, a: Action)
    requires Enabled(s, a) && (a.Resume? || a.TakeLock?)
    ensures forall id :: LastMinted(Apply(s, a).log, id) == LastMinted(s.log, id)
  {
    if a.Resume? {
      ResumeGoesOn(s, a.call);
      OneMoreEvent(s.log, ListSent(a.call));
    } else {
      OneMoreEvent(s.log, MintSent(a.call, s.calls[a.call].id, s.now));
    }
    hide Resumed, LastMinted;
  }

  // ----- What a call knows -----

  /** Where a call that has moved comes from, and on what answer. */
  predicate ComesFrom(s: State, a: Action, c: nat, to: Call) {
    var from := if c in s.calls then Some(s.calls[c]) else None;
    match to
    case Asking(account) => a == Begin(c, account, true)
    case Told(account, says) => a == DirectoryReads(c) && from == Some(Asking(account)) && says == Lookup(s.rows, account)
    case QueuedToDiscover(account) => from == Some(Told(account, Nothing))
    case Rechecking(account) => from == Some(QueuedToDiscover(account))
    case Rechecked(account, says) =>
      a == DirectoryReads(c) && from == Some(Rechecking(account)) && says == Lookup(s.rows, account)
    case Walking(account, sent) =>
      if sent == 1 then from == Some(Rechecked(account, Nothing)) else sent > 1 && from == Some(Walking(account, sent - 1))
    case Remembering(account, row) =>
      && from.Some? && from.value.Walking? && from.value.account == account
      && a.ListAnswers? && a.page.Page? && Covering(a.page.listings, account) == Some(row)
    case Remembered(account, row) => from == Some(Remembering(account, row))
    case QueuedToMint(account, id) => from.Some? && from.value.account == account && InItsHand(from.value) == Some(id)
    case Posting(account, id) => from == Some(QueuedToMint(account, id))
    case Forgetting(account, id) => from == Some(Posting(account, id)) && a == MintAnswers(c, Gone)
    case Forgotten(account, id) => from == Some(Forgetting(account, id))
    case Done(_, _) => true
  }

  lemma InHandComesTo(s: State, c: nat, account: string, id: int)
    ensures c in InHand(s, c, account, id).calls
    ensures var to := InHand(s, c, account, id).calls[c]; to.Done? || to == QueuedToMint(account, id)
  {
    hide Fresh;
  }

  lemma ResumeComesFrom(s: State, c: nat)
    requires Enabled(s, Resume(c))
    ensures c in Resumed(s, c).calls && ComesFrom(s, Resume(c), c, Resumed(s, c).calls[c])
  {
    hide InHand, Lookup, Covering;
    match s.calls[c]
    case Told(owner, AnInstallation(id)) => InHandComesTo(s, c, owner, id);
    case Rechecked(owner, AnInstallation(id)) => InHandComesTo(s, c, owner, id);
    case Remembered(owner, row) => InHandComesTo(s, c, owner, row.id);
    case _ =>
  }

  lemma PageComesFrom(s: State, c: nat, page: ListReply)
    requires Enabled(s, ListAnswers(c, page)) && s.calls[c].sent > 0
    ensures c in Paged(s, c, page).calls && ComesFrom(s, ListAnswers(c, page), c, Paged(s, c, page).calls[c])
  {
    hide Fresh, Lookup, Covering, InItsHand;
  }

  lemma MintComesFrom(s: State, c: nat, reply: MintReply)
    requires Enabled(s, MintAnswers(c, reply))
    ensures c in Posted(s, c, reply).calls && ComesFrom(s, MintAnswers(c, reply), c, Posted(s, c, reply).calls[c])
  {
    hide Lookup, Covering, InItsHand;
  }

  lemma ReadComesFrom(s: State, c: nat)
    requires Enabled(s, DirectoryReads(c))
    ensures var t := Apply(s, DirectoryReads(c)); c in t.calls && ComesFrom(s, DirectoryReads(c), c, t.calls[c])
  {
    hide Lookup, Covering, InItsHand;
  }

  lemma LockComesFrom(s: State, c: nat)
    requires Enabled(s, TakeLock(c))
    ensures var t := Apply(s, TakeLock(c)); c in t.calls && ComesFrom(s, TakeLock(c), c, t.calls[c])
  {
    hide Lookup, Covering, InItsHand, Fresh;
  }

  lemma WriteComesFrom(s: State, c: nat)
    requires Enabled(s, DirectoryWrites(c))
    ensures var t := Apply(s, DirectoryWrites(c)); c in t.calls && ComesFrom(s, DirectoryWrites(c), c, t.calls[c])
  {
    hide Lookup, Covering, InItsHand, Remember, Forget;
  }

  lemma TakeComesFrom(s: State, a: Action)
    requires Enabled(s, a) && (a.TakeDiscovery? || a.Begin? || a.Fail?)
    ensures var t := Apply(s, a); a.call in t.calls && ComesFrom(s, a, a.call, t.calls[a.call])
  {
    hide Lookup, Covering, InItsHand;
  }

  lemma StepComesFrom(s: State, a: Action)
    requires Enabled(s, a) && Moves(a) && (a.ListAnswers? ==> s.calls[a.call].sent > 0)
    ensures a.call in Apply(s, a).calls && ComesFrom(s, a, a.call, Apply(s, a).calls[a.call])
  {
    hide ComesFrom;
    match a
    case Resume(c) => ResumeComesFrom(s, c);
    case ListAnswers(c, page) => PageComesFrom(s, c, page);
    case MintAnswers(c, reply) => MintComesFrom(s, c, reply);
    case DirectoryReads(c) => ReadComesFrom(s, c);
    case DirectoryWrites(c) => WriteComesFrom(s, c);
    case TakeLock(c) => LockComesFrom(s, c);
    case _ => TakeComesFrom(s, a);
  }

  /** The directory answered the call so at step `k`. */
  ghost predicate ReadAt(actions: seq<Action>, k: nat, c: nat, account: string, says: Says)
    requires Run(START, actions)
  {
    k < |actions| && actions[k] == DirectoryReads(c) && Lookup(Before(actions, k).rows, account) == says
  }

  /** GitHub listed the account's installation for the call at step `k`. */
  ghost predicate ListedAt(actions: seq<Action>, k: nat, c: nat, account: string, row: Row)
    requires Run(START, actions)
  {
    && k < |actions| && actions[k].ListAnswers? && actions[k].call == c && actions[k].page.Page?
    && Covering(actions[k].page.listings, account) == Some(row)
  }

  ghost predicate Learnt(actions: seq<Action>, n: nat, c: nat, account: string, id: int)
    requires Run(START, actions)
  {
    exists k: nat :: k < n && (ReadAt(actions, k, c, account, AnInstallation(id)) || ListedAt(actions, k, c, account, Row(id, false)))
  }

  ghost predicate WasTold(actions: seq<Action>, n: nat, c: nat, account: string, says: Says)
    requires Run(START, actions)
  {
    exists k: nat :: k < n && ReadAt(actions, k, c, account, says)
  }

  ghost predicate WasListed(actions: seq<Action>, n: nat, c: nat, account: string, row: Row)
    requires Run(START, actions)
  {
    exists k: nat :: k < n && ListedAt(actions, k, c, account, row)
  }

  ghost predicate WasGone(actions: seq<Action>, n: nat, c: nat) {
    exists k: nat :: k < n && k < |actions| && actions[k] == MintAnswers(c, Gone)
  }

  /** What a call stands on: what it holds is what the directory or GitHub's list told it. */
  ghost predicate StandsOn(actions: seq<Action>, n: nat, c: nat, call: Call)
    requires Run(START, actions)
  {
    match call
    case Told(account, says) => WasTold(actions, n, c, account, says)
    case Rechecked(account, says) => WasTold(actions, n, c, account, says)
    case Walking(_, sent) => sent > 0
    case Remembering(account, row) => WasListed(actions, n, c, account, row)
    case Remembered(account, row) => WasListed(actions, n, c, account, row)
    case QueuedToMint(account, id) => Learnt(actions, n, c, account, id)
    case Posting(account, id) => Learnt(actions, n, c, account, id)
    case Forgetting(account, id) => Learnt(actions, n, c, account, id) && WasGone(actions, n, c)
    case Forgotten(account, id) => Learnt(actions, n, c, account, id) && WasGone(actions, n, c)
    case _ => true
  }

  lemma StandsLonger(actions: seq<Action>, n: nat, m: nat, c: nat, call: Call)
    requires Run(START, actions) && n <= m && StandsOn(actions, n, c, call)
    ensures StandsOn(actions, m, c, call)
  {
    hide ReadAt, ListedAt;
  }

  lemma InHandWasLearnt(actions: seq<Action>, n: nat, c: nat, call: Call)
    requires Run(START, actions) && StandsOn(actions, n, c, call) && InItsHand(call).Some?
    ensures Learnt(actions, n, c, call.account, InItsHand(call).value)
  {
    hide ReadAt, ListedAt;
    if call.Remembered? {
      assert call.row == Row(call.row.id, false);
    }
  }

  lemma StandsOnItsStep(actions: seq<Action>, k: nat, c: nat, to: Call)
    requires Run(START, actions) && k < |actions| && ComesFrom(Before(actions, k), actions[k], c, to)
    requires c in Before(actions, k).calls ==> StandsOn(actions, k, c, Before(actions, k).calls[c])
    requires actions[k].ListAnswers? ==> actions[k].call == c
    ensures StandsOn(actions, k + 1, c, to)
  {
    hide Lookup, Covering, InItsHand, Run, StandsOn, Before, ReadAt, ListedAt;
    if c in Before(actions, k).calls {
      var from := Before(actions, k).calls[c];
      StandsLonger(actions, k, k + 1, c, from);
      if InItsHand(from).Some? {
        InHandWasLearnt(actions, k + 1, c, from);
      }
    }
    StandsOnWhatItCameFrom(actions, k, c, to);
  }

  lemma StandsOnWhatItCameFrom(actions: seq<Action>, k: nat, c: nat, to: Call)
    requires Run(START, actions) && k < |actions| && ComesFrom(Before(actions, k), actions[k], c, to)
    requires c in Before(actions, k).calls ==>
               var from := Before(actions, k).calls[c];
               && StandsOn(actions, k + 1, c, from)
               && (InItsHand(from).Some? ==> Learnt(actions, k + 1, c, from.account, InItsHand(from).value))
    requires actions[k].ListAnswers? ==> actions[k].call == c
    ensures StandsOn(actions, k + 1, c, to)
  {
    hide Lookup, Covering, InItsHand, Run, Before, Learnt;
    match to
    case Told(account, says) => assert ReadAt(actions, k, c, account, says);
    case Rechecked(account, says) => assert ReadAt(actions, k, c, account, says);
    case Remembering(account, row) => assert ListedAt(actions, k, c, account, row);
    case _ =>
  }

  /** Whatever interleaves: what a call was told the directory said when it was read, the row it remembers is
      the one GitHub's page covers its account by, the installation it has in hand is one it was told of or
      found listed, and it forgets one only after a 404. */
  lemma {:induction false} EveryCallStandsOn(actions: seq<Action>, n: nat, c: nat)
    requires Run(START, actions) && n <= |actions| && c in Before(actions, n).calls
    ensures StandsOn(actions, n, c, Before(actions, n).calls[c])
    decreases n
  {
    hide Apply, Enabled, StandsOn, ComesFrom;
    NothingBefore(actions);
    if n > 0 {
      var k := n - 1;
      RunOfPrefix(START, actions, k);
      var (s, a) := (Before(actions, k), actions[k]);
      if c in s.calls {
        EveryCallStandsOn(actions, k, c);
      }
      if Moves(a) && a.call == c {
        if a.ListAnswers? {
          AnsweredIsWalking(s, a);
          WalkingHasSent(actions, k, c, s.calls[c]);
        }
        StepComesFrom(s, a);
        StandsOnItsStep(actions, k, c, Apply(s, a).calls[c]);
      } else {
        StepLeaves(s, a, c);
        StandsLonger(actions, k, n, c, s.calls[c]);
      }
    }
  }

  lemma AnsweredIsWalking(s: State, a: Action)
    requires Enabled(s, a) && a.ListAnswers?
    ensures a.call in s.calls && s.calls[a.call].Walking?
  {
  }

  lemma WalkingHasSent(actions: seq<Action>, k: nat, c: nat, call: Call)
    requires Run(START, actions) && StandsOn(actions, k, c, call) && call.Walking?
    ensures call.sent > 0
  {
  }

  lemma StepLeaves(s: State, a: Action, c: nat)
    requires Enabled(s, a) && c in Apply(s, a).calls && !(Moves(a) && a.call == c)
    ensures c in s.calls && Apply(s, a).calls[c] == s.calls[c]
  {
    hide Apply, Enabled, NotWalking, Stored, Fresh;
    if Moves(a) {
      StepIsOnePage(s, a);
    } else {
      StillIsNoMove(s, a);
    }
  }

  // ----- What the directory keeps -----

  /** Remembering and forgetting leave every account with another installation as it was. */
  lemma RememberExactly(rows: Rows, account: string, row: Row, other: string)
    ensures Lookup(Forget(rows, row.id), other)
         == if other in rows && rows[other].id != row.id then Lookup(rows, other) else Nothing
    ensures other != account ==> Lookup(Remember(rows, account, row), other) == Lookup(Forget(rows, row.id), other)
  {
  }

  /** What is found on a page is in the first listing that covers the account. */
  lemma {:induction false} CoveringIsFirst(listings: seq<Listing>, account: string, i: nat)
    requires i < |listings| && Covers(listings[i], account) && forall j :: 0 <= j < i ==> !Covers(listings[j], account)
    ensures Covering(listings, account) == Some(Row(listings[i].id.value, listings[i].suspended))
  {
    if i > 0 {
      CoveringIsFirst(listings[1..], account, i - 1);
    }
  }
}
