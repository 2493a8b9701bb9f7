/** The installation-token cache as a protocol: every call is a coroutine that runs unbroken from one
    `await` to the next, and between any two of its segments anything else may happen - another call's
    segment, a webhook, the clock, GitHub's answer, or a failure. */
module Tokens {
  import opened Text

  /** Seconds before its expiry at which a token is thrown away. */
  const REFRESH_MARGIN: int := 300
  const MAX_INSTALLATION_PAGES: nat := 10

  // ----- The directory -----

  /** One account's row, filed under its login stripped and lowered. */
  datatype Row = Row(id: int, suspended: bool)

  type Rows = map<string, Row>

  /** What the directory holds for an account. */
  datatype Says = AnInstallation(id: int) | ASuspension | Nothing

  predicate UniqueIds(rows: Rows) {
    forall a, b :: a in rows && b in rows && rows[a].id == rows[b].id ==> a == b
  }

  function Lookup(rows: Rows, account: string): Says {
    if account !in rows then Nothing
    else if rows[account].suspended then ASuspension
    else AnInstallation(rows[account].id)
  }

  function Forget(rows: Rows, id: int): Rows {
    map account | account in rows && rows[account].id != id :: rows[account]
  }

  /** The row an account had goes, whatever its id, and so does the row the id had. */
  function Remember(rows: Rows, account: string, row: Row): Rows {
    Forget(rows, row.id)[account := row]
  }

  // ----- GitHub's answers -----

  /** One row of GitHub's installation list: the account's login normalised, where it has one, and the
      id, where it is a number. */
  datatype Listing = Listing(login: Option<string>, id: Option<int>, suspended: bool)

  datatype ListReply = Refused | Page(listings: seq<Listing>, more: bool)

  datatype MintReply = Gone | NotMinted | Minted(token: string, expires: int)

  predicate Covers(listing: Listing, account: string) {
    listing.login == Some(account) && listing.id.Some?
  }

  /** The first listing on a page that covers the account. */
  function Covering(listings: seq<Listing>, account: string): (found: Option<Row>)
    ensures found.None? <==> forall i :: 0 <= i < |listings| ==> !Covers(listings[i], account)
  {
    if listings == [] then None
    else if Covers(listings[0], account) then Some(Row(listings[0].id.value, listings[0].suspended))
    else Covering(listings[1..], account)
  }

  method FindCovering(listings: seq<Listing>, account: string) returns (found: Option<Row>)
    ensures found == Covering(listings, account)
  {
    assert listings[0..] == listings;
    for i := 0 to |listings|
      invariant Covering(listings, account) == Covering(listings[i..], account)
    {
      var listing := listings[i];
      assert listings[i..][1..] == listings[i + 1..];
      if listing.login != Some(account) {
        continue;
      }
      if listing.id.None? {
        continue;
      }
      return Some(Row(listing.id.value, listing.suspended));
    }
    return None;
  }

  // ----- Where a call is -----

  datatype Outcome = Token(token: string) | NoToken | Raised

  /** The `await` a call is suspended at, or how it ended. From `Rechecking` to `Remembered` it holds
      the discovery lock, and from `Posting` to `Forgotten` the lock of its installation. */
  datatype Call =
    | Asking(account: string)
    | Told(account: string, says: Says)
    | QueuedToDiscover(account: string)
    | Rechecking(account: string)
    | Rechecked(account: string, says: Says)
    | Walking(account: string, sent: nat)
    | Remembering(account: string, row: Row)
    | Remembered(account: string, row: Row)
    | QueuedToMint(account: string, id: int)
    | Posting(account: string, id: int)
    | Forgetting(account: string, id: int)
    | Forgotten(account: string, id: int)
    | Done(account: string, outcome: Outcome)
  {
    predicate Discovering() { Rechecking? || Rechecked? || Walking? || Remembering? || Remembered? }

    predicate Minting() { Posting? || Forgetting? || Forgotten? }
  }

  /** What went to GitHub and what came back, in order. */
  datatype Event =
    | ListSent(call: nat)
    | MintSent(call: nat, installation: int, at: int)
    | MintAnswered(installation: int, reply: MintReply)

  datatype Cached = Cached(token: string, expires: int)

  datatype State = State(
    rows: Rows,
    minted: map<int, Cached>,
    locks: map<int, nat>,
    discovery: Option<nat>,
    calls: map<nat, Call>,
    now: int,
    log: seq<Event>)

  predicate StillGood(expires: int, now: int) { expires - REFRESH_MARGIN > now }

  predicate Fresh(s: State, id: int) { id in s.minted && StillGood(s.minted[id].expires, s.now) }

  // ----- Steps -----

  datatype Action =
    | Begin(call: nat, account: string, signed: bool)
    | DirectoryReads(call: nat)
    | Resume(call: nat)
    | TakeDiscovery(call: nat)
    | ListAnswers(call: nat, page: ListReply)
    | DirectoryWrites(call: nat)
    | TakeLock(call: nat)
    | MintAnswers(call: nat, reply: MintReply)
    | Fail(call: nat)
    | Webhook(rows: Rows)
    | Clock(now: int)

  predicate Enabled(s: State, a: Action) {
    match a
    case Begin(c, _, _) => c !in s.calls
    case DirectoryReads(c) => c in s.calls && (s.calls[c].Asking? || s.calls[c].Rechecking?)
    case Resume(c) =>
      c in s.calls && (s.calls[c].Told? || s.calls[c].Rechecked? || s.calls[c].Remembered? || s.calls[c].Forgotten?)
    case TakeDiscovery(c) => c in s.calls && s.calls[c].QueuedToDiscover? && s.discovery.None?
    case ListAnswers(c, _) => c in s.calls && s.calls[c].Walking?
    case DirectoryWrites(c) => c in s.calls && (s.calls[c].Remembering? || s.calls[c].Forgetting?)
    case TakeLock(c) => c in s.calls && s.calls[c].QueuedToMint? && s.calls[c].id !in s.locks
    case MintAnswers(c, _) => c in s.calls && s.calls[c].Posting?
    case Fail(c) => c in s.calls && !s.calls[c].Done?
    case Webhook(rows) => UniqueIds(rows)
    case Clock(_) => true
  }

  function Moved(s: State, c: nat, to: Call): State { s.(calls := s.calls[c := to]) }

  /** The segment that has an installation in hand: a token still good is answered at once. */
  function InHand(s: State, c: nat, account: string, id: int): State {
    Moved(s, c, if Fresh(s, id) then Done(account, Token(s.minted[id].token)) else QueuedToMint(account, id))
  }

  function EndDiscovery(s: State): State { s.(discovery := None) }

  function Unlock(s: State, id: int): State { s.(locks := s.locks - {id}) }

  function AskPage(s: State, c: nat, account: string, sent: nat): State {
    Moved(s, c, Walking(account, sent)).(log := s.log + [ListSent(c)])
  }

  function Answer(s: State, id: int, reply: MintReply): State { s.(log := s.log + [MintAnswered(id, reply)]) }

  function Apply(s: State, a: Action): State
    requires Enabled(s, a)
  {
    match a
    case Begin(c, account, signed) => Moved(s, c, if signed then Asking(account) else Done(account, NoToken))
    case DirectoryReads(c) =>
      var account := s.calls[c].account;
      var says := Lookup(s.rows, account);
      Moved(s, c, if s.calls[c].Asking? then Told(account, says) else Rechecked(account, says))
    case Resume(c) => Resumed(s, c)
    case TakeDiscovery(c) => Moved(s, c, Rechecking(s.calls[c].account)).(discovery := Some(c))
    case ListAnswers(c, page) => Paged(s, c, page)
    case DirectoryWrites(c) =>
      (match s.calls[c]
       case Remembering(account, row) =>
         Moved(s, c, Remembered(account, row)).(rows := Remember(s.rows, account, row))
       case Forgetting(account, id) => Moved(s, c, Forgotten(account, id)).(rows := Forget(s.rows, id))
       case _ => s)
    case TakeLock(c) =>
      var (account, id) := (s.calls[c].account, s.calls[c].id);
      if Fresh(s, id) then Moved(s, c, Done(account, Token(s.minted[id].token)))
      else Moved(s, c, Posting(account, id)).(locks := s.locks[id := c], log := s.log + [MintSent(c, id, s.now)])
    case MintAnswers(c, reply) => Posted(s, c, reply)
    case Fail(c) =>
      var call := s.calls[c];
      var failed := Moved(s, c, Done(call.account, Raised));
      if call.Discovering() then EndDiscovery(failed)
      else if call.Posting? then Unlock(Answer(failed, call.id, NotMinted), call.id)
      else if call.Minting() then Unlock(failed, call.id)
      else failed
    case Webhook(rows) => s.(rows := rows)
    case Clock(now) => s.(now := now)
  }

  function Resumed(s: State, c: nat): State
    requires Enabled(s, Resume(c))
  {
    match s.calls[c]
    case Told(account, says) =>
      (match says
       case ASuspension => Moved(s, c, Done(account, NoToken))
       case AnInstallation(id) => InHand(s, c, account, id)
       case Nothing => Moved(s, c, QueuedToDiscover(account)))
    case Rechecked(account, says) =>
      (match says
       case ASuspension => EndDiscovery(Moved(s, c, Done(account, NoToken)))
       case AnInstallation(id) => EndDiscovery(InHand(s, c, account, id))
       case Nothing => AskPage(s, c, account, 1))
    case Remembered(account, row) =>
      if row.suspended then EndDiscovery(Moved(s, c, Done(account, NoToken)))
      else EndDiscovery(InHand(s, c, account, row.id))
    case Forgotten(account, id) => Unlock(Moved(s, c, Done(account, NoToken)), id)
    case _ => s
  }

  /** The next page of the walk, if there is one and it is not past the last this follows. */
  function Paged(s: State, c: nat, page: ListReply): State
    requires Enabled(s, ListAnswers(c, page))
  {
    var (account, sent) := (s.calls[c].account, s.calls[c].sent);
    var over := EndDiscovery(Moved(s, c, Done(account, NoToken)));
    match page
    case Refused => over
    case Page(listings, more) =>
      match Covering(listings, account)
      case Some(row) => Moved(s, c, Remembering(account, row))
      case None => if more && sent < MAX_INSTALLATION_PAGES then AskPage(s, c, account, sent + 1) else over
  }

  function Posted(s: State, c: nat, reply: MintReply): State
    requires Enabled(s, MintAnswers(c, reply))
  {
    var (account, id) := (s.calls[c].account, s.calls[c].id);
    match reply
    case Gone => Answer(Moved(s, c, Forgetting(account, id)), id, reply).(minted := s.minted - {id})
    case NotMinted => Unlock(Answer(Moved(s, c, Done(account, Raised)), id, reply), id)
    case Minted(token, expires) =>
      Unlock(Answer(Moved(s, c, Done(account, Token(token))), id, reply), id)
        .(minted := s.minted[id := Cached(token, expires)])
  }

  // ----- Runs -----

  const START: State := State(map[], map[], map[], None, map[], 0, [])

  predicate Run(s: State, actions: seq<Action>)
    decreases |actions|
  {
    actions == [] || (Enabled(s, actions[0]) && Run(Apply(s, actions[0]), actions[1..]))
  }

  function After(s: State, actions: seq<Action>): State
    requires Run(s, actions)
    decreases |actions|
  {
    if actions == [] then s else After(Apply(s, actions[0]), actions[1..])
  }

  // ----- What the log says -----

  /** The expiry of the token GitHub last gave for an installation, none once it answered that the
      installation is gone. */
  function LastGiven(log: seq<Event>, id: int): Option<int> {
    if log == [] then None
    else
      var (before, last) := (LastGiven(log[..|log| - 1], id), log[|log| - 1]);
      match last
      case MintAnswered(i, reply) =>
        if i != id then before else if reply.Minted? then Some(reply.expires) else if reply.Gone? then None else before
      case _ => before
  }

  /** Whether a mint for an installation is still to be answered. */
  predicate Unanswered(log: seq<Event>, id: int) {
    log != [] &&
    match log[|log| - 1]
    case MintSent(_, i, _) => i == id || Unanswered(log[..|log| - 1], id)
    case MintAnswered(i, _) => i != id && Unanswered(log[..|log| - 1], id)
    case ListSent(_) => Unanswered(log[..|log| - 1], id)
  }

  /** How many list requests a call sent. */
  function ListsBy(log: seq<Event>, c: nat): nat {
    if log == [] then 0
    else ListsBy(log[..|log| - 1], c) + if log[|log| - 1] == ListSent(c) then 1 else 0
  }

  /** No mint is sent while another for the same installation is unanswered, nor while the token last
      given for it is still good. */
  predicate MintsWithCause(log: seq<Event>) {
    forall k :: 0 <= k < |log| && log[k].MintSent? ==>
      && !Unanswered(log[..k], log[k].installation)
      && (LastGiven(log[..k], log[k].installation).Some? ==>
            !StillGood(LastGiven(log[..k], log[k].installation).value, log[k].at))
  }

  // ----- The invariant -----

  predicate LocksAreHeld(s: State) {
    && (forall c :: c in s.calls && s.calls[c].Discovering() ==> s.discovery == Some(c))
    && (s.discovery.Some? ==> s.discovery.value in s.calls && s.calls[s.discovery.value].Discovering())
    && (forall c :: c in s.calls && s.calls[c].Minting() ==> s.calls[c].id in s.locks && s.locks[s.calls[c].id] == c)
    && (forall id :: id in s.locks ==>
          s.locks[id] in s.calls && s.calls[s.locks[id]].Minting() && s.calls[s.locks[id]].id == id)
  }

  /** Whether some call is waiting for a mint of an installation to be answered. */
  predicate Waiting(s: State, id: int) {
    id in s.locks && s.locks[id] in s.calls && s.calls[s.locks[id]].Posting?
  }

  ghost predicate CacheIsTheLog(s: State) {
    && (forall id :: LastGiven(s.log, id) == if id in s.minted then Some(s.minted[id].expires) else None)
    && (forall id :: Unanswered(s.log, id) <==> Waiting(s, id))
    && MintsWithCause(s.log)
  }

  ghost predicate WalksAreShort(s: State) {
    forall c: nat ::
      && ListsBy(s.log, c) <= MAX_INSTALLATION_PAGES
      && (c in s.calls && s.calls[c].Walking? ==> 1 <= s.calls[c].sent == ListsBy(s.log, c))
      && (c !in s.calls || s.calls[c].Asking? || s.calls[c].Told? || s.calls[c].QueuedToDiscover?
          || s.calls[c].Rechecking? || s.calls[c].Rechecked?
          ==> ListsBy(s.log, c) == 0)
  }

  ghost predicate Inv(s: State) {
    UniqueIds(s.rows) && LocksAreHeld(s) && CacheIsTheLog(s) && WalksAreShort(s)
  }
}
