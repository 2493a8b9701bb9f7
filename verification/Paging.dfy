/** Lists read by GitHub's Link header, and writes sent again where GitHub says a repository went. The
    server is any function at all of the requests it is sent: cursors may point anywhere. */
module Paging {
  import opened Text

  const MAX_PAGES: nat := 50
  const MAX_WRITE_REDIRECTS: nat := 3

  datatype Error = Unavailable | NotFound | RateLimited | NotAuthorized | Refused

  /** One parsed row of a list, and its id. */
  datatype Item = Item(id: int, said: string)

  /** A body as far as it is read: a list of rows, some of which parse to nothing, or not a list. */
  datatype Body = Rows(rows: seq<Option<Item>>) | NotAList

  /** The `next` link is section 3 of RFC 8288's, the validator section 2.3 of RFC 9110's `ETag`. */
  datatype Reply =
    | NoAnswer(error: Error)
    | Answered(status: int, limited: bool, body: Option<Body>, next: Option<string>, etag: Option<string>)

  /** What is answered to the n-th request, sent to an address with a validator or without. */
  type Server = (nat, string, Option<string>) -> Reply

  // ----- Statuses -----

  predicate Success(status: int) { 200 <= status < 300 }

  function ErrorOf(status: int, limited: bool): Error {
    if status == 404 then NotFound
    else if status == 429 || (status == 403 && limited) then RateLimited
    else if status == 401 || status == 403 then NotAuthorized
    else if status == 422 then Refused
    else Unavailable
  }

  /** Why a reply is no page of a list; None where it is one. */
  function Trouble(reply: Reply): Option<Error> {
    match reply
    case NoAnswer(error) => Some(error)
    case Answered(status, limited, body, _, _) =>
      if !Success(status) then Some(ErrorOf(status, limited)) else if body.None? then Some(Unavailable) else None
  }

  // ----- Every page -----

  datatype Ending = Whole | CutShort | Raised(error: Error)

  /** Where the n-th request goes, if there is one: the path, then each page's next link. */
  function AddressAt(server: Server, path: string, n: nat): Option<string> {
    if n == 0 then Some(path)
    else
      match AddressAt(server, path, n - 1)
      case None => None
      case Some(url) =>
        var reply := server(n - 1, url, None);
        if Trouble(reply).Some? then None else reply.next
  }

  /** The pages from the n-th on, and how the reading ends. */
  function PagesFrom(server: Server, url: Option<string>, n: nat): (read: (seq<Body>, Ending))
    requires n <= MAX_PAGES
    decreases MAX_PAGES - n
  {
    if url.None? then ([], Whole)
    else if n == MAX_PAGES then ([], CutShort)
    else
      var reply := server(n, url.value, None);
      match Trouble(reply)
      case Some(error) => ([], Raised(error))
      case None =>
        var (rest, ending) := PagesFrom(server, reply.next, n + 1);
        ([reply.body.value] + rest, ending)
  }

  /** Every page of a list, in order; CutShort is the warning that some were left. */
  method GetPages(server: Server, path: string) returns (bodies: seq<Body>, ending: Ending, requests: nat)
    ensures (bodies, ending) == PagesFrom(server, Some(path), 0)
    ensures requests == |bodies| + (if ending.Raised? then 1 else 0) && requests <= 50
  {
    bodies, requests := [], 0;
    var url := Some(path);
    assert bodies + PagesFrom(server, url, 0).0 == PagesFrom(server, url, 0).0;
    for n := 0 to MAX_PAGES
      invariant requests == n == |bodies|
      invariant var (rest, end) := PagesFrom(server, url, n);
                PagesFrom(server, Some(path), 0) == (bodies + rest, end)
    {
      if url.None? {
        assert bodies + [] == bodies;
        return bodies, Whole, requests;
      }
      var reply := server(n, url.value, None);
      requests := requests + 1;
      var trouble := Trouble(reply);
      if trouble.Some? {
        assert bodies + [] == bodies;
        return bodies, Raised(trouble.value), requests;
      }
      assert forall rest: seq<Body> :: bodies + ([reply.body.value] + rest) == (bodies + [reply.body.value]) + rest;
      bodies := bodies + [reply.body.value];
      url := reply.next;
    }
    assert bodies + [] == bodies;
    ending := if url.Some? then CutShort else Whole;
  }

  /** What was read is what the links lead to: page by page the body at the address the links name, the
      whole list unless fifty pages left a link over - the only time it warns - or a reply was no page. */
  lemma {:induction false} PagesAreWhatLinksName(server: Server, path: string, n: nat)
    requires n <= MAX_PAGES
    ensures var (bodies, ending) := PagesFrom(server, AddressAt(server, path, n), n);
            var end := n + |bodies|;
            && end <= 50
            && (forall i :: n <= i < end ==>
                  && AddressAt(server, path, i).Some?
                  && Trouble(server(i, AddressAt(server, path, i).value, None)).None?
                  && server(i, AddressAt(server, path, i).value, None).body == Some(bodies[i - n]))
            && (ending == Whole <==> AddressAt(server, path, end).None?)
            && (ending == CutShort <==> end == 50 && AddressAt(server, path, end).Some?)
            && (ending.Raised? ==>
                  Trouble(server(end, AddressAt(server, path, end).value, None)) == Some(ending.error))
    decreases MAX_PAGES - n
  {
    var url := AddressAt(server, path, n);
    if url.Some? && n < MAX_PAGES {
      var reply := server(n, url.value, None);
      if Trouble(reply).None? {
        assert AddressAt(server, path, n + 1) == reply.next;
        PagesAreWhatLinksName(server, path, n + 1);
      }
    }
  }

  // ----- Unless nothing changed -----

  /** `pages` is None for the news that nothing changed, which is not a list with nothing in it. */
  datatype PagedRead = PagedRead(etag: Option<string>, pages: Option<seq<Body>>)

  datatype Since = Got(read: PagedRead, warned: bool) | Failed(error: Error)

  /** The validator a request carries. An empty one is none (section 13.1.2 of RFC 9110). */
  function Carried(etag: Option<string>): Option<string> {
    if etag.Some? && etag.value != "" then etag else None
  }

  method GetPagesSince(server: Server, path: string, etag: Option<string>) returns (since: Since, requests: nat)
    ensures since == SinceOf(server, path, etag)
    ensures requests <= 50
  {
    requests := 1;
    var reply := server(0, path, Carried(etag));
    if reply.Answered? && reply.status == 304 {
      return Got(PagedRead(etag, None), false), requests;
    }
    var trouble := Trouble(reply);
    if trouble.Some? {
      return Failed(trouble.value), requests;
    }
    var validator := reply.etag;
    var pages := [reply.body.value];
    var url := reply.next;
    var paged := url.Some?;
    ghost var whole := PagesFrom(server, url, 1);
    for n := 1 to MAX_PAGES
      invariant requests == n
      invariant var (rest, end) := PagesFrom(server, url, n);
                ([reply.body.value] + whole.0, whole.1) == (pages + rest, end)
    {
      if url.None? {
        break;
      }
      var more := server(n, url.value, None);
      requests := requests + 1;
      trouble := Trouble(more);
      if trouble.Some? {
        return Failed(trouble.value), requests;
      }
      assert forall rest: seq<Body> :: pages + ([more.body.value] + rest) == (pages + [more.body.value]) + rest;
      pages := pages + [more.body.value];
      url := more.next;
    }
    assert pages + [] == pages;
    since := Got(PagedRead(if paged then None else validator, Some(pages)), url.Some?);
  }

  /** What a conditional read comes to, in terms of the first reply and of the pages behind it. */
  function SinceOf(server: Server, path: string, etag: Option<string>): Since {
    var first := server(0, path, Carried(etag));
    if first.Answered? && first.status == 304 then Got(PagedRead(etag, None), false)
    else if Trouble(first).Some? then Failed(Trouble(first).value)
    else
      var (rest, ending) := PagesFrom(server, first.next, 1);
      match ending
      case Raised(error) => Failed(error)
      case _ =>
        Got(PagedRead(if first.next.Some? then None else first.etag, Some([first.body.value] + rest)),
            ending == CutShort)
  }

  /** Asked without a validator, the two read the same pages, warn alike and fail alike - unless the
      server answers 304 to a question nobody put to it. */
  lemma UnconditionalIsGetPages(server: Server, path: string, etag: Option<string>)
    requires Carried(etag) == None
    ensures var (bodies, ending) := PagesFrom(server, Some(path), 0);
            var unasked := server(0, path, None).Answered? && server(0, path, None).status == 304;
            (match SinceOf(server, path, etag)
             case Failed(error) => ending == Raised(error)
             case Got(read, warned) => read.pages == Some(bodies) && !ending.Raised? && (warned <==> ending == CutShort))
            <==> !unasked
  {
  }

  /** A validator is kept only for a list that came in one page, or was not changed. */
  lemma ValidatorsSpeakForOnePage(server: Server, path: string, etag: Option<string>)
    requires SinceOf(server, path, etag).Got? && SinceOf(server, path, etag).read.etag.Some?
    ensures var read := SinceOf(server, path, etag).read;
            var first := server(0, path, Carried(etag));
            if read.pages.None? then first.status == 304 && read.etag == etag
            else |read.pages.value| == 1 && first.next.None? && read.etag == first.etag
  {
  }

  // ----- Each item once -----

  predicate NewId(found: seq<Item>, id: int) { forall i :: 0 <= i < |found| ==> found[i].id != id }

  function RowsOf(body: Body): seq<Option<Item>> { if body.Rows? then body.rows else [] }

  function AllRows(bodies: seq<Body>): seq<Option<Item>> {
    if bodies == [] then [] else AllRows(bodies[..|bodies| - 1]) + RowsOf(bodies[|bodies| - 1])
  }

  /** The items of `rows`, each at the first row that holds its id. */
  function FirstRows(rows: seq<Option<Item>>): seq<Item> {
    if rows == [] then []
    else
      var (found, last) := (FirstRows(rows[..|rows| - 1]), rows[|rows| - 1]);
      if last.Some? && NewId(found, last.value.id) then found + [last.value] else found
  }

  /** Each id once, at its first row, and none missing. */
  lemma {:induction false} FirstRowsHoldEachOnce(rows: seq<Option<Item>>)
    ensures var found := FirstRows(rows);
            && (forall i, j :: 0 <= i < j < |found| ==> found[i].id != found[j].id)
            && (forall i :: 0 <= i < |found| ==>
                  exists k :: 0 <= k < |rows| && rows[k] == Some(found[i])
                              && forall l :: 0 <= l < k && rows[l].Some? ==> rows[l].value.id != found[i].id)
            && (forall k :: 0 <= k < |rows| && rows[k].Some? ==> !NewId(found, rows[k].value.id))
  {
    if rows != [] {
      var before, last := rows[..|rows| - 1], rows[|rows| - 1];
      var found, all := FirstRows(before), FirstRows(rows);
      FirstRowsHoldEachOnce(before);
      forall i | 0 <= i < |found|
        ensures exists k :: 0 <= k < |rows| && rows[k] == Some(found[i])
                            && forall l :: 0 <= l < k && rows[l].Some? ==> rows[l].value.id != found[i].id
      {
        var k :| 0 <= k < |before| && before[k] == Some(found[i])
                 && forall l :: 0 <= l < k && before[l].Some? ==> before[l].value.id != found[i].id;
        assert rows[k] == Some(found[i]);
        assert forall l :: 0 <= l < k ==> rows[l] == before[l];
      }
      forall k | 0 <= k < |rows| && rows[k].Some?
        ensures !NewId(all, rows[k].value.id)
      {
        if k < |before| {
          assert before[k] == rows[k];
          var i :| 0 <= i < |found| && found[i].id == rows[k].value.id;
          assert all[i] == found[i];
        } else if NewId(found, last.value.id) {
          assert all[|found|] == last.value;
        }
      }
      if last.Some? && NewId(found, last.value.id) {
        assert rows[|before|] == Some(last.value);
        assert forall l :: 0 <= l < |before| ==> rows[l] == before[l];
      }
    }
  }

  lemma {:induction false} FirstRowsAppend(rows: seq<Option<Item>>, row: Option<Item>)
    ensures var found := FirstRows(rows);
            FirstRows(rows + [row]) == if row.Some? && NewId(found, row.value.id) then found + [row.value] else found
  {
    assert (rows + [row])[..|rows|] == rows;
  }

  /** A list read whole, each item once. */
  method OpenItems(server: Server, path: string) returns (found: seq<Item>, failed: Option<Error>)
    ensures var (bodies, ending) := PagesFrom(server, Some(path), 0);
            && found == FirstRows(AllRows(bodies))
            && failed == if ending.Raised? then Some(ending.error) else None
  {
    hide FirstRows, PagesFrom, AllRows, NewId;
    var bodies, ending, _ := GetPages(server, path);
    found := [];
    var ids: set<int> := {};
    NothingFound();
    assert bodies[..0] == [];
    for b := 0 to |bodies|
      invariant found == FirstRows(AllRows(bodies[..b]))
      invariant forall id :: id in ids <==> !NewId(found, id)
    {
      var rows := RowsOf(bodies[b]);
      ghost var above := AllRows(bodies[..b]);
      assert above + rows[..0] == above;
      for r := 0 to |rows|
        invariant found == FirstRows(above + rows[..r])
        invariant forall id :: id in ids <==> !NewId(found, id)
      {
        FirstRowsAppend(above + rows[..r], rows[r]);
        assert above + rows[..r + 1] == (above + rows[..r]) + [rows[r]];
        if rows[r].Some? && rows[r].value.id !in ids {
          NewIdAppend(found, rows[r].value);
          found := found + [rows[r].value];
          ids := ids + {rows[r].value.id};
        }
      }
      assert rows[..|rows|] == rows;
      assert bodies[..b + 1] == bodies[..b] + [bodies[b]];
      AllRowsAppend(bodies[..b], bodies[b]);
    }
    assert bodies[..|bodies|] == bodies;
    failed := if ending.Raised? then Some(ending.error) else None;
  }

  lemma NewIdAppend(found: seq<Item>, item: Item)
    ensures forall id :: NewId(found + [item], id) <==> NewId(found, id) && id != item.id
  {
    forall id ensures NewId(found + [item], id) <==> NewId(found, id) && id != item.id {
      assert (found + [item])[|found|] == item;
      assert forall i :: 0 <= i < |found| ==> (found + [item])[i] == found[i];
    }
  }

  lemma NothingFound()
    ensures FirstRows(AllRows([])) == [] && forall id :: NewId([], id)
  {
  }

  lemma AllRowsAppend(bodies: seq<Body>, body: Body)
    ensures AllRows(bodies + [body]) == AllRows(bodies) + RowsOf(body)
  {
    assert (bodies + [body])[..|bodies|] == bodies;
  }

  // ----- Writes -----

  datatype Url = Url(scheme: string, host: string, port: int, path: string)

  predicate SameOrigin(a: Url, b: Url) { a.scheme == b.scheme && a.host == b.host && a.port == b.port }

  /** An answer to a write: a redirect says where to, or forgets to. */
  datatype WriteReply = NotReached | Redirect(location: Option<Url>) | Settled(status: int, limited: bool)

  /** A write, followed where a rename moved it: no more than three times, and never to another host,
      which would be handed the credential. */
  method Send(server: (nat, Url) -> WriteReply, path: Url) returns (failed: Option<Error>, sent: seq<Url>)
    ensures 1 <= |sent| <= 4
    ensures sent[0] == path && forall i :: 0 <= i < |sent| ==> SameOrigin(sent[i], path)
    ensures forall i :: 0 < i < |sent| ==> server(i - 1, sent[i - 1]) == Redirect(Some(sent[i]))
    ensures failed == None <==>
              var last := server(|sent| - 1, sent[|sent| - 1]); last.Settled? && Success(last.status)
    ensures failed.Some? ==>
              var last := server(|sent| - 1, sent[|sent| - 1]);
              failed.value == if last.Settled? then ErrorOf(last.status, last.limited) else Unavailable
    ensures |sent| <= 3 ==>
              var last := server(|sent| - 1, sent[|sent| - 1]);
              last.Redirect? && last.location.Some? ==> !SameOrigin(last.location.value, path)
  {
    sent := [path];
    var reply := server(0, path);
    for n := 0 to MAX_WRITE_REDIRECTS
      invariant |sent| == n + 1
      invariant sent[0] == path && forall i :: 0 <= i < |sent| ==> SameOrigin(sent[i], path)
      invariant forall i :: 0 < i < |sent| ==> server(i - 1, sent[i - 1]) == Redirect(Some(sent[i]))
      invariant reply == server(n, sent[n])
    {
      if !reply.Redirect? {
        break;
      }
      if reply.location.None? || !SameOrigin(reply.location.value, sent[n]) {
        return Some(Unavailable), sent;
      }
      sent := sent + [reply.location.value];
      reply := server(n + 1, sent[n + 1]);
    }
    match reply
    case NotReached => failed := Some(Unavailable);
    case Redirect(_) => failed := Some(Unavailable);
    case Settled(status, limited) => failed := if Success(status) then None else Some(ErrorOf(status, limited));
  }

  // ----- When a validator is sent, and when kept -----

  /** A validator that says something goes with the first request, and only it decides whether anything
      changed; what comes back with a list is kept if and only if the list is that one page. */
  lemma ValidatorsExactly(server: Server, path: string, etag: Option<string>)
    ensures var first := server(0, path, if etag.Some? && etag.value != "" then etag else None);
            var since := SinceOf(server, path, etag);
            && (since == Got(PagedRead(etag, None), false) <==> first.Answered? && first.status == 304)
            && (since.Got? && since.read.pages.None? ==> first.Answered? && first.status == 304)
            && (since.Got? && since.read.pages.Some? ==>
                  && since.read.pages.value != [] && first.body == Some(since.read.pages.value[0])
                  && since.read.etag == if |since.read.pages.value| == 1 then first.etag else None)
  {
    var first := server(0, path, Carried(etag));
    if first.Answered? && first.next.Some? {
      assert PagesFrom(server, first.next, 1).1.Raised? || |PagesFrom(server, first.next, 1).0| >= 1;
    }
  }

  /** A reply is trouble unless it is a success with a body; and which trouble, by its status alone, but for a
      403, which is a limit where GitHub says so. */
  lemma TroubleExactly(status: int, limited: bool, body: Option<Body>, next: Option<string>, etag: Option<string>)
    ensures var trouble := Trouble(Answered(status, limited, body, next, etag));
            && (trouble == None <==> 200 <= status <= 299 && body.Some?)
            && (trouble == Some(NotFound) <==> status == 404)
            && (trouble == Some(RateLimited) <==> status == 429 || (status == 403 && limited))
            && (trouble == Some(NotAuthorized) <==> status == 401 || (status == 403 && !limited))
            && (trouble == Some(Refused) <==> status == 422)
  {
  }
}
