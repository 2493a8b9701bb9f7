/** A body from GitHub to Discord, end to end: pictures lifted, lines opened, text cut, commits and links
    written, and what was left open closed. */
module Pipeline {
  import opened Text
  import opened Fences
  import opened DrawnLines
  import opened RichText
  import opened RichTextTheorems
  import opened LinkTheorems
  import opened JoinTheorems

  // ----- The gallery -----

  /** Every picture a body writes, in order. */
  function Pictures(s: string, from: nat): seq<Link>
    requires from <= |s|
    decreases |s| - from
  {
    if from == |s| then []
    else
      match ImageAt(s, from)
      case Some(image) => [image] + Pictures(s, image.end)
      case None => Pictures(s, from + 1)
  }

  predicate Served(lib: Library, url: string) {
    HostOf(lib, url).Some? && IsGitHub(HostOf(lib, url).value)
  }

  predicate NewAddress(first: seq<Link>, url: string) {
    forall i :: 0 <= i < |first| ==> first[i].url != url
  }

  /** The pictures GitHub serves, each address once, as it was first written. */
  function FirstServed(lib: Library, pictures: seq<Link>): seq<Link> {
    if pictures == [] then []
    else
      var last := pictures[|pictures| - 1];
      var first := FirstServed(lib, pictures[..|pictures| - 1]);
      if Served(lib, last.url) && NewAddress(first, last.url) then first + [last] else first
  }

  /** A picture is kept as it was first written: no picture in front of it has its address. */
  predicate WrittenFirst(pictures: seq<Link>, picture: Link) {
    exists k :: 0 <= k < |pictures| && pictures[k] == picture && NewAddress(pictures[..k], picture.url)
  }

  lemma StillWrittenFirst(pictures: seq<Link>, picture: Link, last: Link)
    requires WrittenFirst(pictures, picture)
    ensures WrittenFirst(pictures + [last], picture)
  {
    hide NewAddress;
    var k :| 0 <= k < |pictures| && pictures[k] == picture && NewAddress(pictures[..k], picture.url);
    assert (pictures + [last])[..k] == pictures[..k] && (pictures + [last])[k] == picture;
  }

  lemma LastIsFirst(lib: Library, before: seq<Link>, first: seq<Link>, last: Link)
    requires Served(lib, last.url) && NewAddress(first, last.url)
    requires forall k :: 0 <= k < |before| && Served(lib, before[k].url) ==> !NewAddress(first, before[k].url)
    ensures WrittenFirst(before + [last], last)
  {
    hide Served;
    assert (before + [last])[..|before|] == before && (before + [last])[|before|] == last;
    forall k | 0 <= k < |before| ensures before[k].url != last.url {
    }
  }

  /** Which are exactly the addresses GitHub serves, none twice, each as it was first written. */
  lemma {:induction false} FirstServedOnce(lib: Library, pictures: seq<Link>)
    ensures var first := FirstServed(lib, pictures);
            && (forall i :: 0 <= i < |first| ==> Served(lib, first[i].url) && WrittenFirst(pictures, first[i]))
            && (forall i, j :: 0 <= i < j < |first| ==> first[i].url != first[j].url)
            && (forall k :: 0 <= k < |pictures| && Served(lib, pictures[k].url) ==> !NewAddress(first, pictures[k].url))
  {
    hide Served, WrittenFirst;
    if pictures != [] {
      var before, last := pictures[..|pictures| - 1], pictures[|pictures| - 1];
      var first, all := FirstServed(lib, before), FirstServed(lib, pictures);
      FirstServedOnce(lib, before);
      assert pictures == before + [last];
      forall k | 0 <= k < |before| && Served(lib, before[k].url)
        ensures !NewAddress(all, pictures[k].url)
      {
        var i :| 0 <= i < |first| && first[i].url == before[k].url;
        assert all[i] == first[i];
      }
      forall i | 0 <= i < |first| ensures WrittenFirst(pictures, first[i]) {
        StillWrittenFirst(before, first[i], last);
      }
      if Served(lib, last.url) && NewAddress(first, last.url) {
        assert all[|first|] == last;
        LastIsFirst(lib, before, first, last);
      }
    }
  }

  function Take<T>(s: seq<T>, n: nat): seq<T> { if |s| <= n then s else s[..n] }

  lemma TakeServed(lib: Library, pictures: seq<Link>, picture: Link)
    ensures var lifted := Take(FirstServed(lib, pictures), IMAGES_SHOWN);
            Take(FirstServed(lib, pictures + [picture]), IMAGES_SHOWN)
            == if |lifted| < IMAGES_SHOWN && Served(lib, picture.url) && NewAddress(lifted, picture.url)
               then lifted + [picture] else lifted
  {
    hide Served;
    assert (pictures + [picture])[..|pictures|] == pictures;
  }

  /** The first four of them. */
  method LiftPictures(lib: Library, body: string) returns (lifted: seq<Link>)
    ensures lifted == Take(FirstServed(lib, Pictures(body, 0)), 4)
  {
    hide Served, Pictures, FirstServed, Take, NewAddress;
    var pictures := Pictures(body, 0);
    lifted := [];
    NothingServed(lib);
    assert pictures[..0] == [];
    for k := 0 to |pictures|
      invariant lifted == Take(FirstServed(lib, pictures[..k]), IMAGES_SHOWN)
    {
      assert pictures[..k + 1] == pictures[..k] + [pictures[k]];
      TakeServed(lib, pictures[..k], pictures[k]);
      if |lifted| < IMAGES_SHOWN && Served(lib, pictures[k].url) && NewAddress(lifted, pictures[k].url) {
        lifted := lifted + [pictures[k]];
      }
    }
    assert pictures[..|pictures|] == pictures;
  }

  lemma NothingServed(lib: Library)
    ensures Take(FirstServed(lib, []), IMAGES_SHOWN) == []
  {
  }

  // ----- Commits -----

  lemma {:induction false} InOrderPrefix(commits: seq<Commit>, from: nat, to: nat, n: nat)
    requires InOrder(commits, from, to)
    ensures InOrder(Take(commits, n), from, to)
    decreases |commits|
  {
    if n > 0 && |commits| > n {
      assert Take(commits, n)[1..] == Take(commits[1..], n - 1);
      InOrderPrefix(commits[1..], commits[0].end, to, n - 1);
    }
  }

  /** The first hashes a text names, each as a link where its address can be built. */
  function WithCommits(lib: Library, text: string): string
    requires InOrder(lib.commits(text), 0, |text|)
  {
    InOrderPrefix(lib.commits(text), 0, |text|, COMMIT_LINK_LIMIT);
    Spliced(text, 0, Take(lib.commits(text), COMMIT_LINK_LIMIT))
  }

  lemma {:induction false} SplicedStep(text: string, typedFrom: nat, from: nat, commits: seq<Commit>)
    requires typedFrom <= from <= |text| && InOrder(commits, from, |text|)
    ensures InOrder(commits, typedFrom, |text|)
    ensures text[typedFrom..from] + Spliced(text, from, commits) == Spliced(text, typedFrom, commits)
    decreases |commits|
  {
    var before := text[typedFrom..from];
    if commits == [] {
      assert before + text[from..] == text[typedFrom..];
    } else {
      var first := commits[0];
      var rest := Spliced(text, first.end, commits[1..]);
      if first.link.None? {
        assert before + text[from..first.end] == text[typedFrom..first.end];
        assert before + (text[from..first.end] + rest) == before + text[from..first.end] + rest;
      } else {
        var link := first.link.value;
        assert before + text[from..first.start] == text[typedFrom..first.start];
        assert before + (text[from..first.start] + link + rest) == before + text[from..first.start] + link + rest;
      }
    }
  }

  method LinkCommits(lib: Library, text: string) returns (out: string)
    requires InOrder(lib.commits(text), 0, |text|)
    ensures out == WithCommits(lib, text)
    ensures InOrder(Take(lib.commits(text), 5), 0, |text|) && out == Spliced(text, 0, Take(lib.commits(text), 5))
  {
    InOrderPrefix(lib.commits(text), 0, |text|, COMMIT_LINK_LIMIT);
    var commits := Take(lib.commits(text), COMMIT_LINK_LIMIT);
    out := [];
    var typedFrom: nat := 0;
    assert commits[0..] == commits;
    for k := 0 to |commits|
      invariant typedFrom <= |text| && InOrder(commits[k..], typedFrom, |text|)
      invariant WithCommits(lib, text) == out + Spliced(text, typedFrom, commits[k..])
    {
      var commit := commits[k];
      assert commits[k..][1..] == commits[k + 1..];
      if commit.link.None? {
        SplicedStep(text, typedFrom, commit.end, commits[k + 1..]);
      } else {
        out := out + text[typedFrom..commit.start] + commit.link.value;
        typedFrom := commit.end;
      }
    }
    out := out + text[typedFrom..];
  }

  /** A commit's hash and its link are words of their own, with no fence in them. */
  predicate Plain(s: string) { Sealed(s) && FencesIn(s) == 0 }

  predicate PlainCommits(text: string, commits: seq<Commit>)
  {
    forall c <- commits ::
      c.start <= c.end <= |text| && Plain(text[c.start..c.end]) && (c.link.Some? ==> Plain(c.link.value))
  }

  lemma {:induction false} SplicedScansAlike(st: Scan, text: string, from: nat, commits: seq<Commit>)
    requires from <= |text| && InOrder(commits, from, |text|) && PlainCommits(text, commits) && st.pending < 3
    ensures Scanned(st, Spliced(text, from, commits)) == Scanned(st, text[from..])
    decreases |commits|
  {
    hide Scanned, Plain, Sealed, FencesIn;
    if commits != [] {
      var first := commits[0];
      var hash := text[first.start..first.end];
      assert first in commits && forall c <- commits[1..] :: c in commits;
      var before, rest := text[from..first.start], text[first.end..];
      assert text[from..] == before + hash + rest && text[from..first.end] == before + hash;
      ScanAppend(st, before + hash, rest);
      ScanAppend(st, before, hash);
      var middle := Scanned(st, before);
      PendingStaysShort(st, before);
      PlainScan(middle, hash);
      var after := Scanned(middle, hash);
      PendingStaysShort(middle, hash);
      SplicedScansAlike(after, text, first.end, commits[1..]);
      var spliced := Spliced(text, first.end, commits[1..]);
      if first.link.None? {
        ScanAppend(st, before + hash, spliced);
      } else {
        PlainScan(middle, first.link.value);
        ScanAppend(st, before + first.link.value, spliced);
        ScanAppend(st, before, first.link.value);
      }
    }
  }

  lemma PlainScan(st: Scan, s: string)
    requires Plain(s) && st.pending < 3
    ensures Scanned(st, s) == Scan(0, st.odd, st.above)
  {
    SealedScan(st, s);
  }

  // ----- End to end -----

  /** The text once its lines are opened and it is cut, which is all the line reader decided. */
  function CutText(body: string, limit: nat, images: Images): string {
    WhatIsShownFits(body, images);
    var written := Written(body);
    Cut(WithoutBlankRuns(Rewritten(written, Some(ToBeShown(written, images)))), limit)
  }

  /** And once commits are written into it, which is the text whose links are rewritten. */
  function ToBeLinked(lib: Library, body: string, limit: nat, images: Images, repository: bool): string
    requires repository ==> InOrder(lib.commits(CutText(body, limit, images)), 0, |CutText(body, limit, images)|)
  {
    var text := CutText(body, limit, images);
    if repository then WithCommits(lib, text) else text
  }

  function LinkedText(lib: Library, body: string, limit: nat, images: Images, repository: bool): string
    requires repository ==> InOrder(lib.commits(CutText(body, limit, images)), 0, |CutText(body, limit, images)|)
  {
    Relinked(lib, ToBeLinked(lib, body, limit, images, repository))
  }

  /** A body for Discord. The line reader always takes what it is handed, and nothing is left open. */
  method AsRichText(lib: Library, body: string, limit: nat, images: Images, repository: bool)
    returns (text: string, lifted: seq<Link>)
    requires repository ==> InOrder(lib.commits(CutText(body, limit, images)), 0, |CutText(body, limit, images)|)
    ensures text == Balanced(LinkedText(lib, body, limit, images, repository))
    ensures !Odd(Count(BOLD, text)) && !Odd(FencesIn(text))
    ensures lifted == if images.Lift?
                      then Take(FirstServed(lib, Pictures(WithoutComments(Written(body), 0), 0)), 4)
                      else []
  {
    hide Written, WithoutComments, Shown, PicturesAsLinks, Pictures, FirstServed, Rewritten, Cut, WithoutBlankRuns;
    hide WithCommits, Relinked, Balanced, FencesIn;
    var written := Written(body);
    text := WithoutComments(written, 0);
    lifted := [];
    if images.Lift? {
      lifted := LiftPictures(lib, text);
      text := Shown(text, 0);
    } else {
      text := PicturesAsLinks(text, 0);
    }
    WhatIsShownFits(body, images);
    var said, _ := LinesAsGithubDrewThem(written, Some(text));
    text := Cut(WithoutBlankRuns(said.value), limit);
    if repository {
      text := LinkCommits(lib, text);
    }
    text := RewriteLinks(lib, text);
    BalancedIsBalanced(text);
    text := Balanced(text);
  }

  /** Nothing after the cut moves code: line by line the published text, before what is left open is
      closed, has an odd number of fences exactly where the cut text had. */
  lemma CodeStaysWhereItWasCut(lib: Library, body: string, limit: nat, images: Images, repository: bool)
    requires var text := CutText(body, limit, images);
             repository ==> InOrder(lib.commits(text), 0, |text|) && PlainCommits(text, lib.commits(text))
    requires var pieces := Pieces(ToBeLinked(lib, body, limit, images, repository), 0);
             NamesAreWords(lib, pieces) && NamesAreEven(lib, pieces)
    ensures LineParities(LinkedText(lib, body, limit, images, repository)) == LineParities(CutText(body, limit, images))
  {
    hide CutText, LineParities, Relinked, Spliced, NamesAreWords, NamesAreEven;
    var text := CutText(body, limit, images);
    if repository {
      var commits := Take(lib.commits(text), COMMIT_LINK_LIMIT);
      InOrderPrefix(lib.commits(text), 0, |text|, COMMIT_LINK_LIMIT);
      SplicedScansAlike(START, text, 0, commits);
      SameParities(text, WithCommits(lib, text));
      LinksKeepFences(lib, WithCommits(lib, text));
    } else {
      LinksKeepFences(lib, text);
    }
  }

  lemma SameParities(a: string, b: string)
    requires Scanned(START, b) == Scanned(START, a[0..])
    ensures LineParities(a) == LineParities(b)
  {
    assert a[0..] == a;
  }

  /** What is closed at the end adds no link: every `](` published is one written for a host GitHub
      serves, unless a link off GitHub opens its words on `(` right behind a typed `]`. */
  lemma PublishedLinks(lib: Library, text: string)
    requires NamesAreOpen(lib, Pieces(text, 0))
    ensures JoinsIn(Balanced(Relinked(lib, text)))
         == LinksToGitHub(lib, Pieces(text, 0)) + Forged(lib, Pieces(text, 0))
  {
    hide Balanced, Relinked, JoinsIn, Pieces, LinksToGitHub, Forged, Forges;
    EveryJoinIsAccountedFor(lib, text);
    ClosingAddsNoJoin(Relinked(lib, text));
  }

  lemma ClosingAddsNoJoin(text: string)
    ensures JoinsIn(Balanced(text)) == JoinsIn(text)
  {
    hide JoinsIn;
    NoJoins("**");
    NoJoins("\n```");
    JoinsAppend(text, "**");
    JoinsAppend(ClosedWith(text, BOLD, "**"), "\n```");
  }
}
