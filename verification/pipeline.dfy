/**
 What one pool job does with its page (`process_page`), and how the main
 program gathers the jobs' results before saving them. Every browser
 interaction is an input: a `Session` says what the browser shows when the
 job asks for the listing page (first load and, after a timeout, the
 reload) and for each build link.
 */
module Pipeline {
  import opened Options
  import opened PartsTable
  import opened CsvSink

  /** A `logGroup` listing card: the `href` of its `a.logGroup__target`
      anchor, or `None` when the card has no such anchor. */
  datatype Card = Card(target: Option<string>)

  /** The listing page after the 30-second wait for `logGroup` cards. */
  datatype Listing = ListingTimedOut | Listing(cards: seq<Card>)

  /** A build page: its parts-table rows, or `DetailFailed` when the wait
      for the part list timed out or any other error left the build
      unprocessed. */
  datatype Detail = DetailFailed | PartList(rows: seq<Row>)

  /** What one job's browser produces. `DriverFailed` is a
      `WebDriverException` from `get_driver`. Otherwise `visits[k]` is what
      the browser shows on the job's `k`-th navigation to a build link;
      navigations past the end of `visits` show no part list. Each
      navigation has its own answer, so a link listed on two cards can fail
      once and load the next time. */
  datatype Session =
    | DriverFailed
    | Browser(firstLoad: Listing, reload: Listing, visits: seq<Detail>)

  /** The listing the job works from: the reload is used only when the
      first load timed out. */
  function EffectiveListing(firstLoad: Listing, reload: Listing): Listing {
    if firstLoad.ListingTimedOut? then reload else firstLoad
  }

  /** The list comprehension over the cards: one link per card, or `None`
      as soon as one card lacks its anchor, since the exception aborts the
      whole comprehension. */
  function BuildLinks(cards: seq<Card>): (links: Option<seq<string>>)
    ensures links.Some? <==> forall i :: 0 <= i < |cards| ==> cards[i].target.Some?
    ensures links.Some? ==> |links.value| == |cards|
    ensures links.Some? ==> forall i :: 0 <= i < |cards| ==> links.value[i] == cards[i].target.value
    decreases |cards|
  {
    if cards == [] then Some([])
    else if cards[0].target.None? then None
    else
      match BuildLinks(cards[1..])
      case None => None
      case Some(rest) => Some([cards[0].target.value] + rest)
  }

  /** What the browser shows on navigation `k`. */
  function Visit(visits: seq<Detail>, k: nat): Detail {
    if k < |visits| then visits[k] else DetailFailed
  }

  /** The build navigation `k` yields, if any. */
  function BuildAt(visits: seq<Detail>, k: nat): Option<Build> {
    match Visit(visits, k)
    case DetailFailed => None
    case PartList(rows) => ExtractBuild(rows)
  }

  /** The loop over the build links from position `i` on: each accepted
      build, in link order. The `k`-th link is the `k`-th navigation. */
  function BuildsFromLinks(links: seq<string>, visits: seq<Detail>, i: nat): (builds: seq<Build>)
    requires i <= |links|
    ensures |builds| <= |links| - i
    ensures forall b :: b in builds ==> b != []
    decreases |links| - i
  {
    if i == |links| then []
    else
      var rest := BuildsFromLinks(links, visits, i + 1);
      match BuildAt(visits, i)
      case None => rest
      case Some(b) => [b] + rest
  }

  /** `process_page` for one job: the accepted builds of the page. */
  function ProcessPage(session: Session): (builds: seq<Build>)
    ensures forall b :: b in builds ==> b != []
  {
    match session
    case DriverFailed => []
    case Browser(firstLoad, reload, visits) =>
      match EffectiveListing(firstLoad, reload)
      case ListingTimedOut => []
      case Listing(cards) =>
        match BuildLinks(cards)
        case None => []
        case Some(links) => BuildsFromLinks(links, visits, 0)
  }

  // ---- Properties of a page ----------------------------------------------

  /** Every build of the loop is the accepted build of one of its links. */
  lemma {:induction false} BuildsComeFromLinks(links: seq<string>, visits: seq<Detail>, i: nat)
    requires i <= |links|
    ensures forall b :: b in BuildsFromLinks(links, visits, i) ==>
      exists j :: i <= j < |links| && BuildAt(visits, j) == Some(b)
    decreases |links| - i
  {
    if i < |links| {
      BuildsComeFromLinks(links, visits, i + 1);
    }
  }

  /** Every link that yields a build contributes it to the page. */
  lemma {:induction false} AcceptedLinkContributes(links: seq<string>, visits: seq<Detail>, i: nat, j: nat)
    requires i <= j < |links| && BuildAt(visits, j).Some?
    ensures BuildAt(visits, j).value in BuildsFromLinks(links, visits, i)
    decreases |links| - i
  {
    if i < j {
      AcceptedLinkContributes(links, visits, i + 1, j);
    }
  }

  /** A card without its anchor empties the whole page, even when every other
      card leads to a good build. */
  lemma CardWithoutAnchorEmptiesPage(firstLoad: Listing, reload: Listing, visits: seq<Detail>)
    requires EffectiveListing(firstLoad, reload).Listing?
    requires exists i ::
      && 0 <= i < |EffectiveListing(firstLoad, reload).cards|
      && EffectiveListing(firstLoad, reload).cards[i].target.None?
    ensures ProcessPage(Browser(firstLoad, reload, visits)) == []
  {
  }

  /** The reload matters only when the first load timed out; when both time
      out the page yields nothing. */
  lemma ReloadOnlyAfterTimeout(firstLoad: Listing, reload: Listing, other: Listing, visits: seq<Detail>)
    ensures firstLoad.Listing? ==>
      ProcessPage(Browser(firstLoad, reload, visits)) == ProcessPage(Browser(firstLoad, other, visits))
    ensures ProcessPage(Browser(ListingTimedOut, ListingTimedOut, visits)) == []
  {
  }

  /** With all anchors present, the page holds no more builds than cards,
      and each of its builds is the accepted build of one card's visit. */
  lemma PageIsBuildsOfCards(firstLoad: Listing, reload: Listing, visits: seq<Detail>)
    requires EffectiveListing(firstLoad, reload).Listing?
    requires forall i :: 0 <= i < |EffectiveListing(firstLoad, reload).cards| ==>
      EffectiveListing(firstLoad, reload).cards[i].target.Some?
    ensures var cards := EffectiveListing(firstLoad, reload).cards;
      && |ProcessPage(Browser(firstLoad, reload, visits))| <= |cards|
      && forall b :: b in ProcessPage(Browser(firstLoad, reload, visits)) ==>
           exists i :: 0 <= i < |cards| && BuildAt(visits, i) == Some(b)
  {
    var cards := EffectiveListing(firstLoad, reload).cards;
    var links := BuildLinks(cards).value;
    BuildsComeFromLinks(links, visits, 0);
  }

  /** The positions `i .. |links| - 1` whose navigation yields a build, in
      increasing order. */
  function AcceptedFrom(links: seq<string>, visits: seq<Detail>, i: nat): (f: seq<nat>)
    requires i <= |links|
    ensures forall k :: 0 <= k < |f| ==> i <= f[k] < |links|
    ensures forall k, l :: 0 <= k < l < |f| ==> f[k] < f[l]
    ensures forall j :: i <= j < |links| ==> (j in f <==> BuildAt(visits, j).Some?)
    decreases |links| - i
  {
    if i == |links| then []
    else
      var rest := AcceptedFrom(links, visits, i + 1);
      if BuildAt(visits, i).Some? then [i] + rest else rest
  }

  /** The loop keeps one build per accepted link, in link order: the `k`-th
      build is the build of the `k`-th accepted position. */
  lemma {:induction false} BuildsInLinkOrder(links: seq<string>, visits: seq<Detail>, i: nat)
    requires i <= |links|
    ensures |BuildsFromLinks(links, visits, i)| == |AcceptedFrom(links, visits, i)|
    ensures forall k :: 0 <= k < |AcceptedFrom(links, visits, i)| ==>
      BuildAt(visits, AcceptedFrom(links, visits, i)[k]) == Some(BuildsFromLinks(links, visits, i)[k])
    decreases |links| - i
  {
    if i < |links| {
      var builds, rest := BuildsFromLinks(links, visits, i), BuildsFromLinks(links, visits, i + 1);
      var f, g := AcceptedFrom(links, visits, i), AcceptedFrom(links, visits, i + 1);
      BuildsInLinkOrder(links, visits, i + 1);
      if BuildAt(visits, i).Some? {
        var at := k => BuildAt(visits, k);
        PrependAccepted(at, i, builds, rest, f, g);
      } else {
        assert builds == rest && f == g;
      }
    }
  }

  /** An accepted position in front puts its value first and itself first,
      whatever `at` looks the positions up in. */
  lemma PrependAccepted<T>(at: nat -> Option<T>, i: nat, values: seq<T>, rest: seq<T>, f: seq<nat>, g: seq<nat>)
    requires at(i).Some?
    requires values == [at(i).value] + rest && f == [i] + g && |rest| == |g|
    requires forall k :: 0 <= k < |g| ==> at(g[k]) == Some(rest[k])
    ensures |values| == |f|
    ensures forall k :: 0 <= k < |f| ==> at(f[k]) == Some(values[k])
  {
    forall k | 0 <= k < |f|
      ensures at(f[k]) == Some(values[k])
    {
      if k > 0 {
        var j := k - 1;
        assert f[k] == g[j] && values[k] == rest[j];
        assert at(g[j]) == Some(rest[j]);
      }
    }
  }

  /** The links `BuildLinks` reads off cards that all have their anchor. */
  function Targets(cards: seq<Card>): (links: seq<string>)
    requires forall i :: 0 <= i < |cards| ==> cards[i].target.Some?
    ensures BuildLinks(cards) == Some(links)
  {
    var links := seq(|cards|, i requires 0 <= i < |cards| => cards[i].target.value);
    assert BuildLinks(cards).value == links;
    links
  }

  /** With all anchors present, the page is exactly the accepted builds of
      its cards' visits, one for each such card, in card order. */
  lemma PageInCardOrder(firstLoad: Listing, reload: Listing, visits: seq<Detail>)
    requires EffectiveListing(firstLoad, reload).Listing?
    requires forall i :: 0 <= i < |EffectiveListing(firstLoad, reload).cards| ==>
      EffectiveListing(firstLoad, reload).cards[i].target.Some?
    ensures var links := Targets(EffectiveListing(firstLoad, reload).cards);
      && |ProcessPage(Browser(firstLoad, reload, visits))| == |AcceptedFrom(links, visits, 0)|
      && forall k :: 0 <= k < |AcceptedFrom(links, visits, 0)| ==>
           BuildAt(visits, AcceptedFrom(links, visits, 0)[k]) == Some(ProcessPage(Browser(firstLoad, reload, visits))[k])
  {
    var links := Targets(EffectiveListing(firstLoad, reload).cards);
    BuildsInLinkOrder(links, visits, 0);
  }

  /** A link listed on two cards is visited twice, and the visits are
      independent: when the first fails and the second loads an accepted
      part list, the page keeps that one build. */
  lemma RepeatedLinkVisitedTwice(link: string, rows: seq<Row>)
    requires ExtractBuild(rows).Some?
    ensures ProcessPage(Browser(Listing([Card(Some(link)), Card(Some(link))]), ListingTimedOut,
                                [DetailFailed, PartList(rows)]))
         == [ExtractBuild(rows).value]
  {
    var cards := [Card(Some(link)), Card(Some(link))];
    var links := Targets(cards);
    var visits := [DetailFailed, PartList(rows)];
    var b := ExtractBuild(rows).value;
    assert |links| == 2;
    assert BuildAt(visits, 0).None? && BuildAt(visits, 1) == Some(b);
    assert BuildsFromLinks(links, visits, 2) == [];
    assert BuildsFromLinks(links, visits, 1) == [b] + [];
    assert BuildsFromLinks(links, visits, 0) == [b];
  }

  // ---- Gathering the jobs ------------------------------------------------

  /** How a job's future ended: with the page's builds, or by raising, which
      the main program logs and skips. */
  datatype JobOutcome = Returned(builds: seq<Build>) | Raised

  /** `all_builds`: the builds of the jobs in the order they completed. */
  function Collect(outcomes: seq<JobOutcome>): seq<Build>
    decreases |outcomes|
  {
    if outcomes == [] then []
    else
      var rest := Collect(outcomes[1..]);
      match outcomes[0]
      case Raised => rest
      case Returned(builds) => builds + rest
  }

  lemma {:induction false} CollectAppend(a: seq<JobOutcome>, b: seq<JobOutcome>)
    ensures Collect(a + b) == Collect(a) + Collect(b)
    decreases |a|
  {
    if a == [] {
      assert a + b == b;
    } else {
      assert (a + b)[0] == a[0];
      assert (a + b)[1..] == a[1..] + b;
      CollectAppend(a[1..], b);
    }
  }

  /** A job that raised contributes nothing and leaves every other job's
      builds in place. */
  lemma RaisedJobIsIsolated(before: seq<JobOutcome>, after: seq<JobOutcome>)
    ensures Collect(before + [Raised] + after) == Collect(before) + Collect(after)
  {
    CollectAppend(before + [Raised], after);
    CollectAppend(before, [Raised]);
    assert Collect([Raised]) == [];
    assert Collect(before) + [] == Collect(before);
  }

  /** Which builds are saved does not depend on the order the jobs finished
      in; only their numbering does. */
  lemma {:induction false} CollectOrderInsensitive(a: seq<JobOutcome>, b: seq<JobOutcome>)
    requires multiset(a) == multiset(b)
    ensures multiset(Collect(a)) == multiset(Collect(b))
    decreases |a|
  {
    if a == [] {
      assert |b| == |multiset(b)| == 0;
    } else {
      var x := a[0];
      assert x in multiset(b);
      var j :| 0 <= j < |b| && b[j] == x;
      var b' := b[..j] + b[j + 1..];
      assert b == b[..j] + [x] + b[j + 1..];
      assert a == [x] + a[1..];
      assert multiset(a[1..]) == multiset(b') by {
        assert multiset(a) == multiset([x]) + multiset(a[1..]);
        assert multiset(b) == multiset(b[..j]) + multiset([x]) + multiset(b[j + 1..]);
        assert multiset(b') == multiset(b[..j]) + multiset(b[j + 1..]);
        assert multiset(a[1..]) == multiset(a) - multiset([x]);
        assert multiset(b') == multiset(b) - multiset([x]);
      }
      CollectOrderInsensitive(a[1..], b');
      CollectAppend([x], a[1..]);
      CollectAppend(b[..j] + [x], b[j + 1..]);
      CollectAppend(b[..j], [x]);
      CollectAppend(b[..j], b[j + 1..]);
    }
  }

  /** The whole run after the pool has finished: gather the jobs' results in
      completion order and write one numbered row per build. */
  method SaveRun(outcomes: seq<JobOutcome>) returns (rows: seq<CsvRow>)
    ensures |rows| == |Collect(outcomes)|
    ensures forall i :: 0 <= i < |rows| ==> rows[i] == BuildRow(i + 1, Collect(outcomes)[i])
  {
    rows := SaveToCsv(Collect(outcomes));
  }
}
