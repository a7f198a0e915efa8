/**
 A whole page traced from browser to output row: one listing page whose
 first load times out and whose reload shows two builds. Build A lists a
 CPU and a video card; build B has a CPU row whose price cell is missing.
 Part names, prices and links are left open.
 */
module Scenario {
  import opened Options
  import opened Text
  import opened Price
  import opened PartsTable
  import opened CsvSink
  import opened Pipeline

  /** A category header: a spanning component cell holding an `h4`. */
  function HeaderRow(title: string): Row {
    Row(Some(ComponentCell(Some("2"), Some(title))), None, None)
  }

  /** A part row with its name anchor and price cell. */
  function PartRow(name: string, price: string): Row {
    Row(Some(ComponentCell(None, None)), Some(NameCell(Some(name))), Some(price))
  }

  /** A part row whose `td__price` cell is missing. */
  function PricelessRow(name: string): Row {
    Row(Some(ComponentCell(None, None)), Some(NameCell(Some(name))), None)
  }

  // ---- One row at a time ------------------------------------------------

  lemma ClassifyPartRow(name: string, price: string)
    ensures Classify(PartRow(name, price)) == Data(Strip(name), Strip(price))
  {
  }

  /** A data row under a kept category files exactly one component. */
  lemma DataStep(row: Row, rest: seq<Row>, current: Category)
    requires Classify(row).Data? && !Skipped(current)
    ensures WalkRows([row] + rest, current)
         == Then(Completed([Component(current, Classify(row).name, Classify(row).price)]), WalkRows(rest, current))
  {
    assert ([row] + rest)[0] == row;
    assert ([row] + rest)[1..] == rest;
  }

  lemma ClassifyClean(name: string, price: string)
    requires IsStripped(name) && IsStripped(price)
    ensures Classify(PartRow(name, price)) == Data(name, price)
  {
    ClassifyPartRow(name, price);
    StripFixesStripped(name);
    StripFixesStripped(price);
  }

  lemma PartRowStep(name: string, price: string, rest: seq<Row>, current: Category)
    requires IsStripped(name) && IsStripped(price) && !Skipped(current)
    ensures WalkRows([PartRow(name, price)] + rest, current)
         == Then(Completed([Component(current, name, price)]), WalkRows(rest, current))
  {
    ClassifyClean(name, price);
    DataStep(PartRow(name, price), rest, current);
  }

  /** A header row files nothing and puts its title in force. */
  lemma HeaderStep(row: Row, rest: seq<Row>, current: Category)
    requires Classify(row).Header?
    ensures WalkRows([row] + rest, current) == WalkRows(rest, Some(Classify(row).title))
  {
    assert ([row] + rest)[0] == row;
    assert ([row] + rest)[1..] == rest;
  }

  lemma ClassifyHeaderRow(title: string)
    ensures Classify(HeaderRow(title)) == Header(Strip(title))
  {
  }

  /** A header whose title has no surrounding whitespace puts exactly that
      title in force. */
  lemma TitleHeaderStep(title: string, rest: seq<Row>, current: Category)
    requires IsStripped(title)
    ensures WalkRows([HeaderRow(title)] + rest, current) == WalkRows(rest, Some(title))
  {
    ClassifyHeaderRow(title);
    StripFixesStripped(title);
    HeaderStep(HeaderRow(title), rest, current);
  }

  lemma TitlesKept()
    ensures !Skipped(Some("CPU")) && !Skipped(Some("Video Card"))
  {
  }

  // ---- The page --------------------------------------------------------

  /** Build A's two parts: name and price text of each. */
  datatype Parts = Parts(cpu: string, cpuPrice: string, gpu: string, gpuPrice: string)

  /** Texts the site shows without surrounding whitespace. */
  predicate Clean(p: Parts) {
    IsStripped(p.cpu) && IsStripped(p.cpuPrice) && IsStripped(p.gpu) && IsStripped(p.gpuPrice)
  }

  function BuildARows(p: Parts): seq<Row> {
    [HeaderRow("CPU"), PartRow(p.cpu, p.cpuPrice), HeaderRow("Video Card"), PartRow(p.gpu, p.gpuPrice)]
  }

  function BuildBRows(name: string): seq<Row> {
    [HeaderRow("CPU"), PricelessRow(name)]
  }

  function BuildA(p: Parts): Build {
    [Component(Some("CPU"), p.cpu, p.cpuPrice), Component(Some("Video Card"), p.gpu, p.gpuPrice)]
  }

  /** From the CPU row on, build A files both its parts. */
  lemma BuildAAfterCpuHeader(p: Parts)
    requires Clean(p)
    ensures WalkRows(BuildARows(p)[1..], Some("CPU")) == Completed(BuildA(p))
  {
    var a := Component(Some("CPU"), p.cpu, p.cpuPrice);
    var b := Component(Some("Video Card"), p.gpu, p.gpuPrice);
    var tail := [PartRow(p.gpu, p.gpuPrice)];
    var middle := [HeaderRow("Video Card")] + tail;
    assert BuildARows(p)[1..] == [PartRow(p.cpu, p.cpuPrice)] + middle;
    assert tail == [PartRow(p.gpu, p.gpuPrice)] + [];
    TitlesKept();
    PartRowStep(p.gpu, p.gpuPrice, [], Some("Video Card"));
    TitleHeaderStep("Video Card", tail, Some("CPU"));
    PartRowStep(p.cpu, p.cpuPrice, middle, Some("CPU"));
  }

  /** Build A is accepted with both its parts, in table order. */
  lemma BuildAAccepted(p: Parts)
    requires Clean(p)
    ensures ExtractBuild(BuildARows(p)) == Some(BuildA(p))
  {
    var rows := BuildARows(p);
    assert rows == [HeaderRow("CPU")] + rows[1..];
    BuildAAfterCpuHeader(p);
    TitleHeaderStep("CPU", rows[1..], None);
  }

  /** Build B is discarded whole for its missing price. */
  lemma BuildBDiscarded(name: string)
    ensures ExtractBuild(BuildBRows(name)) == None
  {
    var h := HeaderRow("CPU");
    ClassifyHeaderRow("CPU");
    StripFixesStripped("CPU");
    assert [h][1..] == [];
    assert CategoryAfter([h], None) == Some("CPU");
    TitlesKept();
    MissingPriceDiscardsBuild([h], PricelessRow(name), []);
    assert [h] + [PricelessRow(name)] + [] == BuildBRows(name);
  }

  /** The listing times out once and shows both cards on the reload; the
      first navigation shows build A's part list and the second build B's. */
  function PageSession(p: Parts, other: string, linkA: string, linkB: string): Session {
    Browser(
      ListingTimedOut,
      Listing([Card(Some(linkA)), Card(Some(linkB))]),
      [PartList(BuildARows(p)), PartList(BuildBRows(other))])
  }

  lemma LinksOfTwoCards(linkA: string, linkB: string)
    ensures BuildLinks([Card(Some(linkA)), Card(Some(linkB))]) == Some([linkA, linkB])
  {
    var cards := [Card(Some(linkA)), Card(Some(linkB))];
    assert cards[1..] == [Card(Some(linkB))];
    assert cards[1..][1..] == [];
    assert [linkB] + [] == [linkB];
    assert BuildLinks(cards[1..]) == Some([linkB]);
    assert [linkA] + [linkB] == [linkA, linkB];
  }

  lemma BuildsOfTwoLinks(links: seq<string>, visits: seq<Detail>, build: Build)
    requires |links| == 2
    requires BuildAt(visits, 0) == Some(build) && BuildAt(visits, 1) == None
    ensures BuildsFromLinks(links, visits, 0) == [build]
  {
    assert BuildsFromLinks(links, visits, 2) == [];
    assert BuildsFromLinks(links, visits, 1) == [];
    assert [build] + [] == [build];
  }

  /** Only build A is kept from the page. */
  lemma PageKeepsOnlyBuildA(p: Parts, other: string, linkA: string, linkB: string)
    requires Clean(p)
    ensures ProcessPage(PageSession(p, other, linkA, linkB)) == [BuildA(p)]
  {
    var session := PageSession(p, other, linkA, linkB);
    BuildAAccepted(p);
    BuildBDiscarded(other);
    LinksOfTwoCards(linkA, linkB);
    assert BuildAt(session.visits, 0) == Some(BuildA(p));
    assert BuildAt(session.visits, 1) == None;
    BuildsOfTwoLinks([linkA, linkB], session.visits, BuildA(p));
  }

  // ---- The output row ----------------------------------------------------

  lemma NamesOfBuildA(p: Parts)
    ensures LastNameIn(BuildA(p), "CPU") == Some(p.cpu)
    ensures LastNameIn(BuildA(p), "Video Card") == Some(p.gpu)
    ensures forall col :: col != "CPU" && col != "Video Card" ==> LastNameIn(BuildA(p), col).None?
  {
    var b := BuildA(p);
    assert b[..1] == [b[0]];
    assert b[..1][..0] == [];
    forall col | col != "CPU" && col != "Video Card"
      ensures LastNameIn(b, col).None?
    {
      LastNameInAbsent(b, col);
    }
  }

  lemma TotalOfOne(c: Component)
    ensures TotalPrice([c]) == ParsePrice(c.price)
  {
    assert [c][..0] == [];
  }

  lemma TotalOfPair(b: Build)
    requires |b| == 2
    ensures TotalPrice(b) == ParsePrice(b[0].price) + ParsePrice(b[1].price)
  {
    assert b[..1] == [b[0]];
    TotalOfOne(b[0]);
  }

  lemma TotalOfBuildA(p: Parts)
    ensures TotalPrice(BuildA(p)) == ParsePrice(p.cpuPrice) + ParsePrice(p.gpuPrice)
  {
    TotalOfPair(BuildA(p));
  }

  lemma RowColumnsOfBuildA(p: Parts)
    ensures var row := BuildRow(1, BuildA(p));
      && "CPU" in row && row["CPU"] == TextCell(p.cpu)
      && "Video Card" in row && row["Video Card"] == TextCell(p.gpu)
      && (forall col :: IsPartColumn(col) && col != "CPU" && col != "Video Card" ==> col in row && row[col] == TextCell(""))
  {
    NamesOfBuildA(p);
    RowPartColumns(1, BuildA(p));
    assert IsPartColumn("CPU") && IsPartColumn("Video Card");
  }

  lemma RowIdOfBuildA(p: Parts)
    ensures "build_id" in BuildRow(1, BuildA(p))
    ensures BuildRow(1, BuildA(p))["build_id"] == IdCell(1)
  {
    NamesOfBuildA(p);
    RowId(1, BuildA(p));
  }

  /** The run gathers exactly build A, which becomes row 1. */
  lemma PageRow(p: Parts, other: string, linkA: string, linkB: string)
    requires Clean(p)
    ensures Collect([Returned(ProcessPage(PageSession(p, other, linkA, linkB)))]) == [BuildA(p)]
  {
    PageKeepsOnlyBuildA(p, other, linkA, linkB);
    var b := BuildA(p);
    assert [Returned([b])][1..] == [];
    assert [b] + [] == [b];
  }

  // ---- Prices in dollars ---------------------------------------------------

  /** A dollar price as the site shows it, such as `$300.00`. */
  function Dollars(cents: nat): string {
    "$" + RenderCents(cents)
  }

  lemma DollarsStripped(cents: nat)
    ensures IsStripped(Dollars(cents))
  {
    var s := Dollars(cents);
    assert s[0] == '$';
    assert IsDigit(s[|s| - 1]);
  }

  lemma DollarsAmount(cents: nat)
    ensures ParsePrice(Dollars(cents)) == cents as real / 100.0
  {
    ParsePriceOfTaggedAmount("$", cents);
  }

  /** Build A priced in dollars: its texts are clean as soon as its names
      are, so the page keeps it, and its total is the sum of the amounts. */
  lemma DollarBuildTotal(cpu: string, gpu: string, cpuCents: nat, gpuCents: nat)
    requires IsStripped(cpu) && IsStripped(gpu)
    ensures Clean(Parts(cpu, Dollars(cpuCents), gpu, Dollars(gpuCents)))
    ensures TotalPrice(BuildA(Parts(cpu, Dollars(cpuCents), gpu, Dollars(gpuCents))))
         == (cpuCents + gpuCents) as real / 100.0
  {
    var p := Parts(cpu, Dollars(cpuCents), gpu, Dollars(gpuCents));
    DollarsStripped(cpuCents);
    DollarsStripped(gpuCents);
    TotalOfBuildA(p);
    DollarsAmount(cpuCents);
    DollarsAmount(gpuCents);
  }
}
