/**
 The parts table of one build page and the walk `process_page` makes over
 it. The browser is abstracted away: a row is described by which of the
 cells the scraper looks for are present, and by their text.
 */
module PartsTable {
  import opened Options
  import opened Text

  /** Categories whose rows are never turned into components. */
  const SkipComponents: set<string> := {
    "Case Fan", "Case", "Keyboard", "Storage", "Mouse", "Operating System",
    "Monitor", "Speakers", "Headphones", "Sound Card",
    "Wired Network Adapter", "Wireless Network Adapter"
  }

  /** The category in force: `None` until the first header row. */
  type Category = Option<string>

  /** `current_category in SKIP_COMPONENTS`; `None` is never skipped. */
  predicate Skipped(category: Category) {
    category.Some? && category.value in SkipComponents
  }

  /** The `td__component` cell: its `colspan` attribute (absent is `None`)
      and the text of its `h4` element, if it has one. */
  datatype ComponentCell = ComponentCell(colspan: Option<string>, heading: Option<string>)

  /** The `td__name` cell: the text of its anchor, if it has one. */
  datatype NameCell = NameCell(anchor: Option<string>)

  /** One `tr` of the parts table: each cell the scraper looks up, or `None`
      where the lookup raises `NoSuchElementException`. */
  datatype Row = Row(component: Option<ComponentCell>, name: Option<NameCell>, price: Option<string>)

  /** One scraped part. */
  datatype Component = Component(category: Category, name: string, price: string)

  /** The components of one accepted build, in table order. */
  type Build = seq<Component>

  /** What a row means to the walk, whatever category is in force. */
  datatype RowKind = Header(title: string) | Data(name: string, price: string) | Malformed

  /** A component cell spanning two columns that holds an `h4`. */
  predicate IsHeaderRow(row: Row) {
    && row.component.Some?
    && row.component.value.colspan == Some("2")
    && row.component.value.heading.Some?
  }

  /** A row that is not a header and lacks the name cell, its anchor or the
      price cell. A spanning cell without `h4` is not a header: such a row
      falls through and is read as data. */
  predicate IsMalformedRow(row: Row) {
    && !IsHeaderRow(row)
    && (row.name.None? || row.name.value.anchor.None? || row.price.None?)
  }

  /** Every text the scraper keeps is stripped. */
  function Classify(row: Row): (k: RowKind)
    ensures k.Header? ==> IsStripped(k.title)
    ensures k.Data? ==> IsStripped(k.name) && IsStripped(k.price)
  {
    if IsHeaderRow(row) then Header(Strip(row.component.value.heading.value))
    else if IsMalformedRow(row) then Malformed
    else Data(Strip(row.name.value.anchor.value), Strip(row.price.value))
  }

  /** The category in force after `row`: headers always set it, even under
      a skipped category, because the header test comes first. */
  function NextCategory(row: Row, current: Category): Category {
    match Classify(row)
    case Header(title) => Some(title)
    case _ => current
  }

  /** The category in force after all of `rows`. */
  function CategoryAfter(rows: seq<Row>, current: Category): Category
    decreases |rows|
  {
    if rows == [] then current else CategoryAfter(rows[1..], NextCategory(rows[0], current))
  }

  /** How the walk over some rows ended. */
  datatype Walk = Completed(components: seq<Component>) | Discarded

  /** The outcome of walking two stretches of rows one after the other. */
  function Then(first: Walk, rest: Walk): Walk {
    match first
    case Discarded => Discarded
    case Completed(xs) =>
      match rest
      case Discarded => Discarded
      case Completed(ys) => Completed(xs + ys)
  }

  /** The loop of `process_page` over the rows of one parts table, starting
      with category `current`. */
  function WalkRows(rows: seq<Row>, current: Category): Walk
    decreases |rows|
  {
    if rows == [] then Completed([])
    else
      var rest := rows[1..];
      match Classify(rows[0])
      case Header(title) => WalkRows(rest, Some(title))
      case Data(name, price) =>
        if Skipped(current) then WalkRows(rest, current)
        else Then(Completed([Component(current, name, price)]), WalkRows(rest, current))
      case Malformed =>
        if Skipped(current) then WalkRows(rest, current) else Discarded
  }

  /** A component is never filed under a skipped category, its texts are
      stripped, and there are no more components than rows. */
  lemma {:induction false} WalkComponentsWellFormed(rows: seq<Row>, current: Category)
    requires WalkRows(rows, current).Completed?
    ensures |WalkRows(rows, current).components| <= |rows|
    ensures forall c :: c in WalkRows(rows, current).components ==>
      && !Skipped(c.category)
      && IsStripped(c.name)
      && IsStripped(c.price)
    decreases |rows|
  {
    if rows != [] {
      var next := NextCategory(rows[0], current);
      match Classify(rows[0])
      case Header(title) =>
        WalkComponentsWellFormed(rows[1..], next);
      case Data(name, price) =>
        WalkComponentsWellFormed(rows[1..], next);
      case Malformed =>
        WalkComponentsWellFormed(rows[1..], next);
    }
  }

  /** The build a parts table yields: `None` when it was discarded or
      produced no component. */
  function ExtractBuild(rows: seq<Row>): Option<Build> {
    match WalkRows(rows, None)
    case Completed(components) => if components != [] then Some(components) else None
    case Discarded => None
  }

  // ---- Properties of the walk --------------------------------------------

  /** Row `i` is read under this category. */
  function CategoryAt(rows: seq<Row>, current: Category, i: nat): Category
    requires i <= |rows|
  {
    CategoryAfter(rows[..i], current)
  }

  /** Row `i` discards the build. */
  predicate DiscardsAt(rows: seq<Row>, current: Category, i: nat)
    requires i < |rows|
  {
    Classify(rows[i]).Malformed? && !Skipped(CategoryAt(rows, current, i))
  }

  /** Row `i` yields a component. */
  predicate EmitsAt(rows: seq<Row>, current: Category, i: nat)
    requires i < |rows|
  {
    Classify(rows[i]).Data? && !Skipped(CategoryAt(rows, current, i))
  }

  lemma ThenAssociative(a: Walk, b: Walk, c: Walk)
    ensures Then(Then(a, b), c) == Then(a, Then(b, c))
  {
    if a.Completed? && b.Completed? && c.Completed? {
      assert (a.components + b.components) + c.components
          == a.components + (b.components + c.components);
    }
  }

  lemma ThenCompletedEmpty(w: Walk)
    ensures Then(Completed([]), w) == w
  {
    if w.Completed? {
      assert [] + w.components == w.components;
    }
  }

  /** Walking `a + b` is walking `a`, then walking `b` from the category `a`
      leaves in force. Components therefore keep table order, and once `a`
      discards the build nothing in `b` is looked at. */
  lemma {:induction false} WalkAppend(a: seq<Row>, b: seq<Row>, current: Category)
    ensures WalkRows(a + b, current) == Then(WalkRows(a, current), WalkRows(b, CategoryAfter(a, current)))
    decreases |a|
  {
    if a == [] {
      assert a + b == b;
      ThenCompletedEmpty(WalkRows(b, current));
    } else {
      assert (a + b)[0] == a[0];
      assert (a + b)[1..] == a[1..] + b;
      var next := NextCategory(a[0], current);
      WalkAppend(a[1..], b, next);
      var tail := WalkRows(b, CategoryAfter(a, current));
      match Classify(a[0])
      case Header(title) =>
      case Data(name, price) =>
        if !Skipped(current) {
          ThenAssociative(Completed([Component(current, name, price)]), WalkRows(a[1..], current), tail);
        }
      case Malformed =>
    }
  }

  /** Once a stretch of rows discards the build, no later row can save it. */
  lemma DiscardIsFinal(a: seq<Row>, b: seq<Row>, current: Category)
    requires WalkRows(a, current).Discarded?
    ensures WalkRows(a + b, current).Discarded?
  {
    WalkAppend(a, b, current);
  }

  lemma CategoryAtTail(rows: seq<Row>, current: Category, i: nat)
    requires 1 <= i < |rows|
    ensures CategoryAt(rows, current, i) == CategoryAt(rows[1..], NextCategory(rows[0], current), i - 1)
  {
    assert rows[..i][1..] == rows[1..][..i - 1];
  }

  lemma DiscardsAtShift(rows: seq<Row>, current: Category, i: nat)
    requires 1 <= i < |rows|
    ensures DiscardsAt(rows, current, i) <==> DiscardsAt(rows[1..], NextCategory(rows[0], current), i - 1)
  {
    CategoryAtTail(rows, current, i);
  }

  lemma EmitsAtShift(rows: seq<Row>, current: Category, i: nat)
    requires 1 <= i < |rows|
    ensures EmitsAt(rows, current, i) <==> EmitsAt(rows[1..], NextCategory(rows[0], current), i - 1)
  {
    CategoryAtTail(rows, current, i);
  }

  /** One step of the walk: the first row discards, or the rest does. */
  lemma WalkStepDiscarded(rows: seq<Row>, current: Category)
    requires rows != []
    ensures WalkRows(rows, current).Discarded? <==>
      DiscardsAt(rows, current, 0) || WalkRows(rows[1..], NextCategory(rows[0], current)).Discarded?
  {
    assert CategoryAt(rows, current, 0) == current;
  }

  /** One step of a completed walk: the first row yields a component, or the
      rest does. */
  lemma WalkStepEmits(rows: seq<Row>, current: Category)
    requires rows != [] && WalkRows(rows, current).Completed?
    ensures WalkRows(rows[1..], NextCategory(rows[0], current)).Completed?
    ensures WalkRows(rows, current).components != [] <==>
      EmitsAt(rows, current, 0) || WalkRows(rows[1..], NextCategory(rows[0], current)).components != []
  {
    assert CategoryAt(rows, current, 0) == current;
  }

  /** The walk discards the build exactly when some row that is not a header
      lacks a required cell while a non-skipped category is in force. */
  lemma {:induction false} DiscardedIff(rows: seq<Row>, current: Category)
    ensures WalkRows(rows, current).Discarded? <==> exists i :: 0 <= i < |rows| && DiscardsAt(rows, current, i)
    decreases |rows|
  {
    if rows != [] {
      var next := NextCategory(rows[0], current);
      DiscardedIff(rows[1..], next);
      WalkStepDiscarded(rows, current);
      if i :| 0 <= i < |rows[1..]| && DiscardsAt(rows[1..], next, i) {
        DiscardsAtShift(rows, current, i + 1);
      }
      if i :| 1 <= i < |rows| && DiscardsAt(rows, current, i) {
        DiscardsAtShift(rows, current, i);
      }
    }
  }

  /** A completed walk yields a component exactly when some data row was read
      under a non-skipped category. */
  lemma {:induction false} EmitsIff(rows: seq<Row>, current: Category)
    requires WalkRows(rows, current).Completed?
    ensures WalkRows(rows, current).components != [] <==> exists i :: 0 <= i < |rows| && EmitsAt(rows, current, i)
    decreases |rows|
  {
    if rows != [] {
      var next := NextCategory(rows[0], current);
      WalkStepEmits(rows, current);
      EmitsIff(rows[1..], next);
      if i :| 0 <= i < |rows[1..]| && EmitsAt(rows[1..], next, i) {
        EmitsAtShift(rows, current, i + 1);
      }
      if i :| 1 <= i < |rows| && EmitsAt(rows, current, i) {
        EmitsAtShift(rows, current, i);
      }
    }
  }

  /** A build is accepted exactly when no row discards it and at least one
      row yields a component. */
  lemma AcceptedIff(rows: seq<Row>)
    ensures ExtractBuild(rows).Some? <==>
      && (forall i :: 0 <= i < |rows| ==> !DiscardsAt(rows, None, i))
      && (exists i :: 0 <= i < |rows| && EmitsAt(rows, None, i))
  {
    DiscardedIff(rows, None);
    if WalkRows(rows, None).Completed? {
      EmitsIff(rows, None);
    }
  }

  /** Under a skipped category, rows that are not headers yield nothing and
      cannot discard the build, whatever cells they lack. */
  lemma {:induction false} SkippedRowsYieldNothing(rows: seq<Row>, current: Category)
    requires Skipped(current)
    requires forall i :: 0 <= i < |rows| ==> !IsHeaderRow(rows[i])
    ensures WalkRows(rows, current) == Completed([])
    decreases |rows|
  {
    if rows != [] {
      assert !IsHeaderRow(rows[0]);
      SkippedRowsYieldNothing(rows[1..], current);
    }
  }

  /** A header row yields nothing and puts its stripped `h4` text in force. */
  lemma HeaderSetsCategory(header: Row, rows: seq<Row>, current: Category)
    requires IsHeaderRow(header)
    ensures WalkRows([header] + rows, current)
         == WalkRows(rows, Some(Strip(header.component.value.heading.value)))
  {
    assert ([header] + rows)[1..] == rows;
  }

  /** A spanning component cell without an `h4` is not a header: the row is
      read as data under the category already in force. */
  lemma HeaderWithoutHeadingFallsThrough(colspan: Option<string>, name: string, price: string, current: Category)
    requires !Skipped(current)
    ensures WalkRows([Row(Some(ComponentCell(colspan, None)), Some(NameCell(Some(name))), Some(price))], current)
         == Completed([Component(current, Strip(name), Strip(price))])
  {
    var row := Row(Some(ComponentCell(colspan, None)), Some(NameCell(Some(name))), Some(price));
    var c := Component(current, Strip(name), Strip(price));
    assert Classify(row) == Data(Strip(name), Strip(price));
    assert [row][1..] == [];
    assert WalkRows([row], current) == Then(Completed([c]), WalkRows([], current));
    assert [c] + [] == [c];
  }

  /** A build with one data row missing its price is discarded whole, however
      many good rows precede it, as long as its category is not skipped. */
  lemma MissingPriceDiscardsBuild(good: seq<Row>, bad: Row, rest: seq<Row>)
    requires !IsHeaderRow(bad) && bad.price.None?
    requires !Skipped(CategoryAfter(good, None))
    ensures ExtractBuild(good + [bad] + rest).None?
  {
    var rows := good + [bad] + rest;
    assert rows[..|good|] == good;
    assert rows[|good|] == bad;
    assert DiscardsAt(rows, None, |good|);
    DiscardedIff(rows, None);
  }

  // ---- The loop as written -----------------------------------------------

  /** The row loop of `process_page` (current category, component list and
      `skip_build` flag, with `break` on a missing cell), computing what
      `WalkRows` describes. */
  method ScanRows(rows: seq<Row>) returns (components: seq<Component>, skipBuild: bool)
    ensures skipBuild <==> WalkRows(rows, None).Discarded?
    ensures !skipBuild ==> WalkRows(rows, None) == Completed(components)
  {
    var current: Category := None;
    components := [];
    skipBuild := false;
    var i := 0;
    while i < |rows|
      invariant 0 <= i <= |rows|
      invariant WalkRows(rows, None) == Then(Completed(components), WalkRows(rows[i..], current))
    {
      var row := rows[i];
      assert rows[i..][0] == row && rows[i..][1..] == rows[i + 1..];
      if row.component.Some? && row.component.value.colspan == Some("2") && row.component.value.heading.Some? {
        current := Some(Strip(row.component.value.heading.value));
        i := i + 1;
        continue;
      }
      if Skipped(current) {
        i := i + 1;
        continue;
      }
      if row.name.None? || row.price.None? || row.name.value.anchor.None? {
        skipBuild := true;
        break;
      }
      var c := Component(current, Strip(row.name.value.anchor.value), Strip(row.price.value));
      ThenAssociative(Completed(components), Completed([c]), WalkRows(rows[i + 1..], current));
      components := components + [c];
      i := i + 1;
    }
    if !skipBuild {
      assert rows[i..] == [];
      assert components + [] == components;
    }
  }
}
