/**
 The rows `save_to_csv` writes: one row per accepted build, numbered from
 1, with the name of the last component filed under each column and the
 sum of all the build's normalised prices. The file itself and the
 two-decimal formatting of the total are not modelled; a row is the
 dictionary handed to `csv.DictWriter`.
 */
module CsvSink {
  import opened Options
  import opened Price
  import opened PartsTable

  /** The header of the output file, in column order. */
  const FieldNames: seq<string> :=
    ["build_id", "CPU", "CPU Cooler", "Motherboard", "Memory", "Video Card", "Case", "Power Supply", "Total Price"]

  /** The columns that only ever receive component names. */
  predicate IsPartColumn(column: string) {
    column in FieldNames && column != "build_id" && column != "Total Price"
  }

  /** A cell: the integer build id, a text, or the (unformatted) total. */
  datatype Value = IdCell(id: nat) | TextCell(text: string) | TotalCell(total: real)

  /** One output row, keyed by field name. */
  type CsvRow = map<string, Value>

  /** The name of the last component filed under `column`, if any. */
  function LastNameIn(components: seq<Component>, column: string): Option<string>
    decreases |components|
  {
    if components == [] then None
    else if components[|components| - 1].category == Some(column) then Some(components[|components| - 1].name)
    else LastNameIn(components[..|components| - 1], column)
  }

  /** The sum of `parse_price` over the components, whatever their category,
      added up in list order. */
  function TotalPrice(components: seq<Component>): real
    decreases |components|
  {
    if components == [] then 0.0
    else TotalPrice(components[..|components| - 1]) + ParsePrice(components[|components| - 1].price)
  }

  /** `if cat in fieldnames: row[cat] = name` for one component. */
  function FileComponent(row: CsvRow, c: Component): CsvRow {
    if c.category.Some? && c.category.value in FieldNames then row[c.category.value := TextCell(c.name)] else row
  }

  lemma {:induction false} LastNameInCons(components: seq<Component>, column: string)
    requires components != []
    ensures LastNameIn(components, column) ==
      match LastNameIn(components[1..], column)
      case Some(name) => Some(name)
      case None => if components[0].category == Some(column) then Some(components[0].name) else None
    decreases |components|
  {
    var n := |components|;
    if n > 1 {
      assert components[1..][..n - 2] == components[..n - 1][1..];
      LastNameInCons(components[..n - 1], column);
    }
  }

  /** `if cat in fieldnames: row[cat] = name` for each component in order. */
  function FileAll(row: CsvRow, components: seq<Component>): CsvRow
    decreases |components|
  {
    if components == [] then row
    else FileAll(FileComponent(row, components[0]), components[1..])
  }

  /** Filing the components in order leaves every field holding the name of
      the last component filed under it, and untouched where there is none. */
  lemma {:induction false} FileAllFields(row: CsvRow, components: seq<Component>)
    requires forall f :: f in FieldNames ==> f in row
    ensures FileAll(row, components).Keys == row.Keys
    ensures forall f :: f in row ==>
      FileAll(row, components)[f] ==
        if f in FieldNames && LastNameIn(components, f).Some? then TextCell(LastNameIn(components, f).value) else row[f]
    decreases |components|
  {
    if components != [] {
      var next := FileComponent(row, components[0]);
      FileAllFields(next, components[1..]);
      forall f | f in row {
        LastNameInCons(components, f);
      }
    }
  }

  /** Every field holding the empty text. */
  function BlankRow(): (r: CsvRow)
    ensures forall f :: f in FieldNames ==> f in r && r[f] == TextCell("")
    ensures forall f :: f in r ==> f in FieldNames
  {
    map f | f in FieldNames :: TextCell("")
  }

  /** The row before any component is filed: every field blank but the id. */
  function StartRow(id: nat): (start: CsvRow)
    ensures forall f :: f in start <==> f in FieldNames
    ensures start["build_id"] == IdCell(id)
    ensures forall col :: IsPartColumn(col) ==> start[col] == TextCell("")
  {
    BlankRow()["build_id" := IdCell(id)]
  }

  /** The row `save_to_csv` writes for the build numbered `id`: the start row
      with every component filed, then the total. What it holds is stated by
      the lemmas below. */
  function BuildRow(id: nat, components: Build): CsvRow {
    FileAll(StartRow(id), components)["Total Price" := TotalCell(TotalPrice(components))]
  }

  /** A row has exactly the header's fields. */
  lemma RowFields(id: nat, components: Build)
    ensures forall f :: f in BuildRow(id, components) <==> f in FieldNames
  {
    FileAllFields(StartRow(id), components);
  }

  /** `Total Price` holds the sum of all the build's prices, whatever
      component was filed under that name before. */
  lemma RowTotal(id: nat, components: Build)
    ensures "Total Price" in BuildRow(id, components)
    ensures BuildRow(id, components)["Total Price"] == TotalCell(TotalPrice(components))
  {
  }

  /** Each part column holds the name of the last component of its category,
      and is empty when the build has none. */
  lemma RowPartColumns(id: nat, components: Build)
    ensures forall col :: IsPartColumn(col) ==>
      && col in BuildRow(id, components)
      && BuildRow(id, components)[col] == TextCell(LastNameIn(components, col).GetOr(""))
  {
    FileAllFields(StartRow(id), components);
  }

  /** `build_id` holds the row's number, unless a component was filed under
      that very name: the dictionary update in `save_to_csv` then replaces it. */
  lemma RowId(id: nat, components: Build)
    ensures "build_id" in BuildRow(id, components)
    ensures BuildRow(id, components)["build_id"] ==
      match LastNameIn(components, "build_id")
      case Some(name) => TextCell(name)
      case None => IdCell(id)
  {
    FileAllFields(StartRow(id), components);
  }

  /** Filing one more component files it after all the others. */
  lemma {:induction false} FileAllSnoc(row: CsvRow, components: seq<Component>, c: Component)
    ensures FileAll(row, components + [c]) == FileComponent(FileAll(row, components), c)
    decreases |components|
  {
    if components == [] {
      assert components + [c] == [c];
      assert [c][1..] == [];
    } else {
      assert (components + [c])[0] == components[0];
      assert (components + [c])[1..] == components[1..] + [c];
      FileAllSnoc(FileComponent(row, components[0]), components[1..], c);
    }
  }

  // ---- Properties of the rows --------------------------------------------

  lemma {:induction false} TotalPriceAppend(a: seq<Component>, b: seq<Component>)
    ensures TotalPrice(a + b) == TotalPrice(a) + TotalPrice(b)
    decreases |b|
  {
    if b == [] {
      assert a + b == a;
    } else {
      var n := |b|;
      assert (a + b)[..|a + b| - 1] == a + b[..n - 1];
      assert (a + b)[|a + b| - 1] == b[n - 1];
      TotalPriceAppend(a, b[..n - 1]);
    }
  }

  /** The total depends on the prices alone: categories and names, and so
      which columns are filled, do not change it. */
  lemma {:induction false} TotalPriceOnlyPrices(a: seq<Component>, b: seq<Component>)
    requires |a| == |b|
    requires forall i :: 0 <= i < |a| ==> a[i].price == b[i].price
    ensures TotalPrice(a) == TotalPrice(b)
    decreases |a|
  {
    if a != [] {
      TotalPriceOnlyPrices(a[..|a| - 1], b[..|b| - 1]);
    }
  }

  lemma {:induction false} LastNameInAbsent(components: seq<Component>, column: string)
    requires forall c :: c in components ==> c.category != Some(column)
    ensures LastNameIn(components, column).None?
    decreases |components|
  {
    if components != [] {
      assert components[|components| - 1] in components;
      LastNameInAbsent(components[..|components| - 1], column);
    }
  }

  /** A column named after a skipped category stays empty when no component
      of the build is of a skipped category. */
  lemma SkippedColumnEmpty(id: nat, components: Build, column: string)
    requires IsPartColumn(column) && Skipped(Some(column))
    requires forall c :: c in components ==> !Skipped(c.category)
    ensures column in BuildRow(id, components)
    ensures BuildRow(id, components)[column] == TextCell("")
  {
    LastNameInAbsent(components, column);
    RowPartColumns(id, components);
  }

  /** "Case" is a skipped category, so the `Case` column of a scraped build
      is always empty. */
  lemma ScrapedCaseColumnEmpty(id: nat, rows: seq<Row>)
    requires ExtractBuild(rows).Some?
    ensures "Case" in BuildRow(id, ExtractBuild(rows).value)
    ensures BuildRow(id, ExtractBuild(rows).value)["Case"] == TextCell("")
  {
    WalkComponentsWellFormed(rows, None);
    assert IsPartColumn("Case") && Skipped(Some("Case"));
    SkippedColumnEmpty(id, ExtractBuild(rows).value, "Case");
  }

  /** A component whose category is literally `build_id` overwrites the
      build's number. */
  lemma BuildIdCanBeOverwritten()
    ensures BuildRow(1, [Component(Some("build_id"), "X", "$1.00")])["build_id"] == TextCell("X")
  {
    var cs := [Component(Some("build_id"), "X", "$1.00")];
    assert LastNameIn(cs, "build_id") == Some("X");
  }

  // ---- The loops as written ----------------------------------------------

  /** The name half of the inner loop of `save_to_csv`: file each component
      under its category, in build order. */
  method FileComponents(start: CsvRow, components: Build) returns (row: CsvRow)
    ensures row == FileAll(start, components)
  {
    row := start;
    var j := 0;
    assert components[..0] == [];
    while j < |components|
      invariant 0 <= j <= |components|
      invariant row == FileAll(start, components[..j])
    {
      var c := components[j];
      assert components[..j + 1] == components[..j] + [c];
      FileAllSnoc(start, components[..j], c);
      row := FileComponent(row, c);
      j := j + 1;
    }
    assert components[..j] == components;
  }

  /** The price half of the inner loop: add up the parsed prices. */
  method SumPrices(components: Build) returns (total: real)
    ensures total == TotalPrice(components)
  {
    total := 0.0;
    var j := 0;
    while j < |components|
      invariant 0 <= j <= |components|
      invariant total == TotalPrice(components[..j])
    {
      var c := components[j];
      assert components[..j + 1][..j] == components[..j];
      total := total + ParsePrice(c.price);
      j := j + 1;
    }
    assert components[..j] == components;
  }

  /** The body of the `enumerate` loop of `save_to_csv`: start from blank
      fields and the id, file each component, add up the prices and store
      the total. The inner loop's two accumulations are independent, so they
      are written as two passes. */
  method WriteRow(id: nat, components: Build) returns (row: CsvRow)
    ensures row == BuildRow(id, components)
  {
    row := FileComponents(StartRow(id), components);
    var total := SumPrices(components);
    row := row["Total Price" := TotalCell(total)];
  }

  /** `save_to_csv`: one row per build, numbered from 1 in list order. */
  method SaveToCsv(builds: seq<Build>) returns (rows: seq<CsvRow>)
    ensures |rows| == |builds|
    ensures forall i :: 0 <= i < |builds| ==> rows[i] == BuildRow(i + 1, builds[i])
  {
    rows := [];
    var i := 0;
    while i < |builds|
      invariant 0 <= i <= |builds|
      invariant |rows| == i
      invariant forall k :: 0 <= k < i ==> rows[k] == BuildRow(k + 1, builds[k])
    {
      var row := WriteRow(i + 1, builds[i]);
      rows := rows + [row];
      i := i + 1;
    }
  }
}
