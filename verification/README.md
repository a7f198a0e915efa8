# PC-build scraper core in Dafny

This project models the pure core of a scraper that collects PC builds from
pcpartpicker.com listing pages and writes them to a CSV file
(`scraper/pcpart_scraper.py`). The browser is abstracted away: a build page
is a sequence of `Row` values that records which cells Selenium would find
and what their text is, and a listing page is a sequence of cards that do or
do not carry their `a.logGroup__target` anchor. The model covers five parts.

- `Text` (`text.dfy`) holds the two Python string primitives the scraper
  relies on. `Strip` is `str.strip()` over the `str.isspace()` characters.
  `DeleteAll` is `str.replace(token, "")`, which scans left to right and
  does not rescan what it has produced.
- `Price` (`price.dfy`) is `parse_price`. It deletes `$`, `£`, `AUD`, `,`,
  `CAD`, `€` and `EUR` in that order, strips the result and reads it with a
  model of `float()`. Any text `float()` would refuse gives 0.0. Numbers are
  exact reals read from the decimal grammar
  `[+|-] digits [. [digits]]  |  [+|-] . digits`.
- `Decorated` (`decorated.dfy`) reads price text as a sequence of pieces:
  whitespace characters, whole currency tokens and the characters of the
  amount. Each `replace` of the chain removes exactly the pieces equal to
  its token, because no token starts inside a different piece. `strip()`
  then removes the whitespace left around the amount. So an amount with any
  whitespace and any whole tokens on either side parses to its exact value.
- `PartsTable` (`parts_table.dfy`) is the row walk of `process_page`. A
  header row sets the category. Rows under a skipped category are ignored.
  A data row yields a component. A row missing its name cell, its anchor or
  its price cell discards the whole build. A build is accepted when it was
  not discarded and has at least one component.
- `CsvSink` (`csv_sink.dfy`) is the row `save_to_csv` writes for each build.
  The id counts from 1. Each column holds the name of the last component of
  that category. `Total Price` holds the sum of the parsed prices of all the
  components.
- `Layout` (`layout.dfy`) is the window geometry of `get_driver` and the
  job/slot numbering of the main program. `Pipeline` (`pipeline.dfy`) is
  `process_page` around the walk, with every browser answer as an input, and
  the gathering of the jobs' results.

`Scenario` (`scenario.dfy`) traces one page through all of these. The
listing times out once and the reload shows two builds. Build A (a CPU and a
video card) is kept. Build B (a CPU row with no price cell) is dropped.

A listing card without its `a.logGroup__target` anchor does not just lose
that card. The code reads all anchors in one list comprehension inside the
page-wide `try` (scraper/pcpart_scraper.py:150-153, 203-204), so one missing
anchor makes the whole page yield nothing (`Pipeline.BuildLinks`,
`Pipeline.CardWithoutAnchorEmptiesPage`).

## Model

| member | source | states |
|---|---|---|
| Text.StripCutsWhitespace | scraper/pcpart_scraper.py:112 | `strip()` returns a contiguous middle part of its input, and everything it cut from either end is whitespace |
| Text.StripIdempotent | scraper/pcpart_scraper.py:112 | stripping a second time changes nothing |
| Text.DeleteAllChangesIffOccurs | scraper/pcpart_scraper.py:105-111 | `replace(token, "")` changes the text if and only if the token occurs in it |
| Text.DeleteCharRemovesAll | scraper/pcpart_scraper.py:108 | deleting the one-character token `,` leaves no comma behind |
| Text.DeleteAllCanReassemble | scraper/pcpart_scraper.py:107 | deleting `AUD` from `AAUDUD` leaves `AUD`: one pass can create a new occurrence |
| Text.DeleteCharConcat | scraper/pcpart_scraper.py:108 | deleting a one-character token from joined texts deletes it from each part on its own |
| Price.ParseNumberDefined | scraper/pcpart_scraper.py:103-104 | the model of `float()` yields a value exactly on the strings of the decimal grammar |
| Price.ParsePrice | scraper/pcpart_scraper.py:98-115 | the result is the grammar's value of the normalised text when that text is a number, and 0.0 otherwise; no input makes it fail |
| Price.RenderCentsRoundTrip | scraper/pcpart_scraper.py:104 | reading the text `d.dd` of an amount of cents gives back exactly cents / 100 |
| Price.NoOtherToken | scraper/pcpart_scraper.py:105-111 | a currency token in front of digits contains no other currency token, even across the join |
| Price.ParsePriceOfTaggedAmount | scraper/pcpart_scraper.py:103-113 | an amount with no currency token or with any one of them in front parses to its exact value |
| Price.GroupDigitsUngroup | scraper/pcpart_scraper.py:108 | whole units written in groups of three digits separated by `,` read back as the same number once the `,` are deleted |
| Price.DeleteTokensGroupedAmount | scraper/pcpart_scraper.py:104-111 | with no token or any one token in front of digits, points and separators, the chain of deletions leaves exactly the text without its separators |
| Price.ParsePriceOfGroupedAmount | scraper/pcpart_scraper.py:103-113 | an amount shown with thousands separators, such as `$1,299.99`, with no token or any one token in front, parses to its exact value |
| Text.StripAround | scraper/pcpart_scraper.py:112 | `strip()` of text with whitespace runs on both sides gives back exactly the text between them, when that text has no whitespace at either end |
| Text.DeleteAllPassesPiece | scraper/pcpart_scraper.py:105-111 | when no occurrence of the token starts inside a leading part, `replace` copies that part unchanged and treats the rest as if it stood alone |
| Decorated.Drop | scraper/pcpart_scraper.py:105-111 | a piece is kept exactly when it is not one of the deleted tokens |
| Decorated.DropTwice | scraper/pcpart_scraper.py:105-111 | removing the pieces of one token list and then of another removes the pieces of both lists |
| Decorated.OnlyWholeTokens | scraper/pcpart_scraper.py:105-111 | no currency token starts inside a whitespace character, an amount character or a different whole token, whatever follows |
| Decorated.DeleteTokenFromPieces | scraper/pcpart_scraper.py:105-111 | one `replace(token, "")` on price text removes exactly the pieces equal to the token |
| Decorated.DeleteTokensFromPieces | scraper/pcpart_scraper.py:105-111 | the whole chain of `replace` calls removes exactly the pieces that are among its tokens |
| Decorated.DeleteTokensDecorated | scraper/pcpart_scraper.py:105-111 | on an amount with decorations around it, the chain leaves the whitespace of the decorations and the amount without its `,` |
| Decorated.NormalizeDecorated | scraper/pcpart_scraper.py:104-112 | after the deletions and `strip()`, a decorated grouped amount is exactly the amount without its separators |
| Decorated.ParsePriceOfDecoratedAmount | scraper/pcpart_scraper.py:103-113 | a grouped amount with any whitespace and any whole currency tokens, in any number and order, before and after it parses to its exact value |
| Decorated.ParsePriceOfSpacedAmount | scraper/pcpart_scraper.py:103-113 | an amount with optional whitespace and at most one token on each side parses to its exact value |
| Decorated.ParsePriceOfLeadingToken | scraper/pcpart_scraper.py:103-113 | whitespace, a token and whitespace in front and whitespace after, as in ` AUD 1,299.99 `, still give the exact value |
| Decorated.ParsePriceOfTrailingToken | scraper/pcpart_scraper.py:103-113 | a token after the amount, with whitespace around it, as in `1,299.99 €`, still gives the exact value |
| Decorated.TwoTokensInFront | scraper/pcpart_scraper.py:103-113 | two tokens in front with whitespace between them, as in `AUD $1,299.99`, still give the exact value |
| Price.GroupedExample | scraper/pcpart_scraper.py:108 | 1299.99 is shown as `1,299.99` |
| Price.NormalizeNotIdempotent | scraper/pcpart_scraper.py:104-112 | because tokens are deleted in a fixed order, `A,UD` normalises to `AUD`, which normalises again to the empty text |
| Price.SplitTokenPriceIsZero | scraper/pcpart_scraper.py:103-115 | `A,UD` is priced 0.0: what is left is not a number |
| PartsTable.Classify | scraper/pcpart_scraper.py:168-183 | a header's title and a data row's name and price are stripped texts |
| PartsTable.WalkComponentsWellFormed | scraper/pcpart_scraper.py:176-188 | a completed walk never files a component under a skipped category, keeps only stripped texts and yields at most one component per row |
| PartsTable.WalkAppend | scraper/pcpart_scraper.py:167-191 | walking two stretches of rows is walking the first, then the second under the category the first left in force; components keep table order |
| PartsTable.DiscardIsFinal | scraper/pcpart_scraper.py:189-191 | once some rows discard the build, no later row can save it |
| PartsTable.DiscardedIff | scraper/pcpart_scraper.py:167-191 | the build is discarded if and only if some non-header row lacking a required cell is read under a category that is not skipped |
| PartsTable.EmitsIff | scraper/pcpart_scraper.py:176-188 | a completed walk has a component if and only if some data row is read under a category that is not skipped |
| PartsTable.AcceptedIff | scraper/pcpart_scraper.py:163-194 | a build is accepted if and only if no row discards it and at least one row yields a component |
| PartsTable.SkippedRowsYieldNothing | scraper/pcpart_scraper.py:167-177 | under a skipped category, rows that are not headers yield nothing and never discard, whatever cells they lack |
| PartsTable.HeaderSetsCategory | scraper/pcpart_scraper.py:169-172 | a header row yields nothing and puts its stripped `h4` text in force |
| PartsTable.HeaderWithoutHeadingFallsThrough | scraper/pcpart_scraper.py:168-174 | a spanning component cell without an `h4` is read as a data row under the category already in force |
| PartsTable.MissingPriceDiscardsBuild | scraper/pcpart_scraper.py:179-193 | one non-skipped row without a price cell discards the build, whatever good rows came before |
| PartsTable.ScanRows | scraper/pcpart_scraper.py:163-193 | the loop with `current_category`, `components`, `skip_build` and `break` sets the flag exactly when the walk discards, and otherwise returns the walk's components |
| CsvSink.FileAllFields | scraper/pcpart_scraper.py:232-239 | filing components keeps the row's keys, and leaves every column holding the name of the last component of that category, or untouched where there is none |
| CsvSink.RowFields | scraper/pcpart_scraper.py:222-228 | a row has exactly the nine header fields |
| CsvSink.RowId | scraper/pcpart_scraper.py:227-239 | `build_id` holds the row's number unless a component's category is literally `build_id` |
| CsvSink.RowPartColumns | scraper/pcpart_scraper.py:228-239 | each part column holds the name of the last component of its category, and `""` when there is none |
| CsvSink.RowTotal | scraper/pcpart_scraper.py:230-241 | `Total Price` holds the sum of the parsed prices of all the components, whatever their categories |
| CsvSink.TotalPriceOnlyPrices | scraper/pcpart_scraper.py:232-236 | the total depends on the price texts alone, not on names or categories |
| CsvSink.SkippedColumnEmpty | scraper/pcpart_scraper.py:228-239 | a column named after a skipped category stays `""` when no component has a skipped category |
| CsvSink.ScrapedCaseColumnEmpty | scraper/pcpart_scraper.py:222-239 | the `Case` column of every accepted build is empty, because `Case` is a skipped category |
| CsvSink.BuildIdCanBeOverwritten | scraper/pcpart_scraper.py:229-239 | a component with category `build_id` replaces the row's number with its name |
| CsvSink.FileComponents | scraper/pcpart_scraper.py:232-239 | the filing loop computes the fold of all the components into the start row |
| CsvSink.SumPrices | scraper/pcpart_scraper.py:230-236 | the summing loop computes the total of the parsed prices |
| CsvSink.WriteRow | scraper/pcpart_scraper.py:227-241 | the body of the per-build loop computes exactly the row described above |
| CsvSink.SaveToCsv | scraper/pcpart_scraper.py:227-242 | one row per build, in list order, numbered from 1 |
| Layout.WindowFor | scraper/pcpart_scraper.py:88-93 | every window is 1280x720 and lies inside the 2560x1440 monitor |
| Layout.WindowsTileMonitor | scraper/pcpart_scraper.py:88-91 | each pixel of the monitor lies in the window of exactly one quadrant |
| Layout.DistinctQuadrantsDisjoint | scraper/pcpart_scraper.py:90-91 | windows of indices that differ modulo 4 share no pixel |
| Layout.Jobs | scraper/pcpart_scraper.py:253-256 | job `i` scrapes page `first + i` in slot `i % 3`, and there is one job per page of the inclusive range |
| Layout.JobsCoverRangeOnce | scraper/pcpart_scraper.py:254-255 | a page has a job if and only if it lies in the range, and pages strictly increase along the jobs |
| Layout.SlotsCycle | scraper/pcpart_scraper.py:254 | slots start at 0 and step by one modulo 3, so no job ever gets the fourth (bottom-right) entry of `positions` that `get_driver` indexes with `window_index % 4` |
| Layout.NearbyJobsDoNotOverlap | scraper/pcpart_scraper.py:252-255 | jobs fewer than three apart get windows that share no pixel |
| Layout.JobExamples | scraper/pcpart_scraper.py:255 | pages 44 to 70 make 27 jobs, and seven jobs get the slots 0,1,2,0,1,2,0 |
| Pipeline.BuildLinks | scraper/pcpart_scraper.py:149-153 | the links are defined if and only if every card has its anchor, and are then the cards' links in order |
| Pipeline.BuildsFromLinks | scraper/pcpart_scraper.py:155-201 | at most one build per link, and never an empty build |
| Pipeline.ProcessPage | scraper/pcpart_scraper.py:129-211 | every build a page yields has at least one component |
| Pipeline.CardWithoutAnchorEmptiesPage | scraper/pcpart_scraper.py:149-204 | one card without its anchor empties the whole page, whatever the other cards lead to |
| Pipeline.ReloadOnlyAfterTimeout | scraper/pcpart_scraper.py:140-147 | the reload is used only when the first load timed out, and two timeouts yield no build |
| Pipeline.BuildsComeFromLinks | scraper/pcpart_scraper.py:155-195 | every build of a page is the accepted build of the visit of one of its links |
| Pipeline.AcceptedLinkContributes | scraper/pcpart_scraper.py:155-195 | every link whose visit yields an accepted build contributes that build to the page |
| Pipeline.PageIsBuildsOfCards | scraper/pcpart_scraper.py:149-194 | with all anchors present, a page holds no more builds than cards and each of its builds is the accepted build of the visit of one of its cards |
| Pipeline.AcceptedFrom | scraper/pcpart_scraper.py:158-194 | the positions whose visit yields an accepted build, strictly increasing, holding such a position if and only if its visit yields a build |
| Pipeline.BuildsInLinkOrder | scraper/pcpart_scraper.py:158-195 | the loop over the links keeps one build per accepted link, in link order: the k-th build is the build of the k-th accepted position |
| Pipeline.PageInCardOrder | scraper/pcpart_scraper.py:149-195 | with all anchors present, the page is exactly one build for each card whose visit yields an accepted build, in card order |
| Pipeline.RepeatedLinkVisitedTwice | scraper/pcpart_scraper.py:155-201 | a link listed on two cards is navigated to twice with independent outcomes: a failed first visit and an accepted second visit give exactly one build |
| Pipeline.RaisedJobIsIsolated | scraper/pcpart_scraper.py:258-264 | a job that raised adds nothing and leaves the other jobs' builds in place |
| Pipeline.CollectOrderInsensitive | scraper/pcpart_scraper.py:258-262 | the gathered builds are the same multiset whatever order the jobs complete in |
| Pipeline.SaveRun | scraper/pcpart_scraper.py:250-266 | the run writes one numbered row per gathered build |
| Scenario.BuildAAccepted | scraper/pcpart_scraper.py:163-194 | a table with a CPU and a video card under their headers gives both parts in order |
| Scenario.BuildBDiscarded | scraper/pcpart_scraper.py:179-193 | a table whose CPU row lacks its price cell gives no build |
| Scenario.PageKeepsOnlyBuildA | scraper/pcpart_scraper.py:140-211 | after a timeout and a reload, the page keeps build A and drops build B |
| Scenario.PageRow | scraper/pcpart_scraper.py:250-262 | the run gathers exactly build A |
| Scenario.RowColumnsOfBuildA | scraper/pcpart_scraper.py:232-239 | build A's row names its CPU and video card and leaves the other part columns empty |
| Scenario.RowIdOfBuildA | scraper/pcpart_scraper.py:229 | build A's row is numbered 1 |
| Scenario.DollarsAmount | scraper/pcpart_scraper.py:98-115 | a price shown as `$` followed by `d.dd` parses to exactly its amount |
| Scenario.DollarBuildTotal | scraper/pcpart_scraper.py:230-236 | build A priced in dollars totals the sum of its two amounts |

## Left out

- Selenium and undetected_chromedriver are not modelled: launching the driver, page loads, the 30-second waits, the refresh, `driver.quit()` and the `try`/`except` blocks around them. Each possible answer of the browser is an input instead: a `Session`, a `Listing`, and one `Detail` per navigation to a build link, so two visits of the same link can give different pages.
- Failures inside a build page other than a missing cell are not told apart. A part-list timeout and any other exception on a build page are one case, `DetailFailed`.
- The thread pool is not modelled. Job results are gathered in an arbitrary completion order, which `Pipeline.Collect` takes as an input.
- `clean_chrome_profiles`, `random_delay`, logging and the Chrome options are left out. They are file-system work, random timing and output only.
- The CSV file itself (opening it, `writeheader`, `writerow`) is left out. A row is the dictionary handed to `csv.DictWriter`.
- CsvSink.RowTotal: the total is the exact real sum, not the text `f"{total_price:.2f}"`, and floating-point rounding is not modelled.
- Price.ParsePrice: `float()` is modelled by a plain decimal grammar. Python also accepts exponents (`1e3`), `_` between digits, `inf`, `nan` and non-ASCII digits, and the model prices all of those at 0.0.
- Price.ParsePrice: signs are read as `float()` reads them, so a text like `-5` gives -5.0. Nothing makes a price non-negative.
- The rest of the repository is not part of this model: the data-analysis scripts, the neural-network model and its training, the language-model client and the Telegram bot.
