# virusHanter report core, in Dafny

This project models the logic that turns tool outputs into the tables charted in the
virusHanter sample report. The tool outputs have already been read in as lines, rows and
cell texts. The modelled logic is:

- the bowtie2 log scanner and the aligned/unaligned read split;
- the fastp summary-table fold;
- the Bracken level/cutoff/virus filter;
- the Kaiju raw aggregation;
- the Kaiju and CAT contig derivations;
- the contig-length categorisation with its three coverage facets;
- the naming logic of the panel report: sample name, report file, coverage tabs and their placeholder.

Every chart, widget and file access is outside the model.

Modules, one per source file, plus three shared ones:

- `Wrappers`: `Option`, `Result`, and the Python exceptions raised (`IndexError`, `KeyError`, `ValueError`, `TypeError`).
- `Text`: digit strings, `str.split`/join, `str.replace`, `in` on strings, `rfind`.
- `Table`: row filters (`.loc` masks), `head`, a descending sort, and a stable grouping by an ordered key.
- `BowtieLog` (utils/parse_bowtielog.py).
- `FastpSummary` (utils/parse_fastp_report.py).
- `AlignmentPlot` (plotting/bowtie2_alignment_plot.py).
- `Bracken` (plotting/bracken_raw.py).
- `KaijuRaw` (plotting/kaiju_raw.py).
- `KaijuMegahit` (plotting/kaiju_megahit.py).
- `CatMegahit` (plotting/cat_megahit.py).
- `ContigQuality` (plotting/contig_quality.py).
- `PanelReport` (virusHanter-panel-report.py).

Three loops of the source are methods with loop invariants, each proved equal to a
specification function:

- the log scan, `BowtieLog.ParseAlignments`;
- the nested fastp loops, `FastpSummary.ParseFastp`;
- the coverage-tab loop, `PanelReport.CoverageTabs`.

The facet loop, `ContigQuality.CoverageFacets`, is a method too, proved to produce one facet per category. The properties of the specification functions are proved as lemmas.

Three details of the code that the model keeps as written:

- the aligned count is the truncation `int(total * percent / 100)`, not a rounding;
- the report file is `<sample_name>_report.html`;
- a parsed alignment rate is not range-checked, so a rate above 100 is returned as it is (`BowtieLog.RateNotRangeChecked`).

## Model

| member | source | states |
|---|---|---|
| BowtieLog.ParseAlignments | utils/parse_bowtielog.py:13-25 | the line loop returns exactly the result of the specification scan `Scan` (start at total 0 and no rate, apply each line's matches in turn, stop at the first malformed rate) |
| BowtieLog.ScanLastMatchWins | utils/parse_bowtielog.py:13-25 | the scan fails iff some line has a rate that `float` rejects; otherwise the total is 0 when no line is a total line and is the value of the last total line when there is one, and the rate is absent when no line is a rate line and is the value of the last rate line when there is one; the two fields are settled independently |
| BowtieLog.UnmatchedLineIgnored | utils/parse_bowtielog.py:18-24 | a line matching neither pattern leaves the result unchanged |
| BowtieLog.ScanOne | utils/parse_bowtielog.py:13-24 | an unfolding of the definition, used by the examples: a one-line log is one loop step from the initial state (total 0, rate absent) |
| BowtieLog.StepOfLine | utils/parse_bowtielog.py:19-24 | an unfolding of the definition, used by the loop's proof: one loop step sets the total only on a total line, sets the rate on a rate line whose text parses, raises ValueError on one that does not, and otherwise keeps both fields |
| BowtieLog.TotalLine | utils/parse_bowtielog.py:15-21 | the "if" half of the total pattern: `<digits> reads; of these:`, with or without one final newline, sets the total to the digits read in base 10 |
| BowtieLog.TotalLineExactly | utils/parse_bowtielog.py:15-21 | both halves of the anchored total pattern: a line sets the total iff it is a non-empty digit string, ` reads; of these:` and at most one newline, and the total is then those digits read in base 10 |
| BowtieLog.TotalLineTwoNewlines | utils/parse_bowtielog.py:15-19 | with two final newlines the line is not a total line (`$` matches only before one final newline) |
| BowtieLog.TotalLineRoundTrip | utils/parse_bowtielog.py:15-21 | the total line written for a count n is read back as n |
| BowtieLog.RateLine | utils/parse_bowtielog.py:16-24 | the "if" half of the rate pattern: `<digits and dots>% overall alignment rate`, with or without one final newline, yields the text before `%` |
| BowtieLog.RateLineExactly | utils/parse_bowtielog.py:16-24 | both halves of the anchored rate pattern: a line is a rate line iff it is a non-empty text of digits and dots, `% overall alignment rate` and at most one newline, and the rate text is then that text |
| BowtieLog.PatternsExclusive | utils/parse_bowtielog.py:15-16 | no line matches both patterns |
| BowtieLog.RateText | utils/parse_bowtielog.py:16 | a matched rate text is non-empty and made only of digits and dots |
| BowtieLog.ParseDecimal | utils/parse_bowtielog.py:24 | a parsed rate is non-negative; its value is given by ParseWhole for a text without a dot and by ParseDecimalValue for one with a dot |
| BowtieLog.ParseWhole | utils/parse_bowtielog.py:24 | `float` of a non-empty digit string without a dot ("92", "092") is the integer those digits spell |
| BowtieLog.ParseDecimalValue | utils/parse_bowtielog.py:24 | `float` of `<whole>.<fraction>` (not both empty) is the digits of both read as one integer over ten to the length of the fraction |
| BowtieLog.ParseDecimalExample | utils/parse_bowtielog.py:24 | `float("92.50")` is 92.5 |
| BowtieLog.LogExample | utils/parse_bowtielog.py:13-25 | the log "1000000 reads; of these:" followed by "92.50% overall alignment rate" parses to a million reads at 92.5 percent |
| BowtieLog.ParseDecimalAccepts | utils/parse_bowtielog.py:24 | `float` accepts a digits-and-dots text iff it has at most one dot and at least one digit |
| BowtieLog.MalformedRateRaises | utils/parse_bowtielog.py:22-24 | a rate line whose text has two dots or no digit raises ValueError |
| BowtieLog.RateNotRangeChecked | utils/parse_bowtielog.py:22-25 | a rate line of any size n gives the rate n, even above 100, with the total left at 0 |
| AlignmentPlot.Trunc | plotting/bowtie2_alignment_plot.py:13 | `int()` of a real rounds toward zero: the result is the integer between 0 and x that lies within 1 of x |
| AlignmentPlot.SplitReads | plotting/bowtie2_alignment_plot.py:12-14 | an absent rate raises TypeError; otherwise aligned plus unaligned is the total, and for a non-negative rate the aligned count is the floor of total·percent/100 |
| AlignmentPlot.SplitWithinTotal | plotting/bowtie2_alignment_plot.py:13-14 | for a rate in [0, 100] both counts lie in [0, total] |
| AlignmentPlot.SplitTable | plotting/bowtie2_alignment_plot.py:17-19 | the table has two rows, unaligned first, then aligned, with their counts |
| AlignmentPlot.AlignmentTable | plotting/bowtie2_alignment_plot.py:12-19 | the table of a log fails iff the scan fails or finds no rate, with the scan's error or TypeError; otherwise it has the two rows, unaligned then aligned, their amounts sum to the scanned total, and the aligned amount is `int(total * percent / 100)` |
| AlignmentPlot.SplitExample | plotting/bowtie2_alignment_plot.py:13-14 | 1000000 reads at 92.5% split into 925000 aligned and 75000 unaligned |
| FastpSummary.ParseFastp | utils/parse_fastp_report.py:9-22 | the nested loops return exactly the specification `Summary`: the dictionary built by assigning each row's second cell to its first cell, over the rows of the first four tables in document order, or IndexError |
| FastpSummary.FirstFour | utils/parse_fastp_report.py:14 | the tables read are the first min(4, n) tables |
| FastpSummary.Put | utils/parse_fastp_report.py:19 | assigning an existing key replaces its value in place; a new key is appended last |
| FastpSummary.SummaryFails | utils/parse_fastp_report.py:14-18 | the parse fails iff some row of the first four tables has fewer than two cells (short rows are not skipped) |
| FastpSummary.OnlyFirstFourTables | utils/parse_fastp_report.py:14 | tables after the fourth never change the result |
| FastpSummary.PutKeys | utils/parse_fastp_report.py:19 | an assignment keeps the keys distinct and adds exactly its key |
| FastpSummary.BuildKeys | utils/parse_fastp_report.py:14-19 | the built dictionary has distinct keys, exactly the first cells of the rows |
| FastpSummary.BuildLastWins | utils/parse_fastp_report.py:14-19 | each key's value is the second cell of the last row with that key |
| FastpSummary.BuildFirstAppearanceOrder | utils/parse_fastp_report.py:19-22 | keys are ordered by first appearance: any row with a later key is preceded by a row with each earlier key |
| FastpSummary.SummaryEntries | utils/parse_fastp_report.py:9-22 | a successful parse has one entry per distinct first cell, in order of first appearance, holding the last second cell for that key |
| Bracken.LevelCode | plotting/bracken_raw.py:21-33 | a level name outside the map raises KeyError naming it; a known one gives its code |
| Bracken.LevelCodes | plotting/bracken_raw.py:21-29 | domain→D, phylum→P, class→K, order→O, family→F, genus→G, species→S, each iff, and no two names share a code |
| Bracken.Chain | plotting/bracken_raw.py:33-40 | every kept row has the requested code and a percent strictly above the cutoff, and with `virus_only` the domain Virus; the rows come in non-increasing percent |
| Bracken.SpeciesRaw | plotting/bracken_raw.py:31-40 | fails with KeyError iff the level is unknown; otherwise all rows pass every active mask and are sorted by percent, descending |
| Bracken.ChainCount | plotting/bracken_raw.py:33-39 | each row occurs in the output as often as in the input if it passes every active mask, and not at all otherwise |
| Bracken.SpeciesRawRows | plotting/bracken_raw.py:31-40 | the output is a permutation of exactly the input rows passing all active masks; without `virus_only` no row is dropped for its domain |
| Bracken.SpeciesRawIdempotent | plotting/bracken_raw.py:31-40 | filtering the output again with the same arguments returns it unchanged |
| Bracken.SpeciesRawExample | plotting/bracken_raw.py:31-40 | of two species-level virus rows (one below the cutoff), a genus-level virus row and a species-level bacterial row, `virus_only` keeps only the virus species row above the cutoff; without it the bacterial row is kept too, first as the more abundant |
| Bracken.BarChartRows | plotting/bracken_raw.py:60 | KeyError iff the level is unknown; otherwise the chart draws the first min(`number`, len) rows of the filtered frame (for a negative `number`, all but the last `-number`) |
| Bracken.BarChartQualifies | plotting/bracken_raw.py:43-60 | the bars drawn pass every active mask and come in non-increasing percent |
| KaijuRaw.AddRow | plotting/kaiju_raw.py:21-22 | a row whose key already has a group appends its taxonomy to that group's list in place; a new key opens a group at the end |
| KaijuRaw.GroupByKeys | plotting/kaiju_raw.py:21 | exactly one group per distinct (taxon_id, percent, taxon_name, reads) key of the input |
| KaijuRaw.GroupByTaxa | plotting/kaiju_raw.py:21-22 | each group's taxonomy list is the taxonomy values of all input rows with its key, in input order |
| KaijuRaw.TaxaOfAbsent | plotting/kaiju_raw.py:21-22 | a key that no row carries collects no taxonomy values |
| KaijuRaw.SortAndCut | plotting/kaiju_raw.py:23-24 | the result is sorted by percent, descending, every group has percent strictly above the cutoff, and each group occurs as often as before if it is above the cutoff, otherwise not at all |
| KaijuRaw.SortAndCutMembers | plotting/kaiju_raw.py:23-24 | a group is in the result iff it was in the input with percent above the cutoff |
| KaijuRaw.SortAndCutDistinct | plotting/kaiju_raw.py:23-24 | sorting and cutting keeps the keys distinct |
| KaijuRaw.SortAndCutKeys | plotting/kaiju_raw.py:23-24 | a key is in the result iff it was in the input and its percent is above the cutoff |
| KaijuRaw.AggregateGroups | plotting/kaiju_raw.py:19-25 | the frame has one group per distinct input key whose percent is above the cutoff, and each group lists the taxonomy values of its rows |
| KaijuRaw.ChartRows | plotting/kaiju_raw.py:28 | the chart uses the first min(`number`, len) groups of the frame (for a negative `number`, all but the last `-number`) |
| KaijuMegahit.Lineage | plotting/kaiju_megahit.py:26 | the lineage has one piece per semicolon, and no piece contains a semicolon |
| KaijuMegahit.FromEnd | plotting/kaiju_megahit.py:27-29 | `str[-k]` is present iff the lineage has at least k levels, and is then the k-th from the end |
| KaijuMegahit.Kingdom | plotting/kaiju_megahit.py:30-36 | the kingdom is the first level unless it is "cellular organisms", in which case it is the second; it is absent when that level is missing |
| KaijuMegahit.KaijuContigs | plotting/kaiju_megahit.py:24-38 | one derived row per complete input row, in order, with the lineage replaced by the derived levels |
| KaijuMegahit.KeptRows | plotting/kaiju_megahit.py:25 | `dropna` keeps exactly the complete rows, in their input order |
| KaijuMegahit.LineageOfLevels | plotting/kaiju_megahit.py:26 | the lineage of levels each followed by `;` is those levels (the trailing empty piece is dropped) |
| KaijuMegahit.LineageRejoin | plotting/kaiju_megahit.py:26 | the lineage plus the dropped last piece, joined by `;`, gives back the taxonomy string |
| KaijuMegahit.DeriveFromLevels | plotting/kaiju_megahit.py:24-38 | for a Kaiju lineage string, the derived row holds the last, second-last and third-last levels (each absent iff there are too few) and the kingdom rule's result |
| CatMegahit.DropScore | plotting/cat_megahit.py:30 | `str[:-6]` drops the last six characters, giving "" for a shorter string |
| CatMegahit.DropScoreOfScored | plotting/cat_megahit.py:30 | a name followed by a six-character score gives back the name |
| CatMegahit.KingdomExample | plotting/cat_megahit.py:30 | "Bacteria: 1.00" gives "Bacteria" |
| CatMegahit.Convert | plotting/cat_megahit.py:18-31 | the renamed columns carry the contig, species, genus and family, and `kingdom_cat` is the superkingdom without its score; the dropped columns are not in the output type |
| CatMegahit.ConvertAll | plotting/cat_megahit.py:17-31 | conversion maps row by row, keeping the length and order |
| CatMegahit.CatContigs | plotting/cat_megahit.py:17-33 | no output row has species "no support" |
| CatMegahit.FilterAfterConvert | plotting/cat_megahit.py:26-32 | filtering the renamed species column after conversion equals filtering the species column before it |
| CatMegahit.CatContigsAreKeptRows | plotting/cat_megahit.py:17-33 | the pipeline is one filter (classified, and supported at superkingdom, phylum and species) followed by the conversion |
| CatMegahit.ConvertedFromKept | plotting/cat_megahit.py:26-32 | every output row is the conversion of an input row passing all four sentinel filters |
| CatMegahit.KeptConverted | plotting/cat_megahit.py:26-32 | every input row passing all four filters appears converted in the output |
| CatMegahit.CatContigsRows | plotting/cat_megahit.py:17-33 | both directions above, and the kept rows keep their input order |
| ContigQuality.Cut | plotting/contig_quality.py:58-62 | `pd.cut` gives the label of the first right-closed bin containing x, or no label iff x lies in no bin |
| ContigQuality.CategoryBins | plotting/contig_quality.py:58-62 | (1,500] is short, (500,2500] medium, above 2500 long, and a length ≤ 1 has no category, each iff |
| ContigQuality.CategoryExample | plotting/contig_quality.py:58-62 | 1 has no category, 400 and 500 are short, 501 is medium, 3000 is long |
| ContigQuality.SortByCategorySorted | plotting/contig_quality.py:64-67 | the sorted rows come in category rank short < medium < long < none |
| ContigQuality.CategoryOrderComplete | plotting/contig_quality.py:64-67 | every row's category is in the sort order, which lists each category once |
| ContigQuality.SortByCategoryPermutes | plotting/contig_quality.py:64-67 | sorting is a permutation of the rows |
| ContigQuality.StepSize | plotting/contig_quality.py:70 | every category's axis step is positive |
| ContigQuality.Arange | plotting/contig_quality.py:81 | `np.arange(start, stop, step)` lists start + i·step for every such value below stop, and no more |
| ContigQuality.TicksAreMultiples | plotting/contig_quality.py:70-81 | the ticks are exactly the multiples of the step below 20000 |
| ContigQuality.CoverageFacets | plotting/contig_quality.py:53-92 | the loop returns exactly three facets, short, medium and long in that order, each the facet of its category over the sorted rows |
| ContigQuality.FacetStyle | plotting/contig_quality.py:70-86 | the facet of a category is titled "Coverage of <category> contigs"; short facets are blue with axis step 50, medium green with 150, long purple with 2000 |
| ContigQuality.FacetRows | plotting/contig_quality.py:73-76 | a facet holds exactly the input rows of its category, in input order |
| ContigQuality.FacetCount | plotting/contig_quality.py:76 | a row occurs in a facet as often as in the input if it has that facet's category, otherwise not at all |
| ContigQuality.FacetsPartition | plotting/contig_quality.py:73-90 | across the three facets a row occurs as often as in the input if it has a category, and not at all if its length is ≤ 1 |
| PanelReport.Root | virusHanter-panel-report.py:60-62 | a path has a root iff it starts with a slash; the root is a prefix of the path |
| PanelReport.Tail | virusHanter-panel-report.py:60-62 | the pieces after the root are non-empty, not ".", and slash-free |
| PanelReport.Parts | virusHanter-panel-report.py:60-62 | `parts` is the root, if any, followed by the kept pieces |
| PanelReport.SampleName | virusHanter-panel-report.py:62 | `parts[-1]` raises IndexError iff the path has no parts; otherwise it is the last part, which is non-empty |
| PanelReport.EmptySampleFails | virusHanter-panel-report.py:60-62 | the sample paths "" and "." raise IndexError |
| PanelReport.LastPartOfTail | virusHanter-panel-report.py:62 | when a path has pieces after its root, the sample name is its last piece |
| PanelReport.SampleNameSlashFree | virusHanter-panel-report.py:62 | a sample name other than a root contains no slash |
| PanelReport.TailOfPath | virusHanter-panel-report.py:62 | for directories followed by a name, with or without a trailing slash, the last piece is the name |
| PanelReport.SampleNameOfPath | virusHanter-panel-report.py:60-62 | the sample name of such a path is its last name |
| PanelReport.JoinPath | virusHanter-panel-report.py:333 | `/` with a rooted right side gives that side alone; otherwise it appends its pieces to the base |
| PanelReport.ReportFile | virusHanter-panel-report.py:333 | the report path fails iff the sample name fails; otherwise it is the output folder joined with `<sample_name>_report.html` |
| PanelReport.ReportInOutfolder | virusHanter-panel-report.py:333 | for an ordinary sample name the report is the single file `<sample_name>_report.html` inside the output folder |
| PanelReport.ReportOfRootSample | virusHanter-panel-report.py:333 | for the sample path "/" the report is "/_report.html" whatever the output folder |
| PanelReport.AlignmentStats | virusHanter-panel-report.py:69-81 | the stats fail iff the scan fails or finds no rate; otherwise the aligned count is `int(total * percent / 100)`, the aligned and unaligned counts sum to the total, and the shown percentages, the logged one and `100 - percent`, sum to 100 |
| PanelReport.StatsMatchChart | virusHanter-panel-report.py:69-87 | the markdown and the alignment chart fail together and show the same aligned and unaligned counts |
| PanelReport.KrakenVirusOnly | virusHanter-panel-report.py:125-127 | the "Kraken Virus Only" chart is the first min(10, len) rows of the species-level, virus-only frame at cutoff 0.001: all species-level viruses above 0.001, in non-increasing percent |
| PanelReport.KrakenAllDomains | virusHanter-panel-report.py:129-131 | the "Kraken All Domains" chart is the first min(10, len) rows of the domain-level frame at cutoff 0.001: all domain-level above 0.001, in non-increasing percent |
| PanelReport.KaijuChart | virusHanter-panel-report.py:133-135 | the Kaiju chart is the first min(10, len) groups of the aggregated frame at cutoff 0.01: all above 0.01, in non-increasing percent |
| PanelReport.CoverageSvgs | virusHanter-panel-report.py:225-229 | the kept SVGs are exactly the found ones whose path does not contain "ipynb", in the order found |
| PanelReport.FileName | virusHanter-panel-report.py:234 | `name` is slash-free, empty iff there are no pieces after the root, and otherwise the last piece |
| PanelReport.Stem | virusHanter-panel-report.py:234 | the stem is the name up to its last dot when that dot is neither first nor last, and otherwise the whole name |
| PanelReport.FileNameOfPath | virusHanter-panel-report.py:234 | the name of a path of directories and a file name is that file name |
| PanelReport.TabName | virusHanter-panel-report.py:234 | a tab name contains neither `_` nor `.` |
| PanelReport.SplitLast | virusHanter-panel-report.py:234 | the last piece of a split is the text after the last separator |
| PanelReport.StemOfFile | virusHanter-panel-report.py:234 | the stem of `<base>.<ext>` is the base |
| PanelReport.TabNameOfFile | virusHanter-panel-report.py:234 | the file `<prefix>_<tag>.<ext>` gets the tab name `<tag>` with dots turned into spaces |
| PanelReport.TabOf | virusHanter-panel-report.py:233-236 | the tab of an SVG file shows that file under its tab name |
| PanelReport.CoverageTabs | virusHanter-panel-report.py:231-241 | with no kept SVG there is exactly one placeholder tab, "No Coverage Plots"; otherwise one SVG tab per kept file, in order, named by `TabName` |
| Table.Filter | plotting/bracken_raw.py:33-34 | a mask keeps only rows that pass it, and keeps every row when all pass |
| Table.FilterMembers | plotting/bracken_raw.py:33-34 | a row is kept iff it is in the input and passes the mask |
| Table.FilterCount | plotting/bracken_raw.py:33-34 | a mask keeps every copy of a passing row and no copy of a failing one |
| Table.Head | plotting/bracken_raw.py:60 | `head(n)` is a prefix of length min(n, len) for n ≥ 0, and all but the last -n rows for n < 0 |
| Table.SortDesc | plotting/bracken_raw.py:35 | `sort_values(ascending=False)` gives a non-increasing permutation of the rows |
| Table.SortDescOfSorted | plotting/bracken_raw.py:35 | sorting rows already in order changes nothing |
| Table.BlocksFilter | plotting/contig_quality.py:67-76 | selecting one category from the category-sorted rows gives that category's input rows in input order |
| Text.Split | plotting/kaiju_megahit.py:26 | `str.split` gives one more piece than separators, none containing the separator |
| Text.JoinSplit | plotting/kaiju_megahit.py:26 | joining the pieces of a split gives back the string |
| Text.SplitJoin | plotting/kaiju_megahit.py:26 | splitting a join of separator-free pieces gives back the pieces |
| Text.Replace | virusHanter-panel-report.py:234 | `replace` turns every occurrence of the character into the other and keeps every other character |
| Text.ShowRoundTrip | utils/parse_bowtielog.py:21 | `int()` of a count's decimal digits gives back the count |
| Text.DigitsValueAppend | utils/parse_bowtielog.py:21 | `int()` of two digit strings written one after the other is the first shifted left by the length of the second, plus the second |

## Left out

- Reading files is not modelled. This covers `open`, `pd.read_csv`, BeautifulSoup HTML parsing, and the `rglob(...)[0]` and `rglob(f"{sample_name}/*.svg")` searches. Inputs are given as already-split lines, rows and cell texts, and each search as the list of paths it returns.
- All Altair chart construction is left out: encodings, axes, tooltips, titles, the histogram, the boxplot and the pie chart. So are all Panel widgets, panes, the `header` helper, the information markdown and `.save`. The five top-level section titles are kept only as the constant `PanelReport.Sections`.
- virusHanter-html-report.py is not part of this model. It is a template string and file writes, and as written it does not parse.
- The commented-out facet implementation at plotting/contig_quality.py:95-158 is not modelled.
- Percentages are exact reals, not floats. `int(total * percent / 100)` is truncation of the exact product, with no float rounding. `float()` is exact decimal reading.
- BowtieLog.TotalOf: a total is read at any length. CPython 3.11 and later limit `int()` of a string to 4300 digits and raise ValueError beyond that. The model does not represent that limit, so for it a longer total line sets the total instead of raising.
- BowtieLog.ScanLastMatchWins: "fails iff some rate text is rejected by `float`" leaves out the ValueError that CPython's 4300-digit `int()` limit raises on a longer total line. The limit is not modelled (see BowtieLog.TotalOf).
- BowtieLog.TotalLine: holds for digit strings of up to 4300 digits in CPython. A longer one raises ValueError there, and the limit is not modelled.
- BowtieLog.TotalLineExactly: the value half holds for totals of up to 4300 digits in CPython. A longer one raises ValueError there, and the limit is not modelled.
- BowtieLog.TotalLineRoundTrip: holds for counts of up to 4300 digits in CPython. A longer one raises ValueError there, and the limit is not modelled.
- Text.ShowRoundTrip: `int()` reads back counts of up to 4300 digits in CPython. Beyond that `str()` and `int()` raise ValueError, and the limit is not modelled.
- Text.DigitsValueAppend: a statement about the decimal value of digit strings, which CPython's `int()` computes only for strings of up to 4300 digits. The limit is not modelled.
- `\d` in the log patterns is taken as ASCII `0`-`9`. Python's `\d` also matches other Unicode decimal digits.
- Table.SortDesc: pandas' `sort_values` is not stable, so its order among equal percents is unspecified. The model uses a stable insertion sort. Contracts state only sortedness and permutation; idempotence is proved for this sort.
- ContigQuality.SortByCategory: the category sort is modelled as a stable grouping in the order short, medium, long, then no category. pandas puts NaN last but does not fix the order within a category.
- KaijuRaw.GroupByKeys: pandas lists groups sorted by key, the model lists them by first appearance. The percent sort that follows decides the order except among equal percents.
- KaijuRaw: pandas' `groupby` drops rows whose key has a NaN. The model's key fields are never missing.
- KaijuMegahit: missing values are `None`. The model does not represent a lineage element that is NaN inside a list.
- CatMegahit: a CAT row is modelled with the twelve columns of CAT's contig classification file, by name and position. Any further column would pass through pandas unchanged, and it is not represented.
- PanelReport.Parts: `pathlib` path parsing follows CPython's PurePosixPath: exactly two leading slashes are kept as the root `//`, and `.` and empty pieces are dropped. Windows paths are not modelled.
- PanelReport.Stem: follows CPython 3.12's `PurePath.stem` (a last dot that is the first or the final character starts no suffix); other Python versions are not modelled.
- PanelReport.AlignmentStats: only the figures of the markdown are modelled, not its text or number formatting.
