/** `df_bracken_species_raw` and the `.head(number)` of
    `bar_chart_bracken_raw` (plotting/bracken_raw.py): the rows of a cleaned
    Bracken report at one taxonomic level, above a percentage cutoff, most
    abundant first, optionally only viruses. The CSV is given as its rows. */
module Bracken {
  import opened Wrappers
  import opened Table

  /** One row of the cleaned Bracken report. */
  datatype Row = Row(name: string, level: string, percent: real, domain: string, newEstReads: int)

  /** The level names the function accepts and the rank codes Bracken
      writes for them (note `class` is `K`). */
  const Taxonomy: map<string, string> := map[
    "domain" := "D", "phylum" := "P", "class" := "K", "order" := "O",
    "family" := "F", "genus" := "G", "species" := "S"]

  /** `taxonomy[level]`, raising KeyError for a name not in the map. */
  function LevelCode(level: string): (r: Result<string>)
    ensures r.Err? <==> level !in Taxonomy
    ensures r.Err? ==> r.error == KeyError(level)
    ensures r.Ok? ==> r.value == Taxonomy[level]
  {
    if level in Taxonomy then Ok(Taxonomy[level]) else Err(KeyError(level))
  }

  /** The seven accepted names and their codes, and no two names share a
      code. */
  lemma LevelCodes(level: string, other: string)
    ensures LevelCode(level) == Ok("D") <==> level == "domain"
    ensures LevelCode(level) == Ok("P") <==> level == "phylum"
    ensures LevelCode(level) == Ok("K") <==> level == "class"
    ensures LevelCode(level) == Ok("O") <==> level == "order"
    ensures LevelCode(level) == Ok("F") <==> level == "family"
    ensures LevelCode(level) == Ok("G") <==> level == "genus"
    ensures LevelCode(level) == Ok("S") <==> level == "species"
    ensures LevelCode(level).Ok? && LevelCode(level) == LevelCode(other) ==> level == other
  {
  }

  function Percent(r: Row): real {
    r.percent
  }

  /** `x.level == code`, the first `.loc` mask. */
  function LevelIs(code: string): Row -> bool {
    (x: Row) => x.level == code
  }

  /** `x.percent > cutoff`, the second `.loc` mask. */
  function Above(cutoff: real): Row -> bool {
    (x: Row) => x.percent > cutoff
  }

  /** `x.domain == "Virus"`, the mask applied with `virus_only`. */
  predicate IsVirus(x: Row) {
    x.domain == "Virus"
  }

  /** The masks the function applies, together. */
  function Qualifies(code: string, cutoff: real, virusOnly: bool): Row -> bool {
    (x: Row) => x.level == code && x.percent > cutoff && (virusOnly ==> IsVirus(x))
  }

  /** The first three steps of the chain: level mask, cutoff mask, sort. */
  function LevelAboveSorted(rows: seq<Row>, code: string, cutoff: real): (r: seq<Row>)
    ensures SortedDesc(r, Percent)
  {
    SortDesc(Filter(Filter(rows, LevelIs(code)), Above(cutoff)), Percent)
  }

  /** The rows sorted by the chain are at the level and above the cutoff. */
  lemma SortedAbove(rows: seq<Row>, code: string, cutoff: real)
    ensures forall i | 0 <= i < |LevelAboveSorted(rows, code, cutoff)| ::
      LevelAboveSorted(rows, code, cutoff)[i].level == code &&
      LevelAboveSorted(rows, code, cutoff)[i].percent > cutoff
  {
    var atLevel := Filter(rows, LevelIs(code));
    var above := Filter(atLevel, Above(cutoff));
    var sorted := SortDesc(above, Percent);
    FilterMembers(atLevel, Above(cutoff));
    forall i | 0 <= i < |sorted| ensures sorted[i].level == code && sorted[i].percent > cutoff {
      assert sorted[i] in multiset(above);
    }
  }

  /** Keeping the viruses of rows at the level and above the cutoff keeps
      rows passing every mask, in the same order. */
  lemma VirusRows(sorted: seq<Row>, code: string, cutoff: real)
    requires forall i | 0 <= i < |sorted| :: sorted[i].level == code && sorted[i].percent > cutoff
    requires SortedDesc(sorted, Percent)
    ensures var r := Filter(sorted, IsVirus);
      (forall i | 0 <= i < |r| :: Qualifies(code, cutoff, true)(r[i])) && SortedDesc(r, Percent)
  {
    var r := Filter(sorted, IsVirus);
    FilterKeepsSorted(sorted, IsVirus, Percent);
    FilterMembers(sorted, IsVirus);
    forall i | 0 <= i < |r| ensures Qualifies(code, cutoff, true)(r[i]) {
      var k :| 0 <= k < |sorted| && sorted[k] == r[i];
    }
  }

  /** The filter-sort-filter chain, for a known level code: every row it
      keeps passes every mask, and the rows come most abundant first. */
  function Chain(rows: seq<Row>, code: string, cutoff: real, virusOnly: bool): (r: seq<Row>)
    ensures forall i | 0 <= i < |r| :: Qualifies(code, cutoff, virusOnly)(r[i])
    ensures SortedDesc(r, Percent)
  {
    var sorted := LevelAboveSorted(rows, code, cutoff);
    SortedAbove(rows, code, cutoff);
    if virusOnly then
      VirusRows(sorted, code, cutoff);
      Filter(sorted, IsVirus)
    else sorted
  }

  /** The frame `df_bracken_species_raw` returns: rows at the requested
      level with a percent strictly above the cutoff, sorted by percent
      descending, then (with `virusOnly`) only the `Virus` rows. */
  function SpeciesRaw(rows: seq<Row>, level: string, cutoff: real, virusOnly: bool): (r: Result<seq<Row>>)
    ensures r.Err? <==> level !in Taxonomy
    ensures r.Err? ==> r.error == KeyError(level)
    ensures r.Ok? ==> forall i | 0 <= i < |r.value| :: Qualifies(Taxonomy[level], cutoff, virusOnly)(r.value[i])
    ensures r.Ok? ==> SortedDesc(r.value, Percent)
  {
    match LevelCode(level)
    case Err(e) => Err(e)
    case Ok(code) => Ok(Chain(rows, code, cutoff, virusOnly))
  }

  /** Counting one row through the chain: it survives as often as it
      occurs in the input exactly when it passes every mask. */
  lemma ChainCount(rows: seq<Row>, code: string, cutoff: real, virusOnly: bool, x: Row)
    ensures multiset(Chain(rows, code, cutoff, virusOnly))[x] ==
      multiset(Filter(rows, Qualifies(code, cutoff, virusOnly)))[x]
  {
    var atLevel := Filter(rows, LevelIs(code));
    var above := Filter(atLevel, Above(cutoff));
    var sorted := SortDesc(above, Percent);
    FilterCount(rows, LevelIs(code));
    FilterCount(atLevel, Above(cutoff));
    FilterCount(sorted, IsVirus);
    FilterCount(rows, Qualifies(code, cutoff, virusOnly));
    assert multiset(atLevel)[x] == if x.level == code then multiset(rows)[x] else 0;
    assert multiset(above)[x] == if x.percent > cutoff then multiset(atLevel)[x] else 0;
    assert multiset(Filter(sorted, IsVirus))[x] == if IsVirus(x) then multiset(sorted)[x] else 0;
  }

  /** Nothing qualifying is lost and nothing is invented: the result is a
      permutation of exactly the input rows satisfying every active mask;
      without `virusOnly` no row is dropped for its domain. */
  lemma SpeciesRawRows(rows: seq<Row>, level: string, cutoff: real, virusOnly: bool)
    requires level in Taxonomy
    ensures multiset(SpeciesRaw(rows, level, cutoff, virusOnly).value) ==
      multiset(Filter(rows, Qualifies(Taxonomy[level], cutoff, virusOnly)))
  {
    var code := Taxonomy[level];
    var out := Chain(rows, code, cutoff, virusOnly);
    var spec := Filter(rows, Qualifies(code, cutoff, virusOnly));
    forall x: Row ensures multiset(out)[x] == multiset(spec)[x] {
      ChainCount(rows, code, cutoff, virusOnly, x);
    }
    assert multiset(out) == multiset(spec);
  }

  /** Filtering again with the same arguments returns the same rows. */
  lemma SpeciesRawIdempotent(rows: seq<Row>, level: string, cutoff: real, virusOnly: bool)
    requires level in Taxonomy
    ensures var once := SpeciesRaw(rows, level, cutoff, virusOnly).value;
      SpeciesRaw(once, level, cutoff, virusOnly) == Ok(once)
  {
    var code := Taxonomy[level];
    var once := Chain(rows, code, cutoff, virusOnly);
    assert forall i | 0 <= i < |once| :: Qualifies(code, cutoff, virusOnly)(once[i]);
    assert Filter(once, LevelIs(code)) == once by {
      assert forall i | 0 <= i < |once| :: LevelIs(code)(once[i]);
    }
    assert Filter(once, Above(cutoff)) == once by {
      assert forall i | 0 <= i < |once| :: Above(cutoff)(once[i]);
    }
    SortDescOfSorted(once, Percent);
    if virusOnly {
      assert Filter(once, IsVirus) == once by {
        assert forall i | 0 <= i < |once| :: IsVirus(once[i]);
      }
    }
    assert Chain(once, code, cutoff, virusOnly) == once;
  }

  /** The rows the bar chart draws: the first `number` rows of the filtered
      frame (`.head(number)`), all of them when there are fewer, and for a
      negative `number` all but the last `-number`. */
  function BarChartRows(rows: seq<Row>, level: string, cutoff: real, number: int, virusOnly: bool): (r: Result<seq<Row>>)
    ensures r.Err? <==> level !in Taxonomy
    ensures r.Err? ==> r.error == KeyError(level)
    ensures r.Ok? ==>
      var all := SpeciesRaw(rows, level, cutoff, virusOnly).value;
      |r.value| <= |all| && r.value == all[..|r.value|] &&
      (0 <= number ==> |r.value| == if number < |all| then number else |all|) &&
      (number < 0 ==> |r.value| == if -number < |all| then |all| + number else 0)
  {
    match SpeciesRaw(rows, level, cutoff, virusOnly)
    case Err(e) => Err(e)
    case Ok(df) => Ok(Head(df, number))
  }

  /** The bars drawn pass every mask and come most abundant first. */
  lemma BarChartQualifies(rows: seq<Row>, level: string, cutoff: real, number: int, virusOnly: bool)
    requires level in Taxonomy
    ensures var r := BarChartRows(rows, level, cutoff, number, virusOnly).value;
      (forall i | 0 <= i < |r| :: Qualifies(Taxonomy[level], cutoff, virusOnly)(r[i])) &&
      SortedDesc(r, Percent)
  {
    var all := Chain(rows, Taxonomy[level], cutoff, virusOnly);
    assert SpeciesRaw(rows, level, cutoff, virusOnly) == Ok(all);
    assert BarChartRows(rows, level, cutoff, number, virusOnly) == Ok(Head(all, number));
    HeadKeeps(all, number, Qualifies(Taxonomy[level], cutoff, virusOnly), Percent);
  }

  /** Four example rows: two species-level virus rows, one of them below
      the 0.001 cutoff, a genus-level virus row and a species-level
      bacterial row. */
  const ExampleA := Row("a", "S", 0.05, "Virus", 50)
  const ExampleB := Row("b", "S", 0.0005, "Virus", 1)
  const ExampleC := Row("c", "G", 0.9, "Virus", 900)
  const ExampleD := Row("d", "S", 0.2, "Bacteria", 200)

  /** The species rows of the example, in input order. */
  lemma ExampleLevel()
    ensures Filter([ExampleA, ExampleB, ExampleC, ExampleD], LevelIs("S")) == [ExampleA, ExampleB, ExampleD]
  {
    var a, b, c, d := ExampleA, ExampleB, ExampleC, ExampleD;
    assert [a, b, c, d][1..] == [b, c, d] && [b, c, d][1..] == [c, d];
    assert [c, d][1..] == [d] && [d][1..] == [];
    assert Filter([d], LevelIs("S")) == [d];
    assert Filter([c, d], LevelIs("S")) == [d];
  }

  /** The species rows of the example above the cutoff. */
  lemma ExampleAbove()
    ensures Filter([ExampleA, ExampleB, ExampleD], Above(0.001)) == [ExampleA, ExampleD]
  {
    var a, b, d := ExampleA, ExampleB, ExampleD;
    assert [a, b, d][1..] == [b, d] && [b, d][1..] == [d] && [d][1..] == [];
    assert Filter([d], Above(0.001)) == [d];
    assert Filter([b, d], Above(0.001)) == [d];
  }

  /** The bacterial row is the more abundant. */
  lemma ExampleSort()
    ensures SortDesc([ExampleA, ExampleD], Percent) == [ExampleD, ExampleA]
  {
    var a, d := ExampleA, ExampleD;
    assert [a, d][1..] == [d] && [d][1..] == [];
    assert SortDesc([d], Percent) == [d];
    assert Insert(a, [d], Percent) == [d] + Insert(a, [], Percent);
  }

  /** The species rows above the cutoff, most abundant first. */
  lemma ExampleLevelAboveSorted()
    ensures LevelAboveSorted([ExampleA, ExampleB, ExampleC, ExampleD], "S", 0.001) == [ExampleD, ExampleA]
  {
    ExampleLevel();
    ExampleAbove();
    ExampleSort();
  }

  /** With `virusOnly` only the virus species row above the cutoff is
      kept; without it the bacterial row is kept too, and comes first as
      the more abundant. */
  lemma SpeciesRawExample()
    ensures var rows := [ExampleA, ExampleB, ExampleC, ExampleD];
      SpeciesRaw(rows, "species", 0.001, true) == Ok([ExampleA]) &&
      SpeciesRaw(rows, "species", 0.001, false) == Ok([ExampleD, ExampleA])
  {
    ExampleLevelAboveSorted();
    assert Filter([ExampleD, ExampleA], IsVirus) == [ExampleA] by {
      assert [ExampleD, ExampleA][1..] == [ExampleA] && [ExampleA][1..] == [];
      assert Filter([ExampleA], IsVirus) == [ExampleA];
    }
  }
}
