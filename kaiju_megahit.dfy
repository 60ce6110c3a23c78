/** The data pipeline of `bar_chart_kaiju_megahit`
    (plotting/kaiju_megahit.py): Kaiju's per-contig output with incomplete
    rows dropped, each taxonomy string split into its lineage, and the last
    three levels and the kingdom derived from it. The tab-separated file is
    given as its rows, a missing cell as `None`. */
module KaijuMegahit {
  import opened Wrappers
  import opened Text
  import opened Table

  /** The three columns read (`name`, `taxon_id`, `taxonomy`). */
  datatype Row = Row(name: Option<string>, taxonId: Option<int>, taxonomy: Option<string>)

  /** One row of the frame charted: the lineage itself is dropped, only the
      levels derived from it remain. A level the lineage is too short for is
      `None` (pandas' NaN). */
  datatype Contig = Contig(
    name: string, taxonId: int,
    lastLevel: Option<string>, secondLevel: Option<string>, thirdLevel: Option<string>,
    kingdom: Option<string>)

  const CellularOrganisms: string := "cellular organisms"

  /** A row `dropna()` keeps. */
  predicate Complete(r: Row) {
    r.name.Some? && r.taxonId.Some? && r.taxonomy.Some?
  }

  /** `taxonomy.str.split(";").str[:-1]`: the pieces between semicolons,
      without the piece after the last one. */
  function Lineage(t: string): (l: seq<string>)
    ensures |l| == Count(t, ';')
    ensures forall i | 0 <= i < |l| :: ';' !in l[i]
  {
    var parts := Split(t, ';');
    parts[..|parts| - 1]
  }

  /** `lineage.str[-k]`: the k-th element from the end, or `None` when the
      list is shorter than `k`. */
  function FromEnd(l: seq<string>, k: nat): (r: Option<string>)
    requires k >= 1
    ensures r.Some? <==> k <= |l|
    ensures r.Some? ==> r.value == l[|l| - k]
  {
    if k <= |l| then Some(l[|l| - k]) else None
  }

  /** `np.select([l.str[0] != "cellular organisms"], [l.str[0]],
      default=l.str[1])`: the first level, or the second when the first is
      "cellular organisms"; `None` when that element is missing. */
  function Kingdom(l: seq<string>): (r: Option<string>)
    ensures r.Some? <==> (|l| >= 1 && l[0] != CellularOrganisms) || (|l| >= 2 && l[0] == CellularOrganisms)
    ensures r.Some? && l[0] != CellularOrganisms ==> r.value == l[0]
    ensures r.Some? && l[0] == CellularOrganisms ==> r.value == l[1]
  {
    if |l| == 0 then None
    else if l[0] != CellularOrganisms then Some(l[0])
    else if |l| >= 2 then Some(l[1])
    else None
  }

  /** The `.assign` chain on one complete row. */
  function Derive(r: Row): Contig
    requires Complete(r)
  {
    var l := Lineage(r.taxonomy.value);
    Contig(r.name.value, r.taxonId.value, FromEnd(l, 1), FromEnd(l, 2), FromEnd(l, 3), Kingdom(l))
  }

  /** The frame `bar_chart_kaiju_megahit` charts: one derived row for each
      complete input row, in input order. */
  function KaijuContigs(rows: seq<Row>): (out: seq<Contig>)
    ensures var kept := Filter(rows, Complete);
      |out| == |kept| && forall i | 0 <= i < |out| :: out[i] == Derive(kept[i])
  {
    var kept := Filter(rows, Complete);
    seq(|kept|, i requires 0 <= i < |kept| => Derive(kept[i]))
  }

  /** `dropna` drops exactly the rows with a missing cell and keeps the
      others in order. */
  lemma KeptRows(rows: seq<Row>)
    ensures forall r :: r in Filter(rows, Complete) <==> r in rows && Complete(r)
    ensures IsSubsequence(Filter(rows, Complete), rows)
  {
    FilterIsSubsequence(rows, Complete);
  }

  /** The lineage of a taxonomy string written as levels each followed by a
      semicolon (the way Kaiju writes it) is those levels. */
  lemma {:induction false} LineageOfLevels(levels: seq<string>)
    requires forall i | 0 <= i < |levels| :: ';' !in levels[i]
    ensures Lineage(Join(levels + [""], ';')) == levels
  {
    var parts := levels + [""];
    assert forall i | 0 <= i < |parts| :: ';' !in parts[i];
    SplitJoin(parts, ';');
    assert parts[..|parts| - 1] == levels;
  }

  /** Rejoining the lineage with the dropped last piece gives back the
      taxonomy string. */
  lemma LineageRejoin(t: string)
    ensures var parts := Split(t, ';');
      Join(Lineage(t) + [parts[|parts| - 1]], ';') == t
  {
    var parts := Split(t, ';');
    assert Lineage(t) + [parts[|parts| - 1]] == parts;
    JoinSplit(t, ';');
  }

  /** For a taxonomy string written as levels each followed by a
      semicolon, the derived row holds the last three levels (where there
      are that many) and the kingdom: the first level, or the second under
      "cellular organisms". */
  lemma DeriveFromLevels(name: string, id: int, levels: seq<string>)
    requires forall i | 0 <= i < |levels| :: ';' !in levels[i]
    ensures var c := Derive(Row(Some(name), Some(id), Some(Join(levels + [""], ';'))));
      c.name == name && c.taxonId == id &&
      (c.lastLevel.Some? <==> |levels| >= 1) &&
      (|levels| >= 1 ==> c.lastLevel.value == levels[|levels| - 1]) &&
      (c.secondLevel.Some? <==> |levels| >= 2) &&
      (|levels| >= 2 ==> c.secondLevel.value == levels[|levels| - 2]) &&
      (c.thirdLevel.Some? <==> |levels| >= 3) &&
      (|levels| >= 3 ==> c.thirdLevel.value == levels[|levels| - 3]) &&
      (|levels| >= 1 && levels[0] != CellularOrganisms ==> c.kingdom == Some(levels[0])) &&
      (|levels| >= 2 && levels[0] == CellularOrganisms ==> c.kingdom == Some(levels[1]))
  {
    LineageOfLevels(levels);
  }
}
