/** The data pipeline of `bar_chart_cat_megahit` (plotting/cat_megahit.py):
    CAT's per-contig classification with its columns renamed, unclassified
    and unsupported contigs filtered out, and the kingdom taken from the
    superkingdom column without its score. The tab-separated file is given
    as its rows. */
module CatMegahit {
  import opened Table

  /** One row of CAT's contig classification file. */
  datatype CatRow = CatRow(
    contig: string, classification: string, reason: string, lineage: string,
    lineageScores: string, superkingdom: string, phylum: string, taxClass: string,
    order: string, family: string, genus: string, species: string)

  /** One row of the frame charted: `# contig` renamed to `name`, `family`,
      `genus` and `species` renamed to the third, second and last level,
      `classification`, `lineage`, `lineage scores` and `superkingdom`
      dropped, and `kingdom_cat` added. */
  datatype CatContig = CatContig(
    name: string, reason: string, phylum: string, taxClass: string, order: string,
    thirdLevelCat: string, secondLevelCat: string, lastLevelCat: string, kingdomCat: string)

  const NoTaxid: string := "no taxid assigned"
  const NoSupport: string := "no support"
  const ScoreWidth: nat := 6

  /** `s[:-6]`: the text without its last six characters (the `: 1.00`
      score CAT appends), empty when there are no more than six. */
  function DropScore(s: string): (r: string)
    ensures |r| == if |s| <= ScoreWidth then 0 else |s| - ScoreWidth
    ensures r == s[..|r|]
  {
    if |s| <= ScoreWidth then "" else s[..|s| - ScoreWidth]
  }

  /** A name with any six-character suffix comes back out unchanged. */
  lemma DropScoreOfScored(name: string, score: string)
    requires |score| == ScoreWidth
    ensures DropScore(name + score) == name
  {
    assert (name + score)[..|name|] == name;
  }

  predicate Classified(r: CatRow) {
    r.classification != NoTaxid
  }

  predicate SuperkingdomSupported(r: CatRow) {
    r.superkingdom != NoSupport
  }

  predicate PhylumSupported(r: CatRow) {
    r.phylum != NoSupport
  }

  predicate SpeciesRowSupported(r: CatRow) {
    r.species != NoSupport
  }

  predicate SpeciesSupported(c: CatContig) {
    c.lastLevelCat != NoSupport
  }

  /** The rename, the drops and the `kingdom_cat` assignment on one row. */
  function Convert(r: CatRow): (c: CatContig)
    ensures c.name == r.contig && c.lastLevelCat == r.species && c.secondLevelCat == r.genus
    ensures c.thirdLevelCat == r.family && c.kingdomCat == DropScore(r.superkingdom)
  {
    CatContig(r.contig, r.reason, r.phylum, r.taxClass, r.order, r.family, r.genus, r.species,
              DropScore(r.superkingdom))
  }

  /** `Convert` on every row, in order. */
  function ConvertAll(rows: seq<CatRow>): (cs: seq<CatContig>)
    ensures |cs| == |rows| && forall i | 0 <= i < |rows| :: cs[i] == Convert(rows[i])
  {
    if rows == [] then [] else [Convert(rows[0])] + ConvertAll(rows[1..])
  }

  /** The frame `bar_chart_cat_megahit` charts, step by step as written: three
      filters on the input columns, the conversion, and a last filter on the
      renamed species column. */
  function CatContigs(rows: seq<CatRow>): (out: seq<CatContig>)
    ensures forall i | 0 <= i < |out| :: out[i].lastLevelCat != NoSupport
  {
    var kept := Filter(Filter(Filter(rows, Classified), SuperkingdomSupported), PhylumSupported);
    Filter(ConvertAll(kept), SpeciesSupported)
  }

  /** Every sentinel test at once. */
  predicate Kept(r: CatRow) {
    Classified(r) && SuperkingdomSupported(r) && PhylumSupported(r) && SpeciesRowSupported(r)
  }

  /** Filtering on the renamed species column is filtering the input rows
      on `species`. */
  lemma {:induction false} FilterAfterConvert(rows: seq<CatRow>)
    ensures Filter(ConvertAll(rows), SpeciesSupported) ==
      ConvertAll(Filter(rows, SpeciesRowSupported))
  {
    if rows != [] {
      FilterAfterConvert(rows[1..]);
      var c := ConvertAll(rows);
      assert c[0] == Convert(rows[0]) && c[1..] == ConvertAll(rows[1..]);
      if SpeciesRowSupported(rows[0]) {
        var kept := Filter(rows, SpeciesRowSupported);
        assert kept == [rows[0]] + Filter(rows[1..], SpeciesRowSupported);
        assert kept[0] == rows[0] && kept[1..] == Filter(rows[1..], SpeciesRowSupported);
      }
    }
  }

  /** The pipeline converts exactly the rows passing every sentinel test, in
      their input order. */
  lemma CatContigsAreKeptRows(rows: seq<CatRow>)
    ensures CatContigs(rows) == ConvertAll(Filter(rows, Kept))
  {
    var f1 := Filter(rows, Classified);
    var both := (r: CatRow) => Classified(r) && SuperkingdomSupported(r);
    var three := (r: CatRow) => both(r) && PhylumSupported(r);
    FilterFilter(rows, Classified, SuperkingdomSupported, both);
    FilterFilter(rows, both, PhylumSupported, three);
    var kept := Filter(rows, three);
    FilterAfterConvert(kept);
    FilterFilter(rows, three, SpeciesRowSupported, Kept);
  }

  /** No contig without a taxid, or without support at superkingdom, phylum
      or species level, survives; every other contig does, converted, and the
      survivors keep their input order. */
  lemma CatContigsRows(rows: seq<CatRow>)
    ensures forall i | 0 <= i < |CatContigs(rows)| ::
      exists j | 0 <= j < |rows| :: Kept(rows[j]) && CatContigs(rows)[i] == Convert(rows[j])
    ensures forall j | 0 <= j < |rows| && Kept(rows[j]) :: Convert(rows[j]) in CatContigs(rows)
    ensures IsSubsequence(Filter(rows, Kept), rows)
  {
    CatContigsAreKeptRows(rows);
    ConvertedFromKept(rows);
    KeptConverted(rows);
    FilterIsSubsequence(rows, Kept);
  }

  /** Each converted row comes from a kept input row. */
  lemma ConvertedFromKept(rows: seq<CatRow>)
    ensures var out := ConvertAll(Filter(rows, Kept));
      forall i | 0 <= i < |out| :: exists j | 0 <= j < |rows| :: Kept(rows[j]) && out[i] == Convert(rows[j])
  {
    var kept := Filter(rows, Kept);
    var out := ConvertAll(kept);
    FilterMembers(rows, Kept);
    forall i | 0 <= i < |out|
      ensures exists j | 0 <= j < |rows| :: Kept(rows[j]) && out[i] == Convert(rows[j])
    {
      assert kept[i] in rows;
    }
  }

  /** Each kept input row is converted. */
  lemma KeptConverted(rows: seq<CatRow>)
    ensures forall j | 0 <= j < |rows| && Kept(rows[j]) :: Convert(rows[j]) in ConvertAll(Filter(rows, Kept))
  {
    var kept := Filter(rows, Kept);
    var out := ConvertAll(kept);
    FilterMembers(rows, Kept);
    forall j | 0 <= j < |rows| && Kept(rows[j]) ensures Convert(rows[j]) in out {
      assert rows[j] in kept;
      var i :| 0 <= i < |kept| && kept[i] == rows[j];
      assert out[i] == Convert(rows[j]);
    }
  }

  /** The kingdom CAT reports as "Bacteria: 1.00" is charted as "Bacteria". */
  lemma KingdomExample()
    ensures DropScore("Bacteria: 1.00") == "Bacteria"
  {
    DropScoreOfScored("Bacteria", ": 1.00");
  }
}
