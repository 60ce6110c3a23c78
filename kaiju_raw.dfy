/** The data pipeline of `bar_chart_kaiju_raw` (plotting/kaiju_raw.py): Kaiju
    rows grouped by `(taxon_id, percent, taxon_name, reads)` with their
    taxonomy strings collected into a list, sorted by percent descending,
    kept above a percentage cutoff, and cut to the first `number`. The CSV is
    given as its rows. */
module KaijuRaw {
  import opened Table

  /** The four grouping columns. */
  datatype Key = Key(taxonId: int, percent: real, taxonName: string, readCount: int)

  /** One row of the cleaned Kaiju report. */
  datatype Row = Row(taxonId: int, percent: real, taxonName: string, readCount: int, taxonomy: string)

  /** One row after `.agg(taxonomy=("taxonomy", list))`. */
  datatype Group = Group(key: Key, taxonomy: seq<string>)

  const DefaultCutoff: real := 0.01
  const DefaultNumber: int := 10

  function KeyOf(r: Row): Key {
    Key(r.taxonId, r.percent, r.taxonName, r.readCount)
  }

  function Percent(g: Group): real {
    g.key.percent
  }

  /** The keys of the groups, in order. */
  function GroupKeys(gs: seq<Group>): (ks: seq<Key>)
    ensures |ks| == |gs|
    ensures forall i | 0 <= i < |gs| :: ks[i] == gs[i].key
  {
    seq(|gs|, i requires 0 <= i < |gs| => gs[i].key)
  }

  /** No two groups share a key. */
  predicate DistinctKeys(gs: seq<Group>) {
    forall i, j | 0 <= i < j < |gs| :: gs[i].key != gs[j].key
  }

  /** One row added to the groups built so far: its taxonomy string joins
      the list of its key's group, or it starts a new group. */
  function AddRow(gs: seq<Group>, r: Row): (out: seq<Group>)
    ensures KeyOf(r) in GroupKeys(gs) ==>
      |out| == |gs| &&
      forall i | 0 <= i < |gs| ::
        out[i] == if gs[i].key == KeyOf(r) then Group(KeyOf(r), gs[i].taxonomy + [r.taxonomy]) else gs[i]
    ensures KeyOf(r) !in GroupKeys(gs) ==> out == gs + [Group(KeyOf(r), [r.taxonomy])]
  {
    var k := KeyOf(r);
    if k in GroupKeys(gs) then
      seq(|gs|, i requires 0 <= i < |gs| =>
        if gs[i].key == k then Group(k, gs[i].taxonomy + [r.taxonomy]) else gs[i])
    else gs + [Group(k, [r.taxonomy])]
  }

  /** `groupby([...], as_index=False).agg(taxonomy=("taxonomy", list))`,
      groups in order of first appearance. */
  function GroupBy(rows: seq<Row>): seq<Group>
  {
    if rows == [] then [] else AddRow(GroupBy(rows[..|rows| - 1]), rows[|rows| - 1])
  }

  /** The taxonomy strings of the rows with key `k`, in input order. */
  function TaxaOf(rows: seq<Row>, k: Key): seq<string>
  {
    if rows == [] then []
    else TaxaOf(rows[..|rows| - 1], k) + (if KeyOf(rows[|rows| - 1]) == k then [rows[|rows| - 1].taxonomy] else [])
  }

  /** One group per distinct key: the keys are distinct and are exactly the
      keys of the rows. */
  lemma {:induction false} GroupByKeys(rows: seq<Row>)
    ensures DistinctKeys(GroupBy(rows))
    ensures forall k :: k in GroupKeys(GroupBy(rows)) <==> exists j | 0 <= j < |rows| :: KeyOf(rows[j]) == k
  {
    if rows != [] {
      var init, last := rows[..|rows| - 1], rows[|rows| - 1];
      GroupByKeys(init);
      var gs := GroupBy(init);
      var out := GroupBy(rows);
      if KeyOf(last) in GroupKeys(gs) {
        assert GroupKeys(out) == GroupKeys(gs);
      } else {
        assert GroupKeys(out) == GroupKeys(gs) + [KeyOf(last)];
      }
      forall k ensures k in GroupKeys(out) <==> exists j | 0 <= j < |rows| :: KeyOf(rows[j]) == k {
        if exists j | 0 <= j < |rows| :: KeyOf(rows[j]) == k {
          var j :| 0 <= j < |rows| && KeyOf(rows[j]) == k;
          if j < |init| {
            assert KeyOf(init[j]) == k;
          }
        }
        if k in GroupKeys(gs) {
          var j :| 0 <= j < |init| && KeyOf(init[j]) == k;
          assert KeyOf(rows[j]) == k;
        }
      }
    }
  }

  /** Each group's list holds the taxonomy of every row with its key, in
      input order. */
  lemma {:induction false} GroupByTaxa(rows: seq<Row>)
    ensures forall i | 0 <= i < |GroupBy(rows)| :: GroupBy(rows)[i].taxonomy == TaxaOf(rows, GroupBy(rows)[i].key)
  {
    if rows != [] {
      var init, last := rows[..|rows| - 1], rows[|rows| - 1];
      GroupByTaxa(init);
      GroupByKeys(init);
      var gs := GroupBy(init);
      var out := GroupBy(rows);
      forall i | 0 <= i < |out| ensures out[i].taxonomy == TaxaOf(rows, out[i].key) {
        if i == |gs| {
          // A new group: no earlier row has its key.
          assert KeyOf(last) !in GroupKeys(gs);
          TaxaOfAbsent(init, KeyOf(last));
        }
      }
    }
  }

  /** No row with key `k` means an empty list for `k`. */
  lemma {:induction false} TaxaOfAbsent(rows: seq<Row>, k: Key)
    requires forall j | 0 <= j < |rows| :: KeyOf(rows[j]) != k
    ensures TaxaOf(rows, k) == []
  {
    if rows != [] {
      TaxaOfAbsent(rows[..|rows| - 1], k);
    }
  }

  /** `x.percent > cutoff` on the aggregated frame. */
  function Above(cutoff: real): Group -> bool {
    (g: Group) => g.key.percent > cutoff
  }

  /** Groups sorted by percent descending and kept strictly above the
      cutoff (sorting first, filtering second, as written): a permutation of
      exactly the groups above the cutoff. */
  function SortAndCut(gs: seq<Group>, cutoff: real): (r: seq<Group>)
    ensures SortedDesc(r, Percent)
    ensures forall i | 0 <= i < |r| :: r[i].key.percent > cutoff
    ensures forall g :: multiset(r)[g] == if g.key.percent > cutoff then multiset(gs)[g] else 0
  {
    var sorted := SortDesc(gs, Percent);
    FilterKeepsSorted(sorted, Above(cutoff), Percent);
    FilterCount(sorted, Above(cutoff));
    Filter(sorted, Above(cutoff))
  }

  /** The frame `bar_chart_kaiju_raw` charts before `.head`. */
  function Aggregate(rows: seq<Row>, cutoff: real): seq<Group>
  {
    SortAndCut(GroupBy(rows), cutoff)
  }

  /** The groups kept are the groups above the cutoff. */
  lemma SortAndCutMembers(gs: seq<Group>, cutoff: real)
    ensures forall g :: g in SortAndCut(gs, cutoff) <==> g in gs && g.key.percent > cutoff
  {
    var out := SortAndCut(gs, cutoff);
    forall g ensures g in out <==> g in gs && g.key.percent > cutoff {
      assert g in out <==> multiset(out)[g] > 0;
      assert g in gs <==> multiset(gs)[g] > 0;
    }
  }

  /** Cutting key-distinct groups leaves them key-distinct. */
  lemma SortAndCutDistinct(gs: seq<Group>, cutoff: real)
    requires DistinctKeys(gs)
    ensures DistinctKeys(SortAndCut(gs, cutoff))
  {
    var out := SortAndCut(gs, cutoff);
    forall i, j | 0 <= i < j < |out| ensures out[i].key != out[j].key {
      if out[i].key == out[j].key {
        assert out[i] == out[j] by {
          SortAndCutMembers(gs, cutoff);
          SameKeySameGroup(gs, out[i], out[j]);
        }
        AtMostOnce(gs, out[i]);
        TwiceCounted(out, i, j);
      }
    }
  }

  /** The keys kept are the keys above the cutoff. */
  lemma SortAndCutKeys(gs: seq<Group>, cutoff: real)
    ensures forall k :: k in GroupKeys(SortAndCut(gs, cutoff)) <==> k.percent > cutoff && k in GroupKeys(gs)
  {
    forall k ensures k in GroupKeys(SortAndCut(gs, cutoff)) <==> k.percent > cutoff && k in GroupKeys(gs) {
      SortAndCutKey(gs, cutoff, k);
    }
  }

  lemma SortAndCutKey(gs: seq<Group>, cutoff: real, k: Key)
    ensures k in GroupKeys(SortAndCut(gs, cutoff)) <==> k.percent > cutoff && k in GroupKeys(gs)
  {
    var out := SortAndCut(gs, cutoff);
    if k in GroupKeys(gs) && k.percent > cutoff {
      var a :| 0 <= a < |gs| && GroupKeys(gs)[a] == k;
      assert gs[a] in out by {
        SortAndCutMembers(gs, cutoff);
      }
      KeyAmong(out, gs[a]);
    }
    if k in GroupKeys(out) {
      var i :| 0 <= i < |out| && GroupKeys(out)[i] == k;
      assert out[i] in gs by {
        SortAndCutMembers(gs, cutoff);
      }
      KeyAmong(gs, out[i]);
    }
  }

  /** The aggregated frame, stated group by group: its keys are distinct,
      they are exactly the keys of the input rows with a percent above the
      cutoff, and each group lists the taxonomy of every row with its key. */
  lemma AggregateGroups(rows: seq<Row>, cutoff: real)
    ensures DistinctKeys(Aggregate(rows, cutoff))
    ensures forall k :: k in GroupKeys(Aggregate(rows, cutoff)) <==>
      k.percent > cutoff && exists j | 0 <= j < |rows| :: KeyOf(rows[j]) == k
    ensures var out := Aggregate(rows, cutoff);
      forall i | 0 <= i < |out| :: out[i].taxonomy == TaxaOf(rows, out[i].key)
  {
    var gs := GroupBy(rows);
    GroupByKeys(rows);
    GroupByTaxa(rows);
    SortAndCutDistinct(gs, cutoff);
    SortAndCutKeys(gs, cutoff);
    SortAndCutMembers(gs, cutoff);
  }

  /** The key of a member group is among the keys. */
  lemma KeyAmong(gs: seq<Group>, g: Group)
    requires g in gs
    ensures g.key in GroupKeys(gs)
  {
    var a :| 0 <= a < |gs| && gs[a] == g;
    assert GroupKeys(gs)[a] == g.key;
  }

  /** In a key-distinct sequence a key identifies its group. */
  lemma SameKeySameGroup(gs: seq<Group>, x: Group, y: Group)
    requires DistinctKeys(gs) && x in gs && y in gs && x.key == y.key
    ensures x == y
  {
    var a :| 0 <= a < |gs| && gs[a] == x;
    var b :| 0 <= b < |gs| && gs[b] == y;
  }

  /** A key-distinct sequence holds no group twice. */
  lemma AtMostOnce(gs: seq<Group>, g: Group)
    requires DistinctKeys(gs)
    ensures multiset(gs)[g] <= 1
  {
    if g in gs {
      var a :| 0 <= a < |gs| && gs[a] == g;
      DistinctCountsOnce(gs, a);
    }
  }

  /** A group of a key-distinct sequence occurs in it once. */
  lemma DistinctCountsOnce(gs: seq<Group>, a: nat)
    requires DistinctKeys(gs) && a < |gs|
    ensures multiset(gs)[gs[a]] == 1
  {
    var front, back := gs[..a], gs[a + 1..];
    assert gs == front + [gs[a]] + back;
    assert gs[a] !in front by {
      forall i | 0 <= i < |front| ensures front[i] != gs[a] {
        assert gs[i].key != gs[a].key;
      }
    }
    assert gs[a] !in back by {
      forall i | 0 <= i < |back| ensures back[i] != gs[a] {
        assert gs[a + 1 + i].key != gs[a].key;
      }
    }
  }

  /** The rows the chart draws: `df.head(number)`, the first `number`
      groups, all of them when there are fewer, and for a negative `number`
      all but the last `-number`. */
  function ChartRows(rows: seq<Row>, cutoff: real, number: int): (r: seq<Group>)
    ensures var all := Aggregate(rows, cutoff);
      |r| <= |all| && r == all[..|r|] &&
      (0 <= number ==> |r| == if number < |all| then number else |all|) &&
      (number < 0 ==> |r| == if -number < |all| then |all| + number else 0)
  {
    Head(Aggregate(rows, cutoff), number)
  }
}
