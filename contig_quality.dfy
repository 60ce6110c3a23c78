/** The data side of `megahit_contig_coverage_facet`
    (plotting/contig_quality.py): each coverage row's contig put in a length
    category by right-closed bins, rows sorted by category, and one facet per
    category (short, medium, long) with its rows, axis step and colour. The
    CSV is given as its rows. */
module ContigQuality {
  import opened Wrappers
  import opened Table

  /** One row of the samtools mpileup summary: a position of a contig and
      its coverage there. */
  datatype CoverageRow = CoverageRow(contig: string, length: int, position: int, coverage: int)

  datatype Category = Short | Medium | Long

  /** A bin edge of `pd.cut`; `np.inf` closes the last bin. */
  datatype Bound = Finite(n: int) | Infinite

  /** `x` lies above a lower edge (bins are open on the left). */
  predicate Above(x: int, b: Bound) {
    b.Finite? && x > b.n
  }

  /** `x` lies below or on an upper edge (bins are closed on the right). */
  predicate Within(x: int, b: Bound) {
    b.Infinite? || x <= b.n
  }

  /** `x` lies in bin `i`, the interval `(edges[i], edges[i + 1]]`. */
  predicate InBin(x: int, edges: seq<Bound>, i: int)
    requires 0 <= i && i + 1 < |edges|
  {
    Above(x, edges[i]) && Within(x, edges[i + 1])
  }

  /** `pd.cut(x, bins=edges, labels=labels)` for one value: the label of
      the first bin holding `x`, or `None` (NaN) when no bin does. */
  function Cut<L>(x: int, edges: seq<Bound>, labels: seq<L>): (r: Option<L>)
    requires |edges| == |labels| + 1
    ensures r.None? <==> forall i | 0 <= i < |labels| :: !InBin(x, edges, i)
    ensures r.Some? ==> exists i | 0 <= i < |labels| ::
      InBin(x, edges, i) && r.value == labels[i] && (forall j | 0 <= j < i :: !InBin(x, edges, j))
  {
    if labels == [] then None
    else if InBin(x, edges, 0) then Some(labels[0])
    else
      var rest := Cut(x, edges[1..], labels[1..]);
      assert forall i | 0 <= i < |labels| - 1 :: InBin(x, edges[1..], i) == InBin(x, edges, i + 1);
      assert rest.Some? ==> exists i | 0 <= i < |labels| ::
        InBin(x, edges, i) && rest.value == labels[i] && (forall j | 0 <= j < i :: !InBin(x, edges, j)) by {
        if rest.Some? {
          var k :| 0 <= k < |labels| - 1 && InBin(x, edges[1..], k) && rest.value == labels[1..][k] &&
            (forall j | 0 <= j < k :: !InBin(x, edges[1..], j));
          assert InBin(x, edges, k + 1) && rest.value == labels[k + 1];
          forall j | 0 <= j < k + 1 ensures !InBin(x, edges, j) {
            if j > 0 {
              assert !InBin(x, edges[1..], j - 1);
            }
          }
        }
      }
      assert rest.None? <==> forall i | 0 <= i < |labels| :: !InBin(x, edges, i) by {
        if rest.None? {
          forall i | 0 <= i < |labels| ensures !InBin(x, edges, i) {
            if i > 0 {
              assert !InBin(x, edges[1..], i - 1);
            }
          }
        }
      }
      rest
  }

  /** The bins `[1, 500, 2500, np.inf]`. */
  const Bins: seq<Bound> := [Finite(1), Finite(500), Finite(2500), Infinite]

  /** The labels, which are also the category order. */
  const Categories: seq<Category> := [Short, Medium, Long]

  function CategoryOf(length: int): Option<Category>
  {
    Cut(length, Bins, Categories)
  }

  /** The bins are right-closed: (1, 500] is short, (500, 2500] medium,
      above 2500 long, and a length of at most 1 has no category. */
  lemma CategoryBins(length: int)
    ensures CategoryOf(length) == Some(Short) <==> 1 < length <= 500
    ensures CategoryOf(length) == Some(Medium) <==> 500 < length <= 2500
    ensures CategoryOf(length) == Some(Long) <==> 2500 < length
    ensures CategoryOf(length).None? <==> length <= 1
  {
    assert InBin(length, Bins, 0) <==> 1 < length <= 500;
    assert InBin(length, Bins, 1) <==> 500 < length <= 2500;
    assert InBin(length, Bins, 2) <==> 2500 < length;
  }

  /** Lengths 1, 400, 500, 501 and 3000 fall in no category, short, short,
      medium and long. */
  lemma CategoryExample()
    ensures CategoryOf(1).None? && CategoryOf(400) == Some(Short) && CategoryOf(500) == Some(Short)
    ensures CategoryOf(501) == Some(Medium) && CategoryOf(3000) == Some(Long)
  {
    CategoryBins(1);
    CategoryBins(400);
    CategoryBins(500);
    CategoryBins(501);
    CategoryBins(3000);
  }

  /** The category of a row's contig. */
  function RowCategory(r: CoverageRow): Option<Category> {
    CategoryOf(r.length)
  }

  /** The order of the categorical: the labels in order, then NaN. */
  const CategoryOrder: seq<Option<Category>> := [Some(Short), Some(Medium), Some(Long), None]

  /** Position of a category in `CategoryOrder`. */
  function Rank(c: Option<Category>): int {
    match c
    case Some(Short) => 0
    case Some(Medium) => 1
    case Some(Long) => 2
    case None => 3
  }

  /** `.sort_values("category")` on the ordered categorical: short rows,
      then medium, then long, then rows with no category; within a category
      the input order is kept. */
  function SortByCategory(rows: seq<CoverageRow>): seq<CoverageRow>
  {
    Blocks(rows, RowCategory, CategoryOrder)
  }

  /** The sort orders rows by category rank, NaN last. */
  lemma SortByCategorySorted(rows: seq<CoverageRow>)
    ensures var s := SortByCategory(rows);
      forall i, j | 0 <= i < j < |s| :: Rank(RowCategory(s[i])) <= Rank(RowCategory(s[j]))
  {
    assert forall m | 0 <= m < |CategoryOrder| :: Rank(CategoryOrder[m]) == m;
    BlocksRanked(rows, RowCategory, CategoryOrder, Rank);
  }

  /** Every value a row's category can take is in the order, once. */
  lemma CategoryOrderComplete(r: CoverageRow)
    ensures RowCategory(r) in CategoryOrder
    ensures NoDuplicates(CategoryOrder)
  {
    assert CategoryOrder[Rank(RowCategory(r))] == RowCategory(r);
  }

  /** The sort only reorders rows: it neither drops nor duplicates any. */
  lemma SortByCategoryPermutes(rows: seq<CoverageRow>)
    ensures multiset(SortByCategory(rows)) == multiset(rows)
  {
    forall x: CoverageRow ensures multiset(SortByCategory(rows))[x] == multiset(rows)[x] {
      CategoryOrderComplete(x);
      BlocksCount(rows, RowCategory, CategoryOrder, x);
    }
  }

  /** The x-axis step of a category's facet. */
  function StepSize(c: Category): (n: nat)
    ensures n > 0
  {
    match c
    case Short => 50
    case Medium => 150
    case Long => 2000
  }

  /** The line colour of a category's facet. */
  function Color(c: Category): string
  {
    match c
    case Short => "blue"
    case Medium => "green"
    case Long => "purple"
  }

  function Name(c: Category): string
  {
    match c
    case Short => "short"
    case Medium => "medium"
    case Long => "long"
  }

  /** The x-axis range the ticks cover, `[0, 20000)`. */
  const TickLimit: int := 20000

  /** `np.arange(start, stop, step)` for a positive step. */
  function Arange(start: int, stop: int, step: nat): (r: seq<int>)
    requires step > 0
    ensures forall i | 0 <= i < |r| :: r[i] == start + i * step && r[i] < stop
    ensures start + |r| * step >= stop
    decreases stop - start
  {
    if start >= stop then []
    else
      var rest := Arange(start + step, stop, step);
      assert forall i | 0 <= i < |rest| :: start + (i + 1) * step == start + step + i * step;
      assert start + (|rest| + 1) * step == start + step + |rest| * step;
      [start] + rest
  }

  /** The ticks are exactly the multiples of the step in `[0, 20000)`. */
  lemma TicksAreMultiples(step: nat, m: nat)
    requires step > 0
    ensures var ticks := Arange(0, TickLimit, step);
      (m * step < TickLimit <==> m < |ticks|) && (m < |ticks| ==> ticks[m] == m * step)
  {
    var ticks := Arange(0, TickLimit, step);
    if m < |ticks| {
      assert ticks[m] == 0 + m * step && ticks[m] < TickLimit;
    } else {
      assert 0 + |ticks| * step >= TickLimit;
      MulMonotone(|ticks|, m, step);
      assert m * step >= TickLimit;
    }
  }

  lemma MulMonotone(a: nat, b: nat, k: nat)
    requires a <= b
    ensures a * k <= b * k
  {
    assert b * k == a * k + (b - a) * k;
  }

  /** One chart of the returned list. */
  datatype Facet = Facet(category: Category, title: string, rows: seq<CoverageRow>, color: string, ticks: seq<int>)

  /** The facet built for category `c` from the sorted rows. */
  function FacetOf(sorted: seq<CoverageRow>, c: Category): Facet
  {
    Facet(c, "Coverage of " + Name(c) + " contigs", Filter(sorted, KeyIs(RowCategory, Some(c))),
          Color(c), Arange(0, TickLimit, StepSize(c)))
  }

  /** The title, colour and axis step of each category's facet: short
      ones blue with a step of 50, medium ones green with 150, long ones
      purple with 2000. */
  lemma FacetStyle(sorted: seq<CoverageRow>, c: Category)
    ensures var f := FacetOf(sorted, c);
      f.title == "Coverage of " + Name(c) + " contigs" &&
      (c == Short ==> Name(c) == "short" && f.color == "blue" && StepSize(c) == 50) &&
      (c == Medium ==> Name(c) == "medium" && f.color == "green" && StepSize(c) == 150) &&
      (c == Long ==> Name(c) == "long" && f.color == "purple" && StepSize(c) == 2000)
  {
  }

  /** `FacetOf(sorted, _)` as a function of the category. */
  function FacetMaker(sorted: seq<CoverageRow>): Category -> Facet {
    c => FacetOf(sorted, c)
  }

  /** The loop of `megahit_contig_coverage_facet`: one facet per category,
      in the order short, medium, long, appended to `plots`. */
  method CoverageFacets(rows: seq<CoverageRow>) returns (plots: seq<Facet>)
    ensures |plots| == |Categories|
    ensures forall k | 0 <= k < |Categories| :: plots[k] == FacetOf(SortByCategory(rows), Categories[k])
  {
    var sorted := SortByCategory(rows);
    plots := [];
    for k := 0 to |Categories|
      invariant |plots| == k
      invariant forall j | 0 <= j < k :: plots[j] == FacetOf(sorted, Categories[j])
    {
      var contig := Categories[k];
      var base := FacetOf(sorted, contig);
      AppendMapped(plots, Categories, FacetMaker(sorted), k);
      plots := plots + [base];
    }
  }

  /** Sorting does not change which rows a facet holds, nor their order:
      the facet of category `c` holds exactly the input rows of that
      category, in input order. */
  lemma FacetRows(rows: seq<CoverageRow>, c: Category)
    ensures FacetOf(SortByCategory(rows), c).rows == Filter(rows, KeyIs(RowCategory, Some(c)))
  {
    CategoryOrderComplete(CoverageRow("", 0, 0, 0));
    assert Some(c) == CategoryOrder[Rank(Some(c))];
    BlocksFilter(rows, RowCategory, CategoryOrder, Some(c));
  }

  /** The three facets partition the categorised rows: a row occurs across
      them as often as in the input if its contig has a category, and not
      at all otherwise. */
  lemma FacetsPartition(rows: seq<CoverageRow>, x: CoverageRow)
    ensures var sorted := SortByCategory(rows);
      multiset(FacetOf(sorted, Short).rows)[x] + multiset(FacetOf(sorted, Medium).rows)[x] +
      multiset(FacetOf(sorted, Long).rows)[x] ==
        if RowCategory(x).Some? then multiset(rows)[x] else 0
  {
    var sorted := SortByCategory(rows);
    var n := multiset(rows)[x];
    var s, m, l := FacetOf(sorted, Short).rows, FacetOf(sorted, Medium).rows, FacetOf(sorted, Long).rows;
    assert multiset(s)[x] == if RowCategory(x) == Some(Short) then n else 0 by {
      FacetCount(rows, Short, x);
    }
    assert multiset(m)[x] == if RowCategory(x) == Some(Medium) then n else 0 by {
      FacetCount(rows, Medium, x);
    }
    assert multiset(l)[x] == if RowCategory(x) == Some(Long) then n else 0 by {
      FacetCount(rows, Long, x);
    }
  }

  /** A row occurs in the facet of its own category as often as in the
      input, and in no other facet. */
  lemma FacetCount(rows: seq<CoverageRow>, c: Category, x: CoverageRow)
    ensures multiset(FacetOf(SortByCategory(rows), c).rows)[x] ==
      if RowCategory(x) == Some(c) then multiset(rows)[x] else 0
  {
    FacetRows(rows, c);
    FilterCount(rows, KeyIs(RowCategory, Some(c)));
    assert KeyIs(RowCategory, Some(c))(x) == (RowCategory(x) == Some(c));
  }
}
