/** The data behind `plot_alignment` (plotting/bowtie2_alignment_plot.py):
    the total read count split into aligned and unaligned reads, and the
    two-row table the bar chart draws. */
module AlignmentPlot {
  import opened Wrappers
  import BowtieLog

  /** `int(x)` on a number: truncation toward zero. */
  function Trunc(x: real): (r: int)
    ensures 0.0 <= x ==> 0 <= r && r as real <= x < r as real + 1.0
    ensures x < 0.0 ==> r <= 0 && r as real - 1.0 < x <= r as real
  {
    if 0.0 <= x then x.Floor else -((-x).Floor)
  }

  /** The read counts on either side of the alignment. */
  datatype ReadSplit = ReadSplit(aligned: int, unaligned: int)

  /** `number_aligned = int(total_reads * percent_aligned / 100)` and
      `number_unaligned = total_reads - number_aligned`; multiplying by a
      missing percent (`None`) raises TypeError. */
  function SplitReads(total: nat, percent: Option<real>): (r: Result<ReadSplit>)
    ensures r.Err? <==> percent.None?
    ensures r.Err? ==> r.error == TypeError
    ensures r.Ok? ==> r.value.aligned + r.value.unaligned == total
    ensures r.Ok? ==> r.value.aligned == Trunc(total as real * percent.value / 100.0)
    ensures r.Ok? && 0.0 <= percent.value ==>
      var exact := total as real * percent.value / 100.0;
      r.value.aligned as real <= exact < r.value.aligned as real + 1.0
  {
    match percent
    case None => Err(TypeError)
    case Some(p) =>
      var aligned := Trunc(total as real * p / 100.0);
      Ok(ReadSplit(aligned, total - aligned))
  }

  /** For a percentage between 0 and 100 both counts lie between 0 and the
      total. */
  lemma SplitWithinTotal(total: nat, p: real)
    requires 0.0 <= p <= 100.0
    ensures SplitReads(total, Some(p)).Ok?
    ensures 0 <= SplitReads(total, Some(p)).value.aligned <= total
    ensures 0 <= SplitReads(total, Some(p)).value.unaligned <= total
  {
    var exact := total as real * p / 100.0;
    assert exact <= total as real by {
      assert total as real * p <= total as real * 100.0;
    }
  }

  /** One bar of the chart: a read count and whether those reads aligned. */
  datatype AmountRow = AmountRow(amount: int, kind: string)

  /** The two-row frame built from the split: unaligned first, then aligned. */
  function SplitTable(s: ReadSplit): (rows: seq<AmountRow>)
    ensures |rows| == 2
    ensures rows[0] == AmountRow(s.unaligned, "unaligned")
    ensures rows[1] == AmountRow(s.aligned, "aligned")
  {
    [AmountRow(s.unaligned, "unaligned"), AmountRow(s.aligned, "aligned")]
  }

  /** The table `plot_alignment` charts for a bowtie2 log with these lines,
      or the error raised on the way. It fails exactly when parsing fails or
      the log has no rate line; otherwise its two rows, unaligned then
      aligned, add up to the total read count the log reports, and the
      aligned count is the one SplitReads gives: that total times the logged
      rate over 100, truncated. */
  function AlignmentTable(lines: seq<string>): (r: Result<seq<AmountRow>>)
    ensures r.Err? <==>
      BowtieLog.Scan(lines).Err? || BowtieLog.Scan(lines).value.percentAligned.None?
    ensures r.Err? ==> r.error == if BowtieLog.Scan(lines).Err? then BowtieLog.Scan(lines).error else TypeError
    ensures r.Ok? ==>
      var a := BowtieLog.Scan(lines).value;
      |r.value| == 2 && r.value[0].kind == "unaligned" && r.value[1].kind == "aligned" &&
      r.value[0].amount + r.value[1].amount == a.totalReads &&
      r.value[1].amount == SplitReads(a.totalReads, a.percentAligned).value.aligned
  {
    match BowtieLog.Scan(lines)
    case Err(e) => Err(e)
    case Ok(a) =>
      match SplitReads(a.totalReads, a.percentAligned)
      case Err(e) => Err(e)
      case Ok(s) => Ok(SplitTable(s))
  }

  /** The example of a million reads of which 92.5 percent aligned. */
  lemma SplitExample()
    ensures SplitReads(1000000, Some(92.5)) == Ok(ReadSplit(925000, 75000))
  {
    assert 1000000.0 * 92.5 / 100.0 == 925000.0;
  }
}
