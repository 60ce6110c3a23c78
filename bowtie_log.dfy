/** `parse_alignments` (utils/parse_bowtielog.py): a scan over the lines of
    a bowtie2 log that keeps the last total-read count and the last overall
    alignment rate it sees. The file is given as its lines, each with the
    trailing newline Python's line iteration leaves on it. */
module BowtieLog {
  import opened Wrappers
  import opened Text

  /** The pair the parser returns: the total read count (0 when no total
      line was seen) and the alignment rate in percent (`None` when no rate
      line was seen). */
  datatype Alignment = Alignment(totalReads: nat, percentAligned: Option<real>)

  const TotalSuffix: string := " reads; of these:"
  const RateSuffix: string := "% overall alignment rate"

  /** What a `^...$` pattern must match in full: without the MULTILINE flag
      `$` also matches just before one newline at the very end. */
  function Body(line: string): (b: string)
    ensures b == line || b + "\n" == line
  {
    if |line| > 0 && line[|line| - 1] == '\n' then line[..|line| - 1] else line
  }

  /** A line ending in something other than a newline is matched whole. */
  lemma BodyOfUnterminated(w: string, suffix: string)
    requires suffix != [] && suffix[|suffix| - 1] != '\n'
    ensures Body(w + suffix) == w + suffix
  {
    assert (w + suffix)[|w + suffix| - 1] == suffix[|suffix| - 1];
  }

  /** The newline ending a line is not matched. */
  lemma BodyOfTerminated(b: string)
    ensures Body(b + "\n") == b
  {
    assert (b + "\n")[..|b|] == b;
  }

  /** `re.search(r"^(\d+) reads; of these:$", line)`, and on a match
      `int(match.group(1))`. */
  function TotalOf(line: string): Option<nat>
  {
    var b := Body(line);
    var n := |b| - |TotalSuffix|;
    if 0 < n && b[n..] == TotalSuffix && AllDigits(b[..n]) then Some(DigitsValue(b[..n]))
    else None
  }

  predicate DigitOrDot(c: char) {
    IsDigit(c) || c == '.'
  }

  predicate DigitsAndDots(t: string) {
    forall i | 0 <= i < |t| :: DigitOrDot(t[i])
  }

  /** `re.search(r"^[\d.]+\% overall alignment rate$", line)`, and on a
      match the text before the first `%`. */
  function RateText(line: string): (t: Option<string>)
    ensures t.Some? ==> |t.value| > 0 && DigitsAndDots(t.value)
  {
    var b := Body(line);
    var n := |b| - |RateSuffix|;
    if 0 < n && b[n..] == RateSuffix && DigitsAndDots(b[..n]) then Some(b[..n]) else None
  }

  /** `float(t)` for a non-empty string of digits and dots: the decimal
      number it spells, or `None` where Python raises ValueError. */
  function ParseDecimal(t: string): (r: Option<real>)
    requires DigitsAndDots(t)
    ensures r.Some? ==> r.value >= 0.0
  {
    var k := LastIndexOf(t, '.');
    if k == -1 then
      if t == [] then None else Some(DigitsValue(t) as real)
    else
      var whole, fraction := t[..k], t[k + 1..];
      if '.' in whole || (whole == [] && fraction == []) then None
      else Some(DecimalValue(whole, fraction))
  }

  /** The number a whole part and a fraction of decimal digits spell. */
  function DecimalValue(whole: string, fraction: string): (v: real)
    requires AllDigits(whole) && AllDigits(fraction)
    ensures v >= 0.0
  {
    var scale := Pow10(|fraction|) as real;
    assert DigitsValue(fraction) as real / scale >= 0.0 by {
      NonNegativeRatio(DigitsValue(fraction), Pow10(|fraction|));
    }
    DigitsValue(whole) as real + DigitsValue(fraction) as real / scale
  }

  /** `float` of a whole part, a dot and a fraction (not both empty): the
      digits without the dot read as an integer, over ten to the length of
      the fraction. */
  lemma ParseDecimalValue(w: string, f: string)
    requires AllDigits(w) && AllDigits(f) && (w != [] || f != [])
    ensures DigitsAndDots(w + "." + f)
    ensures ParseDecimal(w + "." + f) == Some(DigitsValue(w + f) as real / Pow10(|f|) as real)
  {
    var t := w + "." + f;
    DecimalPoint(w, f);
    assert t[..|w|] == w && t[|w| + 1..] == f;
    assert ParseDecimal(t) == Some(DecimalValue(w, f));
    DecimalValueScaled(w, f);
  }

  /** A whole part plus a fraction is the digits of both read as one
      integer, over ten to the length of the fraction. */
  lemma DecimalValueScaled(w: string, f: string)
    requires AllDigits(w) && AllDigits(f)
    ensures AllDigits(w + f)
    ensures DecimalValue(w, f) == DigitsValue(w + f) as real / Pow10(|f|) as real
  {
    DigitsValueAppend(w, f);
    ScaleDown(DigitsValue(w + f), DigitsValue(w), DigitsValue(f), Pow10(|f|));
  }

  /** The whole part shifted by `p` plus the fraction, over `p`, is the
      whole part plus the fraction over `p`. */
  lemma ScaleDown(n: nat, a: nat, b: nat, p: nat)
    requires p >= 1 && n == a * p + b
    ensures n as real / p as real == a as real + b as real / p as real
  {
    assert n as real == a as real * p as real + b as real;
  }

  /** In a whole part, a dot and a fraction, the only dot is the one
      between them. */
  lemma DecimalPoint(w: string, f: string)
    requires AllDigits(w) && AllDigits(f)
    ensures DigitsAndDots(w + "." + f)
    ensures LastIndexOf(w + "." + f, '.') == |w|
    ensures '.' !in w
  {
    var t := w + "." + f;
    forall i | 0 <= i < |t| ensures DigitOrDot(t[i]) && (i != |w| ==> t[i] != '.') {
      if i < |w| { assert t[i] == w[i]; }
      else if i > |w| { assert t[i] == f[i - |w| - 1]; }
    }
    assert t[|w|] == '.';
    assert '.' !in w by {
      forall i | 0 <= i < |w| ensures w[i] != '.' { assert t[i] == w[i]; }
    }
  }

  /** A count over a positive scale is not negative. */
  lemma NonNegativeRatio(n: nat, d: nat)
    requires d >= 1
    ensures n as real / d as real >= 0.0
  {
  }

  /** The text `float` accepts: at most one dot and at least one digit. */
  lemma ParseDecimalAccepts(t: string)
    requires DigitsAndDots(t)
    ensures ParseDecimal(t).Some? <==>
      (forall i, j | 0 <= i < |t| && 0 <= j < |t| && t[i] == '.' && t[j] == '.' :: i == j) &&
      (exists i | 0 <= i < |t| :: IsDigit(t[i]))
  {
    var k := LastIndexOf(t, '.');
    if k != -1 {
      var whole, fraction := t[..k], t[k + 1..];
      if ParseDecimal(t).Some? {
        forall i, j | 0 <= i < |t| && 0 <= j < |t| && t[i] == '.' && t[j] == '.' ensures i == j {
        }
        if whole != [] { assert IsDigit(t[0]); } else { assert IsDigit(t[k + 1]); }
      } else if '.' in whole {
        var i :| 0 <= i < |whole| && whole[i] == '.';
        assert t[i] == '.' && t[k] == '.';
      } else {
        forall i | 0 <= i < |t| ensures !IsDigit(t[i]) {
          assert i == k;
        }
      }
    }
  }

  /** What the rate pattern and `float` make of one line. */
  datatype RateMatch = NoRate | Rate(percent: real) | BadRate(text: string)

  /** What one line contributes: the total it sets, if any, and its rate. */
  datatype LineMatch = LineMatch(total: Option<nat>, rate: RateMatch)

  function RateOf(line: string): RateMatch
  {
    match RateText(line)
    case None => NoRate
    case Some(t) =>
      match ParseDecimal(t)
      case Some(v) => Rate(v)
      case None => BadRate(t)
  }

  /** Both patterns applied to one line. */
  function Match(line: string): LineMatch
  {
    LineMatch(TotalOf(line), RateOf(line))
  }

  /** One iteration of the `for line in f` loop, given what the patterns
      made of the line. */
  function Step(acc: Alignment, m: LineMatch): Result<Alignment>
  {
    var total := if m.total.Some? then m.total.value else acc.totalReads;
    match m.rate
    case NoRate => Ok(Alignment(total, acc.percentAligned))
    case Rate(v) => Ok(Alignment(total, Some(v)))
    case BadRate(t) => Err(ValueError(t))
  }

  /** The loop's state after reading `lines` from the initial `(0, None)`,
      or the error the first bad rate line raises, for any line matcher. */
  function ScanBy(lines: seq<string>, matcher: string -> LineMatch): Result<Alignment>
  {
    if lines == [] then Ok(Alignment(0, None))
    else match ScanBy(lines[..|lines| - 1], matcher)
      case Err(e) => Err(e)
      case Ok(acc) => Step(acc, matcher(lines[|lines| - 1]))
  }

  /** What `parse_alignments` returns for a file with these lines. */
  function Scan(lines: seq<string>): Result<Alignment>
  {
    ScanBy(lines, Match)
  }

  /** Once an error is raised, reading further lines does not change it. */
  lemma {:induction false} ScanErrorSticks(lines: seq<string>, i: nat, matcher: string -> LineMatch)
    requires i <= |lines| && ScanBy(lines[..i], matcher).Err?
    ensures ScanBy(lines, matcher) == ScanBy(lines[..i], matcher)
  {
    if i < |lines| {
      var init := lines[..|lines| - 1];
      assert init[..i] == lines[..i];
      ScanErrorSticks(init, i, matcher);
      assert ScanBy(lines, matcher) == Err(ScanBy(init, matcher).error);
    } else {
      assert lines[..i] == lines;
    }
  }

  /** One step of the scan, spelled out the way the loop body computes it. */
  lemma StepOfLine(acc: Alignment, line: string)
    ensures
      var total := if TotalOf(line).Some? then TotalOf(line).value else acc.totalReads;
      Step(acc, Match(line)) ==
        if RateText(line).None? then Ok(Alignment(total, acc.percentAligned))
        else if ParseDecimal(RateText(line).value).Some? then Ok(Alignment(total, ParseDecimal(RateText(line).value)))
        else Err(ValueError(RateText(line).value))
  {
  }

  /** The loop of `parse_alignments`. */
  method ParseAlignments(lines: seq<string>) returns (r: Result<Alignment>)
    ensures r == Scan(lines)
  {
    var totalReads: nat := 0;
    var percentAligned: Option<real> := None;
    for i := 0 to |lines|
      invariant ScanBy(lines[..i], Match) == Ok(Alignment(totalReads, percentAligned))
    {
      assert lines[..i + 1][..i] == lines[..i];
      var line := lines[i];
      ghost var before := Alignment(totalReads, percentAligned);
      assert ScanBy(lines[..i + 1], Match) == Step(before, Match(line));
      StepOfLine(before, line);
      match TotalOf(line) {
        case Some(n) => totalReads := n;
        case None =>
      }
      match RateText(line) {
        case Some(t) =>
          match ParseDecimal(t) {
            case Some(v) => percentAligned := Some(v);
            case None =>
              ScanErrorSticks(lines, i + 1, Match);
              return Err(ValueError(t));
          }
        case None =>
      }
    }
    assert lines[..|lines|] == lines;
    return Ok(Alignment(totalReads, percentAligned));
  }

  /** For any matcher: the scan fails exactly when some line is a bad rate line. */
  lemma {:induction false} ScanByFails(lines: seq<string>, matcher: string -> LineMatch)
    ensures ScanBy(lines, matcher).Err? <==> exists i | 0 <= i < |lines| :: matcher(lines[i]).rate.BadRate?
  {
    if lines != [] {
      var init, last := lines[..|lines| - 1], lines[|lines| - 1];
      ScanByFails(init, matcher);
      assert forall i | 0 <= i < |init| :: init[i] == lines[i];
      if ScanBy(init, matcher).Err? {
        var i :| 0 <= i < |init| && matcher(init[i]).rate.BadRate?;
        assert matcher(lines[i]).rate.BadRate?;
      }
    }
  }

  /** For any matcher: the total is that of the last line setting one, or 0. */
  lemma {:induction false} ScanByTotal(lines: seq<string>, matcher: string -> LineMatch)
    ensures ScanBy(lines, matcher).Ok? ==>
      ((forall i | 0 <= i < |lines| :: matcher(lines[i]).total.None?) ==> ScanBy(lines, matcher).value.totalReads == 0)
    ensures ScanBy(lines, matcher).Ok? ==>
      forall i | 0 <= i < |lines| && matcher(lines[i]).total.Some? &&
                 (forall j | i < j < |lines| :: matcher(lines[j]).total.None?) ::
        ScanBy(lines, matcher).value.totalReads == matcher(lines[i]).total.value
  {
    if lines != [] && ScanBy(lines, matcher).Ok? {
      var init := lines[..|lines| - 1];
      ScanByTotal(init, matcher);
      assert forall i | 0 <= i < |init| :: init[i] == lines[i];
    }
  }

  /** For any matcher: with no rate line the rate stays `None`. */
  lemma {:induction false} ScanByNoRate(lines: seq<string>, matcher: string -> LineMatch)
    ensures ScanBy(lines, matcher).Ok? ==>
      ((forall i | 0 <= i < |lines| :: matcher(lines[i]).rate.NoRate?) ==> ScanBy(lines, matcher).value.percentAligned.None?)
  {
    if lines != [] && ScanBy(lines, matcher).Ok? {
      var init := lines[..|lines| - 1];
      ScanByNoRate(init, matcher);
      assert ScanBy(init, matcher).Ok?;
      assert forall i | 0 <= i < |init| :: init[i] == lines[i];
    }
  }

  /** For any matcher: the rate is that of the last rate line. */
  lemma {:induction false} ScanByLastRate(lines: seq<string>, matcher: string -> LineMatch)
    ensures ScanBy(lines, matcher).Ok? ==>
      forall i | 0 <= i < |lines| && !matcher(lines[i]).rate.NoRate? &&
                 (forall j | i < j < |lines| :: matcher(lines[j]).rate.NoRate?) ::
        matcher(lines[i]).rate.Rate? &&
        ScanBy(lines, matcher).value.percentAligned == Some(matcher(lines[i]).rate.percent)
  {
    if lines != [] && ScanBy(lines, matcher).Ok? {
      var init, last := lines[..|lines| - 1], lines[|lines| - 1];
      ScanByLastRate(init, matcher);
      assert ScanBy(init, matcher).Ok?;
      var acc := ScanBy(init, matcher).value;
      var m := matcher(last);
      assert ScanBy(lines, matcher) == Step(acc, m);
      var out := ScanBy(lines, matcher).value;
      assert !m.rate.BadRate?;
      forall i | 0 <= i < |lines| && !matcher(lines[i]).rate.NoRate? &&
                 (forall j | i < j < |lines| :: matcher(lines[j]).rate.NoRate?)
        ensures matcher(lines[i]).rate.Rate? && out.percentAligned == Some(matcher(lines[i]).rate.percent)
      {
        if i < |init| {
          assert init[i] == lines[i];
          assert m.rate.NoRate?;
          assert forall j | i < j < |init| :: init[j] == lines[j];
        }
      }
    }
  }

  /** What `parse_alignments` returns, stated line by line: it raises exactly
      when some rate line holds text `float` rejects; otherwise each field
      independently holds the value of the last line matching its pattern,
      or its initial value (0, `None`) when no line matches. */
  lemma ScanLastMatchWins(lines: seq<string>)
    ensures Scan(lines).Err? <==> exists i | 0 <= i < |lines| :: RateOf(lines[i]).BadRate?
    ensures Scan(lines).Ok? ==>
      ((forall i | 0 <= i < |lines| :: TotalOf(lines[i]).None?) ==> Scan(lines).value.totalReads == 0)
    ensures Scan(lines).Ok? ==>
      forall i | 0 <= i < |lines| && TotalOf(lines[i]).Some? &&
                 (forall j | i < j < |lines| :: TotalOf(lines[j]).None?) ::
        Scan(lines).value.totalReads == TotalOf(lines[i]).value
    ensures Scan(lines).Ok? ==>
      ((forall i | 0 <= i < |lines| :: RateText(lines[i]).None?) ==> Scan(lines).value.percentAligned.None?)
    ensures Scan(lines).Ok? ==>
      forall i | 0 <= i < |lines| && RateText(lines[i]).Some? &&
                 (forall j | i < j < |lines| :: RateText(lines[j]).None?) ::
        Scan(lines).value.percentAligned == ParseDecimal(RateText(lines[i]).value)
  {
    ScanByFails(lines, Match);
    ScanByTotal(lines, Match);
    ScanByNoRate(lines, Match);
    ScanByLastRate(lines, Match);
  }

  /** A line matching neither pattern changes nothing. */
  lemma UnmatchedLineIgnored(lines: seq<string>, line: string)
    requires TotalOf(line).None? && RateText(line).None?
    ensures Scan(lines + [line]) == Scan(lines)
  {
    assert (lines + [line])[..|lines|] == lines;
  }

  /** A line whose matched part is a digit string and the suffix is a
      total line. */
  lemma TotalOfBody(line: string, d: string)
    requires |d| > 0 && AllDigits(d)
    requires Body(line) == d + TotalSuffix
    ensures TotalOf(line) == Some(DigitsValue(d))
  {
    var b := d + TotalSuffix;
    assert b[..|d|] == d && b[|d|..] == TotalSuffix;
  }

  /** A digit string followed by " reads; of these:" and at most one
      newline is a total line, and its value is those digits read in base
      10. */
  lemma TotalLine(d: string)
    requires |d| > 0 && AllDigits(d)
    ensures TotalOf(d + TotalSuffix) == Some(DigitsValue(d))
    ensures TotalOf(d + TotalSuffix + "\n") == Some(DigitsValue(d))
  {
    var b := d + TotalSuffix;
    BodyOfUnterminated(d, TotalSuffix);
    TotalOfBody(b, d);
    BodyOfTerminated(b);
    TotalOfBody(b + "\n", d);
  }

  /** `$` matches before one final newline only: a second newline stops
      the line from being a total line. */
  lemma TotalLineTwoNewlines(d: string)
    ensures TotalOf(d + TotalSuffix + "\n\n").None?
  {
    var b := d + TotalSuffix + "\n";
    BodyOfTerminated(b);
    assert b[|b| - 1] == '\n';
  }

  /** The total line bowtie2 writes is read back as the count it was
      written from. */
  lemma TotalLineRoundTrip(n: nat)
    ensures TotalOf(Show(n) + TotalSuffix + "\n") == Some(n)
  {
    ShowRoundTrip(n);
    TotalLine(Show(n));
  }

  /** Digits and dots followed by "% overall alignment rate", with at most
      one trailing newline, is a rate line, and its number is the text
      before the `%` (RateLineExactly gives the converse). */
  lemma RateLine(t: string)
    requires |t| > 0 && DigitsAndDots(t)
    ensures RateText(t + RateSuffix) == Some(t)
    ensures RateText(t + RateSuffix + "\n") == Some(t)
  {
    var b := t + RateSuffix;
    assert b[..|t|] == t && b[|t|..] == RateSuffix;
    BodyOfUnterminated(t, RateSuffix);
    BodyOfTerminated(b);
  }

  /** The anchored total pattern: a line sets the total exactly when it is
      a non-empty digit string, " reads; of these:" and at most one
      newline, and then the total is those digits read in base 10. */
  lemma TotalLineExactly(line: string)
    ensures TotalOf(line).Some? <==>
      exists d | |d| > 0 && AllDigits(d) :: line == d + TotalSuffix || line == d + TotalSuffix + "\n"
    ensures TotalOf(line).Some? ==>
      exists d | |d| > 0 && AllDigits(d) ::
        (line == d + TotalSuffix || line == d + TotalSuffix + "\n") && TotalOf(line) == Some(DigitsValue(d))
  {
    if TotalOf(line).Some? {
      var b := Body(line);
      var d := b[..|b| - |TotalSuffix|];
      assert b == d + TotalSuffix;
      assert line == d + TotalSuffix || line == d + TotalSuffix + "\n";
    } else if exists d | |d| > 0 && AllDigits(d) :: line == d + TotalSuffix || line == d + TotalSuffix + "\n" {
      var d :| |d| > 0 && AllDigits(d) && (line == d + TotalSuffix || line == d + TotalSuffix + "\n");
      TotalLine(d);
    }
  }

  /** The anchored rate pattern: a line is a rate line exactly when it is a
      non-empty text of digits and dots, "% overall alignment rate" and at
      most one newline, and then the rate text is that text. */
  lemma RateLineExactly(line: string)
    ensures RateText(line).Some? <==>
      exists t | |t| > 0 && DigitsAndDots(t) :: line == t + RateSuffix || line == t + RateSuffix + "\n"
    ensures RateText(line).Some? ==>
      exists t | |t| > 0 && DigitsAndDots(t) ::
        (line == t + RateSuffix || line == t + RateSuffix + "\n") && RateText(line) == Some(t)
  {
    if RateText(line).Some? {
      var b := Body(line);
      var t := b[..|b| - |RateSuffix|];
      assert b == t + RateSuffix;
      assert line == t + RateSuffix || line == t + RateSuffix + "\n";
    } else if exists t | |t| > 0 && DigitsAndDots(t) :: line == t + RateSuffix || line == t + RateSuffix + "\n" {
      var t :| |t| > 0 && DigitsAndDots(t) && (line == t + RateSuffix || line == t + RateSuffix + "\n");
      RateLine(t);
    }
  }

  /** The matched part of a total line ends in ':'. */
  lemma TotalEndsInColon(line: string)
    requires TotalOf(line).Some?
    ensures |Body(line)| > 0 && Body(line)[|Body(line)| - 1] == ':'
  {
    var b := Body(line);
    var n := |b| - |TotalSuffix|;
    assert b[|b| - 1] == b[n..][|TotalSuffix| - 1];
  }

  /** The matched part of a rate line ends in 'e'. */
  lemma RateEndsInE(line: string)
    requires RateText(line).Some?
    ensures |Body(line)| > 0 && Body(line)[|Body(line)| - 1] == 'e'
  {
    var b := Body(line);
    var n := |b| - |RateSuffix|;
    assert b[|b| - 1] == b[n..][|RateSuffix| - 1];
  }

  /** No line matches both patterns: one ends in ':' and the other in 'e'. */
  lemma PatternsExclusive(line: string)
    ensures RateText(line).Some? ==> TotalOf(line).None?
  {
    if RateText(line).Some? {
      RateEndsInE(line);
      if TotalOf(line).Some? {
        TotalEndsInColon(line);
      }
    }
  }

  /** A one-line file is one step from the initial state. */
  lemma ScanOne(line: string)
    ensures Scan([line]) == Step(Alignment(0, None), Match(line))
  {
    assert [line][..0] == [];
    assert ScanBy([line][..0], Match) == Ok(Alignment(0, None));
  }

  /** `float` of a non-empty digit string without a dot is the integer
      those digits spell, leading zeros included. */
  lemma ParseWhole(t: string)
    requires |t| > 0 && AllDigits(t)
    ensures DigitsAndDots(t)
    ensures ParseDecimal(t) == Some(DigitsValue(t) as real)
  {
    assert DigitsAndDots(t) by {
      forall i | 0 <= i < |t| ensures DigitOrDot(t[i]) {
        assert IsDigit(t[i]);
      }
    }
    assert '.' !in t by {
      forall i | 0 <= i < |t| ensures t[i] != '.' {
        assert IsDigit(t[i]);
      }
    }
  }

  /** The rate is returned as written, with no range check: a log whose
      only line reports `n` percent, for any `n` (150 included), parses to
      `n`. */
  lemma RateNotRangeChecked(n: nat)
    ensures Scan([Show(n) + RateSuffix + "\n"]) == Ok(Alignment(0, Some(n as real)))
  {
    var d := Show(n);
    var line := d + RateSuffix + "\n";
    assert DigitsAndDots(d) by {
      forall i | 0 <= i < |d| ensures DigitOrDot(d[i]) {
        assert IsDigit(d[i]);
      }
    }
    RateLine(d);
    PatternsExclusive(line);
    ShowRoundTrip(n);
    assert ParseDecimal(d) == Some(n as real);
    StepOfLine(Alignment(0, None), line);
    ScanOne(line);
  }

  /** `float("92.50")` is 92.5. */
  lemma ParseDecimalExample()
    ensures ParseDecimal("92.50") == Some(92.5)
  {
    ParseDecimalValue("92", "50");
    assert "92" + "." + "50" == "92.50";
    ExampleDigits();
    assert Pow10(|"50"|) == 100 by {
      assert |"50"| == 2;
    }
  }

  /** The digits of "92" and "50" together read as 9250. */
  lemma ExampleDigits()
    ensures AllDigits("92" + "50") && DigitsValue("92" + "50") == 9250
  {
    assert "92" + "50" == "9250";
    assert "9250"[..3] == "925" && "925"[..2] == "92" && "92"[..1] == "9" && "9"[..0] == "";
  }

  /** The digits "1000000" read as a million. */
  lemma MillionDigits()
    ensures AllDigits("1000000") && DigitsValue("1000000") == 1000000
  {
    assert "1000000"[..6] == "100000" && "100000"[..5] == "10000" && "10000"[..4] == "1000";
    assert "1000"[..3] == "100" && "100"[..2] == "10" && "10"[..1] == "1" && "1"[..0] == "";
  }

  /** The total line of a million reads, read from the initial state. */
  lemma LogTotalLine()
    ensures Scan(["1000000 reads; of these:\n"]) == Ok(Alignment(1000000, None))
  {
    var l1 := "1000000 reads; of these:\n";
    assert l1 == "1000000" + TotalSuffix + "\n";
    MillionDigits();
    TotalLine("1000000");
    assert RateText(l1).None? by {
      TotalEndsInColon(l1);
      if RateText(l1).Some? { RateEndsInE(l1); }
    }
    ScanOne(l1);
  }

  /** The rate line of 92.50 percent sets the rate and not the total. */
  lemma LogRateLine()
    ensures Match("92.50% overall alignment rate\n") == LineMatch(None, Rate(92.5))
  {
    var l2 := "92.50% overall alignment rate\n";
    assert l2 == "92.50" + RateSuffix + "\n";
    RateLine("92.50");
    PatternsExclusive(l2);
    ParseDecimalExample();
  }

  /** A bowtie2 log reporting a million reads at 92.50 percent. */
  lemma LogExample()
    ensures Scan(["1000000 reads; of these:\n", "92.50% overall alignment rate\n"]) ==
      Ok(Alignment(1000000, Some(92.5)))
  {
    var l1, l2 := "1000000 reads; of these:\n", "92.50% overall alignment rate\n";
    var lines := [l1, l2];
    LogTotalLine();
    LogRateLine();
    assert lines[..1] == [l1];
    assert Scan(lines) == Step(Alignment(1000000, None), Match(l2));
  }

  /** Rate text that `float` rejects (two dots, or no digit at all) makes
      the parser raise ValueError with that text. */
  lemma MalformedRateRaises(t: string)
    requires |t| > 0 && DigitsAndDots(t)
    requires (exists i, j | 0 <= i < j < |t| :: t[i] == '.' && t[j] == '.') ||
             (forall i | 0 <= i < |t| :: !IsDigit(t[i]))
    ensures Scan([t + RateSuffix + "\n"]) == Err(ValueError(t))
  {
    var line := t + RateSuffix + "\n";
    RateLine(t);
    ParseDecimalAccepts(t);
    assert ParseDecimal(t).None?;
    StepOfLine(Alignment(0, None), line);
    ScanOne(line);
  }
}
