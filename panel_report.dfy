/** The non-graphical logic of `panel_report` (virusHanter-panel-report.py):
    the sample name taken from the sample path, the report file name, the
    read statistics shown above the alignment chart, the arguments of the
    raw-classification charts, and the coverage tabs built from the SVG files
    found for the sample. Paths are POSIX path strings; the file searches are
    given as the lists of paths they return. */
module PanelReport {
  import opened Wrappers
  import opened Text
  import opened Table
  import BowtieLog
  import AlignmentPlot
  import Bracken
  import KaijuRaw

  // ---------------------------------------------------------------------
  // Paths

  /** A piece of a path string `pathlib` keeps: not empty and not ".". */
  predicate KeptPiece(x: string) {
    x != "" && x != "."
  }

  /** The root of a POSIX path: "//" for exactly two leading slashes, "/"
      for one or for three and more, "" for a relative path. */
  function Root(path: string): (r: string)
    ensures r == "" <==> path == [] || path[0] != '/'
    ensures r != "" ==> |r| <= |path| && r == path[..|r|]
  {
    if |path| >= 2 && path[..2] == "//" && (|path| == 2 || path[2] != '/') then "//"
    else if |path| >= 1 && path[0] == '/' then "/"
    else ""
  }

  /** The pieces of a path after its root: the slash-separated pieces
      without empty ones and without ".". */
  function Tail(path: string): (t: seq<string>)
    ensures forall i | 0 <= i < |t| :: KeptPiece(t[i]) && '/' !in t[i]
  {
    var pieces := Split(path, '/');
    var t := Filter(pieces, KeptPiece);
    FilterMembers(pieces, KeptPiece);
    assert forall i | 0 <= i < |t| :: t[i] in pieces;
    t
  }

  /** `Path(path).parts`: the root, if any, then the kept pieces. */
  function Parts(path: string): (parts: seq<string>)
    ensures |parts| == (if Root(path) == "" then 0 else 1) + |Tail(path)|
    ensures Root(path) != "" ==> parts[0] == Root(path) && parts[1..] == Tail(path)
    ensures Root(path) == "" ==> parts == Tail(path)
  {
    var root := Root(path);
    (if root == "" then [] else [root]) + Tail(path)
  }

  /** `Path(path).name`: the last piece after the root, or "" when there is
      none. */
  function FileName(path: string): (r: string)
    ensures '/' !in r
    ensures r == "" <==> Tail(path) == []
    ensures r != "" ==> r == Tail(path)[|Tail(path)| - 1]
  {
    var t := Tail(path);
    if t == [] then "" else t[|t| - 1]
  }

  /** `PurePath.stem` of a file name: the name without its last suffix,
      where a suffix starts at the last dot, provided that dot is neither
      the first nor the last character. */
  function Stem(name: string): (r: string)
    ensures |r| <= |name| && r == name[..|r|]
    ensures r != name ==>
      0 < |r| < |name| - 1 && name[|r|] == '.' && '.' !in name[|r| + 1..]
    ensures r == name ==> LastIndexOf(name, '.') <= 0 || LastIndexOf(name, '.') == |name| - 1
  {
    var i := LastIndexOf(name, '.');
    if 0 < i < |name| - 1 then
      var rest := name[i + 1..];
      assert forall j | 0 <= j < |rest| :: rest[j] == name[i + 1 + j] && name[i + 1 + j] != '.';
      name[..i]
    else name
  }

  // ---------------------------------------------------------------------
  // Sample name and report file

  /** `Path(sample).parts[-1]`, raising IndexError when the path has no
      parts at all (as for "" or "."). */
  function SampleName(sample: string): (r: Result<string>)
    ensures r.Err? <==> Parts(sample) == []
    ensures r.Err? ==> r.error == IndexError
    ensures r.Ok? ==> r.value == Parts(sample)[|Parts(sample)| - 1] && r.value != ""
  {
    var parts := Parts(sample);
    if parts == [] then Err(IndexError) else Ok(parts[|parts| - 1])
  }

  /** The kept pieces of slash-free pieces joined by slashes are the kept
      ones among them. */
  lemma TailOfJoin(pieces: seq<string>)
    requires |pieces| >= 1
    requires forall i | 0 <= i < |pieces| :: '/' !in pieces[i]
    ensures Tail(Join(pieces, '/')) == Filter(pieces, KeptPiece)
  {
    SplitJoin(pieces, '/');
  }

  /** Of directories, a kept name and possibly an empty trailing piece, the
      last kept piece is the name. */
  lemma LastKept(dirs: seq<string>, name: string, trailing: bool)
    requires KeptPiece(name)
    ensures var t := Filter(dirs + [name] + (if trailing then [""] else []), KeptPiece);
      |t| >= 1 && t[|t| - 1] == name
  {
    FilterAppend(dirs, [name], KeptPiece);
    assert Filter([name], KeptPiece) == [name] by {
      assert [name][1..] == [];
    }
    if trailing {
      FilterAppend(dirs + [name], [""], KeptPiece);
      assert Filter([""], KeptPiece) == [] by {
        assert [""][1..] == [];
      }
    } else {
      assert dirs + [name] + [] == dirs + [name];
    }
  }

  /** Directories, a name and possibly an empty trailing piece, all
      slash-free, as the pieces of a path string. */
  function PathPieces(dirs: seq<string>, name: string, trailing: bool): (pieces: seq<string>)
    requires forall i | 0 <= i < |dirs| :: '/' !in dirs[i]
    requires '/' !in name
    ensures |pieces| >= 1
    ensures forall i | 0 <= i < |pieces| :: '/' !in pieces[i]
  {
    var pieces := dirs + [name] + (if trailing then [""] else []);
    assert forall i | 0 <= i < |pieces| :: '/' !in pieces[i] by {
      forall i | 0 <= i < |pieces| ensures '/' !in pieces[i] {
        if i < |dirs| {
          assert pieces[i] == dirs[i];
        } else if i == |dirs| {
          assert pieces[i] == name;
        } else {
          assert pieces[i] == "";
        }
      }
    }
    pieces
  }

  /** The last kept piece of such a path is the name. */
  lemma TailOfPath(dirs: seq<string>, name: string, trailing: bool)
    requires forall i | 0 <= i < |dirs| :: '/' !in dirs[i]
    requires '/' !in name && KeptPiece(name)
    ensures var t := Tail(Join(PathPieces(dirs, name, trailing), '/'));
      |t| >= 1 && t[|t| - 1] == name
  {
    TailOfJoin(PathPieces(dirs, name, trailing));
    LastKept(dirs, name, trailing);
  }

  /** A sample path written as directories and a last name (optionally
      with a trailing slash) is named by that last name. */
  lemma SampleNameOfPath(dirs: seq<string>, name: string, trailing: bool)
    requires forall i | 0 <= i < |dirs| :: '/' !in dirs[i]
    requires '/' !in name && KeptPiece(name)
    ensures SampleName(Join(PathPieces(dirs, name, trailing), '/')) == Ok(name)
  {
    var path := Join(PathPieces(dirs, name, trailing), '/');
    TailOfPath(dirs, name, trailing);
    LastPartOfTail(path);
  }

  /** When a path has pieces after its root, its last part is its last
      piece. */
  lemma LastPartOfTail(path: string)
    requires Tail(path) != []
    ensures SampleName(path) == Ok(Tail(path)[|Tail(path)| - 1])
  {
    var parts := Parts(path);
    if Root(path) != "" {
      assert parts[|parts| - 1] == parts[1..][|parts| - 2];
    }
  }

  /** A file path written as directories and a kept file name has that
      file name. */
  lemma FileNameOfPath(dirs: seq<string>, name: string)
    requires forall i | 0 <= i < |dirs| :: '/' !in dirs[i]
    requires '/' !in name && KeptPiece(name)
    ensures FileName(Join(PathPieces(dirs, name, false), '/')) == name
  {
    TailOfPath(dirs, name, false);
  }

  /** `pathlib` gives the empty path and "." no parts, so the sample name
      lookup raises IndexError for them. */
  lemma EmptySampleFails()
    ensures SampleName("") == Err(IndexError)
    ensures SampleName(".") == Err(IndexError)
  {
    assert Split("", '/') == [""];
    assert Filter([""], KeptPiece) == [] by {
      assert [""][1..] == [];
    }
    assert Split(".", '/') == ["."] by {
      SplitNoSep(".", '/');
    }
    assert Filter(["."], KeptPiece) == [] by {
      assert ["."][1..] == [];
    }
  }

  const ReportSuffix: string := "_report.html"

  /** `base / s` on parts: a path string with a root replaces the base. */
  function JoinPath(base: seq<string>, s: string): (r: seq<string>)
    ensures Root(s) != "" ==> r == Parts(s)
    ensures Root(s) == "" ==> r == base + Tail(s)
  {
    if Root(s) != "" then Parts(s) else base + Parts(s)
  }

  /** The parts of `outfolder / f"{sample_name}_report.html"`, or the error
      raised while taking the sample name. */
  function ReportFile(sample: string, outfolder: string): (r: Result<seq<string>>)
    ensures r.Err? <==> SampleName(sample).Err?
    ensures r.Ok? ==> r.value == JoinPath(Parts(outfolder), SampleName(sample).value + ReportSuffix)
  {
    match SampleName(sample)
    case Err(e) => Err(e)
    case Ok(name) => Ok(JoinPath(Parts(outfolder), name + ReportSuffix))
  }

  /** A slash-free name is a single kept piece. */
  lemma OnePiece(s: string)
    requires '/' !in s && KeptPiece(s)
    ensures Tail(s) == [s] && Root(s) == ""
  {
    SplitJoin([s], '/');
    assert Join([s], '/') == s;
    assert Filter([s], KeptPiece) == [s] by {
      assert [s][1..] == [];
    }
  }

  /** A sample name other than a root has no slash in it. */
  lemma SampleNameSlashFree(sample: string)
    requires SampleName(sample).Ok? && SampleName(sample).value != "/" && SampleName(sample).value != "//"
    ensures '/' !in SampleName(sample).value
  {
    var parts := Parts(sample);
    var name := parts[|parts| - 1];
    if Root(sample) != "" && |parts| == 1 {
      assert name == Root(sample);
    } else if Root(sample) != "" {
      assert name == parts[1..][|parts| - 2];
    }
  }

  /** A slash-free name followed by the report suffix is slash-free. */
  lemma ReportNameSlashFree(name: string)
    requires '/' !in name
    ensures '/' !in name + ReportSuffix
  {
    assert forall k | 0 <= k < |name + ReportSuffix| ::
      (name + ReportSuffix)[k] == if k < |name| then name[k] else ReportSuffix[k - |name|];
  }

  /** For a sample whose name is an ordinary name (not a root), the report
      is `<sample name>_report.html` inside the output folder. */
  lemma ReportInOutfolder(sample: string, outfolder: string)
    requires SampleName(sample).Ok? && SampleName(sample).value != "/" && SampleName(sample).value != "//"
    ensures var name := SampleName(sample).value;
      ReportFile(sample, outfolder) == Ok(Parts(outfolder) + [name + ReportSuffix])
  {
    var name := SampleName(sample).value;
    SampleNameSlashFree(sample);
    ReportNameSlashFree(name);
    assert name + ReportSuffix != "" by {
      assert |name + ReportSuffix| == |name| + |ReportSuffix|;
    }
    OnePiece(name + ReportSuffix);
  }

  /** A slash followed by a slash-free kept piece is that piece under the
      root. */
  lemma RootedPiece(w: string)
    requires '/' !in w && KeptPiece(w)
    ensures Parts("/" + w) == ["/", w]
  {
    var s := "/" + w;
    assert Root(s) == "/" by {
      assert s[0] == '/' && s[1] == w[0] && w[0] != '/';
    }
    assert Split(s, '/') == ["", w] by {
      assert s[1..] == w;
      SplitNoSep(w, '/');
    }
    assert Tail(s) == [w] by {
      assert Filter(["", w], KeptPiece) == [w] by {
        assert ["", w][1..] == [w] && [w][1..] == [];
      }
    }
  }

  /** A sample path that is the file system root makes the report land in
      the root, whatever the output folder: `"/" + "_report.html"` is an
      absolute path and replaces the folder on joining. */
  lemma ReportOfRootSample(outfolder: string)
    ensures ReportFile("/", outfolder) == Ok(["/", ReportSuffix])
  {
    assert Parts("/") == ["/"] by {
      assert Split("/", '/') == ["", ""] by {
        assert "/"[1..] == "";
      }
      assert Filter(["", ""], KeptPiece) == [] by {
        assert ["", ""][1..] == [""] && [""][1..] == [];
      }
    }
    assert SampleName("/") == Ok("/");
    assert '/' !in ReportSuffix;
    RootedPiece(ReportSuffix);
  }

  // ---------------------------------------------------------------------
  // Read statistics

  /** The figures of the "Alignment Stats" markdown: the total, the aligned
      count and percentage, the unaligned count and percentage. */
  datatype Stats = Stats(
    totalReads: nat, aligned: int, percentAligned: real, unaligned: int, percentUnaligned: real)

  /** The statistics for a bowtie2 log with these lines, or the error raised
      on the way: the percentages are the logged one and its complement to
      100, the counts split the total by truncation. */
  function AlignmentStats(lines: seq<string>): (r: Result<Stats>)
    ensures r.Err? <==>
      BowtieLog.Scan(lines).Err? || BowtieLog.Scan(lines).value.percentAligned.None?
    ensures r.Ok? ==>
      var a := BowtieLog.Scan(lines).value;
      r.value.totalReads == a.totalReads &&
      r.value.percentAligned == a.percentAligned.value &&
      r.value.percentAligned + r.value.percentUnaligned == 100.0 &&
      r.value.aligned + r.value.unaligned == r.value.totalReads &&
      r.value.aligned == AlignmentPlot.SplitReads(a.totalReads, a.percentAligned).value.aligned
  {
    match BowtieLog.Scan(lines)
    case Err(e) => Err(e)
    case Ok(a) =>
      match AlignmentPlot.SplitReads(a.totalReads, a.percentAligned)
      case Err(e) => Err(e)
      case Ok(s) => Ok(Stats(a.totalReads, s.aligned, a.percentAligned.value, s.unaligned, 100.0 - a.percentAligned.value))
  }

  /** The markdown and the bar chart show the same counts: the chart's rows
      are the unaligned and aligned counts of the statistics, and one fails
      exactly when the other does. */
  lemma StatsMatchChart(lines: seq<string>)
    ensures AlignmentStats(lines).Err? <==> AlignmentPlot.AlignmentTable(lines).Err?
    ensures AlignmentStats(lines).Ok? ==>
      var s := AlignmentStats(lines).value;
      var t := AlignmentPlot.AlignmentTable(lines).value;
      t[0].amount == s.unaligned && t[1].amount == s.aligned
  {
  }

  // ---------------------------------------------------------------------
  // Raw classification charts

  /** Rows of the "Kraken Virus Only" chart: the defaults of
      `bar_chart_bracken_raw` (species level, cutoff 0.001) with ten bars and
      only viruses: the first ten rows of the filtered frame, or all of them
      when there are fewer. */
  function KrakenVirusOnly(rows: seq<Bracken.Row>): (r: seq<Bracken.Row>)
    ensures var all := Bracken.SpeciesRaw(rows, "species", 0.001, true).value;
      |r| == (if 10 < |all| then 10 else |all|) && r == all[..|r|]
    ensures forall i | 0 <= i < |r| ::
      r[i].level == "S" && r[i].percent > 0.001 && r[i].domain == "Virus"
    ensures SortedDesc(r, Bracken.Percent)
  {
    assert Bracken.LevelCode("species") == Ok("S") by {
      Bracken.LevelCodes("species", "species");
    }
    Bracken.BarChartQualifies(rows, "species", 0.001, 10, true);
    Bracken.BarChartRows(rows, "species", 0.001, 10, true).value
  }

  /** Rows of the "Kraken All Domains" chart: domain level, default cutoff
      0.001, default ten bars, every domain: the first ten rows of the
      filtered frame, or all of them when there are fewer. */
  function KrakenAllDomains(rows: seq<Bracken.Row>): (r: seq<Bracken.Row>)
    ensures var all := Bracken.SpeciesRaw(rows, "domain", 0.001, false).value;
      |r| == (if 10 < |all| then 10 else |all|) && r == all[..|r|]
    ensures forall i | 0 <= i < |r| :: r[i].level == "D" && r[i].percent > 0.001
    ensures SortedDesc(r, Bracken.Percent)
  {
    assert Bracken.LevelCode("domain") == Ok("D") by {
      Bracken.LevelCodes("domain", "domain");
    }
    Bracken.BarChartQualifies(rows, "domain", 0.001, 10, false);
    Bracken.BarChartRows(rows, "domain", 0.001, 10, false).value
  }

  /** Rows of the "Kaiju" chart: `bar_chart_kaiju_raw` with its defaults,
      the first ten aggregated groups above 0.01 percent, most abundant
      first, or all of them when there are fewer. */
  function KaijuChart(rows: seq<KaijuRaw.Row>): (r: seq<KaijuRaw.Group>)
    ensures var all := KaijuRaw.Aggregate(rows, 0.01);
      |r| == (if 10 < |all| then 10 else |all|) && r == all[..|r|]
    ensures forall i | 0 <= i < |r| :: r[i].key.percent > 0.01
    ensures SortedDesc(r, KaijuRaw.Percent)
  {
    var all := KaijuRaw.Aggregate(rows, KaijuRaw.DefaultCutoff);
    var r := KaijuRaw.ChartRows(rows, KaijuRaw.DefaultCutoff, KaijuRaw.DefaultNumber);
    HeadKeeps(all, KaijuRaw.DefaultNumber, KaijuRaw.Above(KaijuRaw.DefaultCutoff), KaijuRaw.Percent);
    r
  }

  // ---------------------------------------------------------------------
  // Coverage tabs

  /** `"ipynb" not in str(x)`. */
  predicate NotNotebook(path: string) {
    !Contains(path, "ipynb")
  }

  /** The SVG paths kept for the coverage section: those found, in the
      order found, without any whose path mentions "ipynb". */
  function CoverageSvgs(found: seq<string>): (r: seq<string>)
    ensures forall x :: x in r <==> x in found && !Contains(x, "ipynb")
    ensures IsSubsequence(r, found)
  {
    FilterIsSubsequence(found, NotNotebook);
    FilterMembers(found, NotNotebook);
    Filter(found, NotNotebook)
  }

  /** `plot.stem.split("_")[-1].replace(".", " ")`: the last
      underscore-separated piece of the file's stem, dots turned into
      spaces. */
  function TabName(path: string): (r: string)
    ensures '_' !in r && '.' !in r
  {
    var pieces := Split(Stem(FileName(path)), '_');
    Replace(pieces[|pieces| - 1], '.', ' ')
  }

  /** The last piece of a split is what follows the last separator. */
  lemma {:induction false} SplitLast(w: string, t: string, sep: char)
    requires sep !in t
    ensures var p := Split(w + [sep] + t, sep);
      |p| >= 2 && p[|p| - 1] == t
  {
    if w == [] {
      SplitNoSep(t, sep);
      assert w + [sep] + t == [sep] + t;
      assert ([sep] + t)[1..] == t;
    } else {
      SplitLast(w[1..], t, sep);
      assert (w + [sep] + t)[1..] == w[1..] + [sep] + t;
    }
  }

  /** The stem of `<base>.<ext>`, for a non-empty base and a non-empty
      extension without dots, is the base. */
  lemma StemOfFile(base: string, ext: string)
    requires base != [] && ext != [] && '.' !in ext
    ensures Stem(base + "." + ext) == base
  {
    var file := base + "." + ext;
    assert LastIndexOf(file, '.') == |base| by {
      assert file[|base|] == '.';
      forall j | |base| < j < |file| ensures file[j] != '.' {
        assert file[j] == ext[j - |base| - 1];
      }
    }
    assert file[..|base|] == base;
  }

  /** A coverage plot file named `<prefix>_<tag>.<ext>`, with no
      underscore in the tag and no dot in the extension, gets the tab name
      `<tag>` with its dots turned into spaces. */
  lemma TabNameOfFile(dirs: seq<string>, prefix: string, tag: string, ext: string)
    requires forall i | 0 <= i < |dirs| :: '/' !in dirs[i]
    requires '/' !in prefix && '/' !in tag && '/' !in ext
    requires '_' !in tag && '.' !in ext && ext != ""
    ensures TabName(Join(PathPieces(dirs, prefix + "_" + tag + "." + ext, false), '/')) == Replace(tag, '.', ' ')
  {
    var base := prefix + "_" + tag;
    var file := base + "." + ext;
    assert prefix + "_" + tag + "." + ext == file;
    assert '/' !in file;
    assert FileName(Join(PathPieces(dirs, file, false), '/')) == file by {
      FileNameOfPath(dirs, file);
    }
    assert Stem(file) == base by {
      StemOfFile(base, ext);
    }
    assert base == prefix + ['_'] + tag;
    SplitLast(prefix, tag, '_');
  }

  /** One tab of the coverage section: an SVG file under a name, or the
      placeholder shown when there is none. */
  datatype Tab = SvgTab(name: string, file: string) | Placeholder(name: string, text: string)

  const NoPlots: Tab := Placeholder("No Coverage Plots", "## No Coverage plots Available")

  /** The tab shown for one kept SVG file. */
  function TabOf(plot: string): (t: Tab)
    ensures t.SvgTab? && t.file == plot && t.name == TabName(plot)
  {
    SvgTab(TabName(plot), plot)
  }

  /** The coverage section's loop: one SVG tab per kept file, in order,
      named by `TabName`; a single placeholder tab when no file is kept. */
  method CoverageTabs(found: seq<string>) returns (tabs: seq<Tab>)
    ensures CoverageSvgs(found) == [] ==> tabs == [NoPlots]
    ensures CoverageSvgs(found) != [] ==> |tabs| == |CoverageSvgs(found)|
    ensures CoverageSvgs(found) != [] ==> forall i | 0 <= i < |tabs| ::
      tabs[i] == SvgTab(TabName(CoverageSvgs(found)[i]), CoverageSvgs(found)[i])
  {
    var plots := CoverageSvgs(found);
    tabs := [];
    if plots != [] {
      for i := 0 to |plots|
        invariant |tabs| == i
        invariant forall j | 0 <= j < i :: tabs[j] == TabOf(plots[j])
      {
        AppendMapped(tabs, plots, TabOf, i);
        tabs := tabs + [TabOf(plots[i])];
      }
    } else {
      tabs := tabs + [NoPlots];
    }
  }

  // ---------------------------------------------------------------------
  // Sections

  /** The titles of the report's top-level tabs, in order. */
  const Sections: seq<string> := [
    "Alignment Stats", "Classification of Raw Reads", "Classification of Contigs",
    "Alignment Coverage", "Information About Programs"]
}
