/** The pure part of genfiles: how a subreport's template and a period give
    the output file name and the navigation label, what the search list handed
    to the template engine holds, and, as functions, what a summary-by or a
    to-date pass does to the files on disk. The class in module GenFiles runs
    the same passes step by step and is proved to agree with these functions. */
module Reports {
  import opened Format
  import opened Paths

  datatype Option<T> = None | Some(value: T)

  /** The calendar unit of a summary-by report. */
  datatype Granularity = ByMonth | ByYear

  const SummaryByMonth: string := "SummaryByMonth"
  const SummaryByYear: string := "SummaryByYear"
  const ToDate: string := "ToDate"

  /** generateSummaryBy recognises exactly two interval names. */
  function ModeOf(byTime: string): (g: Option<Granularity>)
    ensures g == Some(ByMonth) <==> byTime == SummaryByMonth
    ensures g == Some(ByYear) <==> byTime == SummaryByYear
    ensures g == None <==> byTime != SummaryByMonth && byTime != SummaryByYear
  {
    if byTime == SummaryByMonth then Some(ByMonth)
    else if byTime == SummaryByYear then Some(ByYear)
    else None
  }

  type Month = m: int | 1 <= m <= 12 witness 1

  /** A timespan [start, stop) of epoch seconds. */
  datatype Span = Span(start: int, stop: int)

  /** One timespan produced by the month or year span generator for
      (start_ts, stop_ts): the span, the year and month of its start in local
      time, and whether it includes the archive time stop_ts. */
  datatype Period = Period(span: Span, year: nat, month: Month, includesStop: bool)

  /** The station's root and the skin root from the weewx configuration. */
  datatype Site = Site(weewxRoot: string, skinRoot: string)

  /** One subreport section of the skin, with inherited options already
      accumulated: the skin, the template (relative to the skin), the HTML
      root and the encoding, which is also the name of the output filter. */
  datatype SubreportConfig = SubreportConfig(skin: string, template: string, htmlRoot: string, encoding: string)

  /** What _prepGen hands back: the template's path, the destination
      directory and the encoding. */
  datatype Prepared = Prepared(template: string, destDir: string, encoding: string)

  // ----- _prepGen -----

  function TemplatePath(site: Site, cfg: SubreportConfig): string
  {
    Join(Join(Join(site.weewxRoot, site.skinRoot), cfg.skin), cfg.template)
  }

  function DestinationDir(site: Site, cfg: SubreportConfig): string
  {
    Join(Join(site.weewxRoot, cfg.htmlRoot), Dirname(cfg.template))
  }

  /** The paths _prepGen computes. */
  function Prepare(site: Site, cfg: SubreportConfig): Prepared
  {
    Prepared(TemplatePath(site, cfg), DestinationDir(site, cfg), cfg.encoding)
  }

  /** Whatever the roots are, the template's base name, from which every
      output name is formed, is that of the configured template. */
  lemma PrepareKeepsBasename(site: Site, cfg: SubreportConfig)
    ensures Basename(Prepare(site, cfg).template) == Basename(cfg.template)
  {
    JoinKeepsBasename(Join(Join(site.weewxRoot, site.skinRoot), cfg.skin), cfg.template);
  }

  /** os.makedirs(d) with every OSError swallowed: an existing directory is
      left alone, and nothing is created for an empty path or a path that is
      an existing file. */
  function MakeDirs(dirs: set<string>, files: map<string, string>, d: string): (r: set<string>)
    ensures dirs <= r && r <= dirs + {d}
    ensures d in r <==> d in dirs || (d != "" && d !in files)
  {
    if d == "" || d in files then dirs else dirs + {d}
  }

  /** Creating a directory twice is the same as creating it once. */
  lemma MakeDirsIdempotent(dirs: set<string>, files: map<string, string>, d: string)
    ensures MakeDirs(MakeDirs(dirs, files, d), files, d) == MakeDirs(dirs, files, d)
  {
  }

  // ----- output file names -----

  /** basename(template) with every ".tmpl" removed: the to-date file name,
      and the start of every summary file name. */
  function ToDateFilename(template: string): string
  {
    ReplaceAll(Basename(template), ".tmpl", "")
  }

  /** The summary file name: after ".tmpl" is removed, every "YYYY" becomes
      the year as "%4d"; then, for months only, every "MM" becomes the month
      as "%02d". */
  function SummaryFilename(template: string, g: Granularity, year: nat, month: Month): string
  {
    var withYear := ReplaceAll(ToDateFilename(template), "YYYY", Int4(year));
    match g
    case ByYear => withYear
    case ByMonth => ReplaceAll(withYear, "MM", Zero2(month))
  }

  lemma NumberFieldsNoSlash(n: nat)
    ensures '/' !in Int4(n) && '/' !in Zero2(n)
  {
    var y, m := Int4(n), Zero2(n);
    forall i | 0 <= i < |y| ensures y[i] != '/' { assert IsDigit(y[i]) || y[i] == ' '; }
    forall i | 0 <= i < |m| ensures m[i] != '/' { assert IsDigit(m[i]); }
  }

  /** Output file names are plain names: joined to the destination directory
      they never reach into another directory. */
  lemma FilenamesNoSlash(template: string, g: Granularity, year: nat, month: Month)
    ensures '/' !in ToDateFilename(template)
    ensures '/' !in SummaryFilename(template, g, year, month)
  {
    var base := ToDateFilename(template);
    ReplaceAllNoSlash(Basename(template), ".tmpl", "");
    NumberFieldsNoSlash(year);
    NumberFieldsNoSlash(month);
    ReplaceAllNoSlash(base, "YYYY", Int4(year));
    ReplaceAllNoSlash(ReplaceAll(base, "YYYY", Int4(year)), "MM", Zero2(month));
  }

  /** For a template named <name>.tmpl where <name> holds no other ".tmpl",
      the file name is <name>: only the suffix is stripped. */
  lemma TemplateSuffixStripped(template: string, name: string)
    requires Basename(template) == name + ".tmpl"
    requires !Contains(name, ".tmpl")
    ensures ToDateFilename(template) == name
  {
    assert ".tmpl"[0] !in ".tmpl"[1..];
    ReplaceAllSuffix(name, ".tmpl", "");
    assert name + "" == name;
  }

  /** One occurrence between two stretches that cannot start the pattern. */
  lemma ReplaceOnce(a: string, b: string, pat: string, rep: string)
    requires |pat| > 0 && pat[0] !in a && pat[0] !in b
    ensures ReplaceAll(a + pat + b, pat, rep) == a + rep + b
  {
    assert a + pat + b == a + (pat + b);
    ReplaceAllSkip(a, pat + b, pat, rep);
    ReplaceAllHit(b, pat, rep);
    ReplaceAllSkip(b, [], pat, rep);
    assert b + [] == b;
  }

  /** ".tmpl" removed from <a>.<e>.tmpl, where neither a nor e holds a '.'. */
  lemma StripAfterExtension(a: string, e: string, pat: string)
    requires |pat| > 0 && pat[0] == '.' && '.' !in a && '.' !in e
    requires (['.'] + e + pat)[..|pat|] != pat
    ensures ReplaceAll(a + ['.'] + e + pat, pat, []) == a + (['.'] + e)
  {
    SkipStem(a, e, pat);
    KeepDot(e, pat);
    StripSuffix(e, pat);
  }

  lemma SkipStem(a: string, e: string, pat: string)
    requires |pat| > 0 && pat[0] == '.' && '.' !in a
    ensures ReplaceAll(a + ['.'] + e + pat, pat, []) == a + ReplaceAll(['.'] + (e + pat), pat, [])
  {
    var rest := ['.'] + (e + pat);
    assert a + ['.'] + e + pat == a + rest;
    ReplaceAllSkip(a, rest, pat, []);
  }

  lemma KeepDot(e: string, pat: string)
    requires |pat| > 0 && (['.'] + e + pat)[..|pat|] != pat
    ensures ReplaceAll(['.'] + (e + pat), pat, []) == ['.'] + ReplaceAll(e + pat, pat, [])
  {
    var rest := ['.'] + (e + pat);
    assert rest[..|pat|] != pat by { assert rest == ['.'] + e + pat; }
    ReplaceAllMiss('.', e + pat, pat, []);
  }

  lemma StripSuffix(e: string, pat: string)
    requires |pat| > 0 && pat[0] !in e
    ensures ReplaceAll(e + pat, pat, []) == e
  {
    assert e + pat + [] == e + pat && e + [] + [] == e;
    ReplaceOnce(e, [], pat, []);
  }

  /** The file name of a template <dir><a>.<e>.tmpl, with e not beginning
      with "tmpl": the directory and ".tmpl" go. */
  lemma ExtensionStem(t: string, dir: string, a: string, e: string, pat: string)
    requires pat == ".tmpl" && t == dir + (a + ['.'] + e + pat)
    requires dir == [] || dir[|dir| - 1] == '/'
    requires '/' !in a && '/' !in e && '.' !in a && '.' !in e
    requires (['.'] + e + pat)[..|pat|] != pat
    ensures ToDateFilename(t) == a + (['.'] + e)
  {
    var name := a + ['.'] + e + pat;
    assert '/' !in name;
    BasenameAfterSlash(dir, name);
    BasenameOfName(name);
    assert Basename(t) == name;
    StripAfterExtension(a, e, pat);
    assert ToDateFilename(t) == ReplaceAll(name, pat, []);
  }

  lemma NumberFieldsNoLetters(n: nat)
    ensures 'Y' !in Int4(n) && 'M' !in Int4(n) && 'M' !in Zero2(n)
  {
    var y, m := Int4(n), Zero2(n);
    forall i | 0 <= i < |y| ensures y[i] != 'Y' && y[i] != 'M' { assert IsDigit(y[i]) || y[i] == ' '; }
    forall i | 0 <= i < |m| ensures m[i] != 'M' { assert IsDigit(m[i]); }
  }

  /** A name with one "YYYY" and one "MM" after it, and no other 'Y' or 'M',
      gets the year and the month in those two places. */
  lemma MonthFieldsFilled(t: string, year: nat, month: Month, pre: string, mid: string, post: string)
    requires ToDateFilename(t) == pre + "YYYY" + mid + "MM" + post
    requires 'Y' !in pre + mid + post && 'M' !in pre + mid + post
    ensures SummaryFilename(t, ByMonth, year, month) == pre + Int4(year) + mid + Zero2(month) + post
  {
    var y, m := Int4(year), Zero2(month);
    NumberFieldsNoLetters(year);
    NumberFieldsNoLetters(month);
    var tail := mid + "MM" + post;
    AppendAssoc(pre + "YYYY", mid, "MM");
    AppendAssoc(pre + "YYYY", mid + "MM", post);
    AppendAssoc(mid, "MM", post);
    ReplaceOnce(pre, tail, "YYYY", y);
    var head := pre + y + mid;
    AppendAssoc(pre + y, mid, "MM");
    AppendAssoc(pre + y, mid + "MM", post);
    ReplaceOnce(head, post, "MM", m);
  }

  /** A name with one "YYYY" and no other 'Y' gets the year in that place. */
  lemma YearFieldFilled(t: string, year: nat, month: Month, pre: string, post: string)
    requires ToDateFilename(t) == pre + "YYYY" + post
    requires 'Y' !in pre + post
    ensures SummaryFilename(t, ByYear, year, month) == pre + Int4(year) + post
  {
    NumberFieldsNoLetters(year);
    ReplaceOnce(pre, post, "YYYY", Int4(year));
  }

  /** The year and month fields of July 2021. */
  lemma July2021Fields()
    ensures Int4(2021) == "2021" && Zero2(7) == "07"
  {
    assert Decimal(2021) == Decimal(202) + ['1'];
    assert Decimal(202) == Decimal(20) + ['2'];
    assert Decimal(20) == Decimal(2) + ['0'];
    assert Decimal(7) == ['7'];
  }

  /** A NOAA template "NOAA/<stem>.txt.tmpl" gives the file "<stem>.txt". */
  lemma NoaaStem(t: string, stem: string)
    requires t == "NOAA/" + stem + ".txt.tmpl"
    requires '/' !in stem && '.' !in stem
    ensures ToDateFilename(t) == stem + ".txt"
  {
    var dir, e, pat := "NOAA/", "txt", ".tmpl";
    assert t == dir + (stem + ['.'] + e + pat);
    assert stem + (['.'] + e) == stem + ".txt";
    assert (['.'] + e + pat)[2] != pat[2];
    ExtensionStem(t, dir, stem, e, pat);
  }

  /** The monthly NOAA template of the standard skin: "NOAA-2021-07.txt"
      for July 2021 (see July2021Fields). */
  lemma MonthlyNoaaFilename(t: string, year: nat, month: Month)
    requires t == "NOAA/NOAA-YYYY-MM.txt.tmpl"
    ensures SummaryFilename(t, ByMonth, year, month) == "NOAA-" + Int4(year) + "-" + Zero2(month) + ".txt"
  {
    var stem := "NOAA-YYYY-MM";
    assert '/' !in stem && '.' !in stem;
    assert t == "NOAA/" + stem + ".txt.tmpl";
    NoaaStem(t, stem);
    MonthlyNoaaFields(t, year, month);
  }

  lemma MonthlyNoaaFields(t: string, year: nat, month: Month)
    requires ToDateFilename(t) == "NOAA-YYYY-MM" + ".txt"
    ensures SummaryFilename(t, ByMonth, year, month) == "NOAA-" + Int4(year) + "-" + Zero2(month) + ".txt"
  {
    assert "NOAA-YYYY-MM" + ".txt" == "NOAA-" + "YYYY" + "-" + "MM" + ".txt";
    MonthFieldsFilled(t, year, month, "NOAA-", "-", ".txt");
  }

  /** The yearly NOAA template: "NOAA-2021.txt" for 2021. */
  lemma YearlyNoaaFilename(t: string, year: nat, month: Month)
    requires t == "NOAA/NOAA-YYYY.txt.tmpl"
    ensures SummaryFilename(t, ByYear, year, month) == "NOAA-" + Int4(year) + ".txt"
  {
    var stem := "NOAA-YYYY";
    assert '/' !in stem && '.' !in stem;
    assert t == "NOAA/" + stem + ".txt.tmpl";
    NoaaStem(t, stem);
    YearlyNoaaFields(t, year, month);
  }

  lemma YearlyNoaaFields(t: string, year: nat, month: Month)
    requires ToDateFilename(t) == "NOAA-YYYY" + ".txt"
    ensures SummaryFilename(t, ByYear, year, month) == "NOAA-" + Int4(year) + ".txt"
  {
    assert "NOAA-YYYY" + ".txt" == "NOAA-" + "YYYY" + ".txt";
    YearFieldFilled(t, year, month, "NOAA-", ".txt");
  }

  /** "MM" is replaced wherever it stands in a month file's name, even
      where the name means the letters (a template "SUMMARY.txt.tmpl" gives
      "SU07ARY.txt" for July), and it is kept as it is in a year file's name. */
  lemma MonthTokenReplacedAnywhere(t: string, year: nat, month: Month, a: string, b: string)
    requires ToDateFilename(t) == a + "MM" + b
    requires !Contains(a + "MM" + b, "YYYY") && 'M' !in a + b
    ensures SummaryFilename(t, ByMonth, year, month) == a + Zero2(month) + b
    ensures SummaryFilename(t, ByYear, year, month) == a + "MM" + b
  {
    var base := ToDateFilename(t);
    ReplaceAllAbsent(base, "YYYY", Int4(year));
    NumberFieldsNoLetters(month);
    ReplaceOnce(a, b, "MM", Zero2(month));
  }

  // ----- navigation labels -----

  /** The label recorded in outputted_dict: "%4d-%02d" of year and month for
      a month, "%4d" of the year for a year. */
  function PeriodLabel(g: Granularity, p: Period): string
  {
    match g
    case ByMonth => Int4(p.year) + "-" + Zero2(p.month)
    case ByYear => Int4(p.year)
  }

  /** Labels tell periods apart: equal labels mean the same year and, for
      months, the same month. */
  lemma PeriodLabelInjective(g: Granularity, p: Period, q: Period)
    requires PeriodLabel(g, p) == PeriodLabel(g, q)
    ensures p.year == q.year
    ensures g == ByMonth ==> p.month == q.month
  {
    match g
    case ByYear => Int4Injective(p.year, q.year);
    case ByMonth =>
      assert '-' !in Int4(p.year) && '-' !in Int4(q.year);
      assert Int4(p.year) + ['-'] + Zero2(p.month) == Int4(q.year) + ['-'] + Zero2(q.month);
      SplitAtSeparator(Int4(p.year), Zero2(p.month), Int4(q.year), Zero2(q.month), '-');
      Int4Injective(p.year, q.year);
      Zero2Injective(p.month, q.month);
  }

  /** The labels of a run of periods, in order. */
  function PeriodLabels(g: Granularity, ps: seq<Period>): (r: seq<string>)
    ensures |r| == |ps|
    ensures forall i {:trigger r[i]} :: 0 <= i < |ps| ==> r[i] == PeriodLabel(g, ps[i])
  {
    seq(|ps|, i requires 0 <= i < |ps| => PeriodLabel(g, ps[i]))
  }

  /** k copies of s, one after another. */
  function Repeat<T>(s: seq<T>, k: nat): seq<T>
  {
    if k == 0 then [] else Repeat(s, k - 1) + s
  }

  lemma {:induction false} RepeatLength<T>(s: seq<T>, k: nat)
    ensures |Repeat(s, k)| == k * |s|
  {
    if k > 0 {
      RepeatLength(s, k - 1);
    }
  }

  /** With k subreports and n periods the registry ends with k * n labels,
      and block q of it (positions q * n up to (q + 1) * n) is the whole run
      of labels again. */
  lemma {:induction false} RepeatBlock<T>(s: seq<T>, k: nat, q: nat)
    requires q < k
    ensures |Repeat(s, k)| == k * |s|
    ensures Repeat(s, k)[q * |s|..(q + 1) * |s|] == s
  {
    RepeatLength(s, k);
    RepeatLength(s, k - 1);
    var prev := Repeat(s, k - 1);
    assert (k - 1) * |s| + |s| == k * |s|;
    if q < k - 1 {
      RepeatBlock(s, k - 1, q);
      assert (q + 1) * |s| <= (k - 1) * |s|;
      assert Repeat(s, k)[q * |s|..(q + 1) * |s|] == prev[q * |s|..(q + 1) * |s|];
    } else {
      assert q * |s| == |prev|;
    }
  }

  /** Appending the next element of s extends the prefix taken so far. */
  lemma AppendPrefix<K, T>(m: map<K, seq<T>>, key: K, base: seq<T>, s: seq<T>, j: nat)
    requires j < |s|
    ensures base + s[..j + 1] == (base + s[..j]) + [s[j]]
    ensures var m' := m[key := base + s[..j]];
      m'[key := m'[key] + [s[j]]] == m[key := base + s[..j + 1]]
  {
    assert s[..j + 1] == s[..j] + [s[j]];
  }

  /** Resetting an entry and then appending a run to it leaves just the run. */
  lemma ResetThenAppend<K, T>(m: map<K, seq<T>>, key: K, s: seq<T>)
    ensures var m' := m[key := []];
      m'[key := m'[key] + s] == m[key := s]
  {
    assert [] + s == s;
  }

  /** One more subreport appends one more run of labels. */
  lemma RepeatStep<K, T>(m: map<K, seq<T>>, key: K, base: seq<T>, s: seq<T>, k: nat)
    ensures var m' := m[key := base + Repeat(s, k)];
      m'[key := m'[key] + s] == m[key := base + Repeat(s, k + 1)]
  {
    assert base + Repeat(s, k) + s == base + Repeat(s, k + 1);
  }

  // ----- search lists -----

  /** The objects a search list can hold. Station, statistics and almanac
      objects are opaque: only what they were built from is recorded. */
  datatype Datum =
    | StationInfo
    | Int(i: int)
    | Str(s: string)
    | Stats(span: Span)
    | AlmanacAt(ts: int)
    | Observation(record: map<string, Option<real>>)
    | LabelList(labels: seq<string>)

  type Layer = map<string, Datum>
  type SearchList = seq<Layer>

  /** strftime("%b") in the C locale. */
  function MonthAbbrev(m: Month): (r: string)
    ensures |r| == 3
  {
    ["Jan", "Feb", "Mar", "Apr", "May", "Jun", "Jul", "Aug", "Sep", "Oct", "Nov", "Dec"][m - 1]
  }

  /** getSummarySearchList: one dictionary with the station and the start
      year, and the period's statistics under "month" (with the month's name)
      or under "year". */
  function SummarySearchList(byTime: string, p: Period): (r: SearchList)
    ensures |r| == 1
    ensures "station" in r[0] && r[0]["station"] == StationInfo
    ensures "year_name" in r[0] && r[0]["year_name"] == Int(p.year)
    ensures byTime == SummaryByMonth ==>
      && r[0].Keys == {"station", "year_name", "month", "month_name"}
      && r[0]["month"] == Stats(p.span)
      && r[0]["month_name"] == Str(MonthAbbrev(p.month))
    ensures byTime == SummaryByYear ==>
      r[0].Keys == {"station", "year_name", "year"} && r[0]["year"] == Stats(p.span)
    ensures byTime != SummaryByMonth && byTime != SummaryByYear ==>
      r[0].Keys == {"station", "year_name"}
  {
    var base := map["station" := StationInfo, "year_name" := Int(p.year)];
    if byTime == SummaryByMonth then
      [base["month" := Stats(p.span)]["month_name" := Str(MonthAbbrev(p.month))]]
    else if byTime == SummaryByYear then
      [base["year" := Stats(p.span)]]
    else
      [base]
  }

  /** The five windows ending at stop_ts (their computation is not part of
      this model). */
  datatype ToDateSpans = ToDateSpans(day: Span, week: Span, month: Span, year: Span, rainYear: Span)

  /** getToDateSearchList: station and almanac, then the registry of
      summary labels, then the current record and the five windows'
      statistics. */
  function ToDateSearchList(current: map<string, Option<real>>, spans: ToDateSpans, almanacTs: int,
                            registry: map<string, seq<string>>): (r: SearchList)
    ensures |r| == 3
    ensures r[0].Keys == {"station", "almanac"}
    ensures r[0]["station"] == StationInfo && r[0]["almanac"] == AlmanacAt(almanacTs)
    ensures r[1].Keys == registry.Keys
    ensures forall k :: k in registry ==> r[1][k] == LabelList(registry[k])
    ensures r[2].Keys == {"current", "day", "week", "month", "year", "rainyear"}
    ensures r[2]["current"] == Observation(current)
    ensures r[2]["day"] == Stats(spans.day) && r[2]["week"] == Stats(spans.week)
    ensures r[2]["month"] == Stats(spans.month) && r[2]["year"] == Stats(spans.year)
    ensures r[2]["rainyear"] == Stats(spans.rainYear)
  {
    [ map["station" := StationInfo, "almanac" := AlmanacAt(almanacTs)],
      map k | k in registry :: LabelList(registry[k]),
      map["current" := Observation(current), "day" := Stats(spans.day), "week" := Stats(spans.week),
          "month" := Stats(spans.month), "year" := Stats(spans.year), "rainyear" := Stats(spans.rainYear)] ]
  }

  /** The dictionary appended to every search list. */
  function EncodingLayer(encoding: string): Layer
  {
    map["encoding" := Str(encoding)]
  }

  /** The template engine: template path, search list and filter name give
      the rendered text. */
  type Renderer = (string, SearchList, string) -> string

  /** What is written for one rendering: `print >> file, text` adds a
      newline. */
  function RenderedText(template: string, searchList: SearchList, encoding: string, render: Renderer): string
  {
    render(template, searchList + [EncodingLayer(encoding)], encoding) + "\n"
  }

  // ----- the summary-by pass -----

  /** One subreport of a summary-by pass. */
  datatype Job = Job(byTime: string, g: Granularity, prep: Prepared)

  function SummaryPath(job: Job, p: Period): string
  {
    Join(job.prep.destDir, SummaryFilename(job.prep.template, job.g, p.year, p.month))
  }

  function SummaryContent(job: Job, p: Period, render: Renderer): string
  {
    RenderedText(job.prep.template, SummarySearchList(job.byTime, p), job.prep.encoding, render)
  }

  /** os.path.exists: a file or a directory. */
  predicate Exists(files: map<string, string>, dirs: set<string>, path: string)
  {
    path in files || path in dirs
  }

  /** What one period of a subreport stands to write: the output file, the
      text rendered for it, and whether the period holds stop_ts. */
  datatype Write = Write(path: string, content: string, includesStop: bool)

  function PlannedWrite(job: Job, p: Period, render: Renderer): Write
  {
    Write(SummaryPath(job, p), SummaryContent(job, p, render), p.includesStop)
  }

  /** The writes of one subreport's periods, in period order. */
  function Plan(job: Job, ps: seq<Period>, render: Renderer): (plan: seq<Write>)
    ensures |plan| == |ps|
    ensures forall i {:trigger plan[i]} :: 0 <= i < |ps| ==> plan[i] == PlannedWrite(job, ps[i], render)
  {
    seq(|ps|, i requires 0 <= i < |ps| => PlannedWrite(job, ps[i], render))
  }

  /** The regeneration rule: a period is rendered when its file does not
      exist or when the period holds stop_ts. */
  predicate MustRebuild(files: map<string, string>, dirs: set<string>, w: Write)
  {
    !Exists(files, dirs, w.path) || w.includesStop
  }

  /** The files after a run of periods, and how many were written (ngen). */
  datatype Batch = Batch(files: map<string, string>, ngen: nat)

  /** The inner loop of generateSummaryBy for one subreport, write by
      write, each decision taken on the files as they are at that point. */
  function RunPlan(files: map<string, string>, dirs: set<string>, plan: seq<Write>): (b: Batch)
    ensures b.ngen <= |plan|
    decreases |plan|
  {
    if plan == [] then Batch(files, 0)
    else
      var b := RunPlan(files, dirs, plan[..|plan| - 1]);
      var w := plan[|plan| - 1];
      if MustRebuild(b.files, dirs, w) then Batch(b.files[w.path := w.content], b.ngen + 1) else b
  }

  /** The disk: file contents by path, and the directories. */
  datatype Disk = Disk(files: map<string, string>, dirs: set<string>)

  datatype SummaryResult = SummaryResult(disk: Disk, counts: seq<nat>)

  /** A whole summary-by pass: per subreport, create the destination
      directory, then run its periods; counts holds each subreport's ngen. */
  function SummaryRun(disk: Disk, site: Site, byTime: string, g: Granularity, subs: seq<SubreportConfig>,
                      ps: seq<Period>, render: Renderer): (r: SummaryResult)
    ensures |r.counts| == |subs|
    decreases |subs|
  {
    if subs == [] then SummaryResult(disk, [])
    else
      var r := SummaryRun(disk, site, byTime, g, subs[..|subs| - 1], ps, render);
      var prep := Prepare(site, subs[|subs| - 1]);
      var dirs := MakeDirs(r.disk.dirs, r.disk.files, prep.destDir);
      var b := RunPlan(r.disk.files, dirs, Plan(Job(byTime, g, prep), ps, render));
      SummaryResult(Disk(b.files, dirs), r.counts + [b.ngen])
  }

  /** The loop step of one subreport's pass, stated on the files and count
      before and after write j was decided. */
  lemma VisitStep(files0: map<string, string>, dirs: set<string>, plan: seq<Write>,
                  j: nat, files: map<string, string>, ngen: nat, wrote: bool, files': map<string, string>)
    requires j < |plan|
    requires RunPlan(files0, dirs, plan[..j]) == Batch(files, ngen)
    requires wrote == MustRebuild(files, dirs, plan[j])
    requires files' == if wrote then files[plan[j].path := plan[j].content] else files
    ensures RunPlan(files0, dirs, plan[..j + 1]) == Batch(files', if wrote then ngen + 1 else ngen)
  {
    RunPlanStep(files0, dirs, plan, j);
  }

  lemma RunPlanStep(files: map<string, string>, dirs: set<string>, plan: seq<Write>, j: nat)
    requires j < |plan|
    ensures var b := RunPlan(files, dirs, plan[..j]);
      RunPlan(files, dirs, plan[..j + 1])
      == if MustRebuild(b.files, dirs, plan[j]) then Batch(b.files[plan[j].path := plan[j].content], b.ngen + 1) else b
  {
    assert plan[..j + 1][..j] == plan[..j];
  }

  /** One more subreport of the pass, as the loop takes it. */
  lemma SummaryRunStep(disk: Disk, site: Site, byTime: string, g: Granularity, subs: seq<SubreportConfig>,
                       k: nat, ps: seq<Period>, render: Renderer)
    requires k < |subs|
    ensures var r := SummaryRun(disk, site, byTime, g, subs[..k], ps, render);
      var prep := Prepare(site, subs[k]);
      var dirs := MakeDirs(r.disk.dirs, r.disk.files, prep.destDir);
      var b := RunPlan(r.disk.files, dirs, Plan(Job(byTime, g, prep), ps, render));
      SummaryRun(disk, site, byTime, g, subs[..k + 1], ps, render) == SummaryResult(Disk(b.files, dirs), r.counts + [b.ngen])
  {
    assert subs[..k + 1][..k] == subs[..k];
  }

  // ----- what a run of periods does to the files -----

  /** The entry for path q is the same in both file maps. */
  predicate SameEntry(f: map<string, string>, g: map<string, string>, q: string)
  {
    (q in f <==> q in g) && (q in f ==> f[q] == g[q])
  }

  /** No two writes of the plan go to the same file. */
  predicate DistinctPaths(plan: seq<Write>)
  {
    forall i, j :: 0 <= i < j < |plan| ==> plan[i].path != plan[j].path
  }

  /** Equal strings that differ only in two slots of which the second has
      a fixed width agree in both slots. */
  lemma SplitSlots(pre: string, x1: string, x2: string, mid: string, z1: string, z2: string, post: string)
    requires |z1| == |z2|
    requires pre + x1 + mid + z1 + post == pre + x2 + mid + z2 + post
    ensures x1 == x2 && z1 == z2
  {
    var s1, s2 := pre + x1 + mid + z1 + post, pre + x2 + mid + z2 + post;
    assert |x1| == |x2|;
    assert x1 == s1[|pre|..|pre| + |x1|] == s2[|pre|..|pre| + |x2|] == x2;
    var k := |pre| + |x1| + |mid|;
    assert z1 == s1[k..k + |z1|] == s2[k..k + |z2|] == z2;
  }

  /** For a month template with one "YYYY" followed by one "MM" and no
      other 'Y' or 'M', periods that differ in year or month get different
      files. */
  lemma MonthFilesDistinct(t: string, pre: string, mid: string, post: string, p: Period, q: Period)
    requires ToDateFilename(t) == pre + "YYYY" + mid + "MM" + post
    requires 'Y' !in pre + mid + post && 'M' !in pre + mid + post
    requires p.year != q.year || p.month != q.month
    ensures SummaryFilename(t, ByMonth, p.year, p.month) != SummaryFilename(t, ByMonth, q.year, q.month)
  {
    MonthFieldsFilled(t, p.year, p.month, pre, mid, post);
    MonthFieldsFilled(t, q.year, q.month, pre, mid, post);
    if SummaryFilename(t, ByMonth, p.year, p.month) == SummaryFilename(t, ByMonth, q.year, q.month) {
      SplitSlots(pre, Int4(p.year), Int4(q.year), mid, Zero2(p.month), Zero2(q.month), post);
      Int4Injective(p.year, q.year);
      Zero2Injective(p.month, q.month);
    }
  }

  /** Equal strings that differ only in one slot agree in it. */
  lemma SplitSlot(pre: string, x1: string, x2: string, post: string)
    requires pre + x1 + post == pre + x2 + post
    ensures x1 == x2
  {
    var s1, s2 := pre + x1 + post, pre + x2 + post;
    assert x1 == s1[|pre|..|pre| + |x1|] == s2[|pre|..|pre| + |x2|] == x2;
  }

  /** For a year template with one "YYYY" and no other 'Y', periods of
      different years get different files. */
  lemma YearFilesDistinct(t: string, pre: string, post: string, p: Period, q: Period)
    requires ToDateFilename(t) == pre + "YYYY" + post && 'Y' !in pre + post
    requires p.year != q.year
    ensures SummaryFilename(t, ByYear, p.year, p.month) != SummaryFilename(t, ByYear, q.year, q.month)
  {
    YearFieldFilled(t, p.year, p.month, pre, post);
    YearFieldFilled(t, q.year, q.month, pre, post);
    if SummaryFilename(t, ByYear, p.year, p.month) == SummaryFilename(t, ByYear, q.year, q.month) {
      SplitSlot(pre, Int4(p.year), Int4(q.year), post);
      Int4Injective(p.year, q.year);
    }
  }

  /** The periods start in pairwise different calendar units: different
      years, or for months different (year, month) pairs. The month and year
      span generators produce such runs. */
  predicate DistinctPeriods(g: Granularity, ps: seq<Period>)
  {
    forall i, j :: 0 <= i < j < |ps| ==>
      ps[i].year != ps[j].year || (g == ByMonth && ps[i].month != ps[j].month)
  }

  /** A template whose name has the placeholders of its granularity exactly
      once: "YYYY" and then "MM" for months, "YYYY" for years, the rest
      holding no 'Y' (nor 'M' for months). */
  ghost predicate WellFormedTemplate(g: Granularity, template: string)
  {
    match g
    case ByMonth =>
      exists pre, mid, post :: ToDateFilename(template) == pre + "YYYY" + mid + "MM" + post
        && 'Y' !in pre + mid + post && 'M' !in pre + mid + post
    case ByYear =>
      exists pre, post :: ToDateFilename(template) == pre + "YYYY" + post && 'Y' !in pre + post
  }

  /** With such a template, periods of different calendar units get
      different file names. */
  lemma SummaryFilesDistinct(g: Granularity, t: string, p: Period, q: Period)
    requires WellFormedTemplate(g, t)
    requires p.year != q.year || (g == ByMonth && p.month != q.month)
    ensures SummaryFilename(t, g, p.year, p.month) != SummaryFilename(t, g, q.year, q.month)
  {
    match g
    case ByMonth =>
      var pre, mid, post :| ToDateFilename(t) == pre + "YYYY" + mid + "MM" + post
        && 'Y' !in pre + mid + post && 'M' !in pre + mid + post;
      MonthFilesDistinct(t, pre, mid, post, p, q);
    case ByYear =>
      var pre, post :| ToDateFilename(t) == pre + "YYYY" + post && 'Y' !in pre + post;
      YearFilesDistinct(t, pre, post, p, q);
  }

  /** ... and so different paths. */
  lemma SummaryPathsDistinct(job: Job, p: Period, q: Period)
    requires WellFormedTemplate(job.g, job.prep.template)
    requires p.year != q.year || (job.g == ByMonth && p.month != q.month)
    ensures SummaryPath(job, p) != SummaryPath(job, q)
  {
    var t := job.prep.template;
    var n1, n2 := SummaryFilename(t, job.g, p.year, p.month), SummaryFilename(t, job.g, q.year, q.month);
    SummaryFilesDistinct(job.g, t, p, q);
    FilenamesNoSlash(t, job.g, p.year, p.month);
    FilenamesNoSlash(t, job.g, q.year, q.month);
    assert SummaryPath(job, p) == Join(job.prep.destDir, n1);
    assert SummaryPath(job, q) == Join(job.prep.destDir, n2);
    if Join(job.prep.destDir, n1) == Join(job.prep.destDir, n2) {
      JoinInjective(job.prep.destDir, n1, n2);
    }
  }

  /** Distinct periods are written to distinct paths, which is what the
      regeneration lemmas below assume. */
  lemma PlanPathsDistinct(job: Job, ps: seq<Period>, render: Renderer)
    requires WellFormedTemplate(job.g, job.prep.template)
    requires DistinctPeriods(job.g, ps)
    ensures DistinctPaths(Plan(job, ps, render))
  {
    var plan := Plan(job, ps, render);
    forall i, j | 0 <= i < j < |plan| ensures plan[i].path != plan[j].path {
      var p, q := ps[i], ps[j];
      assert p.year != q.year || (job.g == ByMonth && p.month != q.month);
      SummaryPathsDistinct(job, p, q);
      assert plan[i] == PlannedWrite(job, p, render) && plan[j] == PlannedWrite(job, q, render);
    }
  }

  /** A file the plan does not write is left as it was. */
  lemma {:induction false} RunPlanFrame(files: map<string, string>, dirs: set<string>, plan: seq<Write>, q: string)
    requires forall i :: 0 <= i < |plan| ==> plan[i].path != q
    ensures SameEntry(files, RunPlan(files, dirs, plan).files, q)
    decreases |plan|
  {
    if plan != [] {
      var init := plan[..|plan| - 1];
      assert forall i :: 0 <= i < |init| ==> init[i] == plan[i];
      RunPlanFrame(files, dirs, init, q);
    }
  }

  /** After the run every planned file exists, and no file has gone. */
  lemma {:induction false} RunPlanCovers(files: map<string, string>, dirs: set<string>, plan: seq<Write>)
    ensures files.Keys <= RunPlan(files, dirs, plan).files.Keys
    ensures forall i :: 0 <= i < |plan| ==> Exists(RunPlan(files, dirs, plan).files, dirs, plan[i].path)
    decreases |plan|
  {
    if plan != [] {
      var init := plan[..|plan| - 1];
      RunPlanCovers(files, dirs, init);
      assert forall i :: 0 <= i < |init| ==> init[i] == plan[i];
    }
  }

  /** The regeneration rule, for writes to distinct files: file i is
      rendered afresh when it was missing or its period holds stop_ts, and
      is otherwise left exactly as it was. */
  lemma {:induction false} RebuildRule(files: map<string, string>, dirs: set<string>, plan: seq<Write>, i: nat)
    requires DistinctPaths(plan) && i < |plan|
    ensures var b := RunPlan(files, dirs, plan);
      if MustRebuild(files, dirs, plan[i])
      then plan[i].path in b.files && b.files[plan[i].path] == plan[i].content
      else SameEntry(files, b.files, plan[i].path)
    decreases |plan|
  {
    var n := |plan| - 1;
    var init := plan[..n];
    assert forall k :: 0 <= k < n ==> init[k] == plan[k];
    if i == n {
      RunPlanFrame(files, dirs, init, plan[i].path);
    } else {
      RebuildRule(files, dirs, init, i);
    }
  }

  /** The regeneration rule for one subreport's periods: the file of period
      i is rendered afresh when it did not exist or the period holds
      stop_ts, and is otherwise left exactly as it was. */
  lemma PeriodRebuildRule(files: map<string, string>, dirs: set<string>, job: Job, ps: seq<Period>,
                          render: Renderer, i: nat)
    requires WellFormedTemplate(job.g, job.prep.template) && DistinctPeriods(job.g, ps)
    requires i < |ps|
    ensures var b := RunPlan(files, dirs, Plan(job, ps, render));
      var path := SummaryPath(job, ps[i]);
      if !Exists(files, dirs, path) || ps[i].includesStop
      then path in b.files && b.files[path] == SummaryContent(job, ps[i], render)
      else SameEntry(files, b.files, path)
  {
    var plan := Plan(job, ps, render);
    PlanPathsDistinct(job, ps, render);
    RebuildRule(files, dirs, plan, i);
    assert plan[i] == PlannedWrite(job, ps[i], render);
  }

  /** How many writes the regeneration rule selects, judged on the files
      before the run. */
  function CountRebuilds(files: map<string, string>, dirs: set<string>, plan: seq<Write>): (n: nat)
    ensures n <= |plan|
  {
    if plan == [] then 0
    else CountRebuilds(files, dirs, plan[..|plan| - 1]) + (if MustRebuild(files, dirs, plan[|plan| - 1]) then 1 else 0)
  }

  /** How many writes belong to periods holding stop_ts. */
  function StopCount(plan: seq<Write>): (n: nat)
    ensures n <= |plan|
  {
    if plan == [] then 0 else StopCount(plan[..|plan| - 1]) + (if plan[|plan| - 1].includesStop then 1 else 0)
  }

  /** With distinct files, ngen is the number of writes the rule selects on
      the files as they were before the run. */
  lemma {:induction false} RebuildCount(files: map<string, string>, dirs: set<string>, plan: seq<Write>)
    requires DistinctPaths(plan)
    ensures RunPlan(files, dirs, plan).ngen == CountRebuilds(files, dirs, plan)
    decreases |plan|
  {
    if plan != [] {
      var n := |plan| - 1;
      var init := plan[..n];
      assert forall k :: 0 <= k < n ==> init[k] == plan[k];
      RebuildCount(files, dirs, init);
      RunPlanFrame(files, dirs, init, plan[n].path);
    }
  }

  /** When every file already exists only the periods holding stop_ts are
      selected. */
  lemma {:induction false} CountWhenAllExist(files: map<string, string>, dirs: set<string>, plan: seq<Write>)
    requires forall i :: 0 <= i < |plan| ==> Exists(files, dirs, plan[i].path)
    ensures CountRebuilds(files, dirs, plan) == StopCount(plan)
    decreases |plan|
  {
    if plan != [] {
      var init := plan[..|plan| - 1];
      assert forall k :: 0 <= k < |init| ==> init[k] == plan[k];
      CountWhenAllExist(files, dirs, init);
    }
  }

  /** When no file exists yet every write is selected. */
  lemma {:induction false} CountWhenNoneExist(files: map<string, string>, dirs: set<string>, plan: seq<Write>)
    requires forall i :: 0 <= i < |plan| ==> !Exists(files, dirs, plan[i].path)
    ensures CountRebuilds(files, dirs, plan) == |plan|
    decreases |plan|
  {
    if plan != [] {
      var init := plan[..|plan| - 1];
      assert forall k :: 0 <= k < |init| ==> init[k] == plan[k];
      CountWhenNoneExist(files, dirs, init);
    }
  }

  /** A first run into an empty destination writes every period. */
  lemma FreshRunWritesAll(files: map<string, string>, dirs: set<string>, plan: seq<Write>)
    requires DistinctPaths(plan)
    requires forall i :: 0 <= i < |plan| ==> !Exists(files, dirs, plan[i].path)
    ensures RunPlan(files, dirs, plan).ngen == |plan|
  {
    RebuildCount(files, dirs, plan);
    CountWhenNoneExist(files, dirs, plan);
  }

  /** The writes of the periods holding stop_ts, applied in order: what a
      run does when every planned file already exists. */
  function ApplyStops(files: map<string, string>, plan: seq<Write>): (r: map<string, string>)
    ensures files.Keys <= r.Keys
    decreases |plan|
  {
    if plan == [] then files
    else
      var g := ApplyStops(files, plan[..|plan| - 1]);
      var w := plan[|plan| - 1];
      if w.includesStop then g[w.path := w.content] else g
  }

  /** When every planned file exists, a run renders exactly the periods
      holding stop_ts. */
  lemma {:induction false} RunWhenAllExist(files: map<string, string>, dirs: set<string>, plan: seq<Write>)
    requires forall i :: 0 <= i < |plan| ==> Exists(files, dirs, plan[i].path)
    ensures RunPlan(files, dirs, plan) == Batch(ApplyStops(files, plan), StopCount(plan))
    decreases |plan|
  {
    if plan != [] {
      var init := plan[..|plan| - 1];
      assert forall i :: 0 <= i < |init| ==> init[i] == plan[i];
      RunWhenAllExist(files, dirs, init);
    }
  }

  /** An entry set before the stop writes is forgotten once it is set again
      after them. */
  lemma {:induction false} ApplyStopsOverwritten(g: map<string, string>, plan: seq<Write>, p: string, c: string)
    ensures ApplyStops(g[p := c], plan)[p := c] == ApplyStops(g, plan)[p := c]
    decreases |plan|
  {
    if plan != [] {
      var init := plan[..|plan| - 1];
      var w := plan[|plan| - 1];
      ApplyStopsOverwritten(g, init, p, c);
      var x, y := ApplyStops(g[p := c], init), ApplyStops(g, init);
      if w.includesStop && w.path != p {
        assert x[w.path := w.content][p := c] == x[p := c][w.path := w.content];
        assert y[w.path := w.content][p := c] == y[p := c][w.path := w.content];
      } else if w.includesStop {
        assert x[w.path := w.content][p := c] == x[p := c];
        assert y[w.path := w.content][p := c] == y[p := c];
      }
    }
  }

  /** An entry no write of the plan touches commutes with the stop writes. */
  lemma {:induction false} ApplyStopsElsewhere(g: map<string, string>, plan: seq<Write>, p: string, c: string)
    requires forall i :: 0 <= i < |plan| ==> plan[i].path != p
    ensures ApplyStops(g[p := c], plan) == ApplyStops(g, plan)[p := c]
    decreases |plan|
  {
    if plan != [] {
      var init := plan[..|plan| - 1];
      var w := plan[|plan| - 1];
      assert forall i :: 0 <= i < |init| ==> init[i] == plan[i];
      ApplyStopsElsewhere(g, init, p, c);
      var y := ApplyStops(g, init);
      if w.includesStop {
        assert y[p := c][w.path := w.content] == y[w.path := w.content][p := c];
      }
    }
  }

  /** The files a run leaves already hold what its stop writes would put
      there. */
  lemma {:induction false} StopsSettled(files: map<string, string>, dirs: set<string>, plan: seq<Write>)
    ensures ApplyStops(RunPlan(files, dirs, plan).files, plan) == RunPlan(files, dirs, plan).files
    decreases |plan|
  {
    if plan != [] {
      var init := plan[..|plan| - 1];
      var w := plan[|plan| - 1];
      var b := RunPlan(files, dirs, init).files;
      StopsSettled(files, dirs, init);
      if MustRebuild(b, dirs, w) {
        if w.includesStop {
          ApplyStopsOverwritten(b, init, w.path, w.content);
        } else {
          RunPlanCovers(files, dirs, init);
          forall i | 0 <= i < |init| ensures init[i].path != w.path {
            assert Exists(b, dirs, init[i].path);
          }
          ApplyStopsElsewhere(b, init, w.path, w.content);
        }
      }
    }
  }

  /** Running a subreport's periods again leaves every file as the first run left
      it, and renders only the periods that hold stop_ts. */
  lemma RerunChangesNothing(files: map<string, string>, dirs: set<string>, plan: seq<Write>)
    ensures var first := RunPlan(files, dirs, plan);
      var second := RunPlan(first.files, dirs, plan);
      second.files == first.files && second.ngen == StopCount(plan)
  {
    var first := RunPlan(files, dirs, plan);
    RunPlanCovers(files, dirs, plan);
    RunWhenAllExist(first.files, dirs, plan);
    StopsSettled(files, dirs, plan);
  }

  // ----- the to-date pass -----

  function ToDatePath(prep: Prepared): string
  {
    Join(prep.destDir, ToDateFilename(prep.template))
  }

  /** What one to-date subreport does: make its destination directory,
      then write its file. */
  datatype Output = Output(destDir: string, path: string, content: string)

  function ToDateOutput(site: Site, cfg: SubreportConfig, searchList: SearchList, render: Renderer): Output
  {
    var prep := Prepare(site, cfg);
    Output(prep.destDir, ToDatePath(prep), RenderedText(prep.template, searchList, prep.encoding, render))
  }

  /** The outputs of the to-date subreports, in order; all of them share the
      one search list. */
  function ToDatePlan(site: Site, subs: seq<SubreportConfig>, searchList: SearchList, render: Renderer): (outs: seq<Output>)
    ensures |outs| == |subs|
    ensures forall i {:trigger outs[i]} :: 0 <= i < |subs| ==> outs[i] == ToDateOutput(site, subs[i], searchList, render)
  {
    seq(|subs|, i requires 0 <= i < |subs| => ToDateOutput(site, subs[i], searchList, render))
  }

  /** generateToDate's loop: every output is written, whether or not its
      file exists. */
  function WriteOutputs(disk: Disk, outs: seq<Output>): Disk
    decreases |outs|
  {
    if outs == [] then disk
    else
      var d := WriteOutputs(disk, outs[..|outs| - 1]);
      var o := outs[|outs| - 1];
      Disk(d.files[o.path := o.content], MakeDirs(d.dirs, d.files, o.destDir))
  }

  /** One more output, as the loop takes it. */
  lemma WriteOutputsStep(disk: Disk, outs: seq<Output>, k: nat)
    requires k < |outs|
    ensures var d := WriteOutputs(disk, outs[..k]);
      WriteOutputs(disk, outs[..k + 1])
      == Disk(d.files[outs[k].path := outs[k].content], MakeDirs(d.dirs, d.files, outs[k].destDir))
  {
    assert outs[..k + 1][..k] == outs[..k];
  }

  /** An output no later output overwrites is on disk after the pass. */
  lemma {:induction false} LastWriteWins(disk: Disk, outs: seq<Output>, i: nat)
    requires i < |outs|
    requires forall j :: i < j < |outs| ==> outs[j].path != outs[i].path
    ensures var r := WriteOutputs(disk, outs);
      outs[i].path in r.files && r.files[outs[i].path] == outs[i].content
    decreases |outs|
  {
    var n := |outs| - 1;
    if i < n {
      var init := outs[..n];
      assert forall j :: i < j < n ==> init[j] == outs[j];
      LastWriteWins(disk, init, i);
    }
  }

  /** A file the pass does not write is left as it was. */
  lemma {:induction false} WriteOutputsFrame(disk: Disk, outs: seq<Output>, q: string)
    requires forall i :: 0 <= i < |outs| ==> outs[i].path != q
    ensures SameEntry(disk.files, WriteOutputs(disk, outs).files, q)
    decreases |outs|
  {
    if outs != [] {
      var init := outs[..|outs| - 1];
      assert forall i :: 0 <= i < |init| ==> init[i] == outs[i];
      WriteOutputsFrame(disk, init, q);
    }
  }

  /** Files and directories only accumulate, and every non-empty
      destination directory exists after the pass. */
  lemma {:induction false} WriteOutputsDirs(disk: Disk, outs: seq<Output>)
    ensures var r := WriteOutputs(disk, outs);
      disk.files.Keys <= r.files.Keys && disk.dirs <= r.dirs
      && forall i :: 0 <= i < |outs| && outs[i].destDir != "" ==> Exists(r.files, r.dirs, outs[i].destDir)
    decreases |outs|
  {
    if outs != [] {
      var init := outs[..|outs| - 1];
      assert forall i :: 0 <= i < |init| ==> init[i] == outs[i];
      WriteOutputsDirs(disk, init);
    }
  }
}
