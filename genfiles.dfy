/** The GenFiles object: the registry of summary labels it keeps between
    passes (outputted_dict), and its two entry points, generateSummaryBy and
    generateToDate, run step by step over a model of the disk. Each method is
    proved to leave the object and the disk as the functions of module Reports
    describe. */
module GenFiles {
  import opened Format
  import opened Paths
  import opened Reports

  /** How a summary-by pass ends: the interval name is not recognised (the
      pass is skipped), the skin has no FileGenerator section of that name
      (a KeyError, raised after the registry entry was reset), or the number
      of files generated for each subreport. */
  datatype SummaryOutcome = Unrecognized | MissingSection | Generated(counts: seq<nat>)

  /** How a to-date pass ends: no ToDate section (a KeyError), or the number
      of files generated. */
  datatype ToDateOutcome = ToDateMissing | ToDateGenerated(ngen: nat)

  class GenFiles {
    /** From config_dict: WEEWX_ROOT and SKIN_ROOT. */
    const site: Site
    /** From skin_dict: the subreports of each FileGenerator section, in
        order, with their options accumulated. */
    const fileGenerator: map<string, seq<SubreportConfig>>
    /** outputted_dict: for each summary interval run so far, the labels of
        the periods it went through. */
    var outputted: map<string, seq<string>>
    /** The timestamp the almanac was last initialised for. */
    var almanacAt: Option<int>
    /** The disk: file contents by path, and the existing directories. */
    var files: map<string, string>
    var dirs: set<string>

    constructor (site: Site, fileGenerator: map<string, seq<SubreportConfig>>,
                 files: map<string, string>, dirs: set<string>)
      ensures this.site == site && this.fileGenerator == fileGenerator
      ensures this.files == files && this.dirs == dirs
      ensures outputted == map[] && almanacAt == None
    {
      this.site := site;
      this.fileGenerator := fileGenerator;
      this.files := files;
      this.dirs := dirs;
      outputted := map[];
      almanacAt := None;
    }

    /** _prepGen: the template path, the destination directory (created,
        every error ignored) and the encoding of one subreport. */
    method PrepGen(cfg: SubreportConfig) returns (prep: Prepared)
      modifies this`dirs
      ensures prep == Prepare(site, cfg)
      ensures dirs == MakeDirs(old(dirs), files, prep.destDir)
    {
      prep := Prepared(TemplatePath(site, cfg), DestinationDir(site, cfg), cfg.encoding);
      if prep.destDir != "" && prep.destDir !in files {
        dirs := dirs + {prep.destDir};
      }
    }

    /** generateSummaryBy: for each subreport of the interval's section and
        each period, record the period's label, and render the period's
        file when it is missing or the period holds stop_ts. */
    method GenerateSummaryBy(byTime: string, periods: seq<Period>, render: Renderer) returns (outcome: SummaryOutcome)
      modifies this
      ensures almanacAt == old(almanacAt)
      ensures ModeOf(byTime).None? ==>
        outcome == Unrecognized && outputted == old(outputted) && files == old(files) && dirs == old(dirs)
      ensures ModeOf(byTime).Some? && byTime !in fileGenerator ==>
        outcome == MissingSection && outputted == old(outputted)[byTime := []]
        && files == old(files) && dirs == old(dirs)
      ensures ModeOf(byTime).Some? && byTime in fileGenerator ==>
        var g, subs := ModeOf(byTime).value, fileGenerator[byTime];
        var r := SummaryRun(Disk(old(files), old(dirs)), site, byTime, g, subs, periods, render);
        && outcome == Generated(r.counts)
        && files == r.disk.files && dirs == r.disk.dirs
        && outputted == old(outputted)[byTime := Repeat(PeriodLabels(g, periods), |subs|)]
    {
      var mode := ModeOf(byTime);
      if mode.None? {
        return Unrecognized;
      }
      outcome := GenerateRecognized(byTime, mode.value, periods, render);
    }

    /** generateSummaryBy once the interval name is recognised: reset the
        interval's registry entry, then run every subreport of its section. */
    method GenerateRecognized(byTime: string, g: Granularity, periods: seq<Period>, render: Renderer)
      returns (outcome: SummaryOutcome)
      modifies this`outputted, this`files, this`dirs
      ensures byTime !in fileGenerator ==>
        outcome == MissingSection && outputted == old(outputted)[byTime := []]
        && files == old(files) && dirs == old(dirs)
      ensures byTime in fileGenerator ==>
        var subs := fileGenerator[byTime];
        var r := SummaryRun(Disk(old(files), old(dirs)), site, byTime, g, subs, periods, render);
        && outcome == Generated(r.counts)
        && files == r.disk.files && dirs == r.disk.dirs
        && outputted == old(outputted)[byTime := Repeat(PeriodLabels(g, periods), |subs|)]
    {
      outputted := outputted[byTime := []];
      if byTime !in fileGenerator {
        return MissingSection;
      }
      var subs := fileGenerator[byTime];
      var counts := RunSubreports(byTime, g, subs, periods, render);
      ResetThenAppend(old(outputted), byTime, Repeat(PeriodLabels(g, periods), |subs|));
      outcome := Generated(counts);
    }

    /** The loop over the subreports of one summary interval: each one's
        destination directory is created and its periods are run. */
    method RunSubreports(byTime: string, g: Granularity, subs: seq<SubreportConfig>, periods: seq<Period>, render: Renderer)
      returns (counts: seq<nat>)
      requires byTime in outputted
      modifies this`files, this`dirs, this`outputted
      ensures SummaryRun(Disk(old(files), old(dirs)), site, byTime, g, subs, periods, render)
        == SummaryResult(Disk(files, dirs), counts)
      ensures outputted == old(outputted)[byTime := old(outputted)[byTime] + Repeat(PeriodLabels(g, periods), |subs|)]
    {
      ghost var labels := PeriodLabels(g, periods);
      ghost var disk0 := Disk(files, dirs);
      ghost var registry0 := old(outputted);
      ghost var base := outputted[byTime];
      counts := [];
      assert base + Repeat(labels, 0) == base;
      for k := 0 to |subs|
        invariant outputted == registry0[byTime := base + Repeat(labels, k)]
        invariant SummaryRun(disk0, site, byTime, g, subs[..k], periods, render) == SummaryResult(Disk(files, dirs), counts)
      {
        var ngen := RunSubreport(byTime, g, subs[k], periods, render);
        RepeatStep(registry0, byTime, base, labels, k);
        SummaryRunStep(disk0, site, byTime, g, subs, k, periods, render);
        counts := counts + [ngen];
      }
      assert subs[..|subs|] == subs;
    }

    /** One subreport of a summary-by pass: _prepGen, then its periods. */
    method RunSubreport(byTime: string, g: Granularity, cfg: SubreportConfig, periods: seq<Period>, render: Renderer)
      returns (ngen: nat)
      requires byTime in outputted
      modifies this`files, this`dirs, this`outputted
      ensures var prep := Prepare(site, cfg);
        var dirs' := MakeDirs(old(dirs), old(files), prep.destDir);
        var b := RunPlan(old(files), dirs', Plan(Job(byTime, g, prep), periods, render));
        dirs == dirs' && files == b.files && ngen == b.ngen
      ensures outputted == old(outputted)[byTime := old(outputted)[byTime] + PeriodLabels(g, periods)]
    {
      ghost var registry0, files0 := outputted, files;
      var prep := PrepGen(cfg);
      assert outputted == registry0 && files == files0;
      ngen := RunPeriods(byTime, g, prep, periods, render);
    }

    /** The loop over the periods of one subreport: each period in turn. */
    method RunPeriods(byTime: string, g: Granularity, prep: Prepared, periods: seq<Period>, render: Renderer)
      returns (ngen: nat)
      requires byTime in outputted
      modifies this`files, this`outputted
      ensures Batch(files, ngen) == RunPlan(old(files), dirs, Plan(Job(byTime, g, prep), periods, render))
      ensures outputted == old(outputted)[byTime := old(outputted)[byTime] + PeriodLabels(g, periods)]
    {
      var job := Job(byTime, g, prep);
      ghost var plan := Plan(job, periods, render);
      ghost var labels := PeriodLabels(g, periods);
      ghost var files0 := files;
      ghost var base := outputted[byTime];
      ngen := 0;
      assert base + labels[..0] == base;
      assert outputted == old(outputted)[byTime := base];
      for j := 0 to |periods|
        invariant outputted == old(outputted)[byTime := base + labels[..j]]
        invariant RunPlan(files0, dirs, plan[..j]) == Batch(files, ngen)
      {
        AppendPrefix(old(outputted), byTime, base, labels, j);
        ghost var before := files;
        var wrote := VisitPeriod(job, periods[j], render);
        VisitStep(files0, dirs, plan, j, before, ngen, wrote, files);
        if wrote {
          ngen := ngen + 1;
        }
      }
      assert plan[..|periods|] == plan && labels[..|periods|] == labels;
    }

    /** One period of one subreport: append its label to the registry entry
        and render its file when the file is missing or the period holds
        stop_ts. */
    method VisitPeriod(job: Job, p: Period, render: Renderer) returns (wrote: bool)
      requires job.byTime in outputted
      modifies this`files, this`outputted
      ensures outputted == old(outputted)[job.byTime := old(outputted)[job.byTime] + [PeriodLabel(job.g, p)]]
      ensures var w := PlannedWrite(job, p, render);
        wrote == MustRebuild(old(files), dirs, w)
        && files == if wrote then old(files)[w.path := w.content] else old(files)
    {
      var entry := PeriodLabel(job.g, p);
      outputted := outputted[job.byTime := outputted[job.byTime] + [entry]];
      var fullPath := SummaryPath(job, p);
      wrote := !(fullPath in files || fullPath in dirs) || p.includesStop;
      if wrote {
        files := files[fullPath := SummaryContent(job, p, render)];
      }
    }

    /** generateToDate: initialise the almanac, build one search list from
        the current record, the five windows and the registry, then render
        every ToDate subreport and write its file unconditionally. */
    method GenerateToDate(current: map<string, Option<real>>, spans: ToDateSpans, stopTs: int, render: Renderer)
      returns (outcome: ToDateOutcome)
      modifies this
      ensures almanacAt == Some(stopTs) && outputted == old(outputted)
      ensures ToDate !in fileGenerator ==> outcome == ToDateMissing && files == old(files) && dirs == old(dirs)
      ensures ToDate in fileGenerator ==>
        var subs := fileGenerator[ToDate];
        var searchList := ToDateSearchList(current, spans, stopTs, old(outputted));
        var r := WriteOutputs(Disk(old(files), old(dirs)), ToDatePlan(site, subs, searchList, render));
        outcome == ToDateGenerated(|subs|) && files == r.files && dirs == r.dirs
    {
      almanacAt := Some(stopTs);
      var searchList := ToDateSearchList(current, spans, stopTs, outputted);
      if ToDate !in fileGenerator {
        return ToDateMissing;
      }
      var subs := fileGenerator[ToDate];
      var ngen := WriteToDate(subs, searchList, render);
      return ToDateGenerated(ngen);
    }

    /** The loop over the ToDate subreports: each is rendered with the one
        search list and its file written. */
    method WriteToDate(subs: seq<SubreportConfig>, searchList: SearchList, render: Renderer) returns (ngen: nat)
      modifies this`files, this`dirs
      ensures Disk(files, dirs) == WriteOutputs(Disk(old(files), old(dirs)), ToDatePlan(site, subs, searchList, render))
      ensures ngen == |subs|
    {
      ghost var outs := ToDatePlan(site, subs, searchList, render);
      ghost var disk0 := Disk(files, dirs);
      ngen := 0;
      for k := 0 to |subs|
        invariant WriteOutputs(disk0, outs[..k]) == Disk(files, dirs)
        invariant ngen == k
      {
        WriteOutputsStep(disk0, outs, k);
        WriteToDateOne(subs[k], searchList, render);
        ngen := ngen + 1;
      }
      assert outs[..|subs|] == outs;
    }

    /** One ToDate subreport: _prepGen, then render and write its file. */
    method WriteToDateOne(cfg: SubreportConfig, searchList: SearchList, render: Renderer)
      modifies this`files, this`dirs
      ensures var o := ToDateOutput(site, cfg, searchList, render);
        files == old(files)[o.path := o.content] && dirs == MakeDirs(old(dirs), old(files), o.destDir)
    {
      var prep := PrepGen(cfg);
      files := files[ToDatePath(prep) := RenderedText(prep.template, searchList, prep.encoding, render)];
    }
  }
}
