# weewx genfiles, modelled in Dafny

weewx is a weather-station program. Its module `weewx/genfiles.py` turns the
skin's Cheetah templates into files: NOAA-style monthly and yearly summaries
("summary by" reports) and the HTML pages that show the weather "to date".
This project models that module and proves what it does.

- **GenFiles object** (`genfiles.dfy`, module `GenFiles`). A `class` with
  the fields the Python object updates:
  - `outputted`: the `outputted_dict` registry of period labels;
  - `almanacAt`: the time the almanac was initialised for;
  - a model of the disk, made of a map from file path to contents (`files`)
    and a set of directories (`dirs`).

  `generateSummaryBy`, `generateToDate` and `_prepGen` are methods with the
  source's own loops. Each method is proved to leave the object and the disk
  exactly as a specification function of module `Reports` says.
- **Pure part** (`reports.dfy`, module `Reports`):
  - output file names: the template's base name, then ".tmpl" removed, then
    "YYYY" replaced by `%4d` of the year, then "MM" replaced by `%02d` of the
    month;
  - navigation labels;
  - the search lists given to the template engine;
  - the regeneration rule: a period's file is rendered when it does not
    exist or when the period holds `stop_ts`;
  - the summary-by and to-date passes, written as functions over the disk;
  - lemmas about all of these: file names are distinct, files are rebuilt
    exactly when the rule says so, counts, a second run changes nothing, and
    later writes win.
- **String support**:
  - `format.dfy` (module `Format`): Python's `%d`, `%4d` and `%02d`, and
    parses that read each of them back;
  - `paths.dfy` (module `Paths`): `str.replace`, and `posixpath`'s
    `basename`, `dirname` and `join`.
- **Filters** (`filters.dfy`, module `Filters`): the three Cheetah output
  filters `html_entities`, `strict_ascii` and `utf8`, on a model of the
  values handed to them.

Things the module reads from elsewhere become inputs:
- the periods a span generator yields, each given as a start span, the local
  year and month of its start, and whether it includes `stop_ts`;
- the five to-date windows;
- the template engine, a function `Renderer` from template, search list and
  filter name to text.

The registry is reset when a summary-by pass starts, and the pass then
appends one label per subreport and period. The to-date search list holds the
registry as it stands when that pass runs.

Error behaviour:
- The code swallows every `OSError` from `os.makedirs`, not only "already
  exists". The model does the same (`MakeDirs`): no directory is recorded
  for an empty path or for a path that names an existing file, and the pass
  goes on.
- A per-period template error is not contained and logged: nothing in
  genfiles.py catches it. The model's renderer is total.
- A FileGenerator section missing from the skin makes the Python code raise
  `KeyError`. The model ends the pass with an outcome instead
  (`MissingSection`, `ToDateMissing`). For a summary-by pass this happens
  after the registry entry was reset, as in the code.

## Model

| member | source | states |
|---|---|---|
| Format.Decimal | weewx/genfiles.py:288 | "%d", as in the "&#%d;" references: at least one digit, with a leading '0' exactly for zero |
| Format.Int4 | weewx/genfiles.py:107 | "%4d" of the year is at least four characters, each a digit or a padding space, and is the plain decimal for years 1000 to 9999; its exact width is Int4Width's |
| Format.Int4Width | weewx/genfiles.py:107 | "%4d" of the year is exactly four characters below 1000 (digits after padding spaces) and the plain decimal from 1000 on, so no extra padding is ever added |
| Format.Zero2 | weewx/genfiles.py:110 | "%02d" of the month is all digits, at least two of them, and exactly two below 100 |
| Format.Int4RoundTrip | weewx/genfiles.py:107 | the padding of a "%4d" field is spaces only: skipping it leaves the plain decimal (no leading zero), which parses back to the year written |
| Format.Zero2RoundTrip | weewx/genfiles.py:110 | parsing a "%02d" field, leading zero included, gives back the month written |
| Format.Int4Injective | weewx/genfiles.py:107 | different years give different "%4d" fields |
| Format.Zero2Injective | weewx/genfiles.py:110 | different months give different "%02d" fields |
| Paths.Basename | weewx/genfiles.py:108 | os.path.basename is the slash-free tail of the path that follows its last '/' |
| Paths.Dirname | weewx/genfiles.py:269 | os.path.dirname is a prefix of the path that leaves room for the base name |
| Paths.DirnameOfJoin | weewx/genfiles.py:269 | the dirname of "<a>/<n>", for a slash-free n and an a not ending in '/', is a |
| Paths.DirnameOfName | weewx/genfiles.py:269 | a template path without '/' has the empty dirname |
| Paths.Join | weewx/genfiles.py:263-269 | os.path.join ends with its second part |
| Paths.JoinKeepsBasename | weewx/genfiles.py:263-266 | whatever is joined in front, the base name is that of the last part |
| Paths.JoinInjective | weewx/genfiles.py:118 | joining slash-free names to one directory gives equal paths only for equal names |
| Paths.ReplaceAll | weewx/genfiles.py:108 | str.replace with a non-empty pattern: non-overlapping occurrences, scanned from the left, are replaced; its lemmas follow |
| Paths.ReplaceAllAbsent | weewx/genfiles.py:108 | str.replace of a pattern that does not occur returns the string unchanged |
| Paths.ReplaceAllChars | weewx/genfiles.py:108 | every character str.replace outputs comes from the subject or from the replacement |
| Paths.ReplaceAllSuffix | weewx/genfiles.py:108 | a pattern occurring only as a suffix is the only text replaced |
| Filters.CharRef | weewx/genfiles.py:288 | the xmlcharrefreplace handler keeps an ASCII code point as its own byte (exactly then) and turns any other into an ASCII reference |
| Filters.XmlCharRefReplace | weewx/genfiles.py:288 | encoding to ASCII with xmlcharrefreplace yields ASCII bytes, at least one per code point |
| Filters.XmlCharRefReplaceAppend | weewx/genfiles.py:288 | the replacement works one code point at a time: it distributes over concatenation |
| Filters.DigitBytesRoundTrip | weewx/genfiles.py:288 | the decimal digits written in a character reference parse back to the code point |
| Filters.HtmlEntities | weewx/genfiles.py:285-295 | html_entities gives "" for None and str(val) for other objects, and for text gives ASCII bytes at least as long as the text |
| Filters.HtmlEntitiesKeepsAscii | weewx/genfiles.py:287-288 | ASCII text passes html_entities unchanged |
| Filters.HtmlEntitiesRoundTrip | weewx/genfiles.py:287-288 | text without a literal '&' is recovered exactly by reading the character references back |
| Filters.DropNonAscii | weewx/genfiles.py:302 | encoding to ASCII with the ignore handler yields ASCII bytes, no more than the code points |
| Filters.DropNonAsciiAppend | weewx/genfiles.py:302 | the ignore handler works one code point at a time: it distributes over concatenation |
| Filters.StrictAscii | weewx/genfiles.py:299-309 | strict_ascii gives "" for None and str(val) for other objects, and for text gives ASCII bytes no longer than the text |
| Filters.StrictAsciiKeepsAscii | weewx/genfiles.py:301-302 | ASCII text passes strict_ascii unchanged |
| Filters.StrictAsciiIdempotent | weewx/genfiles.py:301-302 | filtering strict_ascii's own output again changes nothing |
| Filters.StrictAsciiMembers | weewx/genfiles.py:301-302 | a code point is in the output exactly when it is an ASCII code point of the input |
| Filters.Utf8 | weewx/genfiles.py:314-322 | utf8 gives the encoder's bytes for text, "" for None and str(val) for other objects |
| Reports.ModeOf | weewx/genfiles.py:81-87 | only "SummaryByMonth" (months) and "SummaryByYear" (years) are recognised; every other name is skipped |
| Reports.TemplatePath | weewx/genfiles.py:263-266 | the template is WEEWX_ROOT, SKIN_ROOT, the skin and the template joined in that order |
| Reports.DestinationDir | weewx/genfiles.py:267-269 | the destination is WEEWX_ROOT, HTML_ROOT and the template's dirname joined in that order |
| Reports.Prepare | weewx/genfiles.py:262-270 | _prepGen's three results: template path, destination directory and encoding |
| Reports.PrepareKeepsBasename | weewx/genfiles.py:263-266 | the template path _prepGen builds has the base name of the configured template, whatever the roots |
| Reports.MakeDirs | weewx/genfiles.py:272-278 | makedirs with errors ignored: at most the destination is added; it exists afterwards exactly when it existed before or is non-empty and not a file |
| Reports.MakeDirsIdempotent | weewx/genfiles.py:272-278 | creating the destination directory twice is the same as creating it once |
| Reports.ToDateFilename | weewx/genfiles.py:171 | the to-date file name is the template's base name with every ".tmpl" removed; its lemmas follow |
| Reports.SummaryFilename | weewx/genfiles.py:107-111 | the summary file name replaces every "YYYY" by "%4d" of the year and, for months only, then every "MM" by "%02d" of the month; its lemmas follow |
| Reports.FilenamesNoSlash | weewx/genfiles.py:107-111 | output file names contain no '/', so they stay inside the destination directory |
| Reports.TemplateSuffixStripped | weewx/genfiles.py:171 | for a template "<name>.tmpl" with no other ".tmpl" in name, the to-date file is "<name>" |
| Reports.ExtensionStem | weewx/genfiles.py:171 | for "<dir>/<a>.<e>.tmpl" with no '.' in a or e and e not beginning with "tmpl", the file name is "<a>.<e>" |
| Reports.MonthFieldsFilled | weewx/genfiles.py:107-111 | a month template with one "YYYY", then one "MM", and no other 'Y' or 'M', gets the "%4d" year and the "%02d" month in those places |
| Reports.YearFieldFilled | weewx/genfiles.py:107-108 | a year template with one "YYYY" and no other 'Y' gets the "%4d" year in that place |
| Reports.July2021Fields | weewx/genfiles.py:107-110 | July 2021 gives the fields "2021" and "07" |
| Reports.NoaaStem | weewx/genfiles.py:108 | a template "NOAA/<stem>.txt.tmpl" with no '/' or '.' in the stem gives "<stem>.txt" |
| Reports.MonthlyNoaaFields | weewx/genfiles.py:107-111 | "NOAA-YYYY-MM.txt" becomes "NOAA-<year>-<month>.txt" |
| Reports.MonthlyNoaaFilename | weewx/genfiles.py:107-111 | the monthly NOAA template's file is "NOAA-<%4d year>-<%02d month>.txt" |
| Reports.YearlyNoaaFields | weewx/genfiles.py:107-108 | "NOAA-YYYY.txt" becomes "NOAA-<year>.txt" |
| Reports.YearlyNoaaFilename | weewx/genfiles.py:107-108 | the yearly NOAA template's file is "NOAA-<%4d year>.txt" |
| Reports.MonthTokenReplacedAnywhere | weewx/genfiles.py:108-111 | "MM" is replaced wherever it stands in a month file's name (so "SUMMARY" gives "SU07ARY" for July) and kept in a year file's name |
| Reports.PeriodLabel | weewx/genfiles.py:112-116 | the label of one period: "%4d-%02d" of year and month for months, "%4d" of the year for years |
| Reports.PeriodLabels | weewx/genfiles.py:112-116 | one label per period, in period order: "%4d-%02d" for months and "%4d" for years |
| Reports.PeriodLabelInjective | weewx/genfiles.py:112-116 | equal labels mean the same year and, for months, the same month |
| Reports.RepeatBlock | weewx/genfiles.py:89-116 | with k subreports the registry entry holds k * n labels, each block of n being the whole run of labels again |
| Reports.MonthAbbrev | weewx/genfiles.py:207 | the month name is three letters |
| Reports.SummarySearchList | weewx/genfiles.py:190-211 | one dictionary with station and year_name, plus the period's stats under "month" with month_name, or under "year", or neither for another interval |
| Reports.ToDateSearchList | weewx/genfiles.py:213-242 | station and almanac, then the registry (every interval and its labels), then the current record and the statistics of the day, week, month, year and rain-year windows, each under its own key |
| Reports.RenderedText | weewx/genfiles.py:126-135 | the text written for one rendering: the engine's output for the search list plus the encoding dictionary, filtered by the encoding's name, followed by the newline print adds |
| Reports.Exists | weewx/genfiles.py:122 | os.path.exists: the path is a file or a directory |
| Reports.MustRebuild | weewx/genfiles.py:120-122 | the regeneration rule: render when the file does not exist or the period holds stop_ts |
| Reports.Plan | weewx/genfiles.py:107-129 | each period of a subreport yields one write: its path, its rendered text and whether it holds stop_ts |
| Reports.RunPlan | weewx/genfiles.py:118-136 | a subreport's ngen never exceeds its number of periods |
| Reports.SummaryRun | weewx/genfiles.py:90-136 | a summary-by pass reports one count per subreport |
| Reports.MonthFilesDistinct | weewx/genfiles.py:107-111 | for a well-formed month template, different (year, month) pairs give different file names |
| Reports.YearFilesDistinct | weewx/genfiles.py:107-108 | for a well-formed year template, different years give different file names |
| Reports.SummaryFilesDistinct | weewx/genfiles.py:107-111 | either granularity: different calendar units give different file names |
| Reports.SummaryPathsDistinct | weewx/genfiles.py:118 | ... and different full paths |
| Reports.PlanPathsDistinct | weewx/genfiles.py:98-118 | the periods of one subreport are written to pairwise distinct paths |
| Reports.RunPlanFrame | weewx/genfiles.py:118-136 | a file no period writes is left as it was |
| Reports.RunPlanCovers | weewx/genfiles.py:118-136 | after a run every planned file exists and no file has gone |
| Reports.RebuildRule | weewx/genfiles.py:120-136 | for distinct paths, a file is rendered afresh when it was missing or its period holds stop_ts, and is otherwise left as it was |
| Reports.PeriodRebuildRule | weewx/genfiles.py:118-136 | the same for a subreport's periods: the period's file holds its summary exactly when missing or holding stop_ts, and otherwise is untouched |
| Reports.RebuildCount | weewx/genfiles.py:122-136 | for writes to distinct paths, ngen is the number of periods the rule selects on the files as they were before the run |
| Reports.CountWhenAllExist | weewx/genfiles.py:122 | when every file exists, only the periods holding stop_ts are selected |
| Reports.CountWhenNoneExist | weewx/genfiles.py:122 | when no file exists, every period is selected |
| Reports.FreshRunWritesAll | weewx/genfiles.py:120-136 | for writes to distinct paths, a first run into an empty destination writes every period |
| Reports.ApplyStops | weewx/genfiles.py:120-136 | the writes of the periods holding stop_ts applied in order, no file removed |
| Reports.RunWhenAllExist | weewx/genfiles.py:120-136 | when every planned file exists, a run applies exactly the stop_ts periods' writes and counts them |
| Reports.StopsSettled | weewx/genfiles.py:120-136 | the files a run leaves already hold what the stop_ts periods' writes would put there |
| Reports.RerunChangesNothing | weewx/genfiles.py:120-136 | running a subreport's periods again leaves every file as the first run left it, and renders only the periods holding stop_ts |
| Reports.ToDatePlan | weewx/genfiles.py:166-185 | one output per ToDate subreport, in order, all rendered with the one search list |
| Reports.WriteOutputs | weewx/genfiles.py:166-185 | the to-date loop as a fold: per subreport, makedirs, then an unconditional write of its file |
| Reports.LastWriteWins | weewx/genfiles.py:183-184 | a to-date file that no later subreport overwrites holds its rendered text after the pass |
| Reports.WriteOutputsFrame | weewx/genfiles.py:166-185 | a file the to-date pass does not write is left as it was |
| Reports.WriteOutputsDirs | weewx/genfiles.py:166-185 | files and directories only accumulate, and every non-empty destination exists after the to-date pass |
| GenFiles.GenFiles.constructor | weewx/genfiles.py:35-48 | a new object starts with an empty outputted_dict and no almanac |
| GenFiles.GenFiles.PrepGen | weewx/genfiles.py:260-280 | _prepGen returns the template path, destination and encoding, and creates the destination directory with errors ignored |
| GenFiles.GenFiles.GenerateSummaryBy | weewx/genfiles.py:69-140 | unrecognised interval: nothing changes; missing section: only the registry entry is reset; otherwise the disk and counts are those of SummaryRun, and the entry holds the labels once per subreport |
| GenFiles.GenFiles.GenerateRecognized | weewx/genfiles.py:89-140 | reset the entry, then run every subreport of the section; same outcome as above |
| GenFiles.GenFiles.RunSubreports | weewx/genfiles.py:90-140 | the subreport loop agrees with SummaryRun and appends the labels once per subreport |
| GenFiles.GenFiles.RunSubreport | weewx/genfiles.py:90-136 | one subreport creates its destination, then runs its periods as RunPlan does |
| GenFiles.GenFiles.RunPeriods | weewx/genfiles.py:98-136 | the period loop leaves the files and ngen of RunPlan and appends the period labels in order |
| GenFiles.GenFiles.VisitPeriod | weewx/genfiles.py:100-136 | one period appends its label, and writes its file exactly when the file is missing or the period holds stop_ts |
| GenFiles.GenFiles.GenerateToDate | weewx/genfiles.py:142-188 | the almanac is set to stop_ts and the registry is kept; missing section: the disk is unchanged; otherwise every subreport is written and counted |
| GenFiles.GenFiles.WriteToDate | weewx/genfiles.py:166-185 | the subreport loop leaves the disk of WriteOutputs and counts every subreport |
| GenFiles.GenFiles.WriteToDateOne | weewx/genfiles.py:168-185 | one subreport creates its destination and writes its file, existing or not |

## Left out

- The Cheetah template engine is the parameter `Renderer`. Render errors are not modelled. The output filter named by `encoding` is passed to it by name; the filters of module `Filters` are not wired into it.
- The Station, statistics database, unit dictionaries, Formatter, ModelFormatter and Almanac objects (genfiles.py:50-67, 158-160, 236, 244-258) are not built. The search lists record what they would be built from: `StationInfo`, `Stats(span)`, `AlmanacAt(ts)`. The third to-date layer holds the raw windows instead of a formatter view.
- `weeutil` span generators and `accumulateLeaves` are not part of this model. Periods, to-date windows and accumulated subreport options are inputs.
- `time.localtime` and `strftime` are not modelled. The year and month of a period's start are given. Month names are those of the C locale.
- `time.time`, elapsed times and `syslog` messages are left out, since they do not affect files or state.
- Writes with `open` never fail in the model. A path naming a directory or a missing parent is not an error. Unclosed files are irrelevant here.
- MakeDirs: records only the destination itself, not the intermediate directories `os.makedirs` also creates, and does not model a parent that is a file.
- Filters.HtmlEntities: a Python byte string is taken as the text it decodes to. An invalid UTF-8 byte string (a `UnicodeDecodeError`) is not modelled. For objects other than text or None, only the bytes of `str(val)` are kept.
- Filters.Utf8: the UTF-8 encoder is a library codec and is passed in as a parameter.
- Reports.PeriodRebuildRule: distinct paths, which the rule relies on, are proved only for templates accepted by `WellFormedTemplate` and for periods of distinct calendar units. For months that predicate asks that the name, once ".tmpl" is removed, is `pre + "YYYY" + mid + "MM" + post` with no other 'Y' and no other 'M' anywhere in pre, mid and post. For years it asks for `pre + "YYYY" + post` with no other 'Y'. Names such as "Monthly-YYYY-MM.html", "MM-YYYY.txt" or "YEARLY-YYYY.txt" are therefore not covered, although their files never collide. `RunPlan` still models such templates exactly, and `RerunChangesNothing` holds for every plan; only the per-period rule is not claimed for them. The same condition stands on `PlanPathsDistinct`, `SummaryPathsDistinct` and `SummaryFilesDistinct`.
- Years are unbounded naturals. `%4d` of a year with more than four digits is just its digits, as in Python; `Format.Int4Width` states this.
