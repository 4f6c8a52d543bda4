# CRS Reports Archive site build, modelled in Dafny

`build.py` generates the static CRS Reports Archive website from the report metadata. It
loads every report with its versions. Each version has a date, the `(topic_id, topic_name)`
pairs it carries and its list of document formats. The program then:

- indexes the reports by topic. There is one group per topic id. A group is titled with the
  topic's most recent name and lists every report that ever carried the topic. The groups
  are sorted by title.
- writes one page per topic, named `build/topics/<id>.html`.
- queues one page per report. Each report writes `build/reports/<number>.html` and a
  metadata file `build/reports/<number>.json`. The page shows the HTML body taken from
  the newest version.

The `ONLY` environment variable is a debugging switch. When it is set and non-empty, only
the report with that number is generated and no topic page is.

The model follows the program's own structure:

| file | module | what it holds |
|---|---|---|
| `reports.dfy` | `Reports` | reports, versions, topics and formats as values; the scan order of the topic pairs (`Taggings`) and the topic ids a report carries |
| `str_order.dfy` | `StrOrder` | Python's `<` on strings, by code point, as a strict total order |
| `topic_index.dfy` | `TopicIndex` | `index_by_topic` as an imperative method |
| `report_page.dfy` | `ReportPage` | the number check, the choice of HTML body and the two output names of `generate_report_page` |
| `int_format.dfy` | `IntFormat` | the `intcomma` filter (`format(x, ",d")`) and `"%d"` |
| `paths.dfy` | `Paths` | POSIX `os.path.join` and the build directory |
| `build.dfy` | `Build` | the main program: the `ONLY` filter, the topic pages, and the report pages the worker pool produces |

`index_by_topic` works by imperative accumulation. It keeps a name dictionary, a
dictionary of report lists and a per-report set of ids, across three nested loops. The
model keeps that form: `Accumulate`, `ScanReport`, `ScanVersion` and `AppendToTopics` are
loops over Dafny maps, sets and sequences. Each is proved against functional
specifications:

- `LatestNames` and `FirstAppearance` give the name dictionary and its insertion order;
- `ReportsTagging` gives each group's list;
- `SortByTitle` is the stable `sorted`, written as an insertion sort.

The predicates `OneGroupPerTopic`, `GroupsListReports`, `GroupsTitledLatest` and
`GroupsSorted` state what the result promises.

Dates are integers, since only their order matters. Topic ids are integers. File contents
are not modelled: a page is described by the files it writes and by the path of the HTML
body it shows.

Three behaviours of the code are easy to misread, and the model keeps each as written:

- **Title ties.** On equal dates the title is the name scanned *first*. The update test at
  `build.py:51` is a strict `<`, so a later tagging with the same date does not replace it.
- **Which HTML entry.** The body comes from the *last* `HTML` entry of the newest version.
  The loop at `build.py:164-167` has no `break`, so each later entry overwrites the body.
- **Failed report pages.** A report whose number fails the check or that has no versions
  does not abort the build. `pool.apply_async` at `build.py:219` is never asked for its
  result, so the worker's exception is dropped and the other pages are still written.
  `Build.GenerateQueued` models this.

The main program does stop, before any topic or report page, when the context of the
static pages cannot be built: `build.py:198-199` reads `reports[-1]['versions'][-1]` and
`reports[0]['versions'][0]`. `Build.MakeIndexContext` and `Build.Build` model this.

## Model

| member | source | states |
|---|---|---|
| Reports.VersionsIdsSound | build.py:44-47 | a topic id is collected from a report's versions exactly when some version lists a topic pair with that id |
| Reports.TagsIffListed | build.py:44-47 | the per-report `topics` set holds an id exactly when some version of the report lists it |
| Reports.AllTopicIdsSound | build.py:43-47 | the ids met over all reports are exactly those listed by some version of some report |
| StrOrder.StrLess | build.py:63 | Python's `<` on strings: the first differing code point decides, and a proper prefix sorts first |
| StrOrder.StrLessPrefix | build.py:63 | a proper prefix sorts before any of its extensions |
| StrOrder.StrLessIrreflexive | build.py:63 | no title sorts before itself |
| StrOrder.StrLessTransitive | build.py:63 | the string order the sort uses is transitive |
| StrOrder.StrLessTotal | build.py:63 | any two different titles are ordered one way or the other |
| StrOrder.StrLessAsymmetric | build.py:63 | two titles are never each less than the other |
| TopicIndex.ReportsTaggingMembers | build.py:54-55 | a report is in topic t's list exactly when it is loaded and some version of it lists t |
| TopicIndex.ReportsTaggingOccurrences | build.py:44-55 | a report carrying t appears in t's list as many times as it was loaded, however many of its versions list t; one that does not carry t never appears |
| TopicIndex.ReportsTaggingOrdered | build.py:43-55 | each topic's list keeps the loader order of the reports |
| TopicIndex.LatestNames | build.py:41-52 | the name dictionary after a scan: a tagging is stored when its id is new or its date strictly later than the stored one |
| TopicIndex.FirstAppearance | build.py:41-52 | the dictionary's key order: each id at the place it was first scanned |
| TopicIndex.LatestUnique | build.py:51-52 | at most one tagging of a topic supplies its title |
| TopicIndex.LatestNamesHasAll | build.py:51-52 | every scanned topic id gets an entry in the name dictionary |
| TopicIndex.LatestIndex | build.py:51-52 | the name kept for a topic comes from a tagging with that topic's latest date, the first scanned among equally late ones |
| TopicIndex.FirstAppearanceKeys | build.py:41-52 | the dictionary's key order lists every scanned topic id exactly once |
| TopicIndex.ScanStep | build.py:51-52 | one more tagging adds its id to the key order only when new, and replaces the stored name only when the id is new or the date strictly later |
| TopicIndex.InsertionPoint | build.py:63 | the insertion point comes after every key whose title does not sort after the new title, and before the first key whose title does |
| TopicIndex.SortByTitle | build.py:63 | the sorted keys are a permutation of the dictionary's keys |
| TopicIndex.Insert | build.py:63 | inserting a key adds exactly that key, at its insertion point, and shifts the later keys by one |
| TopicIndex.InsertSorted | build.py:63 | inserting at the insertion point keeps a title-sorted list sorted |
| TopicIndex.InsertStable | build.py:63 | inserting the newest key keeps equal titles in dictionary order |
| TopicIndex.SortByTitleDistinct | build.py:63 | the sort of distinct keys holds each key exactly once |
| TopicIndex.SortByTitleOrdered | build.py:63 | the sorted keys are in non-decreasing title order, and equal titles keep the dictionary's insertion order (a stable sort) |
| TopicIndex.AppendToTopics | build.py:54-55 | the report is appended to the list of each of its topics and to no other list; missing lists start empty |
| TopicIndex.ScanVersion | build.py:46-52 | after one version's pairs, the dictionary and its key order equal the fold over the taggings so far, and the report's id set gains the version's ids |
| TopicIndex.ScanReport | build.py:44-52 | after one report, the dictionary follows the fold over all its versions, and the id set is exactly the report's topic ids |
| TopicIndex.Accumulate | build.py:41-55 | after all reports, the name dictionary and its key order are the folds over all taggings in scan order, its keys are the topic ids met, and every topic's list is the ordered filter of the reports carrying it |
| TopicIndex.MakeGroups | build.py:57-62 | one entry per sorted id, with that id, its stored name and its report list |
| TopicIndex.GroupIdsExact | build.py:57-63 | the group ids are exactly the topic ids of the reports, each once |
| TopicIndex.GroupReportsExact | build.py:60 | each group lists exactly the reports carrying its topic, in loader order |
| TopicIndex.GroupTitlesLatest | build.py:59 | each group's title is the name of a tagging with its topic's latest date, the first scanned on ties |
| TopicIndex.GroupsOrdered | build.py:63 | groups are in non-decreasing title order, and equal titles follow the order of first appearance |
| TopicIndex.IndexByTopic | build.py:40-63 | one group per distinct topic id; its reports are exactly those carrying the topic, in loader order; its title comes from the latest-dated tagging, the first one on ties; the groups are sorted by title, stably |
| IntFormat.Decimal | build.py:205 | `"%d" % x` is non-empty, starts with a minus exactly when x is negative, and is otherwise all digits, with no comma |
| IntFormat.IntComma | build.py:97-98 | `format(x, ",d")` is digits and commas with an optional leading minus |
| IntFormat.Digits | build.py:205 | the rendering is a non-empty string of decimal digits |
| IntFormat.DigitsLeading | build.py:205 | only zero is written with a leading zero |
| IntFormat.DecimalValue | build.py:205 | reading back the `"%d"` rendering of x gives x |
| IntFormat.DecimalInjective | build.py:205 | different ids render differently |
| IntFormat.DigitsSplit | build.py:97-98 | a number of 1000 or more is its thousands' digits followed by three zero-padded digits |
| IntFormat.GroupedStrip | build.py:97-98 | removing the commas from the grouped rendering leaves the plain digits |
| IntFormat.IntCommaStrip | build.py:97-98 | `format(x, ",d")` is `"%d" % x` with commas inserted, negatives included |
| IntFormat.ValueStrip | build.py:97-98 | commas do not change the number a numeral denotes |
| IntFormat.IntCommaValue | build.py:97-98 | reading back `intcomma(x)`, commas skipped, gives x |
| IntFormat.GroupedShape | build.py:97-98 | the grouped rendering has a comma exactly every three digits from the right, digits elsewhere, and no leading zero |
| Paths.Join | build.py:166 | the joined path ends with its last component; a relative component keeps the base as a prefix; an absolute one replaces it |
| Paths.JoinBuildDir | build.py:74 | a relative name joined to the build directory is `build/` followed by the name |
| ReportPage.NumberMatchesAsWrittenExactly | build.py:159 | the check as written accepts exactly the valid numbers, and the valid numbers followed by one newline |
| ReportPage.NumberMatchesAsWritten | build.py:159 | the check `generate_report_page` runs: Python's `re.match` with `$`, which also matches just before a final newline |
| ReportPage.TrailingNewlineAccepted | build.py:159-160 | `"R1\n"` passes the check as written, is not a valid number, and its page path is `build/reports/R1\n.html` |
| ReportPage.TrailingNewlinePublished | build.py:157-176 | `generate_report_page` succeeds for a report numbered `"R1\n"` that has a version, and writes `build/reports/R1\n.html` and `build/reports/R1\n.json` |
| ReportPage.AcceptedInvalidNumberBreaksPaths | build.py:159-176 | any number the check lets through that is not valid puts a line break into both output file names |
| ReportPage.ReportPath | build.py:173-176 | the page and the metadata file are `build/reports/<number>` followed by `.html` or `.json` |
| ReportPage.ReportPathRecoversNumber | build.py:173-176 | the report number can be read back from an output path |
| ReportPage.ReportPathsDistinct | build.py:173-176 | different numbers give different pages and different metadata files, and a page never has a metadata file's name |
| ReportPage.ValidNumberStaysInReportsDir | build.py:158-176 | with a number the corrected check accepts, both files lie directly in `build/reports`: no separator and no line break after it |
| ReportPage.BodyPath | build.py:166 | a filename of six characters or fewer gives `sanitized-html/`; otherwise the rest after the sixth character is joined under `sanitized-html`, or used alone when it is absolute |
| ReportPage.DropPrefix | build.py:166 | `s[6:]` is empty for a short string and otherwise the rest after the first six characters |
| ReportPage.BodyPathReplacesDirectory | build.py:166 | a filename under a six-character directory such as `files/` is read from the same place under `sanitized-html/`; an absolute remainder is used as it is |
| ReportPage.LastHtmlSelected | build.py:163-167 | the body path of the last HTML entry is a valid selection |
| ReportPage.SelectsHtmlUnique | build.py:163-167 | the selection rule admits exactly one result for given formats |
| ReportPage.SelectHtml | build.py:163-167 | the body is absent when no format is HTML, and otherwise it is the body path of the last HTML entry |
| ReportPage.GenerateReportPage | build.py:157-176 | a number the check as written rejects fails first, then a report without versions fails (`versions[0]`); it succeeds exactly otherwise, names the page and metadata files after the number, and takes the body from the newest version |
| Build.DebugActive | build.py:204 | the definition: `ONLY` is active when it is set and not empty; what the switch does is stated by `ReportsWantedMembers`, `ReportsWantedAll`, `OnlyQueuesOne` and `TopicPages` |
| Build.Wanted | build.py:214 | the definition of the skip test: a report is wanted unless `ONLY` is active and names another number; the queue it selects is stated by `ReportsWantedMembers` and `OnlyQueuesOne` |
| Build.ReportsWanted | build.py:211-215 | the queue is no longer than the loaded reports and holds only wanted reports |
| Build.ReportsWantedMembers | build.py:211-215 | a report is queued exactly when it is loaded and either `ONLY` is inactive or the report has that number |
| Build.ReportsWantedAll | build.py:211-215 | with `ONLY` unset or empty, every report is queued, in order |
| Build.ReportsWantedOrdered | build.py:211-219 | the queue keeps the loader order |
| Build.OnlyQueuesOne | build.py:214-215 | with `ONLY` active and unique numbers, exactly one report is queued when that number is loaded, and none otherwise |
| Build.QueueReports | build.py:211-219 | the loop with `continue` queues exactly the wanted reports, in loader order |
| Build.TopicPagePath | build.py:205 | a topic page is `build/topics/<id>.html` |
| Build.TopicPagePathsDistinct | build.py:205 | different topic ids give different topic pages |
| Build.TopicPages | build.py:203-205 | with `ONLY` active no topic page is made; otherwise one page per group, in group order |
| Build.TopicPagesDistinct | build.py:203-205 | groups with distinct ids get pairwise distinct topic pages |
| Build.GenerateQueued | build.py:211-219 | every queued report whose number passes the check as written and that has a version gets its page, written as `generate_report_page` writes it; a failing one is dropped without stopping the others, and no other page is written |
| Build.MakeIndexContext | build.py:196-202 | the context fails exactly when no report is loaded or the first or the last report has no version; otherwise it holds the report count, the topic index and the first twenty reports |
| Build.Build | build.py:187-227 | the build fails, writing nothing, exactly when the static pages' context cannot be built; otherwise the topic index as above, the context built from it, topic pages as the `ONLY` switch says and pairwise distinct, and report pages exactly for the wanted reports whose number passes the check as written and that have a version |

## Left out

- Loading the reports (`build.py:20-37`) is not modelled. That covers the glob, the JSON
  parsing and the `strptime` timestamp parsing. Reports are given as already-parsed
  values, and dates as integers ordered like the timestamps.
- Jinja2 template loading and rendering, and their `sys.exit` error paths
  (`build.py:66-123`), are not modelled. They belong to an external library. A page is
  described by its output path and the data it is given.
- The `date` filter (`strftime`) and `format_summary` (CommonMark) are not modelled.
  Both are foreign calls.
- JSON serialisation of the metadata file (`build.py:146-154`) is not modelled. The model
  records the report that is written, not its encoding.
- Rendering the static pages in `pages/` (`build.py:126-129`) is not modelled; their
  context (`build.py:196-202`) is, including the IndexError that stops the build.
- Build.MakeIndexContext: the contract does not state the two dates the context carries;
  they are read from the versions the failure condition guards, and are used only in
  rendering the static pages, which is not modelled.
- Copying the static assets and linking `build/files` (`build.py:132-144`, `221-223`) are
  filesystem side effects and are not modelled.
- Reading the HTML body file (`build.py:166-167`) is not modelled. `generate_report_page`
  opens every HTML entry's file, and the last one read is kept. A missing file would fail
  the worker. The model chooses the same file but does not open any.
- The worker pool's concurrency (`build.py:189`, `219`, `226-227`) is not modelled. Report
  pages are generated one after the other; only the dropping of failed tasks is kept.
- The empty loop over versions and formats (`build.py:179-181`) does nothing and is not
  modelled.
- Python's `set` iteration order in `for topic in topics` is not modelled. The model takes
  the ids in an unspecified order. This does not change the result, since a report is
  appended once to each of its topics' lists.

## Findings

| source | as written | input that shows it | evidently intended | confidence | as-written member | corrected member |
|---|---|---|---|---|---|---|
| build.py:159 | `re.match(r"^[0-9A-Z-]+$", number)`: Python's `$` also matches just before a final newline, so a number ending in one newline passes the sanity check | `number = "R1\n"` passes, and the page is written to `build/reports/R1\n.html` | accept only non-empty strings over `0-9`, `A-Z` and `-` (`re.fullmatch`, or `\Z` instead of `$`) | not executed; follows from Python's documented `$` semantics | ReportPage.NumberMatchesAsWritten, ReportPage.TrailingNewlinePublished | ReportPage.IsValidNumber, ReportPage.ValidNumberStaysInReportsDir |

The rest of the model follows the code as written: `GenerateReportPage`, `Publishable`,
`GenerateQueued` and `Build` all use `NumberMatchesAsWritten`. `IsValidNumber` and
`ValidNumberStaysInReportsDir` state what the corrected check would guarantee.
