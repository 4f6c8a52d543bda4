/**
 * The main program of the site build: index the reports by topic, name one page per
 * topic, and queue one report page per wanted report. The `ONLY` environment variable
 * is a debugging switch: when it is set and non-empty only the report with that number
 * is generated and no topic page is.
 */
module Build {
  import opened Wrappers
  import opened Reports
  import opened Paths
  import IntFormat
  import TopicIndex
  import ReportPage

  // ---------------------------------------------------------------------------
  // The ONLY switch
  // ---------------------------------------------------------------------------

  /** `os.environ.get("ONLY")` is truthy: the variable is set and not empty. */
  predicate DebugActive(only: Option<string>)
  {
    only.Some? && only.value != ""
  }

  /** Whether main queues `report`: always, unless `ONLY` is active and names another number. */
  predicate Wanted(report: Report, only: Option<string>)
  {
    !DebugActive(only) || report.number == only.value
  }

  /** The reports main queues, in loader order. */
  function ReportsWanted(rs: seq<Report>, only: Option<string>): (queued: seq<Report>)
    ensures |queued| <= |rs|
    ensures forall k :: 0 <= k < |queued| ==> Wanted(queued[k], only)
  {
    if rs == [] then []
    else ReportsWanted(rs[..|rs| - 1], only) + (if Wanted(rs[|rs| - 1], only) then [rs[|rs| - 1]] else [])
  }

  /** A report is queued exactly when it is loaded and wanted. */
  lemma {:induction false} ReportsWantedMembers(rs: seq<Report>, only: Option<string>)
    ensures forall r :: r in ReportsWanted(rs, only) <==> r in rs && Wanted(r, only)
  {
    if rs != [] {
      ReportsWantedMembers(rs[..|rs| - 1], only);
      assert rs == rs[..|rs| - 1] + [rs[|rs| - 1]];
    }
  }

  /** Without `ONLY` every loaded report is queued, in order. */
  lemma {:induction false} ReportsWantedAll(rs: seq<Report>, only: Option<string>)
    requires !DebugActive(only)
    ensures ReportsWanted(rs, only) == rs
  {
    if rs != [] {
      ReportsWantedAll(rs[..|rs| - 1], only);
      assert rs == rs[..|rs| - 1] + [rs[|rs| - 1]];
    }
  }

  /** The queue keeps the loader order. */
  lemma {:induction false} ReportsWantedOrdered(rs: seq<Report>, only: Option<string>)
    ensures TopicIndex.Subsequence(ReportsWanted(rs, only), rs)
  {
    if rs != [] {
      var init := rs[..|rs| - 1];
      ReportsWantedOrdered(init, only);
      if Wanted(rs[|rs| - 1], only) {
        assert ReportsWanted(rs, only)[..|ReportsWanted(rs, only)| - 1] == ReportsWanted(init, only);
      } else {
        assert ReportsWanted(rs, only) == ReportsWanted(init, only);
        TopicIndex.SubsequenceDropLast(ReportsWanted(rs, only), rs);
      }
    }
  }

  /** No two loaded reports share a number. */
  predicate UniqueNumbers(rs: seq<Report>)
  {
    forall i, j :: 0 <= i < j < |rs| ==> rs[i].number != rs[j].number
  }

  /**
   * With `ONLY` active and report numbers unique, exactly the one report with that
   * number is queued when it is loaded, and nothing otherwise.
   */
  lemma {:induction false} OnlyQueuesOne(rs: seq<Report>, only: Option<string>)
    requires DebugActive(only) && UniqueNumbers(rs)
    ensures (exists r :: r in rs && r.number == only.value) ==>
              |ReportsWanted(rs, only)| == 1 && ReportsWanted(rs, only)[0].number == only.value
    ensures (forall r :: r in rs ==> r.number != only.value) ==> ReportsWanted(rs, only) == []
  {
    ReportsWantedMembers(rs, only);
    if rs != [] {
      var init := rs[..|rs| - 1];
      var last := rs[|rs| - 1];
      assert UniqueNumbers(init);
      OnlyQueuesOne(init, only);
      ReportsWantedMembers(init, only);
      if last.number == only.value {
        forall r | r in init
          ensures r.number != only.value
        {
          var i :| 0 <= i < |init| && init[i] == r;
          assert rs[i] == r;
        }
        assert ReportsWanted(init, only) == [];
      } else if exists r :: r in rs && r.number == only.value {
        var r :| r in rs && r.number == only.value;
        assert r in init;
      }
    }
  }

  /** The report loop of main: a report not wanted under `ONLY` is skipped. */
  method QueueReports(reports: seq<Report>, only: Option<string>) returns (queued: seq<Report>)
    ensures queued == ReportsWanted(reports, only)
  {
    queued := [];
    for i := 0 to |reports|
      invariant queued == ReportsWanted(reports[..i], only)
    {
      assert reports[..i + 1][..i] == reports[..i];
      if DebugActive(only) && reports[i].number != only.value {
        continue;
      }
      queued := queued + [reports[i]];
    }
    assert reports[..|reports|] == reports;
  }

  // ---------------------------------------------------------------------------
  // Topic pages
  // ---------------------------------------------------------------------------

  /** `topics/%d.html` below the build directory. */
  function TopicPagePath(id: int): (p: string)
    ensures p == "build/topics/" + IntFormat.Decimal(id) + ".html"
  {
    JoinBuildDir("topics/" + IntFormat.Decimal(id) + ".html");
    Join(BuildDir, "topics/" + IntFormat.Decimal(id) + ".html")
  }

  /** Different topics get different pages. */
  lemma TopicPagePathsDistinct(a: int, b: int)
    ensures TopicPagePath(a) == TopicPagePath(b) ==> a == b
  {
    var p := TopicPagePath(a);
    var q := TopicPagePath(b);
    if p == q {
      assert IntFormat.Decimal(a) == p[13..|p| - 5];
      assert IntFormat.Decimal(b) == q[13..|q| - 5];
      IntFormat.DecimalInjective(a, b);
    }
  }

  /** The topic loop of main: every group gets a page unless `ONLY` is active. */
  method TopicPages(groups: seq<TopicGroup>, only: Option<string>) returns (paths: seq<string>)
    ensures DebugActive(only) ==> paths == []
    ensures !DebugActive(only) ==>
              |paths| == |groups| && forall n :: 0 <= n < |paths| ==> paths[n] == TopicPagePath(groups[n].id)
  {
    paths := [];
    for i := 0 to |groups|
      invariant DebugActive(only) ==> paths == []
      invariant !DebugActive(only) ==>
                  |paths| == i && forall n :: 0 <= n < i ==> paths[n] == TopicPagePath(groups[n].id)
    {
      if DebugActive(only) {
        continue;
      }
      paths := paths + [TopicPagePath(groups[i].id)];
    }
  }

  /** Groups with distinct ids get pairwise distinct topic pages. */
  lemma TopicPagesDistinct(groups: seq<TopicGroup>, paths: seq<string>)
    requires forall m, n :: 0 <= m < n < |groups| ==> groups[m].id != groups[n].id
    requires |paths| == |groups| && forall n :: 0 <= n < |paths| ==> paths[n] == TopicPagePath(groups[n].id)
    ensures forall m, n :: 0 <= m < n < |paths| ==> paths[m] != paths[n]
  {
    forall m, n | 0 <= m < n < |paths|
      ensures paths[m] != paths[n]
    {
      TopicPagePathsDistinct(groups[m].id, groups[n].id);
    }
  }

  // ---------------------------------------------------------------------------
  // The whole build
  // ---------------------------------------------------------------------------

  /** A report whose page generation succeeds: its number passes the check as written and it has a version. */
  predicate Publishable(r: Report)
  {
    ReportPage.NumberMatchesAsWritten(r.number) && r.versions != []
  }

  /** One page as `generate_report_page` writes it for `r`. */
  ghost predicate PageFor(p: ReportPage.Page, r: Report)
  {
    p.report == r
    && p.pagePath == ReportPage.ReportPath(r.number, ReportPage.PageExt)
    && p.jsonPath == ReportPage.ReportPath(r.number, ReportPage.MetadataExt)
    && r.versions != []
    && ReportPage.SelectsHtml(r.versions[0].formats, p.html)
  }

  /** Every page was written for one of `rs`, a publishable report, as `generate_report_page` writes it. */
  ghost predicate PagesFrom(pages: seq<ReportPage.Page>, rs: seq<Report>)
  {
    forall p :: p in pages ==> p.report in rs && Publishable(p.report) && PageFor(p, p.report)
  }

  /** Every publishable report of `rs` has a page. */
  ghost predicate PagesCover(pages: seq<ReportPage.Page>, rs: seq<Report>)
  {
    forall r :: r in rs && Publishable(r) ==> exists p :: p in pages && p.report == r
  }

  /**
   * Queue the report pages: the worker pool's results are never collected, so a report
   * whose page fails (bad number, no versions) is dropped and the build goes on.
   */
  method GenerateQueued(queued: seq<Report>) returns (pages: seq<ReportPage.Page>)
    ensures forall p :: p in pages ==> p.report in queued && Publishable(p.report) && PageFor(p, p.report)
    ensures forall r :: r in queued && Publishable(r) ==> exists p :: p in pages && p.report == r
  {
    pages := [];
    for i := 0 to |queued|
      invariant PagesFrom(pages, queued[..i])
      invariant PagesCover(pages, queued[..i])
    {
      var result := ReportPage.GenerateReportPage(queued[i]);
      ghost var before := pages;
      if result.Success? {
        pages := pages + [result.value];
      }
      assert queued[..i + 1] == queued[..i] + [queued[i]];
      assert PagesFrom(pages, queued[..i + 1]);
      assert PagesCover(pages, queued[..i + 1]) by {
        forall r | r in queued[..i + 1] && Publishable(r)
          ensures exists p :: p in pages && p.report == r
        {
          if r != queued[i] {
            assert r in queued[..i];
            var p :| p in before && p.report == r;
            assert p in pages;
          } else {
            assert pages[|pages| - 1].report == r;
          }
        }
      }
    }
    assert queued[..|queued|] == queued;
  }

  /** The context the static pages are rendered with. */
  datatype IndexContext = IndexContext(reportsCount: nat, firstReportDate: int, lastReportDate: int,
                                       topics: seq<TopicGroup>, recentReports: seq<Report>)

  /** Why the whole build stops before any topic or report page is written. */
  datatype BuildError =
    | NoIndexContext   // `reports[0]`, `reports[-1]` or one of their `versions` is empty: IndexError

  /** Whether the static pages' context can be built: the first and the last report each have a version. */
  predicate HasIndexContext(reports: seq<Report>)
  {
    reports != [] && reports[0].versions != [] && reports[|reports| - 1].versions != []
  }

  /**
   * The context of the static pages: the report count, the date of the oldest version of
   * the last report, the date of the newest version of the first report, the topic
   * index, and the first twenty reports.
   */
  function MakeIndexContext(reports: seq<Report>, topics: seq<TopicGroup>): (r: Result<IndexContext, BuildError>)
    ensures r.Failure? <==> !HasIndexContext(reports)
    ensures r.Success? ==>
              r.value.reportsCount == |reports| && r.value.topics == topics
              && r.value.recentReports <= reports
              && |r.value.recentReports| == (if |reports| < 20 then |reports| else 20)
  {
    if !HasIndexContext(reports) then Failure(NoIndexContext)
    else
      var last := reports[|reports| - 1];
      Success(IndexContext(|reports|, last.versions[|last.versions| - 1].date, reports[0].versions[0].date,
                           topics, if |reports| < 20 then reports else reports[..20]))
  }

  /** Everything `main` writes, as far as it is modelled. */
  datatype Site = Site(index: IndexContext, groups: seq<TopicGroup>, topicPaths: seq<string>,
                       pages: seq<ReportPage.Page>)

  /**
   * `main`: the topic index, the static pages' context, the topic pages and the report
   * pages. The build stops when the context cannot be built; otherwise every wanted
   * report whose number passes the check and that has a version gets its page, and no
   * other report page is written.
   */
  method Build(reports: seq<Report>, only: Option<string>) returns (result: Result<Site, BuildError>)
    ensures result.Failure? <==> !HasIndexContext(reports)
    ensures result.Success? ==> MakeIndexContext(reports, result.value.groups) == Success(result.value.index)
    ensures result.Success? ==> TopicIndex.OneGroupPerTopic(result.value.groups, reports)
    ensures result.Success? ==> TopicIndex.GroupsListReports(result.value.groups, reports)
    ensures result.Success? ==> TopicIndex.GroupsTitledLatest(result.value.groups, Taggings(reports))
    ensures result.Success? ==>
              TopicIndex.GroupsSorted(result.value.groups, TopicIndex.FirstAppearance(Taggings(reports)))
    ensures result.Success? && DebugActive(only) ==> result.value.topicPaths == []
    ensures result.Success? && !DebugActive(only) ==>
              |result.value.topicPaths| == |result.value.groups|
              && forall n :: 0 <= n < |result.value.groups| ==>
                   result.value.topicPaths[n] == TopicPagePath(result.value.groups[n].id)
    ensures result.Success? ==>
              forall m, n :: 0 <= m < n < |result.value.topicPaths| ==> result.value.topicPaths[m] != result.value.topicPaths[n]
    ensures result.Success? ==>
              forall p :: p in result.value.pages ==>
                p.report in reports && Wanted(p.report, only) && Publishable(p.report) && PageFor(p, p.report)
    ensures result.Success? ==>
              forall r :: r in reports && Wanted(r, only) && Publishable(r) ==>
                exists p :: p in result.value.pages && p.report == r
  {
    var groups := TopicIndex.IndexByTopic(reports);
    var context := MakeIndexContext(reports, groups);
    if context.Failure? {
      return Failure(context.error);
    }
    var topicPaths := TopicPages(groups, only);
    if !DebugActive(only) {
      TopicPagesDistinct(groups, topicPaths);
    }
    var queued := QueueReports(reports, only);
    ReportsWantedMembers(reports, only);
    var pages := GenerateQueued(queued);
    result := Success(Site(context.value, groups, topicPaths, pages));
  }
}
