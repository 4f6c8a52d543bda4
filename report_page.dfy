/**
 * The per-report rules of `generate_report_page`: the report-number sanity check, the
 * choice of the HTML body among the first version's formats, and the names of the two
 * files written for the report.
 */
module ReportPage {
  import opened Wrappers
  import opened Reports
  import opened Paths

  // ---------------------------------------------------------------------------
  // The report-number check
  // ---------------------------------------------------------------------------

  /** A character of the class `[0-9A-Z-]`. */
  predicate IsNumberChar(c: char)
  {
    '0' <= c <= '9' || 'A' <= c <= 'Z' || c == '-'
  }

  predicate AllNumberChars(s: string)
  {
    forall i :: 0 <= i < |s| ==> IsNumberChar(s[i])
  }

  /**
   * `re.match(r"^[0-9A-Z-]+$", s)` as Python evaluates it: a non-empty run of allowed
   * characters from the start, ending where `$` matches, which is the end of the string
   * or just before a newline that is the string's last character. This is the check
   * `generate_report_page` runs.
   */
  predicate NumberMatchesAsWritten(s: string)
  {
    exists p | 1 <= p <= |s| :: AllNumberChars(s[..p]) && (p == |s| || (p == |s| - 1 && s[p] == '\n'))
  }

  /** The check the comment describes: a non-empty string over `0-9`, `A-Z` and `-`. */
  predicate IsValidNumber(s: string)
  {
    s != [] && AllNumberChars(s)
  }

  /**
   * The check as written accepts exactly the valid numbers and the valid numbers
   * followed by one newline.
   */
  lemma NumberMatchesAsWrittenExactly(s: string)
    ensures NumberMatchesAsWritten(s) <==>
              IsValidNumber(s) || (|s| >= 2 && s[|s| - 1] == '\n' && IsValidNumber(s[..|s| - 1]))
  {
    if NumberMatchesAsWritten(s) {
      var p :| 1 <= p <= |s| && AllNumberChars(s[..p]) && (p == |s| || (p == |s| - 1 && s[p] == '\n'));
      if p == |s| {
        assert s[..p] == s;
      }
    }
    if IsValidNumber(s) {
      assert s[..|s|] == s;
      assert AllNumberChars(s[..|s|]);
    }
    if |s| >= 2 && s[|s| - 1] == '\n' && IsValidNumber(s[..|s| - 1]) {
      var p := |s| - 1;
      assert AllNumberChars(s[..p]);
    }
  }

  /**
   * A number the check as written lets through although it is not valid puts a line
   * break into the names of both output files.
   */
  lemma AcceptedInvalidNumberBreaksPaths(number: string)
    requires NumberMatchesAsWritten(number) && !IsValidNumber(number)
    ensures '\n' in ReportPath(number, PageExt) && '\n' in ReportPath(number, MetadataExt)
  {
    NumberMatchesAsWrittenExactly(number);
    var p := ReportPath(number, PageExt);
    var j := ReportPath(number, MetadataExt);
    assert p[14 + |number| - 1] == number[|number| - 1];
    assert j[14 + |number| - 1] == number[|number| - 1];
  }

  /** A number with a trailing newline passes the check as written but is not valid. */
  lemma TrailingNewlineAccepted()
    ensures NumberMatchesAsWritten("R1\n") && !IsValidNumber("R1\n")
    ensures ReportPath("R1\n", PageExt) == "build/reports/R1\n.html"
  {
    var s := "R1\n";
    assert s[..2] == "R1";
    assert AllNumberChars(s[..2]);
    assert !IsNumberChar(s[2]);
  }

  // ---------------------------------------------------------------------------
  // Output files
  // ---------------------------------------------------------------------------

  /** The extension of the rendered page and of the metadata file. */
  const PageExt: string := ".html"
  const MetadataExt: string := ".json"

  /** `reports/<number><ext>` below the build directory. */
  function ReportPath(number: string, ext: string): (p: string)
    ensures p == "build/reports/" + number + ext
  {
    JoinBuildDir("reports/" + number + ext);
    Join(BuildDir, "reports/" + number + ext)
  }

  /** The number can be read back from an output path. */
  lemma ReportPathRecoversNumber(number: string, ext: string)
    ensures ReportPath(number, ext)[14..|ReportPath(number, ext)| - |ext|] == number
  {
    var p := ReportPath(number, ext);
    assert p == "build/reports/" + number + ext;
  }

  /** Different reports get different files, and a page never overwrites a metadata file. */
  lemma ReportPathsDistinct(a: string, b: string)
    ensures ReportPath(a, PageExt) == ReportPath(b, PageExt) ==> a == b
    ensures ReportPath(a, MetadataExt) == ReportPath(b, MetadataExt) ==> a == b
    ensures ReportPath(a, PageExt) != ReportPath(b, MetadataExt)
  {
    ReportPathRecoversNumber(a, PageExt);
    ReportPathRecoversNumber(b, PageExt);
    ReportPathRecoversNumber(a, MetadataExt);
    ReportPathRecoversNumber(b, MetadataExt);
    var p, j := ReportPath(a, PageExt), ReportPath(b, MetadataExt);
    if |p| == |j| {
      assert p[|p| - 4] != j[|j| - 4];
    }
  }

  /**
   * A valid number keeps both output files directly inside `build/reports`: the part
   * after that directory holds no separator and no line break.
   */
  lemma ValidNumberStaysInReportsDir(number: string, ext: string)
    requires IsValidNumber(number)
    requires ext == PageExt || ext == MetadataExt
    ensures forall i :: 14 <= i < |ReportPath(number, ext)| ==> ReportPath(number, ext)[i] !in "/\n"
  {
    var p := ReportPath(number, ext);
    forall i | 14 <= i < |p|
      ensures p[i] !in "/\n"
    {
      if i < 14 + |number| {
        assert p[i] == number[i - 14];
      } else {
        assert p[i] == ext[i - 14 - |number|];
      }
    }
  }

  // ---------------------------------------------------------------------------
  // The HTML body
  // ---------------------------------------------------------------------------

  const SanitizedHtmlDir: string := "sanitized-html"

  /** `s[k:]` in Python: empty when the string is not longer than `k`. */
  function DropPrefix(s: string, k: nat): (r: string)
    ensures |s| <= k ==> r == []
    ensures |s| > k ==> s == s[..k] + r
  {
    if |s| <= k then [] else s[k..]
  }

  /** The file the body is read from: the filename minus its first 6 characters, under `sanitized-html`. */
  function BodyPath(filename: string): (p: string)
    ensures |filename| <= 6 ==> p == "sanitized-html/"
    ensures |filename| > 6 && filename[6] != '/' ==> p == "sanitized-html/" + filename[6..]
    ensures |filename| > 6 && filename[6] == '/' ==> p == filename[6..]
  {
    Join(SanitizedHtmlDir, DropPrefix(filename, 6))
  }

  /**
   * A filename under a six-character directory such as `files/` is read from the same
   * relative place under `sanitized-html/`; an absolute remainder is used as it is.
   */
  lemma BodyPathReplacesDirectory(dir: string, rest: string)
    requires |dir| == 6
    ensures rest == [] || rest[0] != '/' ==> BodyPath(dir + rest) == "sanitized-html/" + rest
    ensures rest != [] && rest[0] == '/' ==> BodyPath(dir + rest) == rest
  {
    assert (dir + rest)[..6] == dir;
    if rest == [] {
      assert dir + rest == dir;
    } else {
      assert (dir + rest)[6..] == rest;
    }
  }

  predicate IsHtml(f: Format)
  {
    f.format == "HTML"
  }

  /** No entry of `formats[lo..hi]` is HTML. */
  predicate NoHtmlIn(formats: seq<Format>, lo: int, hi: int)
    requires 0 <= lo <= hi <= |formats|
  {
    forall j :: lo <= j < hi ==> !IsHtml(formats[j])
  }

  /** `k` is the position of the last HTML entry of `formats`. */
  predicate IsLastHtml(formats: seq<Format>, k: int)
  {
    0 <= k < |formats| && IsHtml(formats[k])
    && forall j :: k < j < |formats| ==> !IsHtml(formats[j])
  }

  /**
   * The body chosen from `formats`: nothing when no entry is HTML, otherwise the body
   * path of the last HTML entry.
   */
  ghost predicate SelectsHtml(formats: seq<Format>, html: Option<string>)
  {
    match html
    case None => forall j :: 0 <= j < |formats| ==> !IsHtml(formats[j])
    case Some(path) => exists k :: IsLastHtml(formats, k) && path == BodyPath(formats[k].filename)
  }

  /** At most one body fits the rule: the selection is determined by the formats. */
  lemma SelectsHtmlUnique(formats: seq<Format>, a: Option<string>, b: Option<string>)
    requires SelectsHtml(formats, a) && SelectsHtml(formats, b)
    ensures a == b
  {
    if a.Some? && b.Some? {
      var k :| IsLastHtml(formats, k) && a.value == BodyPath(formats[k].filename);
      var m :| IsLastHtml(formats, m) && b.value == BodyPath(formats[m].filename);
      assert k == m;
    }
  }

  lemma LastHtmlSelected(formats: seq<Format>, k: int)
    requires IsLastHtml(formats, k)
    ensures SelectsHtml(formats, Some(BodyPath(formats[k].filename)))
  {
  }

  /** The loop over the formats of the newest version; no `break`, so the last HTML entry wins. */
  method SelectHtml(formats: seq<Format>) returns (html: Option<string>)
    ensures SelectsHtml(formats, html)
  {
    html := None;
    ghost var last := -1;
    for i := 0 to |formats|
      invariant -1 <= last < i
      invariant last == -1 ==> html == None && NoHtmlIn(formats, 0, i)
      invariant last != -1 ==> IsHtml(formats[last]) && NoHtmlIn(formats, last + 1, i)
                               && html == Some(BodyPath(formats[last].filename))
    {
      if !IsHtml(formats[i]) {
        continue;
      }
      html := Some(BodyPath(formats[i].filename));
      last := i;
    }
    if last != -1 {
      LastHtmlSelected(formats, last);
    }
  }

  // ---------------------------------------------------------------------------
  // One report page
  // ---------------------------------------------------------------------------

  /** Why a report page is not generated. */
  datatype PageError =
    | InvalidNumber   // the number check raises
    | NoVersions      // `versions[0]` raises IndexError

  /** What is written for one report: the page, its metadata file and the body it shows. */
  datatype Page = Page(report: Report, pagePath: string, jsonPath: string, html: Option<string>)

  /**
   * `generate_report_page`: the number is checked before anything else, then the body is
   * selected from the newest version, then both files are named after the number.
   */
  method GenerateReportPage(report: Report) returns (result: Result<Page, PageError>)
    ensures !NumberMatchesAsWritten(report.number) ==> result == Failure(InvalidNumber)
    ensures NumberMatchesAsWritten(report.number) && report.versions == [] ==> result == Failure(NoVersions)
    ensures result.Success? <==> NumberMatchesAsWritten(report.number) && report.versions != []
    ensures result.Success? ==>
              result.value.report == report
              && result.value.pagePath == ReportPath(report.number, PageExt)
              && result.value.jsonPath == ReportPath(report.number, MetadataExt)
              && SelectsHtml(report.versions[0].formats, result.value.html)
  {
    if !NumberMatchesAsWritten(report.number) {
      return Failure(InvalidNumber);
    }
    if report.versions == [] {
      return Failure(NoVersions);
    }
    var html := SelectHtml(report.versions[0].formats);
    result := Success(Page(report, ReportPath(report.number, PageExt), ReportPath(report.number, MetadataExt), html));
  }

  /**
   * A report numbered "R1" plus a trailing newline is published: its page goes to a file
   * whose name contains the line break.
   */
  method TrailingNewlinePublished(report: Report) returns (result: Result<Page, PageError>)
    requires report.number == "R1\n" && report.versions != []
    ensures result.Success?
    ensures result.value.pagePath == "build/reports/R1\n.html"
    ensures result.value.jsonPath == "build/reports/R1\n.json"
  {
    TrailingNewlineAccepted();
    result := GenerateReportPage(report);
  }
}
