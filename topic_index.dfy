/**
 * The topic indexer (`index_by_topic`): folds the loaded reports into one group per
 * topic id, titled with the most recent name of the topic and listing every report
 * that ever carried it, the groups sorted by title.
 */
module TopicIndex {
  import opened Reports
  import opened StrOrder

  // ---------------------------------------------------------------------------
  // Specification of a group's report list
  // ---------------------------------------------------------------------------

  /** The reports, in loader order, some version of which lists topic `t`. */
  function ReportsTagging(rs: seq<Report>, t: int): seq<Report>
  {
    if rs == [] then []
    else ReportsTagging(rs[..|rs| - 1], t) + (if Tags(rs[|rs| - 1], t) then [rs[|rs| - 1]] else [])
  }

  /** `a` is `b` with some elements deleted: relative order is kept. */
  ghost predicate Subsequence(a: seq<Report>, b: seq<Report>)
  {
    if a == [] then true
    else if b == [] then false
    else Subsequence(a, b[..|b| - 1])
         || (a[|a| - 1] == b[|b| - 1] && Subsequence(a[..|a| - 1], b[..|b| - 1]))
  }

  /** A report is in topic `t`'s list exactly when it is loaded and some version lists `t`. */
  lemma {:induction false} ReportsTaggingMembers(rs: seq<Report>, t: int, r: Report)
    ensures r in ReportsTagging(rs, t) <==> r in rs && ListsTopic(r, t)
  {
    TagsIffListed(r, t);
    if rs != [] {
      assert rs == rs[..|rs| - 1] + [rs[|rs| - 1]];
      ReportsTaggingMembers(rs[..|rs| - 1], t, r);
    }
  }

  /**
   * A report occurs in topic `t`'s list as often as it occurs among the loaded
   * reports when it carries `t` (so once, for a report loaded once, however many of
   * its versions list `t`), and never otherwise.
   */
  lemma {:induction false} ReportsTaggingOccurrences(rs: seq<Report>, t: int, r: Report)
    ensures multiset(ReportsTagging(rs, t))[r] == if Tags(r, t) then multiset(rs)[r] else 0
  {
    if rs != [] {
      assert rs == rs[..|rs| - 1] + [rs[|rs| - 1]];
      ReportsTaggingOccurrences(rs[..|rs| - 1], t, r);
    }
  }

  /** Topic `t`'s list keeps the loader order of the reports. */
  lemma {:induction false} ReportsTaggingOrdered(rs: seq<Report>, t: int)
    ensures Subsequence(ReportsTagging(rs, t), rs)
  {
    if rs != [] {
      var init, last := rs[..|rs| - 1], rs[|rs| - 1];
      ReportsTaggingOrdered(init, t);
      var a := ReportsTagging(rs, t);
      if Tags(last, t) {
        assert a[..|a| - 1] == ReportsTagging(init, t);
      } else {
        assert a == ReportsTagging(init, t);
        SubsequenceDropLast(a, rs);
      }
    }
  }

  lemma SubsequenceDropLast(a: seq<Report>, b: seq<Report>)
    requires b != [] && Subsequence(a, b[..|b| - 1])
    ensures Subsequence(a, b)
  {
  }

  // ---------------------------------------------------------------------------
  // Specification of a group's title
  // ---------------------------------------------------------------------------

  /**
   * Tagging `k` supplies its topic's title: no tagging of the same topic has a later
   * date, and every earlier-scanned tagging of that topic has a strictly earlier
   * date (on equal dates the first one scanned wins).
   */
  ghost predicate IsLatest(ts: seq<Tagging>, k: int)
  {
    0 <= k < |ts|
    && (forall j :: 0 <= j < |ts| && ts[j].id == ts[k].id ==> ts[j].date <= ts[k].date)
    && (forall j :: 0 <= j < k && ts[j].id == ts[k].id ==> ts[j].date < ts[k].date)
  }

  /** At most one tagging of a topic supplies its title. */
  lemma LatestUnique(ts: seq<Tagging>, k1: int, k2: int)
    requires IsLatest(ts, k1) && IsLatest(ts, k2) && ts[k1].id == ts[k2].id
    ensures k1 == k2
  {
  }

  // ---------------------------------------------------------------------------
  // Key order of the dictionary and the sort by title
  // ---------------------------------------------------------------------------

  /** Topic ids in order of first appearance: the insertion order of the name dictionary. */
  function FirstAppearance(ts: seq<Tagging>): seq<int>
  {
    if ts == [] then []
    else
      var p := FirstAppearance(ts[..|ts| - 1]);
      if ts[|ts| - 1].id in p then p else p + [ts[|ts| - 1].id]
  }

  ghost predicate Distinct(s: seq<int>)
  {
    forall i, j :: 0 <= i < j < |s| ==> s[i] != s[j]
  }

  /** The index of the first occurrence of `x` in `s` (`|s|` when absent). */
  function Pos(s: seq<int>, x: int): nat
  {
    if s == [] then 0 else if s[0] == x then 0 else 1 + Pos(s[1..], x)
  }

  lemma {:induction false} PosAppendOld(s: seq<int>, x: int, y: int)
    requires y in s
    ensures Pos(s + [x], y) == Pos(s, y) < |s|
  {
    if s[0] != y {
      assert (s + [x])[1..] == s[1..] + [x];
      PosAppendOld(s[1..], x, y);
    }
  }

  lemma {:induction false} PosAppendNew(s: seq<int>, x: int)
    requires x !in s
    ensures Pos(s + [x], x) == |s|
  {
    if s != [] {
      assert (s + [x])[1..] == s[1..] + [x];
      PosAppendNew(s[1..], x);
    }
  }

  /** The title a topic id is sorted by. */
  function Title(names: map<int, (int, string)>, t: int): string
    requires t in names
  {
    names[t].1
  }

  /** The first position of `s` whose title sorts strictly after `t`. */
  function InsertionPoint(t: string, s: seq<int>, names: map<int, (int, string)>): (p: nat)
    requires forall y :: y in s ==> y in names
    ensures p <= |s|
    ensures forall q :: 0 <= q < p ==> !StrLess(t, Title(names, s[q]))
    ensures p < |s| ==> StrLess(t, Title(names, s[p]))
  {
    if s == [] then 0
    else if StrLess(t, Title(names, s[0])) then 0
    else 1 + InsertionPoint(t, s[1..], names)
  }

  /**
   * `sorted(keys, key=title)`: a stable sort, modelled as an insertion sort that
   * places each key after every earlier key whose title is not greater.
   */
  function SortByTitle(keys: seq<int>, names: map<int, (int, string)>): (r: seq<int>)
    requires forall y :: y in keys ==> y in names
    ensures multiset(r) == multiset(keys)
  {
    if keys == [] then []
    else
      var init, x := keys[..|keys| - 1], keys[|keys| - 1];
      assert keys == init + [x];
      var rest := SortByTitle(init, names);
      assert forall y :: y in rest ==> y in multiset(init);
      Insert(rest, x, names)
  }

  /** `s` with `x` placed at its insertion point. */
  function Insert(s: seq<int>, x: int, names: map<int, (int, string)>): (r: seq<int>)
    requires forall y :: y in s ==> y in names
    requires x in names
    ensures |r| == |s| + 1
    ensures multiset(r) == multiset(s) + multiset{x}
    ensures forall m :: 0 <= m < |r| ==>
              r[m] == if m < InsertionPoint(Title(names, x), s, names) then s[m]
                      else if m == InsertionPoint(Title(names, x), s, names) then x
                      else s[m - 1]
  {
    var p := InsertionPoint(Title(names, x), s, names);
    assert s == s[..p] + s[p..];
    s[..p] + [x] + s[p..]
  }

  ghost predicate SortedByTitle(s: seq<int>, names: map<int, (int, string)>)
    requires forall y :: y in s ==> y in names
  {
    forall m, n :: 0 <= m < n < |s| ==> !StrLess(Title(names, s[n]), Title(names, s[m]))
  }

  /** Keys with equal titles keep their relative order in `keys`. */
  ghost predicate StableWrt(s: seq<int>, keys: seq<int>, names: map<int, (int, string)>)
    requires forall y :: y in s ==> y in names
  {
    forall m, n :: 0 <= m < n < |s| && Title(names, s[m]) == Title(names, s[n]) ==> Pos(keys, s[m]) < Pos(keys, s[n])
  }

  /** Inserting `x` at its insertion point keeps a title-sorted list sorted. */
  lemma InsertSorted(rest: seq<int>, x: int, names: map<int, (int, string)>)
    requires forall y :: y in rest ==> y in names
    requires x in names
    requires SortedByTitle(rest, names)
    ensures forall y :: y in Insert(rest, x, names) ==> y in names
    ensures SortedByTitle(Insert(rest, x, names), names)
  {
    var tx := Title(names, x);
    var p := InsertionPoint(tx, rest, names);
    var r := Insert(rest, x, names);
    AfterInsertionPoint(rest, tx, names);
    forall m, n | 0 <= m < n < |r|
      ensures !StrLess(Title(names, r[n]), Title(names, r[m]))
    {
      if m == p {
        StrLessAsymmetric(tx, Title(names, rest[n - 1]));
      }
    }
  }

  /** Every title from the insertion point on sorts strictly after `t`. */
  lemma AfterInsertionPoint(rest: seq<int>, t: string, names: map<int, (int, string)>)
    requires forall y :: y in rest ==> y in names
    requires SortedByTitle(rest, names)
    ensures forall q :: InsertionPoint(t, rest, names) <= q < |rest| ==> StrLess(t, Title(names, rest[q]))
  {
    var p := InsertionPoint(t, rest, names);
    forall q | p <= q < |rest|
      ensures StrLess(t, Title(names, rest[q]))
    {
      if q > p {
        StrLessThenNotGreater(t, Title(names, rest[p]), Title(names, rest[q]));
      }
    }
  }

  /**
   * Inserting the key that follows `init` in `keys` keeps the list stable with
   * respect to `keys`.
   */
  lemma InsertStable(rest: seq<int>, init: seq<int>, x: int, names: map<int, (int, string)>)
    requires forall y :: y in rest ==> y in names && y in init
    requires x in names && x !in init
    requires SortedByTitle(rest, names)
    requires StableWrt(rest, init, names)
    ensures forall y :: y in Insert(rest, x, names) ==> y in names
    ensures StableWrt(Insert(rest, x, names), init + [x], names)
  {
    var keys := init + [x];
    var tx := Title(names, x);
    var p := InsertionPoint(tx, rest, names);
    var r := Insert(rest, x, names);
    AfterInsertionPoint(rest, tx, names);
    PosAppendNew(init, x);
    forall y | y in rest
      ensures Pos(keys, y) == Pos(init, y) < |init|
    {
      PosAppendOld(init, x, y);
    }
    forall m, n | 0 <= m < n < |r| && Title(names, r[m]) == Title(names, r[n])
      ensures Pos(keys, r[m]) < Pos(keys, r[n])
    {
      if m == p {
        StrLessIrreflexive(tx);
      } else if n != p {
        assert r[m] == rest[if m < p then m else m - 1];
        assert r[n] == rest[if n < p then n else n - 1];
      }
    }
  }

  /** Inserting a key not yet present keeps the list free of repeats. */
  lemma InsertDistinct(rest: seq<int>, x: int, names: map<int, (int, string)>)
    requires forall y :: y in rest ==> y in names
    requires x in names && x !in rest
    requires Distinct(rest)
    ensures Distinct(Insert(rest, x, names))
  {
    var p := InsertionPoint(Title(names, x), rest, names);
    var r := Insert(rest, x, names);
    forall m, n | 0 <= m < n < |r|
      ensures r[m] != r[n]
    {
      if m != p && n != p {
        assert r[m] == rest[if m < p then m else m - 1];
        assert r[n] == rest[if n < p then n else n - 1];
      }
    }
  }

  /** The keys of a list without repeats, bar the last, are again without repeats and lack the last. */
  lemma DistinctInit(keys: seq<int>)
    requires Distinct(keys) && keys != []
    ensures Distinct(keys[..|keys| - 1]) && keys[|keys| - 1] !in keys[..|keys| - 1]
  {
    var init := keys[..|keys| - 1];
    forall i | 0 <= i < |init| ensures init[i] != keys[|keys| - 1] {
      assert init[i] == keys[i];
    }
  }

  /** The sort of distinct keys holds exactly those keys, each once. */
  lemma {:induction false} SortByTitleDistinct(keys: seq<int>, names: map<int, (int, string)>)
    requires Distinct(keys)
    requires forall y :: y in keys ==> y in names
    ensures forall y :: y in SortByTitle(keys, names) <==> y in keys
    ensures Distinct(SortByTitle(keys, names))
  {
    var r := SortByTitle(keys, names);
    forall y
      ensures y in r <==> y in keys
    {
      assert y in r <==> y in multiset(r);
    }
    if keys != [] {
      var init, x := keys[..|keys| - 1], keys[|keys| - 1];
      DistinctInit(keys);
      SortByTitleDistinct(init, names);
      InsertDistinct(SortByTitle(init, names), x, names);
    }
  }

  /** The sort of distinct keys is ordered by title and stable. */
  lemma {:induction false} SortByTitleOrdered(keys: seq<int>, names: map<int, (int, string)>)
    requires Distinct(keys)
    requires forall y :: y in keys ==> y in names
    ensures forall y :: y in SortByTitle(keys, names) ==> y in names
    ensures SortedByTitle(SortByTitle(keys, names), names)
    ensures StableWrt(SortByTitle(keys, names), keys, names)
  {
    SortByTitleDistinct(keys, names);
    if keys != [] {
      var init, x := keys[..|keys| - 1], keys[|keys| - 1];
      assert keys == init + [x];
      DistinctInit(keys);
      SortByTitleOrdered(init, names);
      SortByTitleDistinct(init, names);
      var rest := SortByTitle(init, names);
      InsertSorted(rest, x, names);
      InsertStable(rest, init, x, names);
    }
  }

  // ---------------------------------------------------------------------------
  // What the index promises
  // ---------------------------------------------------------------------------

  /** Every topic id of the reports has exactly one group, and every group's id is one of them. */
  ghost predicate OneGroupPerTopic(groups: seq<TopicGroup>, reports: seq<Report>)
  {
    (forall n :: 0 <= n < |groups| ==> groups[n].id in AllTopicIds(reports))
    && (forall t :: t in AllTopicIds(reports) ==> exists n :: 0 <= n < |groups| && groups[n].id == t)
    && (forall m, n :: 0 <= m < n < |groups| ==> groups[m].id != groups[n].id)
  }

  /** Each group lists exactly the reports carrying its topic, in loader order. */
  ghost predicate GroupsListReports(groups: seq<TopicGroup>, reports: seq<Report>)
  {
    forall n :: 0 <= n < |groups| ==> groups[n].reports == ReportsTagging(reports, groups[n].id)
  }

  /** Each group is titled with the name of its topic's title-supplying tagging. */
  ghost predicate GroupsTitledLatest(groups: seq<TopicGroup>, ts: seq<Tagging>)
  {
    forall n :: 0 <= n < |groups| ==>
      exists k :: IsLatest(ts, k) && ts[k].id == groups[n].id && ts[k].name == groups[n].title
  }

  /** Groups are sorted by title, equal titles keeping the order of their ids in `order`. */
  ghost predicate GroupsSorted(groups: seq<TopicGroup>, order: seq<int>)
  {
    (forall m, n :: 0 <= m < n < |groups| ==> !StrLess(groups[n].title, groups[m].title))
    && (forall m, n :: 0 <= m < n < |groups| && groups[m].title == groups[n].title ==>
          Pos(order, groups[m].id) < Pos(order, groups[n].id))
  }

  // ---------------------------------------------------------------------------
  // The indexer
  // ---------------------------------------------------------------------------

  /** `defaultdict(list)` lookup: a missing topic has the empty list. */
  function Get(m: map<int, seq<Report>>, t: int): seq<Report>
  {
    if t in m then m[t] else []
  }

  /**
   * The name dictionary after scanning `ts`: each topic id met maps to the date and
   * name last stored for it, a tagging being stored when its id is new or its date is
   * strictly later than the stored one.
   */
  function LatestNames(ts: seq<Tagging>): map<int, (int, string)>
  {
    if ts == [] then map[]
    else
      var m := LatestNames(ts[..|ts| - 1]);
      var e := ts[|ts| - 1];
      if e.id !in m || m[e.id].0 < e.date then m[e.id := (e.date, e.name)] else m
  }

  /** Every topic id scanned has an entry in the name dictionary. */
  lemma {:induction false} LatestNamesHasAll(ts: seq<Tagging>)
    ensures forall j :: 0 <= j < |ts| ==> ts[j].id in LatestNames(ts)
  {
    if ts != [] {
      var init := ts[..|ts| - 1];
      LatestNamesHasAll(init);
      assert forall j :: 0 <= j < |init| ==> ts[j] == init[j];
    }
  }

  /**
   * The name stored for a topic comes from a title-supplying tagging: one with the
   * latest date of that topic, the first scanned among equally late ones.
   */
  lemma {:induction false} LatestIndex(ts: seq<Tagging>, t: int) returns (k: nat)
    requires t in LatestNames(ts)
    ensures IsLatest(ts, k) && ts[k].id == t
    ensures LatestNames(ts)[t] == (ts[k].date, ts[k].name)
  {
    var init, e := ts[..|ts| - 1], ts[|ts| - 1];
    assert forall j :: 0 <= j < |init| ==> ts[j] == init[j];
    var m := LatestNames(init);
    if e.id == t && (t !in m || m[t].0 < e.date) {
      k := |ts| - 1;
      if t in m {
        var b := LatestIndex(init, t);
      } else {
        LatestNamesHasAll(init);
      }
    } else {
      k := LatestIndex(init, t);
    }
  }

  /**
   * The dictionary's key order lists each topic id scanned exactly once: its keys are
   * those of the name dictionary, without repeats.
   */
  lemma {:induction false} FirstAppearanceKeys(ts: seq<Tagging>)
    ensures Distinct(FirstAppearance(ts))
    ensures forall t :: t in FirstAppearance(ts) <==> t in LatestNames(ts)
  {
    if ts != [] {
      FirstAppearanceKeys(ts[..|ts| - 1]);
    }
  }

  /** Scanning one more tagging updates both dictionary views as `index_by_topic` does. */
  lemma ScanStep(ts: seq<Tagging>, e: Tagging)
    ensures LatestNames(ts + [e]) ==
              if e.id !in LatestNames(ts) || LatestNames(ts)[e.id].0 < e.date
              then LatestNames(ts)[e.id := (e.date, e.name)] else LatestNames(ts)
    ensures FirstAppearance(ts + [e]) ==
              if e.id in LatestNames(ts) then FirstAppearance(ts) else FirstAppearance(ts) + [e.id]
  {
    assert (ts + [e])[..|ts|] == ts;
    FirstAppearanceKeys(ts);
  }

  /** A set with no element is empty (lets `:|` pick from a non-empty set). */
  lemma EmptyWithoutElements(s: set<int>)
    ensures (forall x :: x !in s) ==> s == {}
  {
    if forall x :: x !in s {
      assert s == {};
    }
  }

  /**
   * `for topic in topics: topic_area_reports[topic].append(report)`: the report is
   * appended to the list of each of its topics and to no other list.
   */
  method AppendToTopics(lists: map<int, seq<Report>>, topics: set<int>, report: Report)
    returns (lists': map<int, seq<Report>>)
    ensures forall t :: Get(lists', t) == Get(lists, t) + (if t in topics then [report] else [])
  {
    lists' := lists;
    var pending := topics;
    while pending != {}
      invariant pending <= topics
      invariant forall t :: Get(lists', t) == Get(lists, t) + (if t in topics - pending then [report] else [])
    {
      EmptyWithoutElements(pending);
      var t :| t in pending;
      lists' := lists'[t := Get(lists', t) + [report]];
      pending := pending - {t};
    }
  }

  /** Regrouping the scanned taggings; called to keep the loop proofs below small. */
  lemma AppendAssoc(a: seq<Tagging>, b: seq<Tagging>, c: seq<Tagging>)
    ensures (a + b) + c == a + (b + c)
  {
  }

  /**
   * The innermost loop of `index_by_topic` over one version's topic pairs: each id joins
   * the report's `topics`, and its dictionary entry is set when the id is new or the
   * version is strictly newer than the recorded date.
   */
  method ScanVersion(version: Version, names: map<int, (int, string)>, keys: seq<int>, topics: set<int>,
                     ghost ts: seq<Tagging>)
    returns (names': map<int, (int, string)>, keys': seq<int>, topics': set<int>)
    requires names == LatestNames(ts) && keys == FirstAppearance(ts)
    ensures names' == LatestNames(ts + VersionTaggings(version))
    ensures keys' == FirstAppearance(ts + VersionTaggings(version))
    ensures topics' == topics + TopicIdSet(version.topics)
    ensures forall t :: t in names' <==> t in names || t in TopicIdSet(version.topics)
  {
    names', keys', topics' := names, keys, topics;
    ghost var ts' := ts;
    var k := 0;
    assert version.topics[..k] == [];
    while k < |version.topics|
      invariant 0 <= k <= |version.topics|
      invariant ts' == ts + VersionTaggings(version)[..k]
      invariant names' == LatestNames(ts') && keys' == FirstAppearance(ts')
      invariant topics' == topics + TopicIdSet(version.topics[..k])
      invariant forall t :: t in names' <==> t in names || t in TopicIdSet(version.topics[..k])
    {
      var topic := version.topics[k];
      topics' := topics' + {topic.id};
      ghost var e := Tagging(topic.id, version.date, topic.name);
      ScanStep(ts', e);
      if topic.id !in names' || names'[topic.id].0 < version.date {
        if topic.id !in names' {
          keys' := keys' + [topic.id];
        }
        names' := names'[topic.id := (version.date, topic.name)];
      }
      VersionTaggingsSnoc(version, k);
      AppendAssoc(ts, VersionTaggings(version)[..k], [e]);
      ts' := ts' + [e];
      TopicIdSetSnoc(version.topics, k);
      k := k + 1;
    }
    assert version.topics[..k] == version.topics;
    assert VersionTaggings(version)[..k] == VersionTaggings(version);
  }

  /**
   * One report of `index_by_topic`'s outer loop, before its topic lists are extended:
   * scans all of its versions, collecting the ids it carries into `topics`.
   */
  method ScanReport(report: Report, names: map<int, (int, string)>, keys: seq<int>, ghost ts: seq<Tagging>)
    returns (names': map<int, (int, string)>, keys': seq<int>, topics: set<int>)
    requires names == LatestNames(ts) && keys == FirstAppearance(ts)
    ensures names' == LatestNames(ts + VersionsTaggings(report.versions))
    ensures keys' == FirstAppearance(ts + VersionsTaggings(report.versions))
    ensures topics == ReportIds(report)
    ensures forall t :: t in names' <==> t in names || t in topics
  {
    names', keys', topics := names, keys, {};
    ghost var ts' := ts;
    var j := 0;
    while j < |report.versions|
      invariant 0 <= j <= |report.versions|
      invariant ts' == ts + VersionsTaggings(report.versions[..j])
      invariant names' == LatestNames(ts') && keys' == FirstAppearance(ts')
      invariant topics == VersionsIds(report.versions[..j])
      invariant forall t :: t in names' <==> t in names || t in topics
    {
      var version := report.versions[j];
      names', keys', topics := ScanVersion(version, names', keys', topics, ts');
      VersionsSnoc(report.versions, j);
      AppendAssoc(ts, VersionsTaggings(report.versions[..j]), VersionTaggings(version));
      ts' := ts' + VersionTaggings(version);
      j := j + 1;
    }
    assert report.versions[..j] == report.versions;
  }

  /** Appending one report's topic set to the per-topic lists of the reports before it. */
  lemma ReportsTaggingSnoc(rs: seq<Report>, i: int, t: int)
    requires 0 <= i < |rs|
    ensures ReportsTagging(rs[..i + 1], t) == ReportsTagging(rs[..i], t) + (if t in ReportIds(rs[i]) then [rs[i]] else [])
  {
    assert rs[..i + 1][..i] == rs[..i];
  }

  /**
   * The accumulation loop of `index_by_topic` over all reports: the name dictionary,
   * its key order, and the per-topic report lists.
   */
  method Accumulate(reports: seq<Report>)
    returns (names: map<int, (int, string)>, keys: seq<int>, groupReports: map<int, seq<Report>>)
    ensures names == LatestNames(Taggings(reports)) && keys == FirstAppearance(Taggings(reports))
    ensures forall t :: t in names <==> t in AllTopicIds(reports)
    ensures forall t :: Get(groupReports, t) == ReportsTagging(reports, t)
  {
    names, keys, groupReports := map[], [], map[];
    ghost var ts: seq<Tagging> := [];
    var i := 0;
    while i < |reports|
      invariant 0 <= i <= |reports|
      invariant ts == Taggings(reports[..i])
      invariant names == LatestNames(ts) && keys == FirstAppearance(ts)
      invariant forall t :: t in names <==> t in AllTopicIds(reports[..i])
      invariant forall t :: Get(groupReports, t) == ReportsTagging(reports[..i], t)
    {
      var report := reports[i];
      var topics;
      names, keys, topics := ScanReport(report, names, keys, ts);
      ts := ts + VersionsTaggings(report.versions);
      groupReports := AppendToTopics(groupReports, topics, report);
      forall t
        ensures Get(groupReports, t) == ReportsTagging(reports[..i + 1], t)
      {
        ReportsTaggingSnoc(reports, i, t);
      }
      ReportsSnoc(reports, i);
      i := i + 1;
    }
    assert reports[..i] == reports;
  }

  /** The list comprehension building one `{"id", "title", "reports"}` entry per id. */
  function MakeGroups(ids: seq<int>, names: map<int, (int, string)>, lists: map<int, seq<Report>>): (gs: seq<TopicGroup>)
    requires forall y :: y in ids ==> y in names
    ensures |gs| == |ids|
    ensures forall n :: 0 <= n < |ids| ==> gs[n] == TopicGroup(ids[n], Title(names, ids[n]), Get(lists, ids[n]))
  {
    if ids == [] then []
    else [TopicGroup(ids[0], Title(names, ids[0]), Get(lists, ids[0]))] + MakeGroups(ids[1..], names, lists)
  }

  /** The groups' ids are the topic ids of the reports, each exactly once. */
  lemma GroupIdsExact(reports: seq<Report>, names: map<int, (int, string)>, keys: seq<int>, ids: seq<int>,
                      lists: map<int, seq<Report>>, groups: seq<TopicGroup>)
    requires keys == FirstAppearance(Taggings(reports))
    requires names == LatestNames(Taggings(reports))
    requires forall t :: t in names <==> t in AllTopicIds(reports)
    requires forall y :: y in keys ==> y in names
    requires ids == SortByTitle(keys, names)
    requires forall y :: y in ids ==> y in names
    requires groups == MakeGroups(ids, names, lists)
    ensures OneGroupPerTopic(groups, reports)
  {
    FirstAppearanceKeys(Taggings(reports));
    SortByTitleDistinct(keys, names);
    assert forall t :: t in ids <==> t in AllTopicIds(reports);
    forall n | 0 <= n < |groups|
      ensures groups[n].id in AllTopicIds(reports)
    {
      assert groups[n].id == ids[n];
    }
    forall t | t in AllTopicIds(reports)
      ensures exists n :: 0 <= n < |groups| && groups[n].id == t
    {
      assert t in ids;
      var n :| 0 <= n < |ids| && ids[n] == t;
      assert groups[n].id == t;
    }
    forall m, n | 0 <= m < n < |groups|
      ensures groups[m].id != groups[n].id
    {
      assert groups[m].id == ids[m] && groups[n].id == ids[n];
    }
  }

  /** Each group lists exactly the reports carrying its topic, in loader order. */
  lemma GroupReportsExact(reports: seq<Report>, names: map<int, (int, string)>, ids: seq<int>,
                          lists: map<int, seq<Report>>, groups: seq<TopicGroup>)
    requires forall t :: Get(lists, t) == ReportsTagging(reports, t)
    requires forall y :: y in ids ==> y in names
    requires groups == MakeGroups(ids, names, lists)
    ensures GroupsListReports(groups, reports)
  {
  }

  /** Each group's title is the name of its topic's title-supplying tagging. */
  lemma GroupTitlesLatest(reports: seq<Report>, names: map<int, (int, string)>, ids: seq<int>,
                          lists: map<int, seq<Report>>, groups: seq<TopicGroup>)
    requires names == LatestNames(Taggings(reports))
    requires forall y :: y in ids ==> y in names
    requires groups == MakeGroups(ids, names, lists)
    ensures GroupsTitledLatest(groups, Taggings(reports))
  {
    var ts := Taggings(reports);
    forall n | 0 <= n < |groups|
      ensures exists k :: IsLatest(ts, k) && ts[k].id == groups[n].id && ts[k].name == groups[n].title
    {
      var k := LatestIndex(ts, ids[n]);
      assert IsLatest(ts, k) && ts[k].id == groups[n].id && ts[k].name == groups[n].title;
    }
  }

  /** Groups come sorted by title, equal titles in order of their topic's first appearance. */
  lemma GroupsOrdered(reports: seq<Report>, names: map<int, (int, string)>, keys: seq<int>, ids: seq<int>,
                      lists: map<int, seq<Report>>, groups: seq<TopicGroup>)
    requires keys == FirstAppearance(Taggings(reports))
    requires forall y :: y in keys ==> y in names
    requires ids == SortByTitle(keys, names)
    requires forall y :: y in ids ==> y in names
    requires groups == MakeGroups(ids, names, lists)
    ensures GroupsSorted(groups, keys)
  {
    FirstAppearanceKeys(Taggings(reports));
    SortByTitleOrdered(keys, names);
  }

  /**
   * `index_by_topic(reports)`: one group per distinct topic id, titled by the topic's
   * most recent name and listing, in loader order, every report that carries it;
   * groups ordered by title, ties in order of the topic's first appearance.
   */
  method IndexByTopic(reports: seq<Report>) returns (groups: seq<TopicGroup>)
    ensures OneGroupPerTopic(groups, reports)
    ensures GroupsListReports(groups, reports)
    ensures GroupsTitledLatest(groups, Taggings(reports))
    ensures GroupsSorted(groups, FirstAppearance(Taggings(reports)))
  {
    var names, keys, groupReports := Accumulate(reports);
    FirstAppearanceKeys(Taggings(reports));
    var sortedIds := SortByTitle(keys, names);
    SortByTitleDistinct(keys, names);
    groups := MakeGroups(sortedIds, names, groupReports);
    GroupIdsExact(reports, names, keys, sortedIds, groupReports, groups);
    GroupReportsExact(reports, names, sortedIds, groupReports, groups);
    GroupTitlesLatest(reports, names, sortedIds, groupReports, groups);
    GroupsOrdered(reports, names, keys, sortedIds, groupReports, groups);
  }
}
