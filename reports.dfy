/**
 * The loaded report metadata. Timestamps are already parsed: a date is an integer
 * standing for the parsed `datetime` (only its total order is used).
 */
module Reports {

  /** One `[topic_id, topic_name]` pair of a version's `topics`. */
  datatype Topic = Topic(id: int, name: string)

  /** One `{format, filename}` entry of a version's `formats`. */
  datatype Format = Format(format: string, filename: string)

  datatype Version = Version(date: int, fetched: int, topics: seq<Topic>, formats: seq<Format>)

  datatype Report = Report(number: string, versions: seq<Version>)

  /** An entry of the topic index: `{"id", "title", "reports"}`. */
  datatype TopicGroup = TopicGroup(id: int, title: string, reports: seq<Report>)

  /** One topic assignment met while scanning, carrying the date of its version. */
  datatype Tagging = Tagging(id: int, date: int, name: string)

  /** The taggings of one version, in the order of its `topics`. */
  function VersionTaggings(v: Version): seq<Tagging>
  {
    seq(|v.topics|, k requires 0 <= k < |v.topics| => Tagging(v.topics[k].id, v.date, v.topics[k].name))
  }

  /** The taggings of a list of versions, version by version. */
  function VersionsTaggings(vs: seq<Version>): seq<Tagging>
  {
    if vs == [] then [] else VersionsTaggings(vs[..|vs| - 1]) + VersionTaggings(vs[|vs| - 1])
  }

  /**
   * Every topic assignment of every report in scan order: report order, then
   * version order, then topic order.
   */
  function Taggings(rs: seq<Report>): seq<Tagging>
  {
    if rs == [] then [] else Taggings(rs[..|rs| - 1]) + VersionsTaggings(rs[|rs| - 1].versions)
  }

  /** The topic ids a list of topic pairs mentions. */
  function TopicIdSet(tps: seq<Topic>): set<int>
  {
    set tp | tp in tps :: tp.id
  }

  /** The topic ids any of the versions mentions. */
  function VersionsIds(vs: seq<Version>): set<int>
  {
    if vs == [] then {} else VersionsIds(vs[..|vs| - 1]) + TopicIdSet(vs[|vs| - 1].topics)
  }

  /** The distinct topic ids of a report, over all of its versions. */
  function ReportIds(r: Report): set<int>
  {
    VersionsIds(r.versions)
  }

  /** Whether some version of the report lists topic `t`. */
  predicate Tags(r: Report, t: int)
  {
    t in ReportIds(r)
  }

  /** The topic ids any version of any report mentions. */
  function AllTopicIds(rs: seq<Report>): set<int>
  {
    if rs == [] then {} else AllTopicIds(rs[..|rs| - 1]) + ReportIds(rs[|rs| - 1])
  }

  /** A version of the report lists topic `t`: the plain reading of `Tags`. */
  ghost predicate ListsTopic(r: Report, t: int)
  {
    exists v, tp :: v in r.versions && tp in v.topics && tp.id == t
  }

  lemma {:induction false} VersionsIdsSound(vs: seq<Version>, t: int)
    ensures t in VersionsIds(vs) <==> exists v, tp :: v in vs && tp in v.topics && tp.id == t
  {
    if vs != [] {
      var init, last := vs[..|vs| - 1], vs[|vs| - 1];
      assert vs == init + [last];
      VersionsIdsSound(init, t);
      if t in TopicIdSet(last.topics) {
        var tp :| tp in last.topics && tp.id == t;
        assert last in vs;
      }
      if exists v, tp :: v in vs && tp in v.topics && tp.id == t {
        var v, tp :| v in vs && tp in v.topics && tp.id == t;
        if v != last {
          assert v in init;
        } else {
          assert t in TopicIdSet(last.topics);
        }
      }
    }
  }

  /** `Tags` means exactly that some version of the report lists the topic. */
  lemma TagsIffListed(r: Report, t: int)
    ensures Tags(r, t) <==> ListsTopic(r, t)
  {
    VersionsIdsSound(r.versions, t);
  }

  /** `AllTopicIds` holds exactly the ids that some version of some report lists. */
  lemma {:induction false} AllTopicIdsSound(rs: seq<Report>, t: int)
    ensures t in AllTopicIds(rs) <==> exists r :: r in rs && ListsTopic(r, t)
  {
    if rs != [] {
      var init, last := rs[..|rs| - 1], rs[|rs| - 1];
      assert rs == init + [last];
      AllTopicIdsSound(init, t);
      TagsIffListed(last, t);
      if exists r :: r in rs && ListsTopic(r, t) {
        var r :| r in rs && ListsTopic(r, t);
        if r != last {
          assert r in init;
        }
      }
    }
  }

  // Unfolding the scan-order functions by one element.

  lemma TopicIdSetSnoc(tps: seq<Topic>, k: int)
    requires 0 <= k < |tps|
    ensures TopicIdSet(tps[..k + 1]) == TopicIdSet(tps[..k]) + {tps[k].id}
  {
    assert tps[..k + 1] == tps[..k] + [tps[k]];
  }

  lemma VersionsSnoc(vs: seq<Version>, j: int)
    requires 0 <= j < |vs|
    ensures VersionsTaggings(vs[..j + 1]) == VersionsTaggings(vs[..j]) + VersionTaggings(vs[j])
    ensures VersionsIds(vs[..j + 1]) == VersionsIds(vs[..j]) + TopicIdSet(vs[j].topics)
  {
    assert vs[..j + 1][..j] == vs[..j];
  }

  lemma ReportsSnoc(rs: seq<Report>, i: int)
    requires 0 <= i < |rs|
    ensures Taggings(rs[..i + 1]) == Taggings(rs[..i]) + VersionsTaggings(rs[i].versions)
    ensures AllTopicIds(rs[..i + 1]) == AllTopicIds(rs[..i]) + ReportIds(rs[i])
  {
    assert rs[..i + 1][..i] == rs[..i];
  }

  lemma VersionTaggingsSnoc(v: Version, k: int)
    requires 0 <= k < |v.topics|
    ensures VersionTaggings(v)[..k + 1] == VersionTaggings(v)[..k] + [Tagging(v.topics[k].id, v.date, v.topics[k].name)]
  {
  }
}
