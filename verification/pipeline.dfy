/** The body of `main` once its arguments are parsed: search, then resolve
    every identifier found, then lay out the two CSV files. */
module Pipeline {

  import opened Wrappers
  import opened Text
  import opened EntrezResponse
  import opened Resolver
  import opened Search

  /** What the run writes: the two maps `main` turns into CSV files. */
  datatype Report = Report(accessions: map<string, string>, failed: map<string, string>)

  /** One identifier the search returned, with the replies the fetch service
      gives it. */
  function JobsFor(ids: seq<string>, replies: string -> seq<Attempt>): (jobs: seq<Job>)
    ensures |jobs| == |ids|
    ensures forall i :: 0 <= i < |ids| ==> jobs[i] == Job(ids[i], replies(ids[i]))
  {
    seq(|ids|, i requires 0 <= i < |ids| => Job(ids[i], replies(ids[i])))
  }

  /** The report of resolving `ids` in order. */
  function ResolveAll(ids: seq<string>, replies: string -> seq<Attempt>, show: seq<string> -> string): Report {
    var r := Run(Outcomes(JobsFor(ids, replies)), show);
    Report(r.accessions, r.failed)
  }

  /** `ids` holds each identifier some keyword's answer returned, once. */
  ghost predicate SearchFound(ids: seq<string>, keywords: seq<string>, fromDate: string, toDate: string,
                              endpoint: Query -> Response)
  {
    && NoDuplicates(ids)
    && forall id :: id in ids <==>
         exists k :: 0 <= k < |keywords| && id in endpoint(QueryFor(keywords[k], fromDate, toDate)).idlist
  }

  /** A failed search yields no report. Otherwise the report is the
      resolution of the identifiers the search found, each once, in some
      order: every failed identifier was returned by the search, and every
      value of the accession map is an abstract line. */
  method SearchAndResolve(keywords: seq<string>, fromDate: string, toDate: string,
                          endpoint: Query -> Response, replies: string -> seq<Attempt>,
                          show: seq<string> -> string)
    returns (report: Option<Report>)
    ensures report.Some? <==> forall k :: 0 <= k < |keywords| ==>
      endpoint(QueryFor(keywords[k], fromDate, toDate)).status == StatusOk
    ensures report.Some? ==> forall id :: id in report.value.failed ==>
      exists k :: 0 <= k < |keywords| && id in endpoint(QueryFor(keywords[k], fromDate, toDate)).idlist
    ensures report.Some? ==> forall key :: key in report.value.accessions ==>
      StartsWith(report.value.accessions[key], AbstractMarker)
    ensures report.Some? ==> exists ids ::
      && SearchFound(ids, keywords, fromDate, toDate, endpoint)
      && report.value == ResolveAll(ids, replies, show)
  {
    var queried, ids := SearchInBioproject(keywords, fromDate, toDate, endpoint);
    if ids.None? {
      return None;
    }
    var jobs := JobsFor(ids.value, replies);
    var accessions, failed := ConvertIdsToAccessions(jobs, show);
    FailuresAreSubmitted(jobs, show);
    ResolvedAbstracts(jobs, show);
    forall id | id in failed
      ensures exists k :: 0 <= k < |keywords| && id in endpoint(QueryFor(keywords[k], fromDate, toDate)).idlist
    {
      var i :| 0 <= i < |jobs| && jobs[i].id == id;
      assert id in ids.value;
    }
    report := Some(Report(accessions, failed));
    assert SearchFound(ids.value, keywords, fromDate, toDate, endpoint);
    assert report.value == ResolveAll(ids.value, replies, show);
  }
}
