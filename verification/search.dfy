/** `search_in_bioproject`: one E-utilities search per keyword within a
    registration-date window, the returned identifier lists pooled and
    deduplicated. A search answered with any status other than 200 aborts
    the whole search. */
module Search {

  import opened Wrappers
  import opened Text

  /** The only status the search accepts. */
  const StatusOk: int := 200

  /** One search request: the keyword phrase and the registration-date window
      that go into the query URL. */
  datatype Query = Query(phrase: string, fromDate: string, toDate: string)

  /** The search service's answer: the HTTP status and, in the JSON body, the
      `esearchresult.idlist` field. */
  datatype Response = Response(status: int, idlist: seq<string>)

  /** `"+".join(keyword.split(" "))`: the keyword with every space turned into
      a plus sign, every other character kept in place. */
  function KeywordPhrase(keyword: string): (phrase: string)
    ensures |phrase| == |keyword|
    ensures forall i :: 0 <= i < |keyword| ==>
      phrase[i] == (if keyword[i] == ' ' then '+' else keyword[i])
    ensures ' ' !in phrase
  {
    JoinSplitReplaces(keyword, ' ', '+');
    Join(Split(keyword, " "), "+")
  }

  function QueryFor(keyword: string, fromDate: string, toDate: string): Query {
    Query(KeywordPhrase(keyword), fromDate, toDate)
  }

  predicate NoDuplicates<T(==)>(s: seq<T>) {
    forall i, j :: 0 <= i < j < |s| ==> s[i] != s[j]
  }

  /** `list(set(xs))`: every element of `xs` once, in no particular order. */
  method Deduplicate<T(==)>(xs: seq<T>) returns (r: seq<T>)
    ensures NoDuplicates(r)
    ensures forall x :: x in r <==> x in xs
  {
    var pending := set x | x in xs;
    r := [];
    while pending != {}
      invariant NoDuplicates(r)
      invariant forall x :: x in r ==> x in xs && x !in pending
      invariant forall x :: x in xs ==> x in r || x in pending
      invariant forall x :: x in pending ==> x in xs
      decreases pending
    {
      var x :| x in pending;
      r := r + [x];
      pending := pending - {x};
    }
  }

  /** `id` is in the answer to one of the first `n` keywords' queries. */
  ghost predicate Answered(id: string, keywords: seq<string>, n: nat, fromDate: string, toDate: string,
                           endpoint: Query -> Response)
    requires n <= |keywords|
  {
    exists k :: 0 <= k < n && id in endpoint(QueryFor(keywords[k], fromDate, toDate)).idlist
  }

  /** Taking one more keyword's answer into the pool. */
  lemma AnsweredStep(id: string, keywords: seq<string>, n: nat, fromDate: string, toDate: string,
                     endpoint: Query -> Response)
    requires n < |keywords|
    ensures Answered(id, keywords, n + 1, fromDate, toDate, endpoint) <==>
      Answered(id, keywords, n, fromDate, toDate, endpoint) ||
      id in endpoint(QueryFor(keywords[n], fromDate, toDate)).idlist
  {
  }

  /** The loop of the search: each keyword's query in order, the answers'
      identifiers pooled, until a status other than 200. */
  method QueryInOrder(keywords: seq<string>, fromDate: string, toDate: string,
                      endpoint: Query -> Response)
    returns (queried: seq<Query>, pooled: Option<seq<string>>)
    ensures |queried| <= |keywords|
    ensures forall k :: 0 <= k < |queried| ==> queried[k] == QueryFor(keywords[k], fromDate, toDate)
    ensures forall k :: 0 <= k < |queried| - 1 ==> endpoint(queried[k]).status == StatusOk
    ensures pooled.Some? ==> |queried| == |keywords|
    ensures pooled.Some? ==> forall k :: 0 <= k < |queried| ==> endpoint(queried[k]).status == StatusOk
    ensures pooled.None? ==> |queried| > 0 && endpoint(queried[|queried| - 1]).status != StatusOk
    ensures pooled.Some? ==> forall id :: id in pooled.value <==>
      Answered(id, keywords, |keywords|, fromDate, toDate, endpoint)
  {
    var results: seq<string> := [];
    queried := [];
    var n := 0;
    while n < |keywords|
      invariant n <= |keywords| && |queried| == n
      invariant forall k :: 0 <= k < n ==> queried[k] == QueryFor(keywords[k], fromDate, toDate)
      invariant forall k :: 0 <= k < n ==> endpoint(queried[k]).status == StatusOk
      invariant forall id :: id in results <==> Answered(id, keywords, n, fromDate, toDate, endpoint)
    {
      var query := QueryFor(keywords[n], fromDate, toDate);
      var response := endpoint(query);
      queried := queried + [query];
      if response.status != StatusOk {
        return queried, None;
      }
      results := results + response.idlist;
      forall id ensures Answered(id, keywords, n + 1, fromDate, toDate, endpoint) <==> id in results {
        AnsweredStep(id, keywords, n, fromDate, toDate, endpoint);
      }
      n := n + 1;
    }
    pooled := Some(results);
  }

  /** The search: the keywords are queried in order through `endpoint`;
      `queried` lists the requests made. With every answer 200 the result
      holds each identifier of every answer exactly once; otherwise the
      search stops at the first other status, with no result and no request
      for the keywords after it. */
  method SearchInBioproject(keywords: seq<string>, fromDate: string, toDate: string,
                            endpoint: Query -> Response)
    returns (queried: seq<Query>, ids: Option<seq<string>>)
    ensures |queried| <= |keywords|
    ensures forall k :: 0 <= k < |queried| ==> queried[k] == QueryFor(keywords[k], fromDate, toDate)
    ensures forall k :: 0 <= k < |queried| - 1 ==> endpoint(queried[k]).status == StatusOk
    ensures ids.Some? <==> forall k :: 0 <= k < |keywords| ==>
      endpoint(QueryFor(keywords[k], fromDate, toDate)).status == StatusOk
    ensures ids.Some? ==> |queried| == |keywords|
    ensures ids.None? ==> |queried| > 0 && endpoint(queried[|queried| - 1]).status != StatusOk
    ensures ids.Some? ==> NoDuplicates(ids.value)
    ensures ids.Some? ==> forall id :: id in ids.value <==>
      exists k :: 0 <= k < |keywords| && id in endpoint(QueryFor(keywords[k], fromDate, toDate)).idlist
  {
    var pooled;
    queried, pooled := QueryInOrder(keywords, fromDate, toDate, endpoint);
    if pooled.None? {
      return queried, None;
    }
    var unique := Deduplicate(pooled.value);
    ids := Some(unique);
  }
}
