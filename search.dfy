/**
 * `search_logs`: the search request built for one function, and how the two
 * failure paths of the HTTP call collapse into the empty result.
 */
module Search {
  import opened Wrappers
  import opened Text
  import opened JsonValues
  import opened EnvFile

  const SearchUrl: string := "https://api.datadoghq.com/api/v2/logs/events/search"

  /** Seconds in the seven-day search window. */
  const Week: int := 7 * 24 * 60 * 60

  const QueryPrefix: string := "env:prod \"handled request for "

  /** The full-text query for one function name. */
  function Query(name: string): string
  {
    QueryPrefix + name + "\""
  }

  /** Reads the function name back out of a query, if it has the query's shape. */
  function QueryName(q: string): Option<string>
  {
    if |q| > |QueryPrefix| && q[..|QueryPrefix|] == QueryPrefix && q[|q| - 1] == '"'
    then Some(q[|QueryPrefix|..|q| - 1])
    else None
  }

  /** Partner of `Query`: the name can always be read back from its query. */
  lemma QueryRoundTrip(name: string)
    ensures QueryName(Query(name)) == Some(name)
  {
    var q := Query(name);
    assert q[..|QueryPrefix|] == QueryPrefix;
    assert q[|QueryPrefix|..|q| - 1] == name;
  }

  /** Different functions get different queries. */
  lemma QueryInjective(a: string, b: string)
    requires Query(a) == Query(b)
    ensures a == b
  {
    QueryRoundTrip(a);
    QueryRoundTrip(b);
  }

  /** The query holds the environment filter and the exact phrase for the function. */
  lemma QueryMentions(name: string)
    ensures Contains(Query(name), "env:prod")
    ensures Contains(Query(name), "handled request for " + name)
  {
    var q := Query(name);
    assert OccursAt("env:prod", q, 0) by {
      assert q[..8] == "env:prod";
    }
    assert OccursAt("handled request for " + name, q, 10) by {
      assert q[10..10 + |"handled request for " + name|] == "handled request for " + name;
    }
  }

  /** The POST request of one search: query, time window in seconds, sort, page size,
      and the two credential headers. */
  datatype SearchRequest = SearchRequest(
    url: string,
    query: string,
    fromTime: int,
    toTime: int,
    sort: string,
    limit: int,
    apiKey: string,
    appKey: string)

  /** The request `search_logs(name, limit)` sends when the clock reads `now` (seconds). */
  function BuildRequest(creds: Credentials, name: string, limit: int, now: int): (r: SearchRequest)
    ensures r.url == SearchUrl
    ensures QueryName(r.query) == Some(name)
    ensures r.toTime == now && r.toTime - r.fromTime == Week
    ensures r.sort == "-timestamp" && r.limit == limit
    ensures r.apiKey == creds.apiKey && r.appKey == creds.appKey
  {
    QueryRoundTrip(name);
    SearchRequest(SearchUrl, Query(name), now - Week, now, "-timestamp", limit, creds.apiKey, creds.appKey)
  }

  /** What the HTTP call can come back with: a decoded body, an HTTP error (status code
      and the error body, absent when the error has no readable body), or a transport
      error with its reason. */
  datatype HttpOutcome =
    | Response(body: Json)
    | HttpError(code: int, errorBody: Option<string>)
    | UrlError(reason: string)

  /** `{"data": []}` */
  const EmptyResult: Json := JObj(map["data" := JArr([])])

  /** The value `search_logs` returns for an outcome. */
  function SearchLogs(outcome: HttpOutcome): Json
  {
    match outcome
    case Response(body) => body
    case HttpError(_, _) => EmptyResult
    case UrlError(_) => EmptyResult
  }

  /** The error body printed after an HTTP error: the first 500 characters, or nothing
      when there is no body. */
  function ErrorBodyShown(errorBody: Option<string>): (r: string)
    ensures |r| <= 500
    ensures errorBody.None? ==> r == ""
    ensures errorBody.Some? ==> |r| <= |errorBody.value| && r == errorBody.value[..|r|]
    ensures errorBody.Some? && |errorBody.value| <= 500 ==> r == errorBody.value
    ensures errorBody.Some? && |errorBody.value| > 500 ==> r == errorBody.value[..500]
  {
    match errorBody
    case None => ""
    case Some(body) => Take(body, 500)
  }

  /** `response.get("data", [])` as the list of log entries. */
  function LogsOf(response: Json): seq<Json>
  {
    match response
    case JObj(m) => if "data" in m && m["data"].JArr? then m["data"].items else []
    case _ => []
  }

  /** Both failure paths give the same result, and it holds no log entries. */
  lemma FailuresYieldNoLogs(outcome: HttpOutcome)
    requires !outcome.Response?
    ensures SearchLogs(outcome) == EmptyResult
    ensures LogsOf(SearchLogs(outcome)) == []
  {
  }
}
