/**
 * The script as a whole: credentials first, then one search and one
 * classification per API function in list order, then the verdict.
 */
module Script {
  import opened Wrappers
  import opened JsonValues
  import opened EnvFile
  import opened Search
  import opened Inspect
  import opened Report

  /** One API function to verify: its name, the fields expected in its logs, and what
      it does. */
  datatype FunctionSpec = FunctionSpec(name: string, expectedFields: seq<string>, description: string)

  /** What the outside world supplies to one search: the clock reading, in seconds, when
      the request is built, and how the HTTP call ends. */
  datatype SearchWorld = SearchWorld(now: int, outcome: HttpOutcome)

  /** Page size `main` asks for. */
  const SearchLimit: int := 3

  /** The entries a function's search yields. */
  function LogsFor(world: SearchWorld): seq<Json>
  {
    LogsOf(SearchLogs(world.outcome))
  }

  /** Extracting the sample of the function's first entry raises. */
  predicate SampleRaises(logs: seq<Json>, render: Json -> string) {
    logs != [] && ExtractResponseBody(logs[0], render).None?
  }

  /** `record` is what `main` appends for a function whose search yields `logs`, and
      extracting the sample does not raise. */
  predicate Recorded(api: FunctionSpec, logs: seq<Json>, record: SummaryRecord,
                     dumps: Json -> string, render: Json -> string)
  {
    !SampleRaises(logs, render) && record == Classify(api.name, api.expectedFields, logs, dumps)
  }

  /** One pass of `main`'s loop after the search: the function's summary record, or
      `raised` when extracting the sample of its first entry raises. */
  method CheckFunction(api: FunctionSpec, logs: seq<Json>, dumps: Json -> string, render: Json -> string)
    returns (record: SummaryRecord, raised: bool)
    ensures raised == SampleRaises(logs, render)
    ensures !raised ==> Recorded(api, logs, record, dumps, render)
  {
    raised := false;
    if |logs| == 0 {
      record := SummaryRecord(api.name, 0, [], [], NoLogs);
      return;
    }
    var fieldResults := CheckFieldsInResponse(dumps(logs[0]), api.expectedFields);
    var found := FoundFields(fieldResults);
    var missing := MissingFields(fieldResults);
    var sample := ExtractResponseBody(logs[0], render);
    raised := sample.None?;
    record := SummaryRecord(api.name, |logs|, found, missing,
                            if found != [] then Found else NoExpectedFields);
  }

  /** The loop of `main` over the functions: one search each, the summary record
      appended, until the end or until a sample extraction raises. */
  method VerifyFunctions(creds: Credentials, apis: seq<FunctionSpec>, worlds: seq<SearchWorld>,
                         dumps: Json -> string, render: Json -> string)
    returns (requests: seq<SearchRequest>, summary: seq<SummaryRecord>, raised: bool)
    requires |worlds| == |apis|
    ensures |summary| <= |apis|
    ensures |requests| == (if raised then |summary| + 1 else |apis|)
    ensures !raised ==> |summary| == |apis|
    ensures raised ==> |summary| < |apis| && SampleRaises(LogsFor(worlds[|summary|]), render)
    ensures forall i :: 0 <= i < |requests| ==>
      requests[i] == BuildRequest(creds, apis[i].name, SearchLimit, worlds[i].now)
    ensures forall i :: 0 <= i < |summary| ==>
      Recorded(apis[i], LogsFor(worlds[i]), summary[i], dumps, render)
  {
    requests, summary, raised := [], [], false;
    while |summary| < |apis| && !raised
      invariant |summary| <= |apis|
      invariant |requests| == (if raised then |summary| + 1 else |summary|)
      invariant raised ==> |summary| < |apis| && SampleRaises(LogsFor(worlds[|summary|]), render)
      invariant forall i :: 0 <= i < |requests| ==>
        requests[i] == BuildRequest(creds, apis[i].name, SearchLimit, worlds[i].now)
      invariant forall i :: 0 <= i < |summary| ==>
        Recorded(apis[i], LogsFor(worlds[i]), summary[i], dumps, render)
      decreases |apis| - |summary|, if raised then 0 else 1
    {
      var k := |summary|;
      var api := apis[k];
      requests := requests + [BuildRequest(creds, api.name, SearchLimit, worlds[k].now)];
      var response := SearchLogs(worlds[k].outcome);
      var logs := LogsOf(response);
      var record, failed := CheckFunction(api, logs, dumps, render);
      if failed {
        raised := true;
      } else {
        summary := summary + [record];
      }
    }
  }

  /** Everything one run produces: its exit status, the searches it issued, the summary
      table's records and the verdict printed at the end (absent when the run stops
      before the summary). */
  datatype RunResult = RunResult(
    exitCode: int,
    requests: seq<SearchRequest>,
    summary: seq<SummaryRecord>,
    verdict: Option<Verdict>)

  /** A run of the script, given the `.env` file's lines (empty when there is no file),
      the process environment, the functions to check, and one `SearchWorld` per
      function. */
  method Run(envLines: seq<string>, environ: map<string, string>, apis: seq<FunctionSpec>,
             worlds: seq<SearchWorld>, dumps: Json -> string, render: Json -> string)
    returns (result: RunResult)
    requires |worlds| == |apis|
    ensures LoadCredentials(EnvOf(envLines), environ).Failure? ==> result == RunResult(1, [], [], None)
    ensures LoadCredentials(EnvOf(envLines), environ).Success? ==>
      var creds := LoadCredentials(EnvOf(envLines), environ).value;
      (result.exitCode == 0 <==> forall i :: 0 <= i < |apis| ==> !SampleRaises(LogsFor(worlds[i]), render))
      && (forall i :: 0 <= i < |result.requests| ==>
            i < |apis| && result.requests[i] == BuildRequest(creds, apis[i].name, SearchLimit, worlds[i].now))
      && (result.exitCode == 0 ==>
            |result.requests| == |apis| && |result.summary| == |apis|
            && (forall i :: 0 <= i < |apis| ==>
                  result.summary[i] == Classify(apis[i].name, apis[i].expectedFields, LogsFor(worlds[i]), dumps))
            && result.verdict == Some(Conclude(result.summary)))
      && (result.exitCode != 0 ==> result.exitCode == 1 && result.verdict.None?)
    ensures LoadCredentials(EnvOf(envLines), environ).Success? && result.exitCode != 0 ==>
      var k := |result.summary|;
      k < |apis| && |result.requests| == k + 1
      && SampleRaises(LogsFor(worlds[k]), render)
      && forall i :: 0 <= i < k ==> Recorded(apis[i], LogsFor(worlds[i]), result.summary[i], dumps, render)
  {
    var envVars := LoadEnv(envLines);
    var credentials := LoadCredentials(envVars, environ);
    if credentials.Failure? {
      return RunResult(1, [], [], None);
    }
    var requests, summary, raised := VerifyFunctions(credentials.value, apis, worlds, dumps, render);
    if raised {
      return RunResult(1, requests, summary, None);
    }
    result := RunResult(0, requests, summary, Some(Conclude(summary)));
  }

  /** When every search fails, every function is NO_LOGS and, if there is at least one
      function, the verdict is "none". */
  lemma AllFailuresConcludeNone(apis: seq<FunctionSpec>, worlds: seq<SearchWorld>,
                                dumps: Json -> string, summary: seq<SummaryRecord>)
    requires |worlds| == |apis| && apis != []
    requires forall i :: 0 <= i < |worlds| ==> !worlds[i].outcome.Response?
    requires |summary| == |apis|
    requires forall i :: 0 <= i < |apis| ==>
      summary[i] == Classify(apis[i].name, apis[i].expectedFields, LogsFor(worlds[i]), dumps)
    ensures forall i :: 0 <= i < |summary| ==> summary[i].status == NoLogs
    ensures Conclude(summary) == NoneFound
  {
    forall i | 0 <= i < |summary| ensures summary[i].status == NoLogs {
      FailuresYieldNoLogs(worlds[i].outcome);
    }
    ConcludeSpec(summary);
  }

  /** When every function's first entry matches one of its expected fields, the verdict
      is "all". */
  lemma AllMatchesConcludeAll(apis: seq<FunctionSpec>, worlds: seq<SearchWorld>,
                              dumps: Json -> string, summary: seq<SummaryRecord>)
    requires |worlds| == |apis|
    requires forall i :: 0 <= i < |apis| ==>
      LogsFor(worlds[i]) != []
      && exists j :: 0 <= j < |apis[i].expectedFields|
           && Matches(dumps(LogsFor(worlds[i])[0]), apis[i].expectedFields[j])
    requires |summary| == |apis|
    requires forall i :: 0 <= i < |apis| ==>
      summary[i] == Classify(apis[i].name, apis[i].expectedFields, LogsFor(worlds[i]), dumps)
    ensures Conclude(summary) == AllFound(|apis|)
  {
    forall i | 0 <= i < |summary| ensures summary[i].status == Found {
      ClassifySplit(apis[i].name, apis[i].expectedFields, LogsFor(worlds[i]), dumps);
    }
    ConcludeSpec(summary);
    FoundCountSpec(summary);
  }
}
