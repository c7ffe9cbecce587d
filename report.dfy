/**
 * What `main` decides per function and at the end: the summary record and its
 * status, the display limits of the sample and of the summary column, and the
 * overall verdict.
 */
module Report {
  import opened Wrappers
  import opened Text
  import opened JsonValues
  import opened Inspect

  datatype Status = Found | NoExpectedFields | NoLogs

  /** One entry of `results_summary`. A NO_LOGS entry has no missing list in the source;
      here it is empty. */
  datatype SummaryRecord = SummaryRecord(
    name: string,
    logsFound: nat,
    fieldsFound: seq<string>,
    fieldsMissing: seq<string>,
    status: Status)

  /** The summary record for one function whose search returned `logs`; the first entry
      is serialised with `dumps` (`json.dumps`). */
  function Classify(name: string, expected: seq<string>, logs: seq<Json>, dumps: Json -> string)
    : (r: SummaryRecord)
    ensures r.name == name && r.logsFound == |logs|
    ensures r.status == NoLogs <==> logs == []
    ensures logs == [] ==> r.fieldsFound == [] && r.fieldsMissing == []
    ensures r.status == Found <==> r.fieldsFound != []
  {
    if logs == [] then SummaryRecord(name, 0, [], [], NoLogs)
    else
      var results := FieldResults(dumps(logs[0]), expected);
      var found := FoundFields(results);
      SummaryRecord(name, |logs|, found, MissingFields(results),
                    if found != [] then Found else NoExpectedFields)
  }

  /** When logs were found, found and missing split the expected fields by whether they
      match the first entry: disjoint, each distinct field once, in first-appearance
      order; and the status is FOUND exactly when some expected field matches. */
  lemma ClassifySplit(name: string, expected: seq<string>, logs: seq<Json>, dumps: Json -> string)
    requires logs != []
    ensures var r := Classify(name, expected, logs, dumps);
      var results := FieldResults(dumps(logs[0]), expected);
      IsSubsequence(r.fieldsFound, Keys(results)) && IsSubsequence(r.fieldsMissing, Keys(results))
      && multiset(r.fieldsFound) + multiset(r.fieldsMissing) == multiset(Keys(results))
      && (forall f :: f in r.fieldsFound <==> f in expected && Matches(dumps(logs[0]), f))
      && (forall f :: f in r.fieldsMissing <==> f in expected && !Matches(dumps(logs[0]), f))
    ensures var r := Classify(name, expected, logs, dumps);
      r.status == Found <==> exists i :: 0 <= i < |expected| && Matches(dumps(logs[0]), expected[i])
  {
    var r := Classify(name, expected, logs, dumps);
    FieldSplit(dumps(logs[0]), expected);
    if exists i :: 0 <= i < |expected| && Matches(dumps(logs[0]), expected[i]) {
      var i :| 0 <= i < |expected| && Matches(dumps(logs[0]), expected[i]);
      assert expected[i] in r.fieldsFound;
    }
    if r.fieldsFound != [] {
      assert r.fieldsFound[0] in r.fieldsFound;
    }
  }

  // ---------------------------------------------------------------------------
  // Display limits
  // ---------------------------------------------------------------------------

  /** Most sample lines printed per function. */
  const MaxSampleLines: nat := 30

  /** The sample as printed: its first lines and whether the truncation marker follows. */
  datatype SampleView = SampleView(shown: seq<string>, truncated: bool)

  function ViewSample(sample: string): (v: SampleView)
    ensures |v.shown| <= MaxSampleLines
    ensures |v.shown| <= |SplitLines(sample)| && v.shown == SplitLines(sample)[..|v.shown|]
    ensures v.truncated <==> |v.shown| < |SplitLines(sample)|
  {
    var lines := SplitLines(sample);
    SampleView(if |lines| <= MaxSampleLines then lines else lines[..MaxSampleLines],
               |lines| > MaxSampleLines)
  }

  /** The marker appears exactly when the sample holds 30 newlines or more, and a sample
      printed without it is shown whole. */
  lemma ViewSampleComplete(sample: string)
    ensures ViewSample(sample).truncated <==> CountNewlines(sample) >= MaxSampleLines
    ensures !ViewSample(sample).truncated ==> Join("\n", ViewSample(sample).shown) == sample
    ensures ViewSample(sample).truncated ==> |ViewSample(sample).shown| == MaxSampleLines
  {
    SplitLinesShape(sample);
    SplitLinesJoin(sample);
  }

  /** Widest text of the "Fields Found" column. */
  const ColumnWidth: nat := 28

  /** `", ".join(fields_found)[:28] or "none"` */
  function FieldsColumn(found: seq<string>): (c: string)
    ensures |c| <= ColumnWidth
    ensures c == "none" || (c != "" && |c| <= |Join(", ", found)| && c == Join(", ", found)[..|c|])
  {
    var joined := Take(Join(", ", found), ColumnWidth);
    if joined == "" then "none" else joined
  }

  /** The column is `none` exactly when the joined list is empty (in particular when no
      field was found), and otherwise the joined list cut to 28 characters. */
  lemma FieldsColumnShows(found: seq<string>)
    ensures found == [] ==> FieldsColumn(found) == "none"
    ensures Join(", ", found) == "" ==> FieldsColumn(found) == "none"
    ensures Join(", ", found) != "" ==>
      FieldsColumn(found) == Take(Join(", ", found), ColumnWidth)
      && |FieldsColumn(found)| == (if |Join(", ", found)| <= ColumnWidth then |Join(", ", found)| else ColumnWidth)
  {
  }

  // ---------------------------------------------------------------------------
  // Verdict
  // ---------------------------------------------------------------------------

  /** `sum(1 for r in results_summary if r["status"] == "FOUND")` */
  function FoundCount(summary: seq<SummaryRecord>): nat
  {
    if summary == [] then 0
    else (if summary[0].status == Found then 1 else 0) + FoundCount(summary[1..])
  }

  /** The functions listed after "Missing:", in list order. */
  function NotFoundNames(summary: seq<SummaryRecord>): seq<string>
  {
    if summary == [] then []
    else (if summary[0].status == Found then [] else [summary[0].name]) + NotFoundNames(summary[1..])
  }

  function Names(summary: seq<SummaryRecord>): (r: seq<string>)
    ensures |r| == |summary| && forall i :: 0 <= i < |summary| ==> r[i] == summary[i].name
  {
    if summary == [] then [] else [summary[0].name] + Names(summary[1..])
  }

  /** The three conclusions: all functions found, some (with the names of the others),
      none. */
  datatype Verdict = AllFound(total: nat) | Partial(found: nat, total: nat, missing: seq<string>) | NoneFound

  function Conclude(summary: seq<SummaryRecord>): Verdict
  {
    var found := FoundCount(summary);
    if found == |summary| then AllFound(|summary|)
    else if found > 0 then Partial(found, |summary|, NotFoundNames(summary))
    else NoneFound
  }

  /** The FOUND count is at most the total, equals it exactly when every record is
      FOUND, and is zero exactly when none is; the missing list has one name per other
      record, in order. */
  lemma {:induction false} FoundCountSpec(summary: seq<SummaryRecord>)
    ensures FoundCount(summary) <= |summary|
    ensures FoundCount(summary) == |summary| <==> forall i :: 0 <= i < |summary| ==> summary[i].status == Found
    ensures FoundCount(summary) == 0 <==> forall i :: 0 <= i < |summary| ==> summary[i].status != Found
    ensures |NotFoundNames(summary)| == |summary| - FoundCount(summary)
    ensures IsSubsequence(NotFoundNames(summary), Names(summary))
    ensures forall n :: n in NotFoundNames(summary) <==>
      exists i :: 0 <= i < |summary| && summary[i].name == n && summary[i].status != Found
  {
    if summary != [] {
      var t := summary[1..];
      FoundCountSpec(t);
      assert Names(summary) == [summary[0].name] + Names(t);
      SubsequenceKeeps(NotFoundNames(t), Names(t), summary[0].name, summary[0].status != Found);
      forall n ensures n in NotFoundNames(summary) <==>
        exists i :: 0 <= i < |summary| && summary[i].name == n && summary[i].status != Found
      {
        if n in NotFoundNames(t) {
          var i :| 0 <= i < |t| && t[i].name == n && t[i].status != Found;
          assert summary[i + 1] == t[i];
        }
        if exists i :: 0 <= i < |summary| && summary[i].name == n && summary[i].status != Found {
          var i :| 0 <= i < |summary| && summary[i].name == n && summary[i].status != Found;
          if i > 0 {
            assert t[i - 1] == summary[i];
          }
        }
      }
      if FoundCount(summary) == |summary| {
        forall i | 0 <= i < |summary| ensures summary[i].status == Found {
          if i > 0 { assert summary[i] == t[i - 1]; }
        }
      }
      if forall i :: 0 <= i < |summary| ==> summary[i].status == Found {
        assert forall i :: 0 <= i < |t| ==> t[i] == summary[i + 1];
      }
      if forall i :: 0 <= i < |summary| ==> summary[i].status != Found {
        assert forall i :: 0 <= i < |t| ==> t[i] == summary[i + 1];
      }
      if FoundCount(summary) == 0 {
        forall i | 0 <= i < |summary| ensures summary[i].status != Found {
          if i > 0 { assert summary[i] == t[i - 1]; }
        }
      }
    }
  }

  /** Counting and listing distribute over concatenation, and a single record counts
      once when FOUND and is listed by name otherwise: together these fix both results
      for every summary, repeated names included. */
  lemma {:induction false} SummaryAppend(a: seq<SummaryRecord>, b: seq<SummaryRecord>)
    ensures FoundCount(a + b) == FoundCount(a) + FoundCount(b)
    ensures NotFoundNames(a + b) == NotFoundNames(a) + NotFoundNames(b)
    ensures |a| == 1 ==> FoundCount(a) == (if a[0].status == Found then 1 else 0)
    ensures |a| == 1 ==> NotFoundNames(a) == (if a[0].status == Found then [] else [a[0].name])
  {
    if a != [] {
      assert (a + b)[1..] == a[1..] + b;
      SummaryAppend(a[1..], b);
      if |a| == 1 {
        assert a[1..] == [];
      }
    } else {
      assert a + b == b;
    }
  }

  /** Which verdict is printed: "all" exactly when every function is FOUND (also when
      there are none), "partial" exactly when some are and some are not, with the FOUND
      count and the others' names in order, and "none" exactly when there are functions
      and none is FOUND. */
  lemma ConcludeSpec(summary: seq<SummaryRecord>)
    ensures Conclude(summary).AllFound? <==>
      forall i :: 0 <= i < |summary| ==> summary[i].status == Found
    ensures Conclude(summary).Partial? <==>
      (exists i :: 0 <= i < |summary| && summary[i].status == Found)
      && (exists i :: 0 <= i < |summary| && summary[i].status != Found)
    ensures Conclude(summary).NoneFound? <==>
      summary != [] && forall i :: 0 <= i < |summary| ==> summary[i].status != Found
    ensures Conclude(summary).Partial? ==>
      var v := Conclude(summary);
      0 < v.found < v.total == |summary| && |v.missing| == v.total - v.found
      && IsSubsequence(v.missing, Names(summary))
      && forall n :: n in v.missing <==>
           exists i :: 0 <= i < |summary| && summary[i].name == n && summary[i].status != Found
    ensures Conclude(summary).Partial? ==>
      Conclude(summary).found == FoundCount(summary)
      && Conclude(summary).missing == NotFoundNames(summary)
  {
    FoundCountSpec(summary);
    if summary != [] && forall i :: 0 <= i < |summary| ==> summary[i].status != Found {
      assert summary[0].status != Found;
    }
  }
}
