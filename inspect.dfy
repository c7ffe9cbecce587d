/**
 * The field inspector (`check_fields_in_response`) and the content extractor
 * (`extract_response_body`) applied to the first log entry of a function.
 */
module Inspect {
  import opened Wrappers
  import opened Text
  import opened JsonValues

  // ---------------------------------------------------------------------------
  // Field check
  // ---------------------------------------------------------------------------

  /** `field.lower() in log_str`, where `log_str` is the lowered serialised entry. */
  predicate Matches(serialised: string, field: string) {
    Contains(Lower(serialised), Lower(field))
  }

  /** A field that appears verbatim in the serialised entry is found. */
  lemma MatchesVerbatim(serialised: string, field: string, i: nat)
    requires OccursAt(field, serialised, i)
    ensures Matches(serialised, field)
  {
    var low := Lower(serialised);
    assert low[i..i + |field|] == Lower(serialised[i..i + |field|]);
    assert OccursAt(Lower(field), low, i);
  }

  /** Letter case is irrelevant, both in the field name and in the entry. */
  lemma MatchesIgnoresCase(serialised: string, f: string, g: string)
    requires Lower(f) == Lower(g)
    ensures Matches(serialised, f) == Matches(serialised, g)
    ensures Matches(serialised, f) == Matches(Lower(serialised), f)
  {
    LowerIdempotent(serialised);
  }

  /** A Python dict from field name to found-status, in insertion order. */
  type FieldStatus = seq<(string, bool)>

  /** The dictionary's keys, in order. */
  function Keys(d: FieldStatus): (r: seq<string>)
    ensures |r| == |d| && forall i :: 0 <= i < |d| ==> r[i] == d[i].0
  {
    if d == [] then [] else [d[0].0] + Keys(d[1..])
  }

  predicate DistinctKeys(d: FieldStatus) {
    forall i, j :: 0 <= i < j < |d| ==> d[i].0 != d[j].0
  }

  /** `d[k] = v` on an insertion-ordered dict: an existing key keeps its place and takes
      the new value; a new key goes last. */
  function Put(d: FieldStatus, k: string, v: bool): FieldStatus
  {
    if d == [] then [(k, v)]
    else if d[0].0 == k then [(k, v)] + d[1..]
    else [d[0]] + Put(d[1..], k, v)
  }

  lemma {:induction false} PutSpec(d: FieldStatus, k: string, v: bool)
    requires DistinctKeys(d)
    ensures k in Keys(d) ==>
      |Put(d, k, v)| == |d|
      && forall i :: 0 <= i < |d| ==> Put(d, k, v)[i] == (if d[i].0 == k then (k, v) else d[i])
    ensures k !in Keys(d) ==> Put(d, k, v) == d + [(k, v)]
  {
    if d != [] && d[0].0 != k {
      assert DistinctKeys(d[1..]);
      assert Keys(d) == [d[0].0] + Keys(d[1..]);
      PutSpec(d[1..], k, v);
    } else if d != [] {
      assert Keys(d)[0] == k;
    }
  }

  /** The dictionary `check_fields_in_response` returns for the serialised entry. */
  function FieldResults(serialised: string, fields: seq<string>): FieldStatus
  {
    if fields == [] then []
    else
      var f := fields[|fields| - 1];
      Put(FieldResults(serialised, fields[..|fields| - 1]), f, Matches(serialised, f))
  }

  /** `check_fields_in_response`, given `json.dumps(log_entry)` as `serialised`. */
  method CheckFieldsInResponse(serialised: string, fields: seq<string>) returns (results: FieldStatus)
    ensures results == FieldResults(serialised, fields)
  {
    var logStr := Lower(serialised);
    results := [];
    var i := 0;
    while i < |fields|
      invariant 0 <= i <= |fields|
      invariant results == FieldResults(serialised, fields[..i])
    {
      assert fields[..i + 1][..i] == fields[..i];
      var field := fields[i];
      results := Put(results, field, Contains(logStr, Lower(field)));
      i := i + 1;
    }
    assert fields[..i] == fields;
  }

  /** One entry per distinct expected field, and no other. */
  lemma {:induction false} FieldResultsKeys(serialised: string, fields: seq<string>)
    ensures var r := FieldResults(serialised, fields);
      DistinctKeys(r) && forall f :: f in Keys(r) <==> f in fields
  {
    if fields != [] {
      var n := |fields|;
      var init := fields[..n - 1];
      var f := fields[n - 1];
      FieldResultsKeys(serialised, init);
      var prev := FieldResults(serialised, init);
      PutSpec(prev, f, Matches(serialised, f));
      assert fields == init + [f];
      if f in Keys(prev) {
        assert Keys(FieldResults(serialised, fields)) == Keys(prev);
      } else {
        assert Keys(FieldResults(serialised, fields)) == Keys(prev) + [f];
      }
    }
  }

  /** Each entry says whether its field matches the serialised entry. */
  lemma {:induction false} FieldResultsValues(serialised: string, fields: seq<string>)
    ensures var r := FieldResults(serialised, fields);
      forall i :: 0 <= i < |r| ==> r[i].1 == Matches(serialised, r[i].0)
  {
    if fields != [] {
      var n := |fields|;
      var init := fields[..n - 1];
      var f := fields[n - 1];
      FieldResultsKeys(serialised, init);
      FieldResultsValues(serialised, init);
      PutSpec(FieldResults(serialised, init), f, Matches(serialised, f));
    }
  }

  /** Entries come in the order in which their fields first appear in the expected list:
      every occurrence of a later entry's field is preceded by an earlier entry's field. */
  lemma {:induction false} FieldResultsOrder(serialised: string, fields: seq<string>)
    ensures var r := FieldResults(serialised, fields);
      forall i, j, p :: 0 <= i < j < |r| && 0 <= p < |fields| && fields[p] == r[j].0
        ==> r[i].0 in fields[..p]
  {
    if fields != [] {
      var n := |fields|;
      var init := fields[..n - 1];
      var f := fields[n - 1];
      var prev := FieldResults(serialised, init);
      FieldResultsKeys(serialised, init);
      FieldResultsOrder(serialised, init);
      PutSpec(prev, f, Matches(serialised, f));
      var r := FieldResults(serialised, fields);
      assert fields == init + [f];
      forall i, j, p | 0 <= i < j < |r| && 0 <= p < n && fields[p] == r[j].0
        ensures r[i].0 in fields[..p]
      {
        assert i < |prev|;
        assert r[i].0 == prev[i].0 == Keys(prev)[i];
        if p == n - 1 {
          assert fields[..p] == init;
        } else {
          assert init[p] == fields[p];
          assert init[..p] == fields[..p];
          if j < |prev| {
            assert r[j].0 == prev[j].0;
          } else {
            assert false;
          }
        }
      }
    }
  }

  // ---------------------------------------------------------------------------
  // Found / missing partition
  // ---------------------------------------------------------------------------

  /** `[f for f, found in results.items() if found]` */
  function FoundFields(d: FieldStatus): seq<string>
  {
    if d == [] then []
    else (if d[0].1 then [d[0].0] else []) + FoundFields(d[1..])
  }

  /** `[f for f, found in results.items() if not found]` */
  function MissingFields(d: FieldStatus): seq<string>
  {
    if d == [] then []
    else (if d[0].1 then [] else [d[0].0]) + MissingFields(d[1..])
  }

  /** `a` is `b` with some elements left out, the rest in the same order. */
  predicate IsSubsequence(a: seq<string>, b: seq<string>)
  {
    a == [] || (b != [] && ((a[0] == b[0] && IsSubsequence(a[1..], b[1..])) || IsSubsequence(a, b[1..])))
  }

  /** Found and missing keep the dictionary's order. */
  lemma {:induction false} PartitionOrder(d: FieldStatus)
    ensures IsSubsequence(FoundFields(d), Keys(d)) && IsSubsequence(MissingFields(d), Keys(d))
  {
    if d != [] {
      var t := d[1..];
      PartitionOrder(t);
      assert Keys(d) == [d[0].0] + Keys(t);
      SubsequenceKeeps(FoundFields(t), Keys(t), d[0].0, d[0].1);
      SubsequenceKeeps(MissingFields(t), Keys(t), d[0].0, !d[0].1);
    }
  }

  /** Found and missing together hold every key exactly as often as the dictionary does. */
  lemma {:induction false} PartitionCount(d: FieldStatus)
    ensures multiset(FoundFields(d)) + multiset(MissingFields(d)) == multiset(Keys(d))
  {
    if d != [] {
      var t := d[1..];
      PartitionCount(t);
      assert Keys(d) == [d[0].0] + Keys(t);
      assert FoundFields(d) == (if d[0].1 then [d[0].0] else []) + FoundFields(t);
      assert MissingFields(d) == (if d[0].1 then [] else [d[0].0]) + MissingFields(t);
    }
  }

  /** With distinct keys, found holds exactly the keys marked true and missing exactly
      those marked false, so no key is in both. */
  lemma {:induction false} PartitionMembers(d: FieldStatus)
    requires DistinctKeys(d)
    ensures forall i :: 0 <= i < |d| ==> (d[i].1 <==> d[i].0 in FoundFields(d))
    ensures forall i :: 0 <= i < |d| ==> (!d[i].1 <==> d[i].0 in MissingFields(d))
    ensures forall f :: f in FoundFields(d) ==> f !in MissingFields(d)
  {
    if d != [] {
      var t := d[1..];
      assert DistinctKeys(t);
      PartitionMembers(t);
      PartitionOrder(t);
      SubsequenceIn(FoundFields(t), Keys(t));
      SubsequenceIn(MissingFields(t), Keys(t));
      assert d[0].0 !in Keys(t);
      forall i | 0 < i < |d|
        ensures (d[i].1 <==> d[i].0 in FoundFields(d))
        ensures (!d[i].1 <==> d[i].0 in MissingFields(d))
      {
        assert d[i] == t[i - 1];
      }
      forall f | f in FoundFields(d) ensures f !in MissingFields(d) {
        if f == d[0].0 {
          assert f !in FoundFields(t) && f !in MissingFields(t);
        } else {
          assert f in FoundFields(t);
        }
      }
    }
  }

  lemma SubsequenceKeeps(a: seq<string>, b: seq<string>, x: string, keep: bool)
    requires IsSubsequence(a, b)
    ensures IsSubsequence((if keep then [x] else []) + a, [x] + b)
  {
    assert ([x] + b)[1..] == b;
    if keep {
      assert ([x] + a)[1..] == a;
    } else {
      assert [] + a == a;
    }
  }

  lemma {:induction false} SubsequenceIn(a: seq<string>, b: seq<string>)
    requires IsSubsequence(a, b)
    ensures forall x :: x in a ==> x in b
  {
    if a != [] {
      if a[0] == b[0] && IsSubsequence(a[1..], b[1..]) {
        SubsequenceIn(a[1..], b[1..]);
        assert forall x :: x in a ==> x == a[0] || x in a[1..];
      } else {
        SubsequenceIn(a, b[1..]);
      }
    }
  }

  /** The split the per-function summary reports: found holds exactly the expected
      fields that match, missing exactly those that do not, each listed once, in order
      of first appearance in the expected list. */
  lemma FieldSplit(serialised: string, fields: seq<string>)
    ensures var r := FieldResults(serialised, fields);
      IsSubsequence(FoundFields(r), Keys(r)) && IsSubsequence(MissingFields(r), Keys(r))
      && multiset(FoundFields(r)) + multiset(MissingFields(r)) == multiset(Keys(r))
    ensures forall f ::
      f in FoundFields(FieldResults(serialised, fields)) <==> f in fields && Matches(serialised, f)
    ensures forall f ::
      f in MissingFields(FieldResults(serialised, fields)) <==> f in fields && !Matches(serialised, f)
  {
    var r := FieldResults(serialised, fields);
    FieldResultsKeys(serialised, fields);
    FieldResultsValues(serialised, fields);
    PartitionOrder(r);
    PartitionCount(r);
    PartitionMembers(r);
    SubsequenceIn(FoundFields(r), Keys(r));
    SubsequenceIn(MissingFields(r), Keys(r));
    forall f ensures f in FoundFields(r) <==> f in fields && Matches(serialised, f) {
      if f in fields {
        assert f in Keys(r);
        var i :| 0 <= i < |r| && Keys(r)[i] == f;
      }
      if f in FoundFields(r) {
        var i :| 0 <= i < |r| && Keys(r)[i] == f;
      }
    }
    forall f ensures f in MissingFields(r) <==> f in fields && !Matches(serialised, f) {
      if f in fields {
        assert f in Keys(r);
        var i :| 0 <= i < |r| && Keys(r)[i] == f;
      }
      if f in MissingFields(r) {
        var i :| 0 <= i < |r| && Keys(r)[i] == f;
      }
    }
  }

  // ---------------------------------------------------------------------------
  // Content extractor
  // ---------------------------------------------------------------------------

  /** Longest sample the extractor returns. */
  const SampleLimit: nat := 2000

  /** A candidate is used when it is truthy and is a string or a mapping. */
  predicate Qualifies(j: Json) {
    Truthy(j) && (j.JStr? || j.JObj?)
  }

  /** Index of the first qualifying candidate, if any. */
  function FirstQualifying(candidates: seq<Json>): (r: Option<nat>)
    ensures r.Some? ==>
      r.value < |candidates| && Qualifies(candidates[r.value])
      && forall k :: 0 <= k < r.value ==> !Qualifies(candidates[k])
    ensures r.None? ==> forall k :: 0 <= k < |candidates| ==> !Qualifies(candidates[k])
  {
    if candidates == [] then None
    else if Qualifies(candidates[0]) then Some(0)
    else match FirstQualifying(candidates[1..])
      case None => None
      case Some(i) => Some(i + 1)
  }

  /** `str(path)` for a string, `json.dumps(path, indent=2)` (given as `render`) otherwise. */
  function Shown(j: Json, render: Json -> string): string
  {
    if j.JStr? then j.s else render(j)
  }

  /** The five places looked at, in priority order: the inner attributes'
      `response_body`, `response` and `body`, the outer attributes' `message`, and the
      inner attributes themselves. */
  function Candidates(attrs: map<string, Json>, inner: map<string, Json>): (r: seq<Json>)
    ensures |r| == 5
  {
    [Get(inner, "response_body"), Get(inner, "response"), Get(inner, "body"),
     Get(attrs, "message"), JObj(inner)]
  }

  /** The entry's attributes and inner attributes, when both are mappings (a missing key
      counts as an empty mapping). Otherwise the source's `.get` calls raise. */
  function AttributeMaps(entry: Json): Option<(map<string, Json>, map<string, Json>)>
  {
    match entry
    case JObj(e) =>
      (match GetOrEmpty(e, "attributes")
       case JObj(attrs) =>
         (match GetOrEmpty(attrs, "attributes")
          case JObj(inner) => Some((attrs, inner))
          case _ => None)
       case _ => None)
    case _ => None
  }

  /** `extract_response_body`; `None` stands for the AttributeError the source raises
      when the entry, its attributes or its inner attributes are not mappings. */
  function ExtractResponseBody(entry: Json, render: Json -> string): (r: Option<string>)
    ensures r.Some? <==> AttributeMaps(entry).Some?
    ensures r.Some? ==> |r.value| <= SampleLimit
  {
    match AttributeMaps(entry)
    case None => None
    case Some((attrs, inner)) =>
      var candidates := Candidates(attrs, inner);
      match FirstQualifying(candidates)
      case Some(i) => Some(Take(Shown(candidates[i], render), SampleLimit))
      case None => Some(Take(render(JObj(attrs)), SampleLimit))
  }

  /** The first qualifying candidate in priority order decides the sample. */
  lemma ExtractPicksFirst(entry: Json, render: Json -> string, i: nat)
    requires AttributeMaps(entry).Some?
    requires var (attrs, inner) := AttributeMaps(entry).value;
      var c := Candidates(attrs, inner);
      i < 5 && Qualifies(c[i]) && forall k :: 0 <= k < i ==> !Qualifies(c[k])
    ensures var (attrs, inner) := AttributeMaps(entry).value;
      ExtractResponseBody(entry, render)
        == Some(Take(Shown(Candidates(attrs, inner)[i], render), SampleLimit))
  {
    var (attrs, inner) := AttributeMaps(entry).value;
    var c := Candidates(attrs, inner);
    assert FirstQualifying(c) == Some(i);
  }

  /** When no candidate qualifies (empty strings, empty mappings, numbers, lists, booleans
      and nulls are all passed over), the outer attributes are rendered. */
  lemma ExtractFallsBack(entry: Json, render: Json -> string)
    requires AttributeMaps(entry).Some?
    requires var (attrs, inner) := AttributeMaps(entry).value;
      forall k :: 0 <= k < 5 ==> !Qualifies(Candidates(attrs, inner)[k])
    ensures var (attrs, inner) := AttributeMaps(entry).value;
      inner == map[] && ExtractResponseBody(entry, render) == Some(Take(render(JObj(attrs)), SampleLimit))
  {
    var (attrs, inner) := AttributeMaps(entry).value;
    var c := Candidates(attrs, inner);
    assert !Qualifies(c[4]);
    assert FirstQualifying(c) == None;
  }
}
