/** The merged statistics: counts by test state and the union of the reports' time spans. */
module Stats {
  import opened MergeTypes
  import Suites

  /** Number of tests whose state is `st`. */
  function CountState(ts: seq<Test>, st: State): (n: nat)
    ensures n <= |ts|
    ensures n == 0 <==> forall i :: 0 <= i < |ts| ==> ts[i].state != st
  {
    if ts == [] then 0
    else
      var rest := CountState(ts[1..], st);
      assert forall i :: 0 < i < |ts| ==> ts[1..][i - 1] == ts[i];
      (if ts[0].state == st then 1 else 0) + rest
  }

  /** The states of some tests, in order. */
  function StatesOf(ts: seq<Test>): (r: seq<State>)
    ensures |r| == |ts|
  {
    if ts == [] then [] else [ts[0].state] + StatesOf(ts[1..])
  }

  /** Counting by filtering agrees with the multiplicity of the state among all states. */
  lemma {:induction false} CountStateIsMultiplicity(ts: seq<Test>, st: State)
    ensures CountState(ts, st) == multiset(StatesOf(ts))[st]
  {
    if ts != [] {
      CountStateIsMultiplicity(ts[1..], st);
      assert multiset(StatesOf(ts)) == multiset{ts[0].state} + multiset(StatesOf(ts[1..]));
    }
  }

  /** Every test is counted under exactly one state; tests in none of the four named
      states are counted nowhere in the merged statistics. */
  lemma {:induction false} CountsPartition(ts: seq<Test>)
    ensures CountState(ts, Passed) + CountState(ts, Pending) + CountState(ts, Failed)
          + CountState(ts, Skipped) + CountState(ts, Unrecognised) == |ts|
  {
    if ts != [] {
      CountsPartition(ts[1..]);
    }
  }

  /** A time span in milliseconds. */
  datatype Span = Span(start: int, end: int)

  function SpanOf<M, S>(report: Report<M, S>): Span
  {
    Span(report.start, report.end)
  }

  /** One step of the span reduction: the earlier start and the later end. */
  function JoinSpans(acc: Span, s: Span): Span
  {
    Span(if acc.start <= s.start then acc.start else s.start,
         if acc.end >= s.end then acc.end else s.end)
  }

  /** Left-to-right reduction of the reports' spans into the accumulator. */
  function FoldSpans<M, S>(acc: Span, rest: seq<Report<M, S>>): (r: Span)
    ensures r.start <= acc.start && forall i :: 0 <= i < |rest| ==> r.start <= rest[i].start
    ensures r.start == acc.start || exists i :: 0 <= i < |rest| && r.start == rest[i].start
    ensures r.end >= acc.end && forall i :: 0 <= i < |rest| ==> r.end >= rest[i].end
    ensures r.end == acc.end || exists i :: 0 <= i < |rest| && r.end == rest[i].end
    decreases |rest|
  {
    if rest == [] then acc
    else
      var r := FoldSpans(JoinSpans(acc, SpanOf(rest[0])), rest[1..]);
      assert forall i :: 0 < i < |rest| ==> rest[1..][i - 1] == rest[i];
      r
  }

  /** The overall start, end and duration of some reports. */
  datatype TimeStats = TimeStats(start: int, end: int, duration: int)

  /** The union of the reports' spans. The reduction has no initial value, so at least
      one report is needed. */
  function GetStateTimeSpan<M, S>(reports: seq<Report<M, S>>): (r: TimeStats)
    requires |reports| > 0
    ensures forall i :: 0 <= i < |reports| ==> r.start <= reports[i].start
    ensures exists i :: 0 <= i < |reports| && r.start == reports[i].start
    ensures forall i :: 0 <= i < |reports| ==> r.end >= reports[i].end
    ensures exists i :: 0 <= i < |reports| && r.end == reports[i].end
    ensures r.duration == r.end - r.start
    ensures (forall i :: 0 <= i < |reports| ==> reports[i].start <= reports[i].end) ==> r.duration >= 0
  {
    var m := FoldSpans(SpanOf(reports[0]), reports[1..]);
    assert forall i :: 0 < i < |reports| ==> reports[1..][i - 1] == reports[i];
    assert reports[0].start <= reports[0].end ==> m.start <= m.end;
    TimeStats(m.start, m.end, m.end - m.start)
  }

  /** The merged span does not depend on the order of the reports. */
  lemma TimeSpanPermutation<M, S>(a: seq<Report<M, S>>, b: seq<Report<M, S>>)
    requires |a| > 0 && multiset(a) == multiset(b)
    ensures |b| > 0
    ensures GetStateTimeSpan(a) == GetStateTimeSpan(b)
  {
    assert a[0] in multiset(b);
    SameStart(a, b);
    SameEnd(a, b);
  }

  lemma SameStart<M, S>(a: seq<Report<M, S>>, b: seq<Report<M, S>>)
    requires |a| > 0 && |b| > 0 && multiset(a) == multiset(b)
    ensures GetStateTimeSpan(a).start == GetStateTimeSpan(b).start
  {
    var ta := GetStateTimeSpan(a);
    var tb := GetStateTimeSpan(b);
    var i :| 0 <= i < |a| && ta.start == a[i].start;
    assert a[i] in multiset(b);
    var j :| 0 <= j < |b| && b[j] == a[i];
    var k :| 0 <= k < |b| && tb.start == b[k].start;
    assert b[k] in multiset(a);
    var l :| 0 <= l < |a| && a[l] == b[k];
  }

  lemma SameEnd<M, S>(a: seq<Report<M, S>>, b: seq<Report<M, S>>)
    requires |a| > 0 && |b| > 0 && multiset(a) == multiset(b)
    ensures GetStateTimeSpan(a).end == GetStateTimeSpan(b).end
  {
    var ta := GetStateTimeSpan(a);
    var tb := GetStateTimeSpan(b);
    var i :| 0 <= i < |a| && ta.end == a[i].end;
    assert a[i] in multiset(b);
    var j :| 0 <= j < |b| && b[j] == a[i];
    var k :| 0 <= k < |b| && tb.end == b[k].end;
    assert b[k] in multiset(a);
    var l :| 0 <= l < |a| && a[l] == b[k];
  }

  /** The integer statistics over the top-level suites and the loaded reports. */
  function GenerateStats<M, S>(suites: seq<Suite<S>>, reports: seq<Report<M, S>>): (r: Stats)
    requires |reports| > 0
    ensures r.suites == |suites|
    ensures r.tests == r.testsRegistered == |Suites.AllTests(suites)|
    ensures r.passes + r.pending + r.failures + r.skipped <= r.tests
    ensures r.other == 0 && !r.hasOther
    ensures r.hasSkipped <==> r.skipped > 0
    ensures r.start == GetStateTimeSpan(reports).start && r.end == GetStateTimeSpan(reports).end
    ensures r.duration == GetStateTimeSpan(reports).duration == r.end - r.start
    // start and end are thus the least start and greatest end of the reports, by the
    // ensures of GetStateTimeSpan
  {
    var tests := Suites.AllTests(suites);
    var time := GetStateTimeSpan(reports);
    CountsPartition(tests);
    Stats(
      suites := |suites|,
      tests := |tests|,
      passes := CountState(tests, Passed),
      pending := CountState(tests, Pending),
      failures := CountState(tests, Failed),
      testsRegistered := |tests|,
      other := 0,
      hasOther := false,
      skipped := CountState(tests, Skipped),
      hasSkipped := CountState(tests, Skipped) != 0,
      start := time.start,
      end := time.end,
      duration := time.duration)
  }

  /** Each count is the multiplicity of its state among all aggregated tests, and the
      tests in no named state make up the gap to `tests`. */
  lemma StatsCounts<M, S>(suites: seq<Suite<S>>, reports: seq<Report<M, S>>)
    requires |reports| > 0
    ensures var r := GenerateStats(suites, reports);
      var states := multiset(StatesOf(Suites.AllTests(suites)));
      && r.passes == states[Passed]
      && r.pending == states[Pending]
      && r.failures == states[Failed]
      && r.skipped == states[Skipped]
      && r.tests == r.passes + r.pending + r.failures + r.skipped + states[Unrecognised]
  {
    var ts := Suites.AllTests(suites);
    CountStateIsMultiplicity(ts, Passed);
    CountStateIsMultiplicity(ts, Pending);
    CountStateIsMultiplicity(ts, Failed);
    CountStateIsMultiplicity(ts, Skipped);
    CountStateIsMultiplicity(ts, Unrecognised);
    CountsPartition(ts);
  }
}
