/** Flattening reports into top-level suites, and collecting the tests of suite trees. */
module Suites {
  import opened MergeTypes
  import Seqs

  /** Number of `false` sentinels among some entries. */
  function CountFalse<S>(es: seq<Entry<S>>): nat
  {
    if es == [] then 0 else (if es[0].False? then 1 else 0) + CountFalse(es[1..])
  }

  /** The suites of one report's `results`, with exactly the `false` entries dropped. */
  function Keep<S>(es: seq<Entry<S>>): (r: seq<Suite<S>>)
    ensures |r| + CountFalse(es) == |es|
    ensures forall i :: 0 <= i < |r| ==> Present(r[i]) in es
    ensures forall j :: 0 <= j < |es| && es[j].Present? ==> es[j].suite in r
  {
    if es == [] then []
    else
      var rest := Keep(es[1..]);
      assert forall j :: 0 < j < |es| ==> es[1..][j - 1] == es[j];
      if es[0].Present? then [es[0].suite] + rest else rest
  }

  /** Keeping commutes with concatenation: order inside and across lists is preserved. */
  lemma {:induction false} KeepAppend<S>(a: seq<Entry<S>>, b: seq<Entry<S>>)
    ensures Keep(a + b) == Keep(a) + Keep(b)
  {
    if a == [] {
      assert a + b == b;
    } else {
      assert (a + b)[0] == a[0];
      assert (a + b)[1..] == a[1..] + b;
      KeepAppend(a[1..], b);
    }
  }

  /** A single entry contributes its suite, or nothing when it is the sentinel. */
  lemma KeepSingle<S>(e: Entry<S>)
    ensures Keep([e]) == if e.Present? then [e.suite] else []
  {
    assert [e][1..] == [];
  }

  /** Total number of entries across the reports' `results`. */
  function EntryCount<M, S>(reports: seq<Report<M, S>>): nat
  {
    if reports == [] then 0 else |reports[0].results| + EntryCount(reports[1..])
  }

  /** Total number of `false` sentinels across the reports' `results`. */
  function FalseCount<M, S>(reports: seq<Report<M, S>>): nat
  {
    if reports == [] then 0 else CountFalse(reports[0].results) + FalseCount(reports[1..])
  }

  /** The top-level suites of all reports: each report's kept suites, report after report. */
  function CollectReportSuites<M, S>(reports: seq<Report<M, S>>): (r: seq<Suite<S>>)
    ensures |r| + FalseCount(reports) == EntryCount(reports)
    ensures forall k :: 0 <= k < |r| ==>
      exists i :: 0 <= i < |reports| && Present(r[k]) in reports[i].results
    ensures forall i, j ::
      (0 <= i < |reports| && 0 <= j < |reports[i].results| && reports[i].results[j].Present?)
      ==> reports[i].results[j].suite in r
  {
    if reports == [] then []
    else
      var head := Keep(reports[0].results);
      var rest := CollectReportSuites(reports[1..]);
      assert forall i :: 0 < i < |reports| ==> reports[1..][i - 1] == reports[i];
      head + rest
  }

  /** Flattening a concatenation of report lists is the concatenation of the flattenings. */
  lemma {:induction false} CollectReportSuitesAppend<M, S>(a: seq<Report<M, S>>, b: seq<Report<M, S>>)
    ensures CollectReportSuites(a + b) == CollectReportSuites(a) + CollectReportSuites(b)
  {
    if a == [] {
      assert a + b == b;
    } else {
      Seqs.AppendParts(a, b);
      CollectReportSuitesAppend(a[1..], b);
      Seqs.Assoc(Keep(a[0].results), CollectReportSuites(a[1..]), CollectReportSuites(b));
    }
  }

  /** All tests of some suite trees: each suite's own tests, then those of its children
      in listed order, suite after suite. */
  function AllTests<S>(ss: seq<Suite<S>>): (r: seq<Test>)
    ensures forall i, j :: 0 <= i < |ss| && 0 <= j < |ss[i].tests| ==> ss[i].tests[j] in r
  {
    if ss == [] then []
    else
      var rest := AllTests(ss[1..]);
      assert forall i :: 0 < i < |ss| ==> ss[1..][i - 1] == ss[i];
      ss[0].tests + AllTests(ss[0].suites) + rest
  }

  /** Collecting tests commutes with concatenation of the suite list. */
  lemma {:induction false} AllTestsAppend<S>(a: seq<Suite<S>>, b: seq<Suite<S>>)
    ensures AllTests(a + b) == AllTests(a) + AllTests(b)
  {
    if a == [] {
      assert a + b == b;
    } else {
      assert (a + b)[0] == a[0];
      assert (a + b)[1..] == a[1..] + b;
      AllTestsAppend(a[1..], b);
    }
  }

  /** Every suite node of some trees, in pre-order. */
  function Nodes<S>(ss: seq<Suite<S>>): (r: seq<Suite<S>>)
    ensures |r| >= |ss|
    ensures forall i :: 0 <= i < |ss| ==> ss[i] in r
  {
    if ss == [] then []
    else
      var rest := Nodes(ss[1..]);
      assert forall i :: 0 < i < |ss| ==> ss[1..][i - 1] == ss[i];
      [ss[0]] + Nodes(ss[0].suites) + rest
  }

  /** The tests of a flat list of suites, taken node by node (children not descended). */
  function OwnTests<S>(ns: seq<Suite<S>>): seq<Test>
  {
    if ns == [] then [] else ns[0].tests + OwnTests(ns[1..])
  }

  /** Sum of the sizes of the suites' own test lists. */
  function OwnTestCount<S>(ns: seq<Suite<S>>): nat
  {
    if ns == [] then 0 else |ns[0].tests| + OwnTestCount(ns[1..])
  }

  lemma {:induction false} OwnTestsAppend<S>(a: seq<Suite<S>>, b: seq<Suite<S>>)
    ensures OwnTests(a + b) == OwnTests(a) + OwnTests(b)
    ensures OwnTestCount(a + b) == OwnTestCount(a) + OwnTestCount(b)
  {
    if a == [] {
      assert a + b == b;
    } else {
      assert (a + b)[0] == a[0];
      assert (a + b)[1..] == a[1..] + b;
      OwnTestsAppend(a[1..], b);
    }
  }

  lemma {:induction false} OwnTestsLength<S>(ns: seq<Suite<S>>)
    ensures |OwnTests(ns)| == OwnTestCount(ns)
  {
    if ns != [] {
      OwnTestsLength(ns[1..]);
    }
  }

  lemma NodesUnfold<S>(ss: seq<Suite<S>>)
    requires ss != []
    ensures Nodes(ss) == [ss[0]] + (Nodes(ss[0].suites) + Nodes(ss[1..]))
  {
  }

  lemma OwnTestsSingle<S>(n: Suite<S>)
    ensures OwnTests([n]) == n.tests
  {
    assert [n][1..] == [];
  }

  /** The aggregated tests are exactly the own tests of every node of the trees,
      nodes taken in pre-order; so their number is the sum over all nodes. */
  lemma {:induction false} AllTestsByNodes<S>(ss: seq<Suite<S>>)
    ensures AllTests(ss) == OwnTests(Nodes(ss))
    ensures |AllTests(ss)| == OwnTestCount(Nodes(ss))
  {
    if ss != [] {
      var n0, n1 := Nodes(ss[0].suites), Nodes(ss[1..]);
      calc {
        OwnTests(Nodes(ss));
        { NodesUnfold(ss); }
        OwnTests([ss[0]] + (n0 + n1));
        { OwnTestsAppend([ss[0]], n0 + n1); }
        OwnTests([ss[0]]) + OwnTests(n0 + n1);
        { OwnTestsSingle(ss[0]); }
        ss[0].tests + OwnTests(n0 + n1);
        { OwnTestsAppend(n0, n1); }
        ss[0].tests + (OwnTests(n0) + OwnTests(n1));
        { AllTestsByNodes(ss[0].suites); AllTestsByNodes(ss[1..]); }
        ss[0].tests + (AllTests(ss[0].suites) + AllTests(ss[1..]));
        { Seqs.Assoc(ss[0].tests, AllTests(ss[0].suites), AllTests(ss[1..])); }
        AllTests(ss);
      }
    }
    OwnTestsLength(Nodes(ss));
  }
}
