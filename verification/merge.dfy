/** The merge routine: resolve the patterns, load every matched report, flatten their
    suites, attach artifacts to the suites, and compute the merged statistics. */
module Merge {
  import opened MergeTypes
  import Options
  import Suites
  import Stats
  import Keys
  import Correlate

  /** The reports of the matched files, loaded in file order. Loading itself is a
      parameter: the routine reads each file as JSON and waits for all of them. */
  function Load<M, S>(files: seq<string>, load: string -> Report<M, S>): (r: seq<Report<M, S>>)
    ensures |r| == |files|
    ensures forall i :: 0 <= i < |files| ==> r[i] == load(files[i])
  {
    seq(|files|, i requires 0 <= i < |files| => load(files[i]))
  }

  /** The reports a merge loads, when every pattern matches. */
  function LoadedReports<M, S>(options: Option<seq<string>>, glob: string -> seq<string>, load: string -> Report<M, S>): seq<Report<M, S>>
    requires Options.AllMatch(Options.ResolveFiles(options), glob)
  {
    Load(Options.CollectSourceFiles(Options.ResolveFiles(options), glob).value, load)
  }

  /** The top-level suites of the loaded reports, before correlation. */
  function FlattenedSuites<M, S>(options: Option<seq<string>>, glob: string -> seq<string>, load: string -> Report<M, S>): seq<Suite<S>>
    requires Options.AllMatch(Options.ResolveFiles(options), glob)
  {
    Suites.CollectReportSuites(LoadedReports(options, glob, load))
  }

  /** The merged report, or the first fatal failure: a pattern that matched nothing, or a
      suite or artifact path without a key while artifacts remain to be matched. */
  function Merge<M, S>(options: Option<seq<string>>, glob: string -> seq<string>,
                       load: string -> Report<M, S>, artifacts: seq<Artifact<S>>): (r: Result<MergedReport<M, S>>)
    ensures r.Err? && r.failure.NoMatch? <==> !Options.AllMatch(Options.ResolveFiles(options), glob)
    ensures r.Err? && r.failure.NoKey? ==> Keys.KeyOf(r.failure.path).None?
    ensures r.Ok? ==>
      && Options.AllMatch(Options.ResolveFiles(options), glob)
      && var reports := LoadedReports(options, glob, load);
      && |reports| > 0
      && r.value.meta == reports[0].meta
      && r.value.stats == Stats.GenerateStats(FlattenedSuites(options, glob, load), reports)
      && |r.value.results| == |FlattenedSuites(options, glob, load)|
  {
    var patterns := Options.ResolveFiles(options);
    match Options.CollectSourceFiles(patterns, glob)
    case Err(f) => Err(f)
    case Ok(files) =>
      var reports := Load(files, load);
      var suites := Suites.CollectReportSuites(reports);
      match Correlate.CorrelateArtifacts(suites, artifacts)
      case Err(f) => Err(f)
      case Ok(c) =>
        AnnotationKeepsStats(suites, artifacts, reports);
        Ok(MergedReport(Stats.GenerateStats(c.suites, reports), c.suites, reports[0].meta))
  }

  /** A failed merge passes the failure of the failing stage through unchanged: the
      failure of pattern expansion, which names the first pattern that matched nothing,
      or else the failure of the correlation. */
  lemma {:induction false} MergeFailure<M, S>(options: Option<seq<string>>, glob: string -> seq<string>,
                                              load: string -> Report<M, S>, artifacts: seq<Artifact<S>>)
    ensures var r := Merge(options, glob, load, artifacts);
      r.Err? ==>
        if Options.AllMatch(Options.ResolveFiles(options), glob) then
          r == Err(Correlate.CorrelateArtifacts(FlattenedSuites(options, glob, load), artifacts).failure)
        else
          r == Err(Options.CollectSourceFiles(Options.ResolveFiles(options), glob).failure)
  {
  }

  /** Two suite lists that agree on every suite's tests and children hold the same tests. */
  lemma {:induction false} AllTestsFieldwise<S>(a: seq<Suite<S>>, b: seq<Suite<S>>)
    requires |a| == |b|
    requires forall i :: 0 <= i < |a| ==> a[i].tests == b[i].tests && a[i].suites == b[i].suites
    ensures Suites.AllTests(a) == Suites.AllTests(b)
  {
    if a != [] {
      AllTestsFieldwise(a[1..], b[1..]);
    }
  }

  /** Attaching artifacts changes no statistic: correlation keeps every suite's tests and
      children. */
  lemma AnnotationKeepsStats<M, S>(suites: seq<Suite<S>>, artifacts: seq<Artifact<S>>, reports: seq<Report<M, S>>)
    requires |reports| > 0
    requires Correlate.CorrelateArtifacts(suites, artifacts).Ok?
    ensures Stats.GenerateStats(Correlate.CorrelateArtifacts(suites, artifacts).value.suites, reports)
         == Stats.GenerateStats(suites, reports)
  {
    var c := Correlate.CorrelateArtifacts(suites, artifacts).value;
    Correlate.CorrelationKeepsTrees(suites, Correlate.Reverse(artifacts), 0, Keys.KeyOf);
    AllTestsFieldwise(c.suites, suites);
  }

  /** When every pattern matches and every suite and artifact path has a key, the merge
      succeeds. */
  lemma {:induction false} MergeSucceeds<M, S>(options: Option<seq<string>>, glob: string -> seq<string>,
                            load: string -> Report<M, S>, artifacts: seq<Artifact<S>>)
    requires Options.AllMatch(Options.ResolveFiles(options), glob)
    requires forall j :: 0 <= j < |artifacts| ==> Keys.KeyOf(artifacts[j].filePath).Some?
    requires forall i :: 0 <= i < |FlattenedSuites(options, glob, load)| ==>
      Keys.KeyOf(FlattenedSuites(options, glob, load)[i].fullFile).Some?
    ensures Merge(options, glob, load, artifacts).Ok?
  {
    Correlate.CorrelateArtifactsSucceeds(FlattenedSuites(options, glob, load), artifacts);
  }

  /** A successful merge returns the flattened suites, correlated with the artifacts as
      the loop prescribes: `matched` records where the cursor advanced. */
  lemma {:induction false} MergeResultsCorrelated<M, S>(options: Option<seq<string>>, glob: string -> seq<string>,
                                     load: string -> Report<M, S>, artifacts: seq<Artifact<S>>)
    requires Merge(options, glob, load, artifacts).Ok?
    ensures Options.AllMatch(Options.ResolveFiles(options), glob)
    ensures exists matched :: Correlate.WellCorrelated(FlattenedSuites(options, glob, load), Correlate.Reverse(artifacts), 0,
              Correlate.Correlation(Merge(options, glob, load, artifacts).value.results, matched), Keys.KeyOf)
  {
    var suites := FlattenedSuites(options, glob, load);
    var c := Correlate.CorrelateArtifacts(suites, artifacts).value;
    Correlate.CorrelateFromSound(suites, Correlate.Reverse(artifacts), 0, Keys.KeyOf);
    assert Correlate.WellCorrelated(suites, Correlate.Reverse(artifacts), 0, Correlate.Correlation(c.suites, c.matched), Keys.KeyOf);
  }

  /** With no artifacts the loop breaks at once: no path is key-extracted and the merged
      suites are the flattened suites, unchanged. */
  lemma {:induction false} MergeWithoutArtifacts<M, S>(options: Option<seq<string>>, glob: string -> seq<string>, load: string -> Report<M, S>)
    ensures var r := Merge(options, glob, load, []);
      && (r.Ok? <==> Options.AllMatch(Options.ResolveFiles(options), glob))
      && (r.Ok? ==> r.value.results == FlattenedSuites(options, glob, load))
  {
    assert Correlate.Reverse<Artifact<S>>([]) == [];
  }

  /** The merge routine as the program runs it: the correlation is the cursor loop. */
  method MergeReports<M, S>(options: Option<seq<string>>, glob: string -> seq<string>,
                            load: string -> Report<M, S>, artifacts: seq<Artifact<S>>)
    returns (r: Result<MergedReport<M, S>>)
    ensures r == Merge(options, glob, load, artifacts)
  {
    var patterns := Options.ResolveFiles(options);
    var collected := Options.CollectSourceFiles(patterns, glob);
    if collected.Err? {
      return Err(collected.failure);
    }
    var files := collected.value;
    var reports := Load(files, load);
    var suites := Suites.CollectReportSuites(reports);
    var correlated := Correlate.CorrelateSuites(suites, artifacts, Keys.KeyOf);
    if correlated.Err? {
      return Err(correlated.failure);
    }
    var annotated := correlated.value.suites;
    r := Ok(MergedReport(Stats.GenerateStats(annotated, reports), annotated, reports[0].meta));
  }
}
