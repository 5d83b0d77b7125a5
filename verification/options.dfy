/** Option defaulting and expansion of file patterns into report files. */
module Options {
  import opened MergeTypes

  /** The pattern used when the caller names no report files. */
  const DefaultPattern: string := "./mochawesome-report/mochawesome*.json"

  /** The patterns to load: the caller's `files` when it is a non-empty list,
      otherwise the single default pattern. */
  function ResolveFiles(files: Option<seq<string>>): (r: seq<string>)
    ensures |r| > 0
    ensures files.Some? && files.value != [] ==> r == files.value
    ensures files.None? || files.value == [] ==> r == [DefaultPattern]
  {
    match files
    case Some(fs) => if |fs| > 0 then fs else [DefaultPattern]
    case None => [DefaultPattern]
  }

  /** True when every pattern matches at least one file. */
  predicate AllMatch(patterns: seq<string>, glob: string -> seq<string>)
  {
    forall i :: 0 <= i < |patterns| ==> glob(patterns[i]) != []
  }

  /** Expands each pattern with `glob` and concatenates the matches in pattern order;
      the first pattern that matches nothing aborts the whole expansion. */
  function CollectSourceFiles(patterns: seq<string>, glob: string -> seq<string>): (r: Result<seq<string>>)
    ensures r.Ok? <==> AllMatch(patterns, glob)
    ensures r.Ok? && |patterns| > 0 ==> |r.value| > 0
    ensures r.Err? ==>
      exists i :: 0 <= i < |patterns| && r.failure == NoMatch(patterns[i])
        && glob(patterns[i]) == [] && AllMatch(patterns[..i], glob)
  {
    if patterns == [] then Ok([])
    else
      var files := glob(patterns[0]);
      if files == [] then
        assert AllMatch(patterns[..0], glob);
        Err(NoMatch(patterns[0]))
      else
        match CollectSourceFiles(patterns[1..], glob)
        case Err(f) =>
          assert (exists i :: 0 <= i < |patterns| && f == NoMatch(patterns[i])
                    && glob(patterns[i]) == [] && AllMatch(patterns[..i], glob)) by {
            var i :| 0 <= i < |patterns[1..]| && f == NoMatch(patterns[1..][i])
              && glob(patterns[1..][i]) == [] && AllMatch(patterns[1..][..i], glob);
            assert patterns[..i + 1] == [patterns[0]] + patterns[1..][..i];
          }
          Err(f)
        case Ok(rest) => Ok(files + rest)
  }

  /** Expanding a concatenation of pattern lists, when every pattern matches,
      yields the concatenation of the expansions. */
  lemma {:induction false} CollectSourceFilesAppend(a: seq<string>, b: seq<string>, glob: string -> seq<string>)
    requires AllMatch(a + b, glob)
    ensures AllMatch(a, glob) && AllMatch(b, glob)
    ensures CollectSourceFiles(a + b, glob).value
         == CollectSourceFiles(a, glob).value + CollectSourceFiles(b, glob).value
  {
    assert forall i :: 0 <= i < |a| ==> (a + b)[i] == a[i];
    assert forall i :: 0 <= i < |b| ==> (a + b)[|a| + i] == b[i];
    if a == [] {
      assert a + b == b;
    } else {
      assert (a + b)[1..] == a[1..] + b;
      assert (a + b)[0] == a[0];
      CollectSourceFilesAppend(a[1..], b, glob);
    }
  }

  /** A single pattern contributes exactly its matches, or fails naming itself. */
  lemma CollectSourceFilesSingle(p: string, glob: string -> seq<string>)
    ensures CollectSourceFiles([p], glob)
         == if glob(p) == [] then Err(NoMatch(p)) else Ok(glob(p))
  {
    assert [p][1..] == [];
    assert glob(p) + [] == glob(p);
  }
}
