# mochawesome-merge core, modelled in Dafny

This project models `merge` from mochawesome-merge. `merge` combines several mochawesome
JSON test reports into one report. It runs these steps in order:

1. It resolves the file patterns. An empty or missing list becomes
   `./mochawesome-report/mochawesome*.json`.
2. It expands every pattern with a glob. A pattern that matches no file is fatal.
3. It loads the reports and flattens their top-level suites. Only the literal `false`
   placeholders are dropped.
4. It attaches Cypress artifacts to the suites. An artifact is a video path plus
   screenshots.
5. It computes the merged statistics: counts by test state, and the union of the
   reports' time spans.

The artifact step walks the suites once. It holds a cursor into the caller's artifact
list, read in reverse order. Each path is normalised (backslashes become slashes) and
reduced to its key, the tail `cypress/e2e/<dir>/<name>.cy.ts`. When the suite's key
equals the artifact's key, the suite takes the artifact's video and screenshots and the
cursor advances. The walk stops once the cursor passes the last artifact. A path without
a key is fatal, but only while artifacts remain.

Modules, one per concern of `lib/index.js`:

- `MergeTypes` (`types.dfy`): reports, suites, tests, artifacts, statistics and the
  `Result` type used for the fatal errors.
- `Options` (`options.dfy`): option defaulting and pattern expansion.
- `Suites` (`suites.dfy`): flattening reports into suites, and collecting the tests of a
  suite tree.
- `Stats` (`stats.dfy`): test counts and time spans.
- `Keys` (`keys.dfy`): path normalisation and key extraction. The key regular expression
  is written as an explicit suffix predicate.
- `Correlate` (`correlate.dfy`): the artifact loop, both as a recursive function and as
  the cursor loop, with the properties that characterise it.
- `Merge` (`merge.dfy`): the whole routine.
- `Seqs` (`seqs.dfy`): generic facts about sequence concatenation.

Effects become parameters:

- The glob expansion is a function `string -> seq<string>`.
- Loading a report file is a function `string -> Report`.
- The key function is a parameter of the `Correlate` members. The merge passes
  `Keys.KeyOf`.

Timestamps are integer milliseconds. The report's `meta` value and the artifacts'
screenshots value are type parameters, because the routine only copies them.

## Model

| member | source | states |
|---|---|---|
| Options.ResolveFiles | lib/index.js:5-9 | The pattern list is never empty. It is the caller's list when that list is non-empty, and otherwise exactly the one default pattern. |
| Options.CollectSourceFiles | lib/index.js:11-17 | Expansion succeeds exactly when every pattern matches at least one file. On success with at least one pattern, at least one file results. On failure, the error names a pattern that matched nothing, and every pattern before it did match. |
| Options.CollectSourceFilesAppend | lib/index.js:11-17 | Expanding two pattern lists one after the other gives the matches of the first list followed by those of the second, so file order follows pattern order. |
| Options.CollectSourceFilesSingle | lib/index.js:12-16 | One pattern contributes exactly its glob matches, or fails naming itself when it matches nothing. |
| Suites.Keep | lib/index.js:50 | Exactly the `false` entries are dropped: kept plus dropped equals all entries. Every kept suite came from the list, and every present suite is kept. |
| Suites.KeepAppend | lib/index.js:50 | Filtering is order-preserving and commutes with concatenation. |
| Suites.CollectReportSuites | lib/index.js:49-51 | The number of suites is the number of entries minus the number of `false` sentinels. Every suite comes from some report, and every present entry of every report appears. |
| Suites.CollectReportSuitesAppend | lib/index.js:49-51 | The flattening keeps report order: flattening two report lists one after the other gives the first list's suites, then the second's. |
| Suites.AllTests | lib/index.js:53-56 | Every own test of every listed suite is among the collected tests. |
| Suites.AllTestsAppend | lib/index.js:53-56 | Collecting tests commutes with concatenating suite lists. |
| Suites.AllTestsByNodes | lib/index.js:53-56 | The collected tests are exactly the own tests of every suite node of the trees, taken in pre-order, so a suite's own tests come before those of its children. Their number is therefore the sum over all nodes, at any nesting depth. |
| Stats.CountState | lib/index.js:21-24 | A state count is at most the number of tests, and it is zero exactly when no test is in that state. |
| Stats.CountStateIsMultiplicity | lib/index.js:21-24 | Counting the tests that pass a state filter gives the state's multiplicity among all test states. |
| Stats.CountsPartition | lib/index.js:21-24 | Each test is counted under exactly one state, so the four named counts plus the unrecognised ones add up to the test count. |
| Stats.GetStateTimeSpan | lib/index.js:58-80 | For a non-empty report list, the start is the minimum of the report starts and is attained by some report. The end is the maximum of the report ends and is also attained. The duration is end minus start, and it is non-negative when every report's own span is. |
| Stats.TimeSpanPermutation | lib/index.js:63-73 | The merged span does not depend on the order in which the reports were loaded. |
| Stats.GenerateStats | lib/index.js:19-43 | `suites` is the number of top-level suites. `tests` and `testsRegistered` are the number of tests at every depth. The four state counts add up to at most `tests`. `other` is 0 and `hasOther` is false. `hasSkipped` holds exactly when `skipped` is positive. The time fields are those of the report span. |
| Stats.StatsCounts | lib/index.js:20-24 | Each of `passes`, `pending`, `failures` and `skipped` is the multiplicity of its state among all tests. The tests in no named state make up the gap to `tests`. |
| Keys.Normalize | lib/index.js:96-97 | The normalised path has the same length as the path. Every backslash becomes a slash and every other character is kept in place. |
| Keys.NormalizeIdempotent | lib/index.js:96-97 | A normalised path holds no backslash, and normalising it again changes nothing. |
| Keys.IsKeyShape | lib/index.js:89 | A string has the shape of the pattern exactly when it is `cypress/e2e/<dir>/<name>.cy.ts`, with `<dir>` and `<name>` non-empty and free of slashes. |
| Keys.KeySuffixUnique | lib/index.js:89 | At most one suffix of a string matches the pattern, so the leftmost match the unanchored pattern finds is the only match. |
| Keys.KeyOf | lib/index.js:96-97 | A key, when found, has the pattern's shape and is a tail of the normalised path. When no key is found, no tail of the normalised path has that shape. |
| Keys.KeyOfIff | lib/index.js:96-97 | `k` is the key of a path if and only if `k` has the pattern's shape and is a tail of the normalised path. |
| Keys.KeyOfNormalized | lib/index.js:96-97 | A path and its normalised form have the same key. |
| Keys.KeyOfAnySeparator | lib/index.js:89-97 | A path ending `cypress?e2e?<dir>?<name>.cy.ts`, with each separator a slash or a backslash and anything before it, has the key `cypress/e2e/<dir>/<name>.cy.ts`. |
| Correlate.Reverse | lib/index.js:90 | The artifacts are consumed last first: position `i` of the reversed list holds the caller's element `n - 1 - i`. |
| Correlate.ReversedPrefix | lib/index.js:90 | The first `n` artifacts the cursor can reach are the caller's last `n`, in reverse order. |
| Correlate.Attach | lib/index.js:99-103 | An annotated suite takes the artifact's video path and screenshots. Its path, tests and children stay as they were. |
| Correlate.CorrelateFrom | lib/index.js:88-104 | On success there is one suite and one match flag per input suite. The cursor never passes the end of the artifact list: its start value plus the number of matches is at most the artifact count. |
| Correlate.CorrelateArtifacts | lib/index.js:89-104 | On success there is one suite and one match flag per suite, and at most as many matches as artifacts. With no artifacts every suite is returned unmatched and unchanged. A failure is a missing key, and it names the path of one of the suites or one of the artifacts. |
| Correlate.CorrelateFromIff | lib/index.js:88-104 | The loop returns a correlation exactly when that correlation meets `WellCorrelated`. That predicate says the following for the suite at each index `i`, with the cursor standing at its start value plus the number of earlier matches. If the cursor is past the last artifact, the suite is unchanged and unmatched. Otherwise both keys exist. The suite is annotated with the artifact under the cursor if and only if the keys are equal, and it is unchanged otherwise. |
| Correlate.CursorStep | lib/index.js:93-103 | The cursor rises by exactly one at an annotated suite, stays put at every other suite, and never moves backwards. |
| Correlate.MatchedInArtifactOrder | lib/index.js:88-104 | Take the annotated suites in suite order. The `k`-th of them has the same key as the artifact at position cursor plus `k` of the reversed list. It carries exactly that artifact's video path and screenshots. No artifact is used twice, and none is skipped. |
| Correlate.TrailingSuitesUntouched | lib/index.js:93-95 | Once every artifact is used, the remaining suites pass through unchanged and unmatched. Their paths are never key-extracted, so a path without a key there causes no error. |
| Correlate.CorrelateFromFailure | lib/index.js:96-97 | A failure is a missing key. It names a path the key function rejects: the path of one of the suites, or the path of an artifact at or after the starting cursor. |
| Correlate.CorrelateFromSucceeds | lib/index.js:96-97 | When every suite path and every artifact path has a key, correlation succeeds. |
| Correlate.CorrelationKeepsTrees | lib/index.js:99-103 | Correlation changes no suite's path, tests or child suites. |
| Correlate.CorrelateSuites | lib/index.js:88-104 | The cursor loop, with its break and its two error exits, returns the same result as the recursive definition. When it succeeds, its result meets `WellCorrelated`. Throughout the loop, `fileIndex` equals the number of suites annotated so far. |
| Merge.Load | lib/index.js:45-47 | One report per file, and the report at each position is the one loaded from the file at that position. |
| Merge.Merge | lib/index.js:82-111 | The merge fails on an unmatched pattern exactly when some resolved pattern matches nothing. A key failure names a path with no key. On success every pattern matched and at least one report was loaded. `meta` is the first report's meta. The statistics are those of the flattened suites before annotation, and there is one result per flattened suite. |
| Merge.MergeFailure | lib/index.js:82-104 | A failed merge returns the failure of the stage that failed, unchanged. If some pattern matches nothing, that is pattern expansion's failure, which names the first such pattern. Otherwise it is the correlation's `NoKey` failure. |
| Merge.AnnotationKeepsStats | lib/index.js:106-108 | Attaching artifacts changes no statistic. |
| Merge.MergeSucceeds | lib/index.js:82-104 | When every pattern matches and every suite and artifact path has a key, the merge succeeds. |
| Merge.MergeResultsCorrelated | lib/index.js:86-108 | A successful merge's results are the flattened suites correlated with the reversed artifacts, in the sense of `WellCorrelated`. |
| Merge.MergeWithoutArtifacts | lib/index.js:92-95 | With no artifacts, the merge succeeds exactly when every pattern matches. Its results are then the flattened suites, unchanged. |
| Merge.MergeReports | lib/index.js:82-111 | The routine written with the cursor loop computes the same result as `Merge`, including every failure. |

## Left out

- Reading the report files (`fse.readJson` under `Promise.all`) is not modelled. Loading is a total function parameter. A file that fails to load or parse is not modelled, because the order in which the promises reject depends on timing.
- The glob expansion (`glob.sync`) is a function parameter. Its matching rules are not modelled.
- `flatMap` from `./utils` is not part of this model. It is taken to map and then concatenate in order, so a pattern's error is raised at the first pattern that matches nothing.
- `passPercent` and `pendingPercent` are not modelled, because they are floating-point divisions. They are not finite when there are no tests.
- `Date` parsing and `toISOString` are not modelled. Start and end are integer milliseconds, and the formatted strings are not produced.
- The mutations `fileInfoList.reverse()` and `suite.videoPath = …` are not modelled. The routine reverses the caller's list in place and annotates the loaded suite objects. The model returns new values instead, so the change the caller can see in its own list is not modelled.
- The loop variable `suite` is never declared, so it is a global variable in sloppy mode. This leak is not modelled.
- Inputs that are not arrays are not modelled: `null` or a string as `files`, a missing artifact list (`fileInfoList`), a report without `results`, or a suite without `tests`. A report without `stats` makes the destructuring at lib/index.js:59 throw a `TypeError`, and so does an explicit `null` options object at lib/index.js:5; neither is modelled. Only a missing `files` (`Option.None`) and an empty list are handled.
- Only the fields the routine reads or writes are modelled: a suite keeps `fullFile`, `tests`, `suites`, `videoPath` and `screenshotPath`, and a test keeps `state`. The other mochawesome fields (title, uuid, hooks, duration and so on) pass through unchanged in the source and are not modelled. A suite without `fullFile` or `suites`, or an artifact without `filePath`, makes the source throw a `TypeError`; this is not modelled either.
- The general regular-expression engine is not modelled. The key pattern `cypress/e2e/[^/]+/[^/]+\.cy\.ts$` is written as an explicit predicate, and `Keys.KeySuffixUnique` shows that the leftmost match is the only one.
- A path without a key (`.match(...)` returns `null` and `[0]` throws a `TypeError`) is modelled as the error `NoKey(path)`. The text of the error is not modelled.
- Only the literal `false` is dropped from a report's `results` (lib/index.js:50). An entry is modelled as either `false` or a suite, so `null` and `undefined` entries are not modelled.
