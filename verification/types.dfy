/** Data model of a mochawesome report as the merge routine sees it. */
module MergeTypes {

  /** An optional value; the results of key extraction and of file options. */
  datatype Option<+T> = None | Some(value: T)

  /** The fatal failures the merge can raise. */
  datatype Failure =
    | NoMatch(pattern: string)   // a file pattern that matched no report file
    | NoKey(path: string)        // a path without the `cypress/e2e/<dir>/<name>.cy.ts` tail

  /** Success or the first fatal failure; nothing partial is ever returned. */
  datatype Result<+T> = Ok(value: T) | Err(failure: Failure)

  /** The `state` of a test; anything but the four named states is `Unrecognised`. */
  datatype State = Passed | Pending | Failed | Skipped | Unrecognised

  datatype Test = Test(state: State)

  /** A node of a suite tree. `S` is the opaque type of an artifact's `screenshots`.
      `videoPath` and `screenshotPath` are absent until correlation attaches them. */
  datatype Suite<S> = Suite(
    fullFile: string,
    tests: seq<Test>,
    suites: seq<Suite<S>>,
    videoPath: Option<string>,
    screenshotPath: Option<S>)

  /** An entry of a report's `results`: a suite, or the `false` sentinel. */
  datatype Entry<S> = False | Present(suite: Suite<S>)

  /** One loaded report file; `start` and `end` are timestamps in milliseconds. */
  datatype Report<M, S> = Report(meta: M, start: int, end: int, results: seq<Entry<S>>)

  /** An externally produced record linking a test file to its video and screenshots. */
  datatype Artifact<S> = Artifact(filePath: string, videoPath: string, screenshots: S)

  /** The integer-valued part of the merged statistics. */
  datatype Stats = Stats(
    suites: nat,
    tests: nat,
    passes: nat,
    pending: nat,
    failures: nat,
    testsRegistered: nat,
    other: nat,
    hasOther: bool,
    skipped: nat,
    hasSkipped: bool,
    start: int,
    end: int,
    duration: int)

  datatype MergedReport<M, S> = MergedReport(stats: Stats, results: seq<Suite<S>>, meta: M)
}
