/** Attaching artifact videos and screenshots to suites: one greedy pass over the suites
    with a cursor into the reversed artifact list. */
module Correlate {
  import opened MergeTypes
  import Keys
  import Seqs

  /** The list read from its last element to its first. */
  function Reverse<T>(s: seq<T>): (r: seq<T>)
    ensures |r| == |s|
    ensures forall i :: 0 <= i < |s| ==> r[i] == s[|s| - 1 - i]
  {
    if s == [] then [] else Reverse(s[1..]) + [s[0]]
  }

  /** The suite annotated with the artifact's video path and its screenshots; every
      other field of the suite is kept. */
  function Attach<S>(s: Suite<S>, a: Artifact<S>): (r: Suite<S>)
    ensures r.fullFile == s.fullFile && r.tests == s.tests && r.suites == s.suites
    ensures r.videoPath == Some(a.videoPath) && r.screenshotPath == Some(a.screenshots)
  {
    s.(videoPath := Some(a.videoPath), screenshotPath := Some(a.screenshots))
  }

  /** The suites after correlation, and for each whether an artifact was attached to it
      (the places where the cursor advanced). */
  datatype Correlation<S> = Correlation(suites: seq<Suite<S>>, matched: seq<bool>)

  function CountTrue(bs: seq<bool>): nat
  {
    if bs == [] then 0 else (if bs[0] then 1 else 0) + CountTrue(bs[1..])
  }

  function Falses(n: nat): (r: seq<bool>)
    ensures |r| == n && CountTrue(r) == 0
    ensures forall i :: 0 <= i < n ==> !r[i]
  {
    if n == 0 then [] else [false] + Falses(n - 1)
  }

  /** `prefix` placed before a successful correlation of the remaining suites. */
  function Prepend<S>(suites: seq<Suite<S>>, matched: seq<bool>, r: Result<Correlation<S>>): Result<Correlation<S>>
  {
    match r
    case Err(f) => Err(f)
    case Ok(c) => Ok(Correlation(suites + c.suites, matched + c.matched))
  }

  /** The correlation loop from a given cursor into the reversed artifacts `rev`: stop
      once the cursor is past the last artifact; otherwise extract both keys (failing
      when either path has none), attach and advance on equality, and go on. */
  function CorrelateFrom<S>(suites: seq<Suite<S>>, rev: seq<Artifact<S>>, cursor: nat, key: string -> Option<string>): (r: Result<Correlation<S>>)
    requires cursor <= |rev|
    ensures r.Ok? ==> |r.value.suites| == |suites| && |r.value.matched| == |suites|
    ensures r.Ok? ==> cursor + CountTrue(r.value.matched) <= |rev|
    decreases |suites|
  {
    if suites == [] || cursor == |rev| then Ok(Correlation(suites, Falses(|suites|)))
    else
      match key(suites[0].fullFile)
      case None => Err(NoKey(suites[0].fullFile))
      case Some(suiteKey) =>
        match key(rev[cursor].filePath)
        case None => Err(NoKey(rev[cursor].filePath))
        case Some(artifactKey) =>
          if suiteKey == artifactKey then
            Prepend([Attach(suites[0], rev[cursor])], [true], CorrelateFrom(suites[1..], rev, cursor + 1, key))
          else
            Prepend([suites[0]], [false], CorrelateFrom(suites[1..], rev, cursor, key))
  }

  /** One step of the loop, when both keys exist. */
  lemma {:induction false} CorrelateFromStep<S>(suites: seq<Suite<S>>, rev: seq<Artifact<S>>, cursor: nat, key: string -> Option<string>)
    requires suites != [] && cursor < |rev|
    requires key(suites[0].fullFile).Some? && key(rev[cursor].filePath).Some?
    ensures var hit := key(suites[0].fullFile) == key(rev[cursor].filePath);
      CorrelateFrom(suites, rev, cursor, key)
        == Prepend([if hit then Attach(suites[0], rev[cursor]) else suites[0]], [hit],
                   CorrelateFrom(suites[1..], rev, cursor + (if hit then 1 else 0), key))
  {
  }

  /** Correlation of the merged suites with the caller's artifacts, consumed last first.
      A failure names a suite or artifact path that has no key. */
  function CorrelateArtifacts<S>(suites: seq<Suite<S>>, artifacts: seq<Artifact<S>>): (r: Result<Correlation<S>>)
    ensures r.Ok? ==> |r.value.suites| == |suites| && |r.value.matched| == |suites|
    ensures r.Ok? ==> CountTrue(r.value.matched) <= |artifacts|
    ensures artifacts == [] ==> r == Ok(Correlation(suites, Falses(|suites|)))
    ensures r.Err? ==>
      && r.failure.NoKey? && Keys.KeyOf(r.failure.path).None?
      && ((exists i :: 0 <= i < |suites| && r.failure.path == suites[i].fullFile)
          || (exists j :: 0 <= j < |artifacts| && r.failure.path == artifacts[j].filePath))
  {
    var rev := Reverse(artifacts);
    var r := CorrelateFrom(suites, rev, 0, Keys.KeyOf);
    ArtifactsFailure(suites, artifacts, rev);
    r
  }

  /** A failed correlation of the caller's artifacts, reversed into `rev`, names a suite
      path or an artifact path that has no key. */
  lemma ArtifactsFailure<S>(suites: seq<Suite<S>>, artifacts: seq<Artifact<S>>, rev: seq<Artifact<S>>)
    requires |rev| == |artifacts| && forall j :: 0 <= j < |rev| ==> rev[j] == artifacts[|artifacts| - 1 - j]
    ensures var r := CorrelateFrom(suites, rev, 0, Keys.KeyOf);
      r.Err? ==>
        && r.failure.NoKey? && Keys.KeyOf(r.failure.path).None?
        && ((exists i :: 0 <= i < |suites| && r.failure.path == suites[i].fullFile)
            || (exists j :: 0 <= j < |artifacts| && r.failure.path == artifacts[j].filePath))
  {
    var r := CorrelateFrom(suites, rev, 0, Keys.KeyOf);
    if r.Err? {
      var f := r.failure;
      CorrelateFromFailure(suites, rev, 0, Keys.KeyOf);
      if !exists i :: 0 <= i < |suites| && f.path == suites[i].fullFile {
        var j :| 0 <= j < |rev| && f.path == rev[j].filePath;
        assert f.path == artifacts[|artifacts| - 1 - j].filePath;
      }
    }
  }

  /** The cursor position when the suite at index `i` is reached. */
  function CursorAt(cursor: nat, matched: seq<bool>, i: nat): nat
    requires i <= |matched|
  {
    cursor + CountTrue(matched[..i])
  }

  /** One suite reached with the cursor at `at`: it is annotated (`hit`) exactly when the
      cursor is on an artifact with the same key, and then with that artifact; otherwise
      it is unchanged, and if the cursor was on an artifact both keys existed and differed. */
  ghost predicate StepHolds<S>(before: Suite<S>, after: Suite<S>, hit: bool, rev: seq<Artifact<S>>, at: nat, key: string -> Option<string>)
  {
    if hit then
      && at < |rev|
      && key(before.fullFile).Some?
      && key(before.fullFile) == key(rev[at].filePath)
      && after == Attach(before, rev[at])
    else
      && after == before
      && (at < |rev| ==>
            && key(before.fullFile).Some?
            && key(rev[at].filePath).Some?
            && key(before.fullFile) != key(rev[at].filePath))
  }

  /** What a finished correlation means: every suite fared as `StepHolds` says, with the
      cursor advanced once per annotated suite, and never past the last artifact. */
  ghost predicate WellCorrelated<S>(suites: seq<Suite<S>>, rev: seq<Artifact<S>>, cursor: nat, c: Correlation<S>, key: string -> Option<string>)
  {
    && |c.suites| == |suites| && |c.matched| == |suites|
    && cursor + CountTrue(c.matched) <= |rev|
    && forall i :: 0 <= i < |suites| ==>
         StepHolds(suites[i], c.suites[i], c.matched[i], rev, CursorAt(cursor, c.matched, i), key)
  }

  lemma {:induction false} CountTrueCons(m: seq<bool>, i: nat)
    requires 0 < i <= |m|
    ensures CountTrue(m[..i]) == (if m[0] then 1 else 0) + CountTrue(m[1..][..i - 1])
  {
    assert m[..i][1..] == m[1..][..i - 1];
  }

  /** Dropping the first suite of a correlation leaves a correlation of the rest, from
      the cursor the first suite left behind. */
  lemma {:induction false} WellCorrelatedTail<S>(suites: seq<Suite<S>>, rev: seq<Artifact<S>>, cursor: nat, c: Correlation<S>, key: string -> Option<string>)
    requires suites != [] && WellCorrelated(suites, rev, cursor, c, key)
    ensures WellCorrelated(suites[1..], rev, cursor + (if c.matched[0] then 1 else 0),
                           Correlation(c.suites[1..], c.matched[1..]), key)
  {
    var step := if c.matched[0] then 1 else 0;
    var t := Correlation(c.suites[1..], c.matched[1..]);
    forall i | 0 <= i < |suites| - 1
      ensures StepHolds(suites[1..][i], t.suites[i], t.matched[i], rev, CursorAt(cursor + step, t.matched, i), key)
    {
      TailStepAt(suites, rev, cursor, c, key, i);
    }
  }

  /** The suite at `i + 1` of a correlation fares in the correlation of the rest as the
      suite at `i`. */
  lemma TailStepAt<S>(suites: seq<Suite<S>>, rev: seq<Artifact<S>>, cursor: nat, c: Correlation<S>, key: string -> Option<string>, i: nat)
    requires i < |suites| - 1 && WellCorrelated(suites, rev, cursor, c, key)
    ensures var t := Correlation(c.suites[1..], c.matched[1..]);
      StepHolds(suites[1..][i], t.suites[i], t.matched[i], rev,
                CursorAt(cursor + (if c.matched[0] then 1 else 0), t.matched, i), key)
  {
    var t := Correlation(c.suites[1..], c.matched[1..]);
    var at := CursorAt(cursor, c.matched, i + 1);
    CountTrueCons(c.matched, i + 1);
    assert at == CursorAt(cursor + (if c.matched[0] then 1 else 0), t.matched, i);
    assert suites[1..][i] == suites[i + 1] && t.suites[i] == c.suites[i + 1] && t.matched[i] == c.matched[i + 1];
    assert StepHolds(suites[i + 1], c.suites[i + 1], c.matched[i + 1], rev, at, key);
  }

  /** A correlation of the rest, preceded by a first suite handled as the loop would. */
  lemma {:induction false} WellCorrelatedCons<S>(suites: seq<Suite<S>>, rev: seq<Artifact<S>>, cursor: nat,
                              first: Suite<S>, hit: bool, t: Correlation<S>, key: string -> Option<string>)
    requires suites != [] && cursor <= |rev|
    requires WellCorrelated(suites[1..], rev, cursor + (if hit then 1 else 0), t, key)
    requires StepHolds(suites[0], first, hit, rev, cursor, key)
    ensures WellCorrelated(suites, rev, cursor, Correlation([first] + t.suites, [hit] + t.matched), key)
  {
    var c := Correlation([first] + t.suites, [hit] + t.matched);
    Seqs.ConsParts(first, t.suites);
    Seqs.ConsParts(hit, t.matched);
    assert CountTrue(c.matched) == (if hit then 1 else 0) + CountTrue(t.matched);
    assert c.matched[..0] == [];
    assert StepHolds(suites[0], c.suites[0], c.matched[0], rev, CursorAt(cursor, c.matched, 0), key);
    ConsSteps(suites, rev, cursor, first, hit, t, key);
  }

  /** Every suite after the first fares in such a correlation as it did in the rest. */
  lemma ConsSteps<S>(suites: seq<Suite<S>>, rev: seq<Artifact<S>>, cursor: nat,
                     first: Suite<S>, hit: bool, t: Correlation<S>, key: string -> Option<string>)
    requires suites != []
    requires WellCorrelated(suites[1..], rev, cursor + (if hit then 1 else 0), t, key)
    ensures var c := Correlation([first] + t.suites, [hit] + t.matched);
      forall i :: 0 < i < |suites| ==>
        StepHolds(suites[i], c.suites[i], c.matched[i], rev, CursorAt(cursor, c.matched, i), key)
  {
    forall i | 0 < i < |suites|
      ensures var c := Correlation([first] + t.suites, [hit] + t.matched);
        StepHolds(suites[i], c.suites[i], c.matched[i], rev, CursorAt(cursor, c.matched, i), key)
    {
      ConsStepAt(suites, rev, cursor, first, hit, t, key, i);
    }
  }

  /** The suite at `i > 0` of such a correlation fares as it did in the correlation of the rest. */
  lemma {:induction false} ConsStepAt<S>(suites: seq<Suite<S>>, rev: seq<Artifact<S>>, cursor: nat,
                                         first: Suite<S>, hit: bool, t: Correlation<S>, key: string -> Option<string>, i: nat)
    requires 0 < i < |suites|
    requires WellCorrelated(suites[1..], rev, cursor + (if hit then 1 else 0), t, key)
    ensures var c := Correlation([first] + t.suites, [hit] + t.matched);
      StepHolds(suites[i], c.suites[i], c.matched[i], rev, CursorAt(cursor, c.matched, i), key)
  {
    var c := Correlation([first] + t.suites, [hit] + t.matched);
    var at := CursorAt(cursor + (if hit then 1 else 0), t.matched, i - 1);
    Seqs.ConsParts(hit, t.matched);
    CountTrueCons(c.matched, i);
    assert at == CursorAt(cursor, c.matched, i);
    assert suites[1..][i - 1] == suites[i] && t.suites[i - 1] == c.suites[i] && t.matched[i - 1] == c.matched[i];
    assert StepHolds(suites[1..][i - 1], t.suites[i - 1], t.matched[i - 1], rev, at, key);
  }

  /** Soundness: whatever the loop returns is a correlation in the sense above. */
  lemma {:induction false} CorrelateFromSound<S>(suites: seq<Suite<S>>, rev: seq<Artifact<S>>, cursor: nat, key: string -> Option<string>)
    requires cursor <= |rev|
    requires CorrelateFrom(suites, rev, cursor, key).Ok?
    ensures WellCorrelated(suites, rev, cursor, CorrelateFrom(suites, rev, cursor, key).value, key)
    decreases |suites|
  {
    if suites == [] || cursor == |rev| {
      SoundAtEnd(suites, rev, cursor, key);
    } else {
      forall n: nat | n <= |rev| && CorrelateFrom(suites[1..], rev, n, key).Ok?
        ensures WellCorrelated(suites[1..], rev, n, CorrelateFrom(suites[1..], rev, n, key).value, key)
      {
        CorrelateFromSound(suites[1..], rev, n, key);
      }
      SoundStep(suites, rev, cursor, key);
    }
  }

  /** Soundness when no suite or no artifact is left: everything passes through. */
  lemma SoundAtEnd<S>(suites: seq<Suite<S>>, rev: seq<Artifact<S>>, cursor: nat, key: string -> Option<string>)
    requires cursor <= |rev| && (suites == [] || cursor == |rev|)
    ensures CorrelateFrom(suites, rev, cursor, key) == Ok(Correlation(suites, Falses(|suites|)))
    ensures WellCorrelated(suites, rev, cursor, Correlation(suites, Falses(|suites|)), key)
  {
  }

  /** The inductive step of `CorrelateFromSound`, once the rest is known to be sound. */
  lemma SoundStep<S>(suites: seq<Suite<S>>, rev: seq<Artifact<S>>, cursor: nat, key: string -> Option<string>)
    requires suites != [] && cursor < |rev|
    requires CorrelateFrom(suites, rev, cursor, key).Ok?
    requires forall n: nat :: n <= |rev| && CorrelateFrom(suites[1..], rev, n, key).Ok? ==>
      WellCorrelated(suites[1..], rev, n, CorrelateFrom(suites[1..], rev, n, key).value, key)
    ensures WellCorrelated(suites, rev, cursor, CorrelateFrom(suites, rev, cursor, key).value, key)
  {
    var hit, t := OkStep(suites, rev, cursor, key);
    var first := if hit then Attach(suites[0], rev[cursor]) else suites[0];
    WellCorrelatedCons(suites, rev, cursor, first, hit, t, key);
  }

  /** Completeness: any correlation in the sense above is what the loop returns. */
  lemma {:induction false} CorrelateFromComplete<S>(suites: seq<Suite<S>>, rev: seq<Artifact<S>>, cursor: nat, c: Correlation<S>, key: string -> Option<string>)
    requires cursor <= |rev|
    requires WellCorrelated(suites, rev, cursor, c, key)
    ensures CorrelateFrom(suites, rev, cursor, key) == Ok(c)
    decreases |suites|
  {
    if suites == [] {
      assert c.suites == [] && c.matched == [];
    } else if cursor == |rev| {
      WellCorrelatedAtEnd(suites, rev, c, key);
    } else {
      assert c.matched[..0] == [];
      assert StepHolds(suites[0], c.suites[0], c.matched[0], rev, cursor, key);
      WellCorrelatedTail(suites, rev, cursor, c, key);
      var next := cursor + (if c.matched[0] then 1 else 0);
      var t := Correlation(c.suites[1..], c.matched[1..]);
      CorrelateFromComplete(suites[1..], rev, next, t, key);
      CompleteStep(suites, rev, cursor, c, key, t);
    }
  }

  /** The inductive step of `CorrelateFromComplete`, once the rest is known. */
  lemma CompleteStep<S>(suites: seq<Suite<S>>, rev: seq<Artifact<S>>, cursor: nat, c: Correlation<S>,
                        key: string -> Option<string>, t: Correlation<S>)
    requires suites != [] && cursor < |rev|
    requires |c.suites| == |suites| && |c.matched| == |suites|
    requires StepHolds(suites[0], c.suites[0], c.matched[0], rev, cursor, key)
    requires t == Correlation(c.suites[1..], c.matched[1..])
    requires CorrelateFrom(suites[1..], rev, cursor + (if c.matched[0] then 1 else 0), key) == Ok(t)
    ensures CorrelateFrom(suites, rev, cursor, key) == Ok(c)
  {
    StepResult(suites, rev, cursor, key, c.suites[0], c.matched[0], t);
    Seqs.ConsSplit(c.suites);
    Seqs.ConsSplit(c.matched);
  }

  /** With the cursor past the last artifact, a correlation annotates nothing. */
  lemma {:induction false} WellCorrelatedAtEnd<S>(suites: seq<Suite<S>>, rev: seq<Artifact<S>>, c: Correlation<S>, key: string -> Option<string>)
    requires WellCorrelated(suites, rev, |rev|, c, key)
    ensures c == Correlation(suites, Falses(|suites|))
  {
    forall i | 0 <= i < |suites|
      ensures !c.matched[i] && c.suites[i] == suites[i]
    {
      assert StepHolds(suites[i], c.suites[i], c.matched[i], rev, CursorAt(|rev|, c.matched, i), key);
    }
    assert c.matched == Falses(|suites|);
    assert c.suites == suites;
  }

  /** A first suite handled as `StepHolds` says, before a correlation of the rest, is
      what the loop returns. */
  lemma {:induction false} StepResult<S>(suites: seq<Suite<S>>, rev: seq<Artifact<S>>, cursor: nat, key: string -> Option<string>,
                                         first: Suite<S>, hit: bool, t: Correlation<S>)
    requires suites != [] && cursor < |rev|
    requires StepHolds(suites[0], first, hit, rev, cursor, key)
    requires CorrelateFrom(suites[1..], rev, cursor + (if hit then 1 else 0), key) == Ok(t)
    ensures CorrelateFrom(suites, rev, cursor, key) == Ok(Correlation([first] + t.suites, [hit] + t.matched))
  {
    CorrelateFromStep(suites, rev, cursor, key);
  }

  /** The loop's outcome, when it succeeds, is characterised exactly by `WellCorrelated`. */
  lemma {:induction false} CorrelateFromIff<S>(suites: seq<Suite<S>>, rev: seq<Artifact<S>>, cursor: nat, c: Correlation<S>, key: string -> Option<string>)
    requires cursor <= |rev|
    ensures CorrelateFrom(suites, rev, cursor, key) == Ok(c) <==> WellCorrelated(suites, rev, cursor, c, key)
  {
    if CorrelateFrom(suites, rev, cursor, key) == Ok(c) {
      CorrelateFromSound(suites, rev, cursor, key);
    }
    if WellCorrelated(suites, rev, cursor, c, key) {
      CorrelateFromComplete(suites, rev, cursor, c, key);
    }
  }

  /** Correlation changes no suite's path, tests or children. */
  lemma {:induction false} CorrelationKeepsTrees<S>(suites: seq<Suite<S>>, rev: seq<Artifact<S>>, cursor: nat, key: string -> Option<string>)
    requires cursor <= |rev|
    requires CorrelateFrom(suites, rev, cursor, key).Ok?
    ensures var c := CorrelateFrom(suites, rev, cursor, key).value;
      && |c.suites| == |suites|
      && forall i :: 0 <= i < |suites| ==>
           c.suites[i].fullFile == suites[i].fullFile
           && c.suites[i].tests == suites[i].tests && c.suites[i].suites == suites[i].suites
  {
    var c := CorrelateFrom(suites, rev, cursor, key).value;
    CorrelateFromSound(suites, rev, cursor, key);
    forall i | 0 <= i < |suites|
      ensures c.suites[i].fullFile == suites[i].fullFile
      ensures c.suites[i].tests == suites[i].tests && c.suites[i].suites == suites[i].suites
    {
      assert StepHolds(suites[i], c.suites[i], c.matched[i], rev, CursorAt(cursor, c.matched, i), key);
    }
  }

  /** The cursor rises by one at an annotated suite and stays put elsewhere. */
  lemma {:induction false} CursorStep(cursor: nat, m: seq<bool>, i: nat)
    requires i < |m|
    ensures CursorAt(cursor, m, i + 1) == CursorAt(cursor, m, i) + (if m[i] then 1 else 0)
  {
    CountTrueSnoc(m[..i + 1]);
    assert m[..i + 1][..i] == m[..i];
  }

  lemma {:induction false} CountTrueSnoc(m: seq<bool>)
    requires m != []
    ensures CountTrue(m) == CountTrue(m[..|m| - 1]) + (if m[|m| - 1] then 1 else 0)
  {
    if |m| > 1 {
      CountTrueSnoc(m[1..]);
      assert m[1..][..|m[1..]| - 1] == m[..|m| - 1][1..];
    }
  }

  /** One more flag adds one to the count exactly when it is set. */
  lemma CountTrueAppend(m: seq<bool>, b: bool)
    ensures CountTrue(m + [b]) == CountTrue(m) + (if b then 1 else 0)
  {
    CountTrueSnoc(m + [b]);
    assert (m + [b])[..|m|] == m;
  }

  /** The elements of `xs` at the positions `m` flags, in order. */
  function Picked<T>(xs: seq<T>, m: seq<bool>): (r: seq<T>)
    requires |xs| == |m|
    ensures |r| == CountTrue(m)
  {
    if xs == [] then [] else (if m[0] then [xs[0]] else []) + Picked(xs[1..], m[1..])
  }

  /** `hits` carry the keys of the artifacts of `rev` from position `from` on, one each
      and in order, and `done` are those suites annotated with those artifacts. */
  ghost predicate LinedUp<S>(hits: seq<Suite<S>>, done: seq<Suite<S>>, rev: seq<Artifact<S>>, from: nat, key: string -> Option<string>)
  {
    && from + |hits| <= |rev| && |done| == |hits|
    && (forall k :: 0 <= k < |hits| ==>
          key(hits[k].fullFile).Some? && key(hits[k].fullFile) == key(rev[from + k].filePath))
    && (forall k :: 0 <= k < |hits| ==> done[k] == Attach(hits[k], rev[from + k]))
  }

  /** The annotated suites, in suite order, carry the keys of the artifacts from the
      cursor on, one each and in the order of the reversed list, and hold exactly
      those artifacts' videos and screenshots. */
  lemma MatchedInArtifactOrder<S>(suites: seq<Suite<S>>, rev: seq<Artifact<S>>, cursor: nat, key: string -> Option<string>)
    requires cursor <= |rev|
    requires CorrelateFrom(suites, rev, cursor, key).Ok?
    ensures var c := CorrelateFrom(suites, rev, cursor, key).value;
      var hits := Picked(suites, c.matched);
      && |c.matched| == |suites| && |c.suites| == |suites|
      && cursor + |hits| <= |rev|
      && (forall k :: 0 <= k < |hits| ==>
            key(hits[k].fullFile).Some? && key(hits[k].fullFile) == key(rev[cursor + k].filePath))
      && (forall k :: 0 <= k < |hits| ==>
            Picked(c.suites, c.matched)[k] == Attach(hits[k], rev[cursor + k]))
  {
    MatchedLinedUp(suites, rev, cursor, key);
  }

  /** `MatchedInArtifactOrder`, stated with `LinedUp` and proved by induction on the suites. */
  lemma {:induction false} MatchedLinedUp<S>(suites: seq<Suite<S>>, rev: seq<Artifact<S>>, cursor: nat, key: string -> Option<string>)
    requires cursor <= |rev|
    requires CorrelateFrom(suites, rev, cursor, key).Ok?
    ensures var c := CorrelateFrom(suites, rev, cursor, key).value;
      && |c.matched| == |suites| && |c.suites| == |suites|
      && LinedUp(Picked(suites, c.matched), Picked(c.suites, c.matched), rev, cursor, key)
    decreases |suites|
  {
    var c := CorrelateFrom(suites, rev, cursor, key).value;
    if suites != [] && cursor < |rev| {
      var hit, t := OkStep(suites, rev, cursor, key);
      var next := cursor + (if hit then 1 else 0);
      MatchedLinedUp(suites[1..], rev, next, key);
      var hits', done' := Picked(suites[1..], t.matched), Picked(t.suites, t.matched);
      if hit {
        assert Picked(suites, c.matched) == [suites[0]] + hits';
        assert Picked(c.suites, c.matched) == [Attach(suites[0], rev[cursor])] + done';
        MatchedHitStep(suites[0], hits', done', rev, cursor, key);
      } else {
        assert Picked(suites, c.matched) == hits' && Picked(c.suites, c.matched) == done';
      }
    } else {
      assert c.matched == Falses(|suites|);
      PickedNone(suites, c.matched);
      PickedNone(c.suites, c.matched);
    }
  }

  /** The inductive step of `MatchedLinedUp` when the first suite is annotated: it takes
      the artifact under the cursor, and the rest line up from the next one. */
  lemma MatchedHitStep<S>(first: Suite<S>, hits: seq<Suite<S>>, done: seq<Suite<S>>, rev: seq<Artifact<S>>,
                          cursor: nat, key: string -> Option<string>)
    requires cursor < |rev|
    requires key(first.fullFile).Some? && key(first.fullFile) == key(rev[cursor].filePath)
    requires LinedUp(hits, done, rev, cursor + 1, key)
    ensures LinedUp([first] + hits, [Attach(first, rev[cursor])] + done, rev, cursor, key)
  {
    forall k | 0 < k < |hits| + 1
      ensures ([first] + hits)[k] == hits[k - 1] && ([Attach(first, rev[cursor])] + done)[k] == done[k - 1]
      ensures rev[cursor + k] == rev[cursor + 1 + (k - 1)]
    {
    }
  }

  lemma {:induction false} PickedNone<T>(xs: seq<T>, m: seq<bool>)
    requires |xs| == |m| && CountTrue(m) == 0
    ensures Picked(xs, m) == []
  {
  }

  /** Once the cursor has passed the last artifact, the remaining suites are passed
      through untouched and never key-extracted, whatever their paths. */
  lemma {:induction false} TrailingSuitesUntouched<S>(front: seq<Suite<S>>, back: seq<Suite<S>>, rev: seq<Artifact<S>>, cursor: nat, key: string -> Option<string>)
    requires cursor <= |rev|
    requires CorrelateFrom(front, rev, cursor, key).Ok?
    requires cursor + CountTrue(CorrelateFrom(front, rev, cursor, key).value.matched) == |rev|
    ensures var c := CorrelateFrom(front, rev, cursor, key).value;
      CorrelateFrom(front + back, rev, cursor, key)
        == Ok(Correlation(c.suites + back, c.matched + Falses(|back|)))
    decreases |front|
  {
    var c := CorrelateFrom(front, rev, cursor, key).value;
    if front == [] {
      assert front + back == back;
      assert c.suites + back == back && c.matched + Falses(|back|) == Falses(|back|);
    } else if cursor == |rev| {
      assert c.suites == front && c.matched == Falses(|front|);
      FalsesAppend(|front|, |back|);
    } else {
      forall n: nat | n <= |rev| && CorrelateFrom(front[1..], rev, n, key).Ok?
                      && n + CountTrue(CorrelateFrom(front[1..], rev, n, key).value.matched) == |rev|
        ensures var t := CorrelateFrom(front[1..], rev, n, key).value;
          CorrelateFrom(front[1..] + back, rev, n, key) == Ok(Correlation(t.suites + back, t.matched + Falses(|back|)))
      {
        TrailingSuitesUntouched(front[1..], back, rev, n, key);
      }
      TrailingCons(front, back, rev, cursor, key);
    }
  }

  /** The inductive case of `TrailingSuitesUntouched`, given the property for the rest
      of the front suites from every cursor. */
  lemma TrailingCons<S>(front: seq<Suite<S>>, back: seq<Suite<S>>, rev: seq<Artifact<S>>, cursor: nat, key: string -> Option<string>)
    requires front != [] && cursor < |rev|
    requires CorrelateFrom(front, rev, cursor, key).Ok?
    requires cursor + CountTrue(CorrelateFrom(front, rev, cursor, key).value.matched) == |rev|
    requires forall n: nat ::
      (n <= |rev| && CorrelateFrom(front[1..], rev, n, key).Ok?
       && n + CountTrue(CorrelateFrom(front[1..], rev, n, key).value.matched) == |rev|) ==>
      var t := CorrelateFrom(front[1..], rev, n, key).value;
      CorrelateFrom(front[1..] + back, rev, n, key) == Ok(Correlation(t.suites + back, t.matched + Falses(|back|)))
    ensures var c := CorrelateFrom(front, rev, cursor, key).value;
      CorrelateFrom(front + back, rev, cursor, key)
        == Ok(Correlation(c.suites + back, c.matched + Falses(|back|)))
  {
    var hit, t := OkStep(front, rev, cursor, key);
    var first := if hit then Attach(front[0], rev[cursor]) else front[0];
    assert CountTrue([hit] + t.matched) == (if hit then 1 else 0) + CountTrue(t.matched);
    TrailingStep(front, back, rev, cursor, key, first, hit, t);
  }

  /** The inductive step of `TrailingSuitesUntouched`, once the rest is known. */
  lemma {:induction false} TrailingStep<S>(front: seq<Suite<S>>, back: seq<Suite<S>>, rev: seq<Artifact<S>>, cursor: nat, key: string -> Option<string>,
                                           first: Suite<S>, hit: bool, t: Correlation<S>)
    requires front != [] && cursor < |rev|
    requires key(front[0].fullFile).Some? && key(rev[cursor].filePath).Some?
    requires hit == (key(front[0].fullFile) == key(rev[cursor].filePath))
    requires first == if hit then Attach(front[0], rev[cursor]) else front[0]
    requires CorrelateFrom(front[1..] + back, rev, cursor + (if hit then 1 else 0), key)
          == Ok(Correlation(t.suites + back, t.matched + Falses(|back|)))
    ensures CorrelateFrom(front + back, rev, cursor, key)
         == Ok(Correlation(([first] + t.suites) + back, ([hit] + t.matched) + Falses(|back|)))
  {
    var whole := front + back;
    assert whole[0] == front[0] && whole[1..] == front[1..] + back;
    CorrelateFromStep(whole, rev, cursor, key);
    Seqs.Assoc([first], t.suites, back);
    Seqs.Assoc([hit], t.matched, Falses(|back|));
  }

  lemma {:induction false} FalsesAppend(a: nat, b: nat)
    ensures Falses(a) + Falses(b) == Falses(a + b)
  {
    if a > 0 {
      FalsesAppend(a - 1, b);
      assert Falses(a) + Falses(b) == [false] + (Falses(a - 1) + Falses(b));
    }
  }

  /** A successful step past a suite, with the cursor on an artifact: both keys exist,
      and the result is the handled first suite before the correlation of the rest. */
  lemma {:induction false} OkStep<S>(suites: seq<Suite<S>>, rev: seq<Artifact<S>>, cursor: nat, key: string -> Option<string>)
    returns (hit: bool, t: Correlation<S>)
    requires suites != [] && cursor < |rev|
    requires CorrelateFrom(suites, rev, cursor, key).Ok?
    ensures key(suites[0].fullFile).Some? && key(rev[cursor].filePath).Some?
    ensures hit == (key(suites[0].fullFile) == key(rev[cursor].filePath))
    ensures CorrelateFrom(suites[1..], rev, cursor + (if hit then 1 else 0), key) == Ok(t)
    ensures var c := CorrelateFrom(suites, rev, cursor, key).value;
      && c == Correlation([if hit then Attach(suites[0], rev[cursor]) else suites[0]] + t.suites, [hit] + t.matched)
      && c.suites[0] == (if hit then Attach(suites[0], rev[cursor]) else suites[0]) && c.matched[0] == hit
      && c.suites[1..] == t.suites && c.matched[1..] == t.matched
  {
    hit := key(suites[0].fullFile) == key(rev[cursor].filePath);
    t := CorrelateFrom(suites[1..], rev, cursor + (if hit then 1 else 0), key).value;
    var first := if hit then Attach(suites[0], rev[cursor]) else suites[0];
    Seqs.ConsParts(first, t.suites);
    Seqs.ConsParts(hit, t.matched);
  }

  /** A failure names a path the key function rejects: the path of a suite or of an
      artifact. */
  lemma {:induction false} CorrelateFromFailure<S>(suites: seq<Suite<S>>, rev: seq<Artifact<S>>, cursor: nat, key: string -> Option<string>)
    requires cursor <= |rev|
    requires CorrelateFrom(suites, rev, cursor, key).Err?
    ensures var f := CorrelateFrom(suites, rev, cursor, key).failure;
      && f.NoKey? && key(f.path).None?
      && ((exists i :: 0 <= i < |suites| && f.path == suites[i].fullFile)
          || (exists j :: cursor <= j < |rev| && f.path == rev[j].filePath))
    decreases |suites|
  {
    if key(suites[0].fullFile).Some? && key(rev[cursor].filePath).Some? {
      var next := cursor + (if key(suites[0].fullFile) == key(rev[cursor].filePath) then 1 else 0);
      CorrelateFromFailure(suites[1..], rev, next, key);
      var f := CorrelateFrom(suites, rev, cursor, key).failure;
      if exists i :: 0 <= i < |suites[1..]| && f.path == suites[1..][i].fullFile {
        var i :| 0 <= i < |suites[1..]| && f.path == suites[1..][i].fullFile;
        assert f.path == suites[i + 1].fullFile;
      }
    }
  }

  /** When every suite path and every artifact path has a key, correlation succeeds. */
  lemma {:induction false} CorrelateFromSucceeds<S>(suites: seq<Suite<S>>, rev: seq<Artifact<S>>, cursor: nat, key: string -> Option<string>)
    requires cursor <= |rev|
    requires forall i :: 0 <= i < |suites| ==> key(suites[i].fullFile).Some?
    requires forall j :: 0 <= j < |rev| ==> key(rev[j].filePath).Some?
    ensures CorrelateFrom(suites, rev, cursor, key).Ok?
    decreases |suites|
  {
    if suites != [] && cursor < |rev| {
      var next := cursor + (if key(suites[0].fullFile) == key(rev[cursor].filePath) then 1 else 0);
      assert forall i :: 0 <= i < |suites[1..]| ==> suites[1..][i] == suites[i + 1];
      CorrelateFromSucceeds(suites[1..], rev, next, key);
    }
  }

  /** The merge's correlation succeeds when every suite and artifact path has a key. */
  lemma {:induction false} CorrelateArtifactsSucceeds<S>(suites: seq<Suite<S>>, artifacts: seq<Artifact<S>>)
    requires forall i :: 0 <= i < |suites| ==> Keys.KeyOf(suites[i].fullFile).Some?
    requires forall j :: 0 <= j < |artifacts| ==> Keys.KeyOf(artifacts[j].filePath).Some?
    ensures CorrelateArtifacts(suites, artifacts).Ok?
  {
    var rev := Reverse(artifacts);
    forall j | 0 <= j < |rev|
      ensures Keys.KeyOf(rev[j].filePath).Some?
    {
      assert rev[j] == artifacts[|artifacts| - 1 - j];
    }
    CorrelateFromSucceeds(suites, rev, 0, Keys.KeyOf);
  }

  /** The artifacts the cursor walks over first are the caller's last ones, last first. */
  lemma {:induction false} ReversedPrefix<T>(s: seq<T>, n: nat)
    requires n <= |s|
    ensures Reverse(s)[..n] == Reverse(s[|s| - n..])
  {
    var t := s[|s| - n..];
    var a, b := Reverse(s)[..n], Reverse(t);
    assert |a| == n && |b| == n;
    forall k | 0 <= k < n
      ensures a[k] == b[k]
    {
      assert a[k] == Reverse(s)[k] == s[|s| - 1 - k];
      assert b[k] == t[n - 1 - k];
    }
  }

  lemma {:induction false} PrependNothing<S>(r: Result<Correlation<S>>)
    ensures Prepend([], [], r) == r
  {
    if r.Ok? {
      assert [] + r.value.suites == r.value.suites && [] + r.value.matched == r.value.matched;
    }
  }

  /** Prefixing composes: two prefixes in a row are one concatenated prefix. */
  lemma {:induction false} PrependTwice<S>(a: seq<Suite<S>>, ma: seq<bool>, x: Suite<S>, b: bool, r: Result<Correlation<S>>)
    ensures Prepend(a, ma, Prepend([x], [b], r)) == Prepend(a + [x], ma + [b], r)
  {
    if r.Ok? {
      assert a + ([x] + r.value.suites) == (a + [x]) + r.value.suites;
      assert ma + ([b] + r.value.matched) == (ma + [b]) + r.value.matched;
    }
  }

  /** One turn of the loop, seen from the whole: handling the suite at `i` moves it
      from the pending rest to the finished prefix. */
  lemma {:induction false} LoopStep<S>(suites: seq<Suite<S>>, rev: seq<Artifact<S>>, i: nat, cursor: nat, key: string -> Option<string>,
                    done: seq<Suite<S>>, flags: seq<bool>, suiteKey: string, artifactKey: string)
    requires i < |suites| && cursor < |rev|
    requires key(suites[i].fullFile) == Some(suiteKey) && key(rev[cursor].filePath) == Some(artifactKey)
    ensures var hit := suiteKey == artifactKey;
      Prepend(done, flags, CorrelateFrom(suites[i..], rev, cursor, key))
        == Prepend(done + [if hit then Attach(suites[i], rev[cursor]) else suites[i]], flags + [hit],
                   CorrelateFrom(suites[i + 1..], rev, cursor + (if hit then 1 else 0), key))
  {
    var rest := suites[i..];
    assert rest[0] == suites[i] && rest[1..] == suites[i + 1..];
    CorrelateFromStep(rest, rev, cursor, key);
    var hit := suiteKey == artifactKey;
    PrependTwice(done, flags, if hit then Attach(suites[i], rev[cursor]) else suites[i], hit,
                 CorrelateFrom(suites[i + 1..], rev, cursor + (if hit then 1 else 0), key));
  }

  /** Leaving the loop at `i` on a missing key: the suite's key is extracted first, so
      its path is the one reported when both are missing. */
  lemma {:induction false} LoopFail<S>(suites: seq<Suite<S>>, rev: seq<Artifact<S>>, i: nat, cursor: nat, key: string -> Option<string>,
                                       done: seq<Suite<S>>, flags: seq<bool>)
    requires i < |suites| && cursor < |rev|
    ensures key(suites[i].fullFile).None? ==>
      Prepend(done, flags, CorrelateFrom(suites[i..], rev, cursor, key)) == Err(NoKey(suites[i].fullFile))
    ensures key(suites[i].fullFile).Some? && key(rev[cursor].filePath).None? ==>
      Prepend(done, flags, CorrelateFrom(suites[i..], rev, cursor, key)) == Err(NoKey(rev[cursor].filePath))
  {
    var rest := suites[i..];
    assert rest[0] == suites[i];
  }

  /** Leaving the loop at `i`, whether by the break or at the end: the suites not reached
      are kept as they are. */
  lemma {:induction false} LoopExit<S>(suites: seq<Suite<S>>, rev: seq<Artifact<S>>, i: nat, cursor: nat, key: string -> Option<string>,
                    done: seq<Suite<S>>, flags: seq<bool>)
    requires i <= |suites| && cursor <= |rev|
    requires i == |suites| || cursor == |rev|
    ensures Prepend(done, flags, CorrelateFrom(suites[i..], rev, cursor, key))
         == Ok(Correlation(done + suites[i..], flags + Falses(|suites| - i)))
  {
  }

  /** The loop of the merge routine: walks the suites once, breaking as soon as the
      cursor is past the last reversed artifact. `key` is the key extraction (the merge
      passes `Keys.KeyOf`). */
  method CorrelateSuites<S>(suites: seq<Suite<S>>, artifacts: seq<Artifact<S>>, key: string -> Option<string>)
    returns (r: Result<Correlation<S>>)
    ensures r == CorrelateFrom(suites, Reverse(artifacts), 0, key)
    ensures r.Ok? ==> WellCorrelated(suites, Reverse(artifacts), 0, r.value, key)
  {
    var rev := Reverse(artifacts);
    var fileIndex: nat := 0;
    var results: seq<Suite<S>> := [];
    var matched: seq<bool> := [];
    var i := 0;
    PrependNothing(CorrelateFrom(suites, rev, 0, key));
    while i < |suites|
      invariant i <= |suites| && fileIndex <= |rev|
      invariant |results| == |matched| == i && fileIndex == CountTrue(matched)
      invariant CorrelateFrom(suites, rev, 0, key)
             == Prepend(results, matched, CorrelateFrom(suites[i..], rev, fileIndex, key))
    {
      if fileIndex >= |rev| {
        break;
      }
      var suiteKey := key(suites[i].fullFile);
      var artifactKey := key(rev[fileIndex].filePath);
      LoopFail(suites, rev, i, fileIndex, key, results, matched);
      if suiteKey.None? {
        return Err(NoKey(suites[i].fullFile));
      }
      if artifactKey.None? {
        return Err(NoKey(rev[fileIndex].filePath));
      }
      LoopStep(suites, rev, i, fileIndex, key, results, matched, suiteKey.value, artifactKey.value);
      CountTrueAppend(matched, suiteKey == artifactKey);
      if suiteKey == artifactKey {
        results := results + [Attach(suites[i], rev[fileIndex])];
        matched := matched + [true];
        fileIndex := fileIndex + 1;
      } else {
        results := results + [suites[i]];
        matched := matched + [false];
      }
      i := i + 1;
    }
    LoopExit(suites, rev, i, fileIndex, key, results, matched);
    r := Ok(Correlation(results + suites[i..], matched + Falses(|suites| - i)));
    CorrelateFromSound(suites, rev, 0, key);
  }
}
