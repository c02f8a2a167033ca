/** A multi-model research run: its timeline, its analyses and the digest of its record. */
module ResearchRun {
  import opened Text

  /** What a model said: never empty, an empty output counts as a failed call. */
  datatype Answer = Answer(resolved: string, output: string)

  datatype Event =
    | Queued
    | Started(modelCount: nat)
    | AnalysisStarted(index: nat, model: string)
    | AnalysisCompleted(index: nat, model: string, answer: Answer)
    | SynthesisStarted(model: string)
    | SynthesisCompleted(model: string, answer: Answer)
    | Completed
    | Failed

  datatype Status = IsQueued | IsRunning | IsCompleted | IsFailed

  datatype Analysis = Analysis(index: nat, model: string, answer: Answer)

  /** The record of a run; the timeline without its clock readings. */
  datatype Run = Run(
    query: string,
    analysts: seq<string>,
    synthesisModel: string,
    status: Status,
    analyses: seq<Analysis>,
    synthesis: Option<Answer>,
    timeline: seq<Event>,
    receiptIds: seq<string>,
    updatedAt: int,
    completedAt: Option<int>,
    runSha: Option<string>)

  /** The world of a run: what model call `i` returns (the synthesis comes after the analysts), whether
      the progress callback returns when the timeline has `n` entries, and the clock then. */
  datatype World = World(call: nat -> Option<Answer>, progress: nat -> bool, clock: nat -> int)

  type Sha = Run -> string

  /** `run_hash_payload`: the record without its digest, receipts and update time. */
  function HashPayload(run: Run): Run {
    run.(runSha := None, receiptIds := [], updatedAt := 0)
  }

  /** `validate_models`. */
  function Trimmed(models: seq<string>): seq<string> {
    if models == [] then []
    else (if Strip(models[0]) == [] then [] else [Strip(models[0])]) + Trimmed(models[1..])
  }

  predicate Distinct(models: seq<string>) {
    forall i, j :: 0 <= i < j < |models| ==> models[i] != models[j]
  }

  predicate ValidModels(analysts: seq<string>, synthesis: string) {
    |analysts| >= 2 && Distinct(analysts) && synthesis != [] && synthesis !in analysts
  }

  /** `create_run`; None where it raises. */
  function CreateRun(query: string, analysts: seq<string>, synthesis: string, now: int): Option<Run> {
    if !ValidModels(Trimmed(analysts), Strip(synthesis)) || Strip(query) == [] then None
    else Some(Run(Strip(query), Trimmed(analysts), Strip(synthesis), IsQueued, [], None, [Queued], [], now, None, None))
  }

  /** The names without outer whitespace, blank ones left out, stand in their order. */
  lemma {:induction false} TrimmedPlaces(models: seq<string>) returns (at: seq<nat>)
    ensures |at| == |Trimmed(models)| && forall i, j :: 0 <= i < j < |at| ==> at[i] < at[j]
    ensures forall i :: 0 <= i < |at| ==> at[i] < |models| && Trimmed(models)[i] == Strip(models[at[i]])
    ensures forall n: nat :: n in at <==> n < |models| && Strip(models[n]) != []
    decreases |models|
  {
    at := [];
    if models != [] {
      var n := |models| - 1;
      assert models == models[..n] + [models[n]];
      TrimmedAppend(models[..n], models[n]);
      at := TrimmedPlaces(models[..n]);
      if Strip(models[n]) != [] {
        at := at + [n];
      }
    }
  }

  lemma {:induction false} TrimmedAppend(models: seq<string>, model: string)
    ensures Trimmed(models + [model]) == Trimmed(models) + (if Strip(model) == [] then [] else [Strip(model)])
  {
    if models == [] {
      assert [model][1..] == [] && models + [model] == [model];
    } else {
      assert (models + [model])[1..] == models[1..] + [model];
      TrimmedAppend(models[1..], model);
    }
  }

  /** A run is created if and only if, outer whitespace and blank names apart, there is a query, there
      are at least two analysts, no two of them are the same, and the synthesis model is none of them. */
  lemma CreateRunIff(query: string, analysts: seq<string>, synthesis: string, now: int)
    ensures CreateRun(query, analysts, synthesis, now).Some? <==>
            var names := Trimmed(analysts);
            && Strip(query) != [] && |names| >= 2
            && (forall i, j :: 0 <= i < j < |names| ==> names[i] != names[j])
            && Strip(synthesis) != [] && forall i :: 0 <= i < |names| ==> names[i] != Strip(synthesis)
  {
  }

  /** What is created is queued, with those names and nothing done yet. */
  lemma CreatedIsQueued(query: string, analysts: seq<string>, synthesis: string, now: int, run: Run)
    requires CreateRun(query, analysts, synthesis, now) == Some(run)
    ensures run.query == Strip(query) && run.analysts == Trimmed(analysts) && run.synthesisModel == Strip(synthesis)
    ensures run.status == IsQueued && run.analyses == [] && run.synthesis.None? && run.timeline == [Queued]
    ensures run.receiptIds == [] && run.completedAt.None? && run.runSha.None?
  {
  }

  /** Two records have one payload if and only if they differ in digest, receipts and update time
      at most. */
  lemma PayloadBindsIff(r: Run, r': Run)
    ensures HashPayload(r) == HashPayload(r') <==>
            r' == r.(runSha := r'.runSha, receiptIds := r'.receiptIds, updatedAt := r'.updatedAt)
  {
  }

  // ---------------------------------------------------------------- the trace

  function Got(world: World, i: nat): Answer {
    var a := world.call(i);
    if a.None? then Answer([], []) else a.value
  }

  /** The events of the first `n` analysts. */
  function AnalystEvents(run: Run, world: World, n: nat): seq<Event>
    requires n <= |run.analysts|
  {
    if n == 0 then []
    else AnalystEvents(run, world, n - 1)
         + [AnalysisStarted(n - 1, run.analysts[n - 1]),
            AnalysisCompleted(n - 1, run.analysts[n - 1], Got(world, n - 1))]
  }

  /** All events of a run that nothing stops. */
  function FullTrace(run: Run, world: World): seq<Event> {
    [Started(|run.analysts| + 1)] + AnalystEvents(run, world, |run.analysts|)
    + [SynthesisStarted(run.synthesisModel), SynthesisCompleted(run.synthesisModel, Got(world, |run.analysts|)),
       Completed]
  }

  /** The analyses of the first `n` analysts. */
  function Analyses(run: Run, world: World, n: nat): seq<Analysis>
    requires n <= |run.analysts|
  {
    if n == 0 then [] else Analyses(run, world, n - 1) + [Analysis(n - 1, run.analysts[n - 1], Got(world, n - 1))]
  }

  lemma {:induction false} AnalystEventsPrefix(run: Run, world: World, m: nat, n: nat)
    requires m <= n <= |run.analysts|
    ensures AnalystEvents(run, world, m) <= AnalystEvents(run, world, n)
  {
    if m < n {
      AnalystEventsPrefix(run, world, m, n - 1);
    }
  }

  /** The trace up to analyst `n`, and with that analyst's start. */
  lemma FullTracePrefix(run: Run, world: World, n: nat)
    requires n <= |run.analysts|
    ensures [Started(|run.analysts| + 1)] + AnalystEvents(run, world, n) <= FullTrace(run, world)
    ensures n < |run.analysts| ==>
      [Started(|run.analysts| + 1)] + AnalystEvents(run, world, n) + [AnalysisStarted(n, run.analysts[n])]
      <= FullTrace(run, world)
  {
    AnalystEventsPrefix(run, world, n, |run.analysts|);
    if n < |run.analysts| {
      AnalystEventsPrefix(run, world, n + 1, |run.analysts|);
      var two := [AnalysisStarted(n, run.analysts[n]), AnalysisCompleted(n, run.analysts[n], Got(world, n))];
      assert AnalystEvents(run, world, n + 1)[..|AnalystEvents(run, world, n)| + 1] ==
             AnalystEvents(run, world, n) + [two[0]];
    }
  }

  lemma {:induction false} AnalystEventsAt(run: Run, world: World, n: nat, i: nat)
    requires i < n <= |run.analysts|
    ensures var es := AnalystEvents(run, world, n);
            && |es| == 2 * n && es[2 * i] == AnalysisStarted(i, run.analysts[i])
            && es[2 * i + 1] == AnalysisCompleted(i, run.analysts[i], Got(world, i))
  {
    AnalystEventsLength(run, world, n - 1);
    if i < n - 1 {
      AnalystEventsAt(run, world, n - 1, i);
    }
  }

  lemma {:induction false} AnalystEventsLength(run: Run, world: World, n: nat)
    requires n <= |run.analysts|
    ensures |AnalystEvents(run, world, n)| == 2 * n
  {
    if n > 0 {
      AnalystEventsLength(run, world, n - 1);
    }
  }

  /** The full trace in order: the start, for each analyst in turn its start and its completion with
      what its model said, and the same of the synthesis, and the end. */
  lemma TraceInOrder(run: Run, world: World)
    ensures var t, n := FullTrace(run, world), |run.analysts|;
            && |t| == 2 * n + 4 && t[0] == Started(n + 1)
            && (forall i :: 0 <= i < n ==> t[2 * i + 1] == AnalysisStarted(i, run.analysts[i]))
            && (forall i :: 0 <= i < n ==> t[2 * i + 2] == AnalysisCompleted(i, run.analysts[i], Got(world, i)))
            && t[2 * n + 1] == SynthesisStarted(run.synthesisModel)
            && t[2 * n + 2] == SynthesisCompleted(run.synthesisModel, Got(world, n)) && t[2 * n + 3] == Completed
  {
    var t, n := FullTrace(run, world), |run.analysts|;
    AnalystEventsLength(run, world, n);
    var es := AnalystEvents(run, world, n);
    forall i | 0 <= i < n
      ensures t[2 * i + 1] == AnalysisStarted(i, run.analysts[i])
      ensures t[2 * i + 2] == AnalysisCompleted(i, run.analysts[i], Got(world, i))
    {
      AnalystEventsAt(run, world, n, i);
      assert t[2 * i + 1] == es[2 * i] && t[2 * i + 2] == es[2 * i + 1];
    }
  }

  /** The model call that follows the event does not answer. */
  predicate CallFails(run: Run, world: World, e: Event) {
    match e
    case AnalysisStarted(i, _) => world.call(i).None?
    case SynthesisStarted(_) => world.call(|run.analysts|).None?
    case _ => false
  }

  /** The `k`-th new event stops the run: the callback raises on it, or the call after it fails. */
  predicate StopsAt(run: Run, world: World, k: nat)
    requires 1 <= k <= |FullTrace(run, world)|
  {
    !world.progress(|run.timeline| + k) || CallFails(run, world, FullTrace(run, world)[k - 1])
  }

  predicate ClearTo(run: Run, world: World, k: nat) {
    k <= |FullTrace(run, world)| && forall j :: 1 <= j <= k ==> !StopsAt(run, world, j)
  }

  predicate FirstStop(run: Run, world: World, k: nat) {
    1 <= k <= |FullTrace(run, world)| && StopsAt(run, world, k) && ClearTo(run, world, k - 1)
  }

  /** Nothing stops the run: every call answers and every callback returns. */
  ghost predicate Unhindered(run: Run, world: World) {
    && (forall i: nat :: i <= |run.analysts| ==> world.call(i).Some?)
    && (forall k :: |run.timeline| < k <= |run.timeline| + |FullTrace(run, world)| ==> world.progress(k))
  }

  lemma UnhinderedIffClear(run: Run, world: World)
    ensures Unhindered(run, world) <==> ClearTo(run, world, |FullTrace(run, world)|)
  {
    TraceInOrder(run, world);
    var t, n := FullTrace(run, world), |run.analysts|;
    if ClearTo(run, world, |t|) {
      forall i: nat | i <= n ensures world.call(i).Some? {
        var e := if i < n then AnalysisStarted(i, run.analysts[i]) else SynthesisStarted(run.synthesisModel);
        assert t[2 * i + 1] == e;
        assert !StopsAt(run, world, 2 * i + 2);
        assert !CallFails(run, world, e);
      }
      forall k | |run.timeline| < k <= |run.timeline| + |t| ensures world.progress(k) {
        assert !StopsAt(run, world, k - |run.timeline|);
      }
    }
    if Unhindered(run, world) {
      forall j | 1 <= j <= |t| ensures !StopsAt(run, world, j) {
        CallAnswers(run, world, j);
      }
    }
  }

  lemma CallAnswers(run: Run, world: World, j: nat)
    requires 1 <= j <= |FullTrace(run, world)| && forall i: nat :: i <= |run.analysts| ==> world.call(i).Some?
    ensures !CallFails(run, world, FullTrace(run, world)[j - 1])
  {
    TraceInOrder(run, world);
    var t, n, p := FullTrace(run, world), |run.analysts|, j - 1;
    if p % 2 == 1 {
      var i := p / 2;
      assert p == 2 * i + 1;
      assert t[2 * i + 1] == if i < n then AnalysisStarted(i, run.analysts[i])
                             else if i == n then SynthesisStarted(run.synthesisModel) else Completed;
    } else if p > 0 {
      var i := p / 2 - 1;
      assert p == 2 * i + 2;
      assert t[2 * i + 2] == if i < n then AnalysisCompleted(i, run.analysts[i], Got(world, i))
                             else SynthesisCompleted(run.synthesisModel, Got(world, n));
    }
  }

  /** The run was stopped: its new events are the full trace up to the first that stops it, closed by a
      failure unless the callback raised on the very first. The exception escapes there, or when the
      callback raises on the failure. */
  predicate Stopped(before: Run, after: Run, world: World, raised: bool) {
    after.receiptIds == before.receiptIds &&
    exists k :: 1 <= k <= |FullTrace(before, world)| && FirstStop(before, world, k)
                && EndsAfter(before, after, world, raised, k)
  }

  predicate EndsAfter(before: Run, after: Run, world: World, raised: bool, k: nat)
    requires 1 <= k <= |FullTrace(before, world)|
  {
    var events := before.timeline + FullTrace(before, world)[..k];
    if k == 1 then after.timeline == events && raised && after.status == IsRunning
    else after.timeline == events + [Failed] && after.status == IsFailed
         && (raised <==> !world.progress(|after.timeline|))
  }

  /** What a completed run holds. */
  predicate Finished(before: Run, after: Run, world: World, sha: Sha) {
    && after.timeline == before.timeline + FullTrace(before, world)
    && after.analyses == before.analyses + Analyses(before, world, |before.analysts|)
    && after.synthesis == Some(Got(world, |before.analysts|))
    && after.status == IsCompleted && after.receiptIds == before.receiptIds
    && after.analysts == before.analysts && after.synthesisModel == before.synthesisModel && after.query == before.query
    && after.runSha == Some(sha(HashPayload(after)))
  }

  /** The new events so far, when nothing has stopped the run yet. */
  predicate SoFar(before: Run, after: Run, world: World, events: seq<Event>) {
    && events != [] && events <= FullTrace(before, world)
    && after.timeline == before.timeline + events
    && after == before.(status := IsRunning, analyses := after.analyses, synthesis := after.synthesis,
                        timeline := after.timeline, updatedAt := after.updatedAt)
  }

  function FirstEvents(run: Run, world: World, n: nat): seq<Event>
    requires n <= |run.analysts|
  {
    [Started(|run.analysts| + 1)] + AnalystEvents(run, world, n)
  }

  /** `n` analysts are done, and nothing has stopped the run. */
  ghost predicate Analysed(before: Run, after: Run, world: World, n: nat) {
    && n <= |before.analysts|
    && SoFar(before, after, world, FirstEvents(before, world, n))
    && after.analyses == before.analyses + Analyses(before, world, n) && after.synthesis == before.synthesis
    && ClearTo(before, world, |FirstEvents(before, world, n)|)
  }

  /** The new events of a run that was stopped in the guarded part: up to the first that stops it. */
  predicate Cut(before: Run, after: Run, world: World) {
    after.receiptIds == before.receiptIds &&
    exists k :: 2 <= k <= |FullTrace(before, world)| && FirstStop(before, world, k)
                && after.timeline == before.timeline + FullTrace(before, world)[..k]
  }

  /** One more event of the full trace: it stops the run, or the run goes on. */
  lemma OneMore(before: Run, r: Run, r': Run, world: World, events: seq<Event>, e: Event)
    requires SoFar(before, r, world, events) && events + [e] <= FullTrace(before, world)
    requires ClearTo(before, world, |events|)
    requires r' == r.(updatedAt := r'.updatedAt, timeline := r.timeline + [e])
    ensures SoFar(before, r', world, events + [e])
    ensures if world.progress(|r'.timeline|) && !CallFails(before, world, e)
            then ClearTo(before, world, |events| + 1) else Cut(before, r', world)
  {
    Assoc(before.timeline, events, [e]);
    var t, k := FullTrace(before, world), |events| + 1;
    assert (events + [e])[k - 1] == e && t[k - 1] == e;
    assert r'.timeline == before.timeline + t[..k];
    assert StopsAt(before, world, k) <==> !world.progress(|r'.timeline|) || CallFails(before, world, e);
    if StopsAt(before, world, k) {
      assert FirstStop(before, world, k);
    }
  }

  lemma CutIsHindered(before: Run, after: Run, world: World)
    requires Cut(before, after, world)
    ensures !Unhindered(before, world)
  {
    UnhinderedIffClear(before, world);
  }

  /** The last three events. */
  lemma FullTraceEnd(run: Run, world: World)
    ensures var events := [Started(|run.analysts| + 1)] + AnalystEvents(run, world, |run.analysts|);
            var started := SynthesisStarted(run.synthesisModel);
            var done := SynthesisCompleted(run.synthesisModel, Got(world, |run.analysts|));
            && events + [started] <= FullTrace(run, world) && events + [started] + [done] <= FullTrace(run, world)
            && events + [started] + [done] + [Completed] == FullTrace(run, world)
  {
  }

  /** The completion is the last event. */
  lemma LastEvent(before: Run, after: Run, world: World)
    requires var t := FullTrace(before, world);
             after.timeline == before.timeline + t[..|t| - 1] + [Completed] && ClearTo(before, world, |t| - 1)
    requires after.receiptIds == before.receiptIds
    ensures after.timeline == before.timeline + FullTrace(before, world)
    ensures if world.progress(|after.timeline|) then Unhindered(before, world) else Cut(before, after, world)
  {
    TraceInOrder(before, world);
    var t := FullTrace(before, world);
    assert t == t[..|t| - 1] + [Completed] && t[..|t|] == t;
    Assoc(before.timeline, t[..|t| - 1], [Completed]);
    UnhinderedIffClear(before, world);
    if !world.progress(|after.timeline|) {
      assert FirstStop(before, world, |t|);
    } else {
      assert !StopsAt(before, world, |t|);
    }
  }

  lemma FirstEventStops(before: Run, after: Run, world: World)
    requires after.timeline == before.timeline + [Started(|before.analysts| + 1)] && after.status == IsRunning
    requires after.receiptIds == before.receiptIds && !world.progress(|after.timeline|)
    ensures Stopped(before, after, world, true) && !Unhindered(before, world)
  {
    TraceInOrder(before, world);
    assert FullTrace(before, world)[..1] == [Started(|before.analysts| + 1)];
    assert FirstStop(before, world, 1) && EndsAfter(before, after, world, true, 1);
    UnhinderedIffClear(before, world);
  }

  lemma FirstEventPasses(before: Run, world: World)
    requires world.progress(|before.timeline| + 1)
    ensures ClearTo(before, world, 1)
  {
    TraceInOrder(before, world);
  }

  lemma CutIsStopped(before: Run, cut: Run, after: Run, world: World, raised: bool)
    requires Cut(before, cut, world) && after.timeline == cut.timeline + [Failed] && after.status == IsFailed
    requires after.receiptIds == cut.receiptIds && (raised <==> !world.progress(|after.timeline|))
    ensures Stopped(before, after, world, raised)
  {
    var k :| 2 <= k <= |FullTrace(before, world)| && FirstStop(before, world, k)
             && cut.timeline == before.timeline + FullTrace(before, world)[..k];
    assert EndsAfter(before, after, world, raised, k);
  }

  // ---------------------------------------------------------------- execution

  /** What the callback was given: a copy of the record, and the event. */
  datatype Snapshot = Snapshot(run: Run, event: Event)

  /** A finished record is shown with the event that ended it, and no record as queued. */
  predicate ShownInTime(s: Snapshot) {
    && s.run.status != IsQueued
    && (s.run.status == IsCompleted ==> s.event == Completed)
    && (s.run.status == IsFailed ==> s.event == Failed)
  }

  class Execution {
    var run: Run
    const world: World
    const sha: Sha
    ghost const start: nat
    ghost var seen: seq<Snapshot>

    constructor (run: Run, world: World, sha: Sha)
      ensures this.run == run && this.world == world && this.sha == sha && SeenOk()
    {
      this.run, this.world, this.sha, start, seen := run, world, sha, |run.timeline|, [];
    }

    /** The callback has seen every new event once and in order, each with the timeline up to it. */
    ghost predicate SeenOk()
      reads this
    {
      |run.timeline| == start + |seen| && forall i :: 0 <= i < |seen| ==>
        && seen[i].run.timeline == run.timeline[..start + i + 1] && seen[i].event == run.timeline[start + i]
        && ShownInTime(seen[i])
    }

    /** Append to the timeline, then call back; false when the callback raises. */
    method Emit(event: Event) returns (ok: bool)
      requires SeenOk() && run.status != IsQueued
      requires (run.status == IsCompleted ==> event == Completed) && (run.status == IsFailed ==> event == Failed)
      modifies this`run, this`seen
      ensures SeenOk()
      ensures run == old(run).(updatedAt := run.updatedAt, timeline := old(run).timeline + [event])
      ensures ok == world.progress(|run.timeline|)
    {
      run := run.(updatedAt := world.clock(|run.timeline|));
      run := run.(timeline := run.timeline + [event]);
      seen := seen + [Snapshot(run, event)];
      ok := world.progress(|run.timeline|);
    }

    /** One analyst: `ok` unless the call or a callback raised. */
    method RunAnalyst(ghost before: Run, i: nat) returns (ok: bool)
      requires i < |before.analysts| && Analysed(before, run, world, i)
      requires SeenOk()
      modifies this`run, this`seen
      ensures SeenOk()
      ensures if ok then Analysed(before, run, world, i + 1)
              else Cut(before, run, world) && !Unhindered(before, world) && run.status == IsRunning
    {
      FullTracePrefix(before, world, i);
      FullTracePrefix(before, world, i + 1);
      ghost var events := FirstEvents(before, world, i);
      ghost var r0 := run;
      ok := Emit(AnalysisStarted(i, run.analysts[i]));
      OneMore(before, r0, run, world, events, AnalysisStarted(i, before.analysts[i]));
      if !ok {
        CutIsHindered(before, run, world);
        return;
      }
      var answer := world.call(i);
      if answer.None? {
        CutIsHindered(before, run, world);
        return false;
      }
      run := run.(analyses := run.analyses + [Analysis(i, run.analysts[i], answer.value)]);
      ghost var r1 := run;
      ok := Emit(AnalysisCompleted(i, run.analysts[i], answer.value));
      assert events + [AnalysisStarted(i, before.analysts[i])]
             + [AnalysisCompleted(i, before.analysts[i], answer.value)]
          == FirstEvents(before, world, i + 1);
      OneMore(before, r1, run, world, events + [AnalysisStarted(i, before.analysts[i])],
              AnalysisCompleted(i, before.analysts[i], answer.value));
      if !ok {
        CutIsHindered(before, run, world);
      }
    }

    /** The loop over the analysts. */
    method RunAnalysts(ghost before: Run) returns (ok: bool)
      requires Analysed(before, run, world, 0)
      requires SeenOk()
      modifies this`run, this`seen
      ensures SeenOk()
      ensures if ok then Analysed(before, run, world, |before.analysts|)
              else Cut(before, run, world) && !Unhindered(before, world) && run.status == IsRunning
    {
      for i := 0 to |run.analysts|
        invariant Analysed(before, run, world, i) && SeenOk()
      {
        ok := RunAnalyst(before, i);
        if !ok {
          return;
        }
      }
      ok := true;
    }

    /** The synthesis and the end of the guarded part. */
    method RunSynthesis(ghost before: Run) returns (ok: bool)
      requires Analysed(before, run, world, |before.analysts|)
      requires SeenOk()
      modifies this`run, this`seen
      ensures SeenOk()
      ensures if ok then Finished(before, run, world, sha) && Unhindered(before, world)
              else Cut(before, run, world) && !Unhindered(before, world)
    {
      ghost var n := |before.analysts|;
      ghost var events := FirstEvents(before, world, n);
      FullTraceEnd(before, world);
      ghost var r0 := run;
      ok := Emit(SynthesisStarted(run.synthesisModel));
      OneMore(before, r0, run, world, events, SynthesisStarted(before.synthesisModel));
      if !ok {
        CutIsHindered(before, run, world);
        return;
      }
      var answer := world.call(|run.analysts|);
      if answer.None? {
        CutIsHindered(before, run, world);
        return false;
      }
      run := run.(synthesis := Some(answer.value));
      ghost var r1 := run;
      ghost var done := SynthesisCompleted(before.synthesisModel, answer.value);
      ok := Emit(SynthesisCompleted(run.synthesisModel, answer.value));
      OneMore(before, r1, run, world, events + [SynthesisStarted(before.synthesisModel)], done);
      if !ok {
        CutIsHindered(before, run, world);
        return;
      }
      run := run.(status := IsCompleted, completedAt := Some(world.clock(|run.timeline|)));
      ok := Emit(Completed);
      LastEvent(before, run, world);
      if !ok {
        CutIsHindered(before, run, world);
        return;
      }
      run := run.(runSha := Some(sha(HashPayload(run))));
    }

    /** `execute_run`. A run completes if and only if every call answers and every callback returns;
        then it holds one analysis for each model in order, a synthesis, and the digest of its own
        record, and the callback has seen every event. Otherwise its new events are the full trace up
        to the first that stops it, closed by a failure unless the callback raised where nothing
        catches it. */
    method ExecuteRun() returns (raised: bool)
      requires SeenOk()
      modifies this`run, this`seen
      ensures SeenOk()
      ensures if Unhindered(old(run), world) then !raised && Finished(old(run), run, world, sha)
              else Stopped(old(run), run, world, raised)
    {
      ghost var before := run;
      run := run.(status := IsRunning);
      FullTracePrefix(run, world, 0);
      var ok := Emit(Started(|run.analysts| + 1));
      if !ok {
        FirstEventStops(before, run, world);
        return true;
      }
      FirstEventPasses(before, world);
      ok := RunAnalysts(before);
      if ok {
        ok := RunSynthesis(before);
      }
      if ok {
        return false;
      }
      ghost var stopped := run;
      run := run.(status := IsFailed);
      ok := Emit(Failed);
      raised := !ok;
      CutIsStopped(before, stopped, run, world, raised);
    }
  }
}
