/** Every interleaving of threads through the key store: each call is three separate critical
  * sections, and any number of other threads' sections may fall between two of them. */
module JwksRuns {
  import opened Core
  import opened JwksStore

  type Tid = nat

  /** Where one thread's `get_signing_key` stands. `attempt` points at its own refresh. */
  datatype Call = Idle | Missed(kid: string) | Attempted(kid: string, outcome: Outcome, attempt: nat)

  /** One passage through the refresh section; `limited` ones made no outbound fetch. */
  datatype Attempt = Attempt(tid: Tid, at: Seconds, done: Seconds, limited: bool, fetch: Fetch)
  {
    predicate Succeeded() { !limited && Usable(fetch) }
    function Outcome(): Outcome { if limited then RateLimited else if Usable(fetch) then Fetched else Failed }
  }

  datatype Answer = Answer(tid: Tid, kid: string, result: Result<Jwk, Refusal>)

  datatype System = System(cache: Cache, now: Seconds, calls: map<Tid, Call>, log: seq<Attempt>, answers: seq<Answer>)

  datatype Step =
    | Check(tid: Tid, kid: string, now: Seconds, ttl: Seconds)
    | Refresh(tid: Tid, now: Seconds, done: Seconds, window: Seconds, fetch: Fetch)
    | Look(tid: Tid)

  function CallOf(s: System, tid: Tid): Call {
    if tid in s.calls then s.calls[tid] else Idle
  }

  /** A section runs when its thread is at it, and the clock never runs backwards. */
  predicate Enabled(s: System, step: Step) {
    match step
    case Check(tid, kid, now, ttl) => CallOf(s, tid) == Idle && s.now <= now
    case Refresh(tid, now, done, window, fetch) => CallOf(s, tid).Missed? && s.now <= now <= done
    case Look(tid) => CallOf(s, tid).Attempted?
  }

  function Next(s: System, step: Step): System
    requires Enabled(s, step)
  {
    match step
    case Check(tid, kid, now, ttl) =>
      var cached := Unexpired(s.cache, kid, now, ttl);
      if cached.Some?
      then s.(now := now, answers := s.answers + [Answer(tid, kid, Success(cached.value))])
      else s.(now := now, calls := s.calls[tid := Missed(kid)])
    case Refresh(tid, now, done, window, fetch) =>
      var outcome := Reported(s.cache, now, window, fetch);
      s.(cache := Refreshed(s.cache, now, done, window, fetch),
         now := done,
         calls := s.calls[tid := Attempted(CallOf(s, tid).kid, outcome, |s.log|)],
         log := s.log + [Attempt(tid, now, done, outcome == RateLimited, fetch)])
    case Look(tid) =>
      var call := CallOf(s, tid);
      var result := if call.kid in s.cache.keys then Success(s.cache.keys[call.kid])
        else Failure(RefusalFor(call.outcome));
      s.(calls := s.calls[tid := Idle], answers := s.answers + [Answer(tid, call.kid, result)])
  }

  /** The systems some run of interleaved sections reaches from an empty store. */
  ghost predicate Run(start: Seconds, steps: seq<Step>, s: System)
    decreases |steps|
  {
    if steps == [] then s == System(EMPTY, start, map[], [], [])
    else
      var n := |steps| - 1;
      exists before :: Run(start, steps[..n], before) && Enabled(before, steps[n]) && s == Next(before, steps[n])
  }

  /** The index of the newest successful document, or no key at all before the first one. */
  function Newest(log: seq<Attempt>): map<string, Jwk> {
    if log == [] then map[]
    else
      var last := log[|log| - 1];
      if last.Succeeded() then IndexByKid(last.fetch.keys) else Newest(log[..|log| - 1])
  }

  /** The same said with an index: some success is the last one, or there is none. */
  lemma {:induction false} NewestIsTheLastSuccess(log: seq<Attempt>)
    ensures forall i :: LastSuccess(log, i) ==> Newest(log) == IndexByKid(log[i].fetch.keys)
    ensures (exists i :: LastSuccess(log, i))
      || (Newest(log) == map[] && forall i :: 0 <= i < |log| ==> !log[i].Succeeded())
  {
    if log != [] {
      var n := |log| - 1;
      NewestIsTheLastSuccess(log[..n]);
      if log[n].Succeeded() {
        assert LastSuccess(log, n);
      } else {
        assert forall i :: LastSuccess(log, i) == LastSuccess(log[..n], i);
      }
    }
  }

  ghost predicate LastSuccess(log: seq<Attempt>, i: int) {
    0 <= i < |log| && log[i].Succeeded() && forall j :: i < j < |log| ==> !log[j].Succeeded()
  }

  /** Each thread's recorded outcome is what its own refresh did. */
  ghost predicate OutcomesAreTheirOwn(s: System) {
    forall tid :: CallOf(s, tid).Attempted? ==>
      var call := CallOf(s, tid);
      call.attempt < |s.log| && s.log[call.attempt].tid == tid && s.log[call.attempt].Outcome() == call.outcome
  }

  /** The clock marks the cache carries are those of its own newest fetch and attempt. */
  ghost predicate MarksAreTheLogs(s: System) {
    && (forall i :: 0 <= i < |s.log| && !s.log[i].limited ==>
          s.cache.lastAttempt.Some? && s.log[i].at <= s.cache.lastAttempt.value)
    && (s.cache.lastAttempt.Some? ==> s.cache.lastAttempt.value <= s.now)
    && (s.cache.fetchedAt.Some? ==> exists i :: LastSuccess(s.log, i) && s.log[i].done == s.cache.fetchedAt.value)
  }

  ghost predicate Agrees(s: System) {
    s.cache.keys == Newest(s.log) && OutcomesAreTheirOwn(s) && MarksAreTheLogs(s)
  }

  lemma StepKeepsAgreement(s: System, step: Step)
    requires Agrees(s) && Enabled(s, step)
    ensures Agrees(Next(s, step))
  {
    if step.Refresh? {
      hide Next, OutcomesAreTheirOwn, MarksAreTheLogs;
      ARefreshKeepsTheNewest(s, step);
      ARefreshIsRecordedAsItsOwn(s, step);
      ARefreshKeepsTheMarks(s, step);
    } else {
      OtherStepsKeepAgreement(s, step);
    }
  }

  lemma ARefreshKeepsTheNewest(s: System, step: Step)
    requires step.Refresh? && Enabled(s, step) && s.cache.keys == Newest(s.log)
    ensures Next(s, step).cache.keys == Newest(Next(s, step).log)
  {
    var t := Next(s, step);
    assert t.log[..|s.log|] == s.log;
  }

  lemma ARefreshIsRecordedAsItsOwn(s: System, step: Step)
    requires step.Refresh? && Enabled(s, step) && OutcomesAreTheirOwn(s)
    ensures OutcomesAreTheirOwn(Next(s, step))
  {
    var t := Next(s, step);
    assert forall i :: 0 <= i < |s.log| ==> t.log[i] == s.log[i];
    assert forall tid :: tid != step.tid ==> CallOf(t, tid) == CallOf(s, tid);
    assert t.log[|s.log|].Outcome() == CallOf(t, step.tid).outcome;
  }

  lemma ARefreshKeepsTheMarks(s: System, step: Step)
    requires step.Refresh? && Enabled(s, step) && MarksAreTheLogs(s)
    ensures MarksAreTheLogs(Next(s, step))
  {
    var t, n := Next(s, step), |s.log|;
    assert forall i :: 0 <= i < n ==> t.log[i] == s.log[i];
    if t.log[n].Succeeded() {
      assert LastSuccess(t.log, n);
    } else {
      assert forall i :: LastSuccess(t.log, i) == LastSuccess(s.log, i);
    }
  }

  lemma OtherStepsKeepAgreement(s: System, step: Step)
    requires Agrees(s) && Enabled(s, step) && !step.Refresh?
    ensures Agrees(Next(s, step))
  {
    var t := Next(s, step);
    assert t.log == s.log && t.cache == s.cache;
    hide Newest;
    assert forall tid :: tid != step.tid ==> CallOf(t, tid) == CallOf(s, tid);
    assert !CallOf(t, step.tid).Attempted?;
  }

  /** In every reachable state the cache is the index of the newest successful document. */
  lemma {:induction false} TheCacheIsTheNewestDocument(start: Seconds, steps: seq<Step>, s: System)
    requires Run(start, steps, s)
    ensures Agrees(s)
  {
    if steps != [] {
      var n := |steps| - 1;
      var before :| Run(start, steps[..n], before) && Enabled(before, steps[n]) && s == Next(before, steps[n]);
      TheCacheIsTheNewestDocument(start, steps[..n], before);
      StepKeepsAgreement(before, steps[n]);
    }
  }

  /** Failed, empty and rate-limited refreshes, and everything that is not a refresh, leave it unchanged. */
  lemma OnlyASuccessMovesTheCache(s: System, step: Step)
    requires Enabled(s, step)
    requires step.Refresh? ==> Limited(s.cache, step.now, step.window) || !Usable(step.fetch)
    ensures Next(s, step).cache.keys == s.cache.keys && Next(s, step).cache.fetchedAt == s.cache.fetchedAt
  {
  }

  /** What any reachable system answers next: a served key is the newest document's own key for that
    * `kid`; a look is refused exactly when that document does not publish the `kid`, and the reason
    * is the one for what that very call's refresh did. */
  lemma AnswersFollowTheNewestDocument(start: Seconds, steps: seq<Step>, s: System, step: Step)
    requires Run(start, steps, s) && Enabled(s, step)
    ensures step.Refresh? ==> Next(s, step).answers == s.answers
    ensures step.Check? ==>
      Next(s, step).answers == s.answers
      || (step.kid in Newest(s.log)
          && Next(s, step).answers == s.answers + [Answer(step.tid, step.kid, Success(Newest(s.log)[step.kid]))])
    ensures step.Look? ==>
      var call := CallOf(s, step.tid);
      && call.attempt < |s.log| && s.log[call.attempt].tid == step.tid
      && Next(s, step).answers == s.answers + [Answer(step.tid, call.kid,
           if call.kid in Newest(s.log) then Success(Newest(s.log)[call.kid])
           else Failure(RefusalFor(s.log[call.attempt].Outcome())))]
  {
    TheCacheIsTheNewestDocument(start, steps, s);
  }

  /** A caller rate-limited behind another thread's fetch of its `kid` still gets the key. */
  lemma RateLimitedBehindAFetchStillServes(start: Seconds, steps: seq<Step>, s: System, tid: Tid, i: nat)
    requires Run(start, steps, s) && CallOf(s, tid).Attempted? && CallOf(s, tid).outcome == RateLimited
    requires LastSuccess(s.log, i) && CallOf(s, tid).kid in IndexByKid(s.log[i].fetch.keys)
    ensures var t := Next(s, Look(tid));
      t.answers == s.answers + [Answer(tid, CallOf(s, tid).kid,
                                       Success(IndexByKid(s.log[i].fetch.keys)[CallOf(s, tid).kid]))]
  {
    TheCacheIsTheNewestDocument(start, steps, s);
    NewestIsTheLastSuccess(s.log);
  }

  /** A `kid` a success dropped is not served while no later success publishes it again. */
  lemma ADroppedKidIsNotServed(start: Seconds, steps: seq<Step>, s: System, step: Step, kid: string, i: nat)
    requires Run(start, steps, s) && Enabled(s, step)
    requires i < |s.log| && s.log[i].Succeeded()
    requires forall j :: i <= j < |s.log| && s.log[j].Succeeded() ==> kid !in IndexByKid(s.log[j].fetch.keys)
    ensures forall a :: a in Next(s, step).answers[|s.answers|..] && a.kid == kid ==> a.result.Failure?
  {
    TheCacheIsTheNewestDocument(start, steps, s);
    NewestIsTheLastSuccess(s.log);
    assert kid !in s.cache.keys;
    var t := Next(s, step);
    if t.answers != s.answers {
      assert t.answers[|s.answers|..] == [t.answers[|s.answers|]];
    } else {
      assert t.answers[|s.answers|..] == [];
    }
  }

  /** A key served without a refresh comes from a success less than one TTL old. */
  lemma TheFastPathServesFreshKeysOnly(start: Seconds, steps: seq<Step>, s: System, tid: Tid, kid: string, now: Seconds,
                                       ttl: Seconds)
    requires Run(start, steps, s) && Enabled(s, Check(tid, kid, now, ttl))
    requires Next(s, Check(tid, kid, now, ttl)).answers != s.answers
    ensures exists i :: LastSuccess(s.log, i) && now - s.log[i].done < ttl && kid in IndexByKid(s.log[i].fetch.keys)
  {
    TheCacheIsTheNewestDocument(start, steps, s);
    NewestIsTheLastSuccess(s.log);
  }

  // -------------------------------------------------------------------------- the rate limit

  /** The instants of the outbound fetches, successful or not. */
  function FetchTimes(log: seq<Attempt>): seq<Seconds> {
    if log == [] then []
    else
      var n := |log| - 1;
      FetchTimes(log[..n]) + if log[n].limited then [] else [log[n].at]
  }

  /** Any two are at least `w` apart, in order. */
  ghost predicate Spaced(times: seq<Seconds>, w: Seconds) {
    forall i, j :: 0 <= i < j < |times| ==> times[j] - times[i] >= w
  }

  ghost predicate ConstantWindow(steps: seq<Step>, w: Seconds) {
    forall step :: step in steps && step.Refresh? ==> step.window == w
  }

  /** Consecutive outbound fetches are at least one window apart, whoever makes them. */
  lemma {:induction false} FetchesAreAWindowApart(start: Seconds, steps: seq<Step>, s: System, w: Seconds)
    requires Run(start, steps, s) && ConstantWindow(steps, w) && 0.0 < w
    ensures Spaced(FetchTimes(s.log), w)
    ensures forall t :: t in FetchTimes(s.log) ==> s.cache.lastAttempt.Some? && t <= s.cache.lastAttempt.value
  {
    hide Next, Enabled, FetchTimes, Spaced;
    if steps == [] {
      assert FetchTimes([]) == [] && Spaced([], w) by { NoFetches(w); }
    } else {
      var n := |steps| - 1;
      var before :| Run(start, steps[..n], before) && Enabled(before, steps[n]) && s == Next(before, steps[n]);
      assert forall step :: step in steps[..n] ==> step in steps;
      FetchesAreAWindowApart(start, steps[..n], before, w);
      assert steps[n] in steps;
      AStepKeepsTheSpacing(before, steps[n], w);
    }
  }

  lemma NoFetches(w: Seconds)
    ensures FetchTimes([]) == [] && Spaced([], w)
  {
  }

  lemma AStepKeepsTheSpacing(before: System, step: Step, w: Seconds)
    requires Enabled(before, step) && 0.0 < w && (step.Refresh? ==> step.window == w)
    requires Spaced(FetchTimes(before.log), w)
    requires forall t :: t in FetchTimes(before.log) ==>
      before.cache.lastAttempt.Some? && t <= before.cache.lastAttempt.value
    ensures var s := Next(before, step);
      && Spaced(FetchTimes(s.log), w)
      && forall t :: t in FetchTimes(s.log) ==> s.cache.lastAttempt.Some? && t <= s.cache.lastAttempt.value
  {
    var s := Next(before, step);
    if step.Refresh? {
      assert s.log[..|before.log|] == before.log;
      SpacedAppend(FetchTimes(before.log), step.now, w);
    }
  }

  lemma SpacedAppend(times: seq<Seconds>, t: Seconds, w: Seconds)
    ensures Spaced(times, w) && (forall x :: x in times ==> t - x >= w) ==> Spaced(times + [t], w)
  {
    assert forall i :: 0 <= i < |times| ==> times[i] in times && (times + [t])[i] == times[i];
  }

  lemma SpacedCons(times: seq<Seconds>, t: Seconds, w: Seconds)
    ensures Spaced(times, w) && (forall x :: x in times ==> x - t >= w) ==> Spaced([t] + times, w)
  {
    assert forall i :: 0 <= i < |times| ==> times[i] in times && ([t] + times)[i + 1] == times[i];
  }

  ghost predicate Within(t: Seconds, from: Seconds, length: Seconds) {
    from <= t <= from + length
  }

  ghost function FetchesWithin(times: seq<Seconds>, from: Seconds, length: Seconds): seq<Seconds> {
    if times == [] then []
    else
      var rest := FetchesWithin(times[1..], from, length);
      if Within(times[0], from, length) then [times[0]] + rest else rest
  }

  /** A closed interval of length `length` holds at most floor(length / w) + 1 outbound fetches. */
  lemma TheRateIsBounded(start: Seconds, steps: seq<Step>, s: System, w: Seconds, from: Seconds, length: Seconds)
    requires Run(start, steps, s) && ConstantWindow(steps, w) && 0.0 < w && 0.0 <= length
    ensures |FetchesWithin(FetchTimes(s.log), from, length)| <= (length / w).Floor + 1
  {
    FetchesAreAWindowApart(start, steps, s, w);
    var times := FetchesWithin(FetchTimes(s.log), from, length);
    WithinKeepsSpacing(FetchTimes(s.log), w, from, length);
    CountOfSpaced(times, w, from, length);
  }

  lemma CountOfSpaced(times: seq<Seconds>, w: Seconds, from: Seconds, length: Seconds)
    requires 0.0 < w && 0.0 <= length
    requires Spaced(times, w) && forall t :: t in times ==> Within(t, from, length)
    ensures |times| <= (length / w).Floor + 1
  {
    if times == [] {
      Divided(0, w, length);
    } else {
      var gaps := |times| - 1;
      SpacingAddsUp(times, gaps, w);
      assert Within(times[0], from, length) && Within(times[gaps], from, length);
      Divided(gaps, w, length);
    }
  }

  lemma {:induction false} WithinKeepsSpacing(times: seq<Seconds>, w: Seconds, from: Seconds, length: Seconds)
    requires Spaced(times, w)
    ensures var kept := FetchesWithin(times, from, length);
      Spaced(kept, w) && (forall t :: t in kept ==> t in times && Within(t, from, length))
  {
    if times != [] {
      assert Spaced(times[1..], w) by {
        assert forall i :: 0 <= i < |times| - 1 ==> times[1..][i] == times[i + 1];
      }
      WithinKeepsSpacing(times[1..], w, from, length);
      assert forall t :: t in times[1..] ==> t - times[0] >= w;
      SpacedCons(FetchesWithin(times[1..], from, length), times[0], w);
    }
  }

  lemma {:induction false} SpacingAddsUp(times: seq<Seconds>, gaps: nat, w: Seconds)
    requires |times| == gaps + 1 && Spaced(times, w)
    ensures gaps as real * w <= times[gaps] - times[0]
    decreases gaps
  {
    if gaps > 0 {
      SpacingAddsUp(times[..gaps], gaps - 1, w);
      assert times[gaps] - times[gaps - 1] >= w;
      OneGapMore(gaps, w);
    }
  }

  lemma OneGapMore(gaps: int, w: real)
    ensures gaps as real * w == (gaps - 1) as real * w + w
  {
  }

  lemma Divided(gaps: int, w: real, length: real)
    requires 0.0 < w && gaps as real * w <= length
    ensures gaps <= (length / w).Floor
  {
    assert length / w * w == length;
    Scaled(length / w, gaps as real, w);
  }

  lemma Scaled(a: real, b: real, w: real)
    requires 0.0 < w
    ensures a < b ==> a * w < b * w
  {
  }
}
