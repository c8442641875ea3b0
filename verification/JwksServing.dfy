/** When the key store fetches and when it serves, over every run, in terms of the log of its refreshes
  * (`config/authorization/jwks.py`). */
module JwksServing {
  import opened Core
  import opened JwksStore
  import opened JwksRuns

  // ------------------------------------------------------------------------ what a document publishes

  /** The key a document publishes under a `kid`: the last of that `kid`, which is not blank. */
  ghost predicate Publishes(fetch: Fetch, kid: string, key: Jwk) {
    && fetch.Document? && kid != ""
    && exists i :: 0 <= i < |fetch.keys| && fetch.keys[i] == key && key.kid == Some(kid)
        && forall j :: i < j < |fetch.keys| ==> fetch.keys[j].kid != Some(kid)
  }

  /** A document with some key under a `kid` that is not blank: what a fetch must bring to be of use. */
  ghost predicate HasKeys(fetch: Fetch) {
    fetch.Document? && exists i :: 0 <= i < |fetch.keys| && fetch.keys[i].kid.Some? && fetch.keys[i].kid.value != ""
  }

  lemma {:induction false} TheIndexIsWhatIsPublished(keys: seq<Jwk>, kid: string, key: Jwk)
    ensures kid in IndexByKid(keys) && IndexByKid(keys)[kid] == key <==> Publishes(Document(keys), kid, key)
  {
    if keys != [] {
      var n := |keys| - 1;
      TheIndexIsWhatIsPublished(keys[..n], kid, key);
      if keys[n].kid == Some(kid) {
        assert Publishes(Document(keys), kid, key) ==> key == keys[n];
        assert kid != "" && key == keys[n] ==> Publishes(Document(keys), kid, key);
      } else {
        PublishedBefore(keys, kid, key);
      }
    }
  }

  lemma PublishedBefore(keys: seq<Jwk>, kid: string, key: Jwk)
    requires keys != [] && keys[|keys| - 1].kid != Some(kid)
    ensures Publishes(Document(keys), kid, key) <==> Publishes(Document(keys[..|keys| - 1]), kid, key)
  {
    var n := |keys| - 1;
    var before := keys[..n];
    assert forall j :: 0 <= j < n ==> before[j] == keys[j];
    if Publishes(Document(keys), kid, key) {
      var i :| 0 <= i < |keys| && keys[i] == key && key.kid == Some(kid)
        && forall j :: i < j < |keys| ==> keys[j].kid != Some(kid);
      assert before[i] == key;
    }
    if Publishes(Document(before), kid, key) {
      var i :| 0 <= i < n && before[i] == key && key.kid == Some(kid)
        && forall j :: i < j < n ==> before[j].kid != Some(kid);
      assert keys[i] == key;
    }
  }

  lemma UsableHasKeys(fetch: Fetch)
    ensures Usable(fetch) <==> HasKeys(fetch)
  {
    if fetch.Document? {
      SomethingIsIndexed(fetch.keys);
    }
  }

  lemma {:induction false} SomethingIsIndexed(keys: seq<Jwk>)
    ensures IndexByKid(keys) != map[]
       <==> exists i :: 0 <= i < |keys| && keys[i].kid.Some? && keys[i].kid.value != ""
  {
    if keys != [] {
      var n := |keys| - 1;
      SomethingIsIndexed(keys[..n]);
      assert keys == keys[..n] + [keys[n]];
      if Named(keys[n]) {
        assert keys[n].kid.value in IndexByKid(keys);
      } else if i :| 0 <= i < |keys| && keys[i].kid.Some? && keys[i].kid.value != "" {
        assert keys[..n][i] == keys[i];
      }
    }
  }

  // ---------------------------------------------------------------------------- what the marks are

  /** One outbound fetch of the log. */
  predicate Fetched(log: seq<Attempt>, i: int) {
    0 <= i < |log| && !log[i].limited
  }

  /** A fetch that brought a document with keys, and none after it did. */
  ghost predicate NewestDocument(log: seq<Attempt>, i: int) {
    && Fetched(log, i) && HasKeys(log[i].fetch)
    && forall j :: i < j && Fetched(log, j) ==> !HasKeys(log[j].fetch)
  }

  lemma NewestDocumentIsLastSuccess(log: seq<Attempt>, i: int)
    ensures NewestDocument(log, i) <==> LastSuccess(log, i)
  {
    forall j | 0 <= j < |log| ensures log[j].Succeeded() <==> Fetched(log, j) && HasKeys(log[j].fetch) {
      UsableHasKeys(log[j].fetch);
    }
    hide Usable, HasKeys;
  }

  /** The cache's marks are there exactly when the log has what they mark. */
  ghost predicate MarksAreKept(s: System) {
    && (s.cache.lastAttempt.Some? ==>
          exists i :: Fetched(s.log, i) && s.log[i].at == s.cache.lastAttempt.value)
    && (forall i :: LastSuccess(s.log, i) ==> s.cache.fetchedAt == Some(s.log[i].done))
  }

  lemma AStepKeepsTheMarks(s: System, step: Step)
    requires MarksAreKept(s) && Agrees(s) && Enabled(s, step)
    ensures MarksAreKept(Next(s, step))
  {
    hide IndexByKid, Usable, Newest, OutcomesAreTheirOwn;
    var t, n := Next(s, step), |s.log|;
    if step.Refresh? {
      assert forall i :: 0 <= i < n ==> t.log[i] == s.log[i];
      if t.log[n].limited {
        assert forall i :: LastSuccess(t.log, i) ==> LastSuccess(s.log, i);
        if s.cache.lastAttempt.Some? {
          var i :| Fetched(s.log, i) && s.log[i].at == s.cache.lastAttempt.value;
          assert Fetched(t.log, i);
        }
      } else {
        assert Fetched(t.log, n) && t.log[n].at == t.cache.lastAttempt.value;
        assert forall i :: LastSuccess(t.log, i) && i < n ==> LastSuccess(s.log, i) && !t.log[n].Succeeded();
      }
    } else {
      assert t.log == s.log && t.cache == s.cache;
    }
  }

  lemma {:induction false} ReachableMarksAreKept(start: Seconds, steps: seq<Step>, s: System)
    requires Run(start, steps, s)
    ensures MarksAreKept(s) && Agrees(s)
  {
    hide Next, Enabled, MarksAreKept, Agrees;
    if steps == [] {
      assert MarksAreKept(s) && Agrees(s) by { AnEmptyStoreIsMarked(start); }
    } else {
      var n := |steps| - 1;
      var before :| Run(start, steps[..n], before) && Enabled(before, steps[n]) && s == Next(before, steps[n]);
      ReachableMarksAreKept(start, steps[..n], before);
      AStepKeepsTheMarks(before, steps[n]);
      StepKeepsAgreement(before, steps[n]);
    }
  }

  lemma AnEmptyStoreIsMarked(start: Seconds)
    ensures var s := System(EMPTY, start, map[], [], []); MarksAreKept(s) && Agrees(s)
  {
  }

  // ------------------------------------------------------------------------------- when it fetches

  /** In every run a refresh makes no fetch exactly when some fetch of the run is less than a window old, and
    * then it leaves the cache alone; otherwise it fetches, whatever became of the fetches before. */
  lemma ARefreshFetchesExactlyWhenNoneIsRecent(start: Seconds, steps: seq<Step>, s: System, step: Step)
    requires Run(start, steps, s) && Enabled(s, step) && step.Refresh?
    ensures var t, n := Next(s, step), |s.log|;
      && |t.log| == n + 1 && t.log[..n] == s.log
      && t.log[n].tid == step.tid && t.log[n].at == step.now && t.log[n].fetch == step.fetch
      && (t.log[n].limited <==> exists i :: Fetched(s.log, i) && step.now - s.log[i].at < step.window)
      && (t.log[n].limited <==> exists at :: at in FetchTimes(s.log) && step.now - at < step.window)
  {
    ReachableMarksAreKept(start, steps, s);
    FetchTimesAreOfFetches(s.log);
    TheRefreshIsLogged(s, step);
    hide Run, FetchTimes, Next, Enabled, Fetched, MarksAreKept, Agrees;
    if i :| Fetched(s.log, i) && step.now - s.log[i].at < step.window {
      assert s.log[i].at in FetchTimes(s.log);
    }
  }

  lemma TheRefreshIsLogged(s: System, step: Step)
    requires MarksAreKept(s) && Agrees(s) && Enabled(s, step) && step.Refresh?
    ensures var t, n := Next(s, step), |s.log|;
      && |t.log| == n + 1 && t.log[..n] == s.log
      && t.log[n].tid == step.tid && t.log[n].at == step.now && t.log[n].fetch == step.fetch
      && (t.log[n].limited <==> exists i :: Fetched(s.log, i) && step.now - s.log[i].at < step.window)
  {
    hide Usable, IndexByKid, Newest, FetchTimes;
    var t, n := Next(s, step), |s.log|;
    assert t.log[..n] == s.log;
    if i :| Fetched(s.log, i) && step.now - s.log[i].at < step.window {
      assert s.log[i].at <= s.cache.lastAttempt.value;
    }
  }

  lemma {:induction false} FetchTimesAreOfFetches(log: seq<Attempt>)
    ensures forall at :: at in FetchTimes(log) <==> exists i :: Fetched(log, i) && log[i].at == at
  {
    if log != [] {
      var n := |log| - 1;
      FetchTimesAreOfFetches(log[..n]);
      forall at ensures at in FetchTimes(log) <==> exists i :: Fetched(log, i) && log[i].at == at {
        if at in FetchTimes(log[..n]) {
          var i :| Fetched(log[..n], i) && log[..n][i].at == at;
          assert Fetched(log, i) && log[i].at == at;
        }
        if i :| Fetched(log, i) && log[i].at == at {
          assert i < n ==> Fetched(log[..n], i) && log[..n][i].at == at;
        }
      }
    }
  }

  /** So a caller whose miss comes a window or more after every fetch there has been, while the location
    * publishes its `kid`, gets the key the location publishes, if no other call comes between. */
  lemma AMissAfterAWindowIsServed(start: Seconds, steps: seq<Step>, s: System, step: Step, key: Jwk)
    requires Run(start, steps, s) && Enabled(s, step) && step.Refresh?
    requires forall i :: Fetched(s.log, i) ==> step.now - s.log[i].at >= step.window
    requires Publishes(step.fetch, CallOf(s, step.tid).kid, key)
    ensures var t, kid := Next(s, step), CallOf(s, step.tid).kid;
      Enabled(t, Look(step.tid)) && Next(t, Look(step.tid)).answers == s.answers + [Answer(step.tid, kid, Success(key))]
  {
    ARefreshFetchesExactlyWhenNoneIsRecent(start, steps, s, step);
    hide Run, FetchTimes, Publishes;
    var kid := CallOf(s, step.tid).kid;
    TheIndexIsWhatIsPublished(step.fetch.keys, kid, key);
    AFetchedIndexIsServed(s, step, kid, key);
  }

  lemma AFetchedIndexIsServed(s: System, step: Step, kid: string, key: Jwk)
    requires step.Refresh? && Enabled(s, step) && CallOf(s, step.tid).kid == kid
    requires !Next(s, step).log[|s.log|].limited && step.fetch.Document?
    requires kid in IndexByKid(step.fetch.keys) && IndexByKid(step.fetch.keys)[kid] == key
    ensures Enabled(Next(s, step), Look(step.tid))
    ensures Next(Next(s, step), Look(step.tid)).answers == s.answers + [Answer(step.tid, kid, Success(key))]
  {
    hide IndexByKid;
  }

  // ------------------------------------------------------------------------------- when it serves

  /** In every run a call is answered without a refresh exactly when the newest document is younger than the
    * TTL and publishes its `kid`, and then with the key published there. */
  lemma AnAnswerNeedsNoRefreshExactlyWhen(start: Seconds, steps: seq<Step>, s: System, tid: Tid, kid: string,
                                          now: Seconds, ttl: Seconds, key: Jwk)
    requires Run(start, steps, s) && Enabled(s, Check(tid, kid, now, ttl))
    ensures Next(s, Check(tid, kid, now, ttl)).answers == s.answers + [Answer(tid, kid, Success(key))]
       <==> exists i :: NewestDocument(s.log, i) && now - s.log[i].done < ttl && Publishes(s.log[i].fetch, kid, key)
    ensures (forall k, i ::
              NewestDocument(s.log, i) && now - s.log[i].done < ttl ==> !Publishes(s.log[i].fetch, kid, k))
       <==> CallOf(Next(s, Check(tid, kid, now, ttl)), tid) == Missed(kid)
  {
    ReachableMarksAreKept(start, steps, s);
    NewestIsTheLastSuccess(s.log);
    forall i ensures NewestDocument(s.log, i) <==> LastSuccess(s.log, i) {
      NewestDocumentIsLastSuccess(s.log, i);
    }
    forall i, k | 0 <= i < |s.log| && s.log[i].fetch.Document?
      ensures kid in IndexByKid(s.log[i].fetch.keys) && IndexByKid(s.log[i].fetch.keys)[kid] == k
        <==> Publishes(s.log[i].fetch, kid, k)
    {
      TheIndexIsWhatIsPublished(s.log[i].fetch.keys, kid, k);
    }
    forall i | LastSuccess(s.log, i)
      ensures kid in IndexByKid(s.log[i].fetch.keys) <==> exists k :: Publishes(s.log[i].fetch, kid, k)
    {
      if kid in IndexByKid(s.log[i].fetch.keys) {
        assert Publishes(s.log[i].fetch, kid, IndexByKid(s.log[i].fetch.keys)[kid]);
      }
    }
    hide Run, NewestDocument, Publishes, OutcomesAreTheirOwn, IndexByKid;
    TheFastPath(s, tid, kid, now, ttl, key);
  }

  lemma TheFastPath(s: System, tid: Tid, kid: string, now: Seconds, ttl: Seconds, key: Jwk)
    requires MarksAreKept(s) && Agrees(s) && Enabled(s, Check(tid, kid, now, ttl))
    requires forall i :: LastSuccess(s.log, i) ==> Newest(s.log) == IndexByKid(s.log[i].fetch.keys)
    ensures Next(s, Check(tid, kid, now, ttl)).answers == s.answers + [Answer(tid, kid, Success(key))]
       <==> exists i :: LastSuccess(s.log, i) && now - s.log[i].done < ttl
              && kid in IndexByKid(s.log[i].fetch.keys) && IndexByKid(s.log[i].fetch.keys)[kid] == key
    ensures (forall i :: LastSuccess(s.log, i) && now - s.log[i].done < ttl ==> kid !in IndexByKid(s.log[i].fetch.keys))
       <==> CallOf(Next(s, Check(tid, kid, now, ttl)), tid) == Missed(kid)
  {
    hide IndexByKid, Newest, OutcomesAreTheirOwn;
    var t, cached := Next(s, Check(tid, kid, now, ttl)), Unexpired(s.cache, kid, now, ttl);
    if cached.Some? {
      assert t.answers[|s.answers|] == Answer(tid, kid, Success(cached.value));
      var i :| LastSuccess(s.log, i) && s.log[i].done == s.cache.fetchedAt.value;
      assert cached.value == IndexByKid(s.log[i].fetch.keys)[kid];
    } else {
      assert |t.answers| == |s.answers|;
      forall i | LastSuccess(s.log, i) && now - s.log[i].done < ttl ensures kid !in IndexByKid(s.log[i].fetch.keys) {
        assert s.cache.fetchedAt == Some(s.log[i].done);
      }
    }
  }

  /** Why a call that looks after its refresh is refused, in terms of what that refresh did and brought: it was
    * limited, or its fetch brought no key at all, or it did and the `kid` is not among the keys of the newest
    * document by then. */
  lemma EachRefusalHasItsReason(start: Seconds, steps: seq<Step>, s: System, tid: Tid)
    requires Run(start, steps, s) && CallOf(s, tid).Attempted?
    ensures var call := CallOf(s, tid);
      && call.attempt < |s.log| && s.log[call.attempt].tid == tid
      && var own := s.log[call.attempt];
      var answer := Next(s, Look(tid)).answers[|s.answers|];
      && answer.tid == tid && answer.kid == call.kid
      && (answer.result.Success? ==>
            exists i :: NewestDocument(s.log, i) && Publishes(s.log[i].fetch, call.kid, answer.result.value))
      && (forall i, key :: NewestDocument(s.log, i) && Publishes(s.log[i].fetch, call.kid, key) ==>
            answer.result == Success(key))
      && (answer.result.Failure? ==>
            answer.result.error == if own.limited then RefetchRateLimited
                                   else if HasKeys(own.fetch) then NoKeyForKid else JwksFetchFailed)
  {
    AnswersFollowTheNewestDocument(start, steps, s, Look(tid));
    ReachableMarksAreKept(start, steps, s);
    NewestIsTheLastSuccess(s.log);
    var call := CallOf(s, tid);
    UsableHasKeys(s.log[call.attempt].fetch);
    forall i ensures NewestDocument(s.log, i) <==> LastSuccess(s.log, i) {
      NewestDocumentIsLastSuccess(s.log, i);
    }
    forall i, k | 0 <= i < |s.log| && s.log[i].fetch.Document?
      ensures call.kid in IndexByKid(s.log[i].fetch.keys) && IndexByKid(s.log[i].fetch.keys)[call.kid] == k
        <==> Publishes(s.log[i].fetch, call.kid, k)
    {
      TheIndexIsWhatIsPublished(s.log[i].fetch.keys, call.kid, k);
    }
    hide Run, NewestDocument, Publishes, MarksAreKept, IndexByKid, HasKeys, Newest;
  }
}
