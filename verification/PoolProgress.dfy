/** What a session creation achieves: which runner it takes, what a verdict leads to, and when it gives up. */
module PoolProgress {
  import opened Prelude
  import opened PoolTable
  import opened PoolRuns

  lemma OneMore(acts: seq<Action>, a: Action)
    ensures Run(acts + [a]) == Step(Run(acts), a)
  {
    assert (acts + [a])[..|acts + [a]| - 1] == acts;
  }

  predicate IdleAt(s: System, id: string) {
    id in s.table && s.table[id].IsIdle()
  }

  predicate InPhase(s: System, sid: string, p: Phase) {
    sid in s.creations && s.creations[sid].phase == p
  }

  function Tries(sid: string, n: nat): seq<Action> {
    if n == 0 then [] else [TryNext(sid)] + Tries(sid, n - 1)
  }

  /** The creation works through the given candidates. */
  predicate IsTrying(s: System, sid: string, candidates: seq<string>) {
    sid in s.creations && s.creations[sid].phase.Trying? && s.creations[sid].phase.candidates == candidates
  }

  predicate Worthless(s: System, sid: string, id: string)
    requires sid in s.creations
  {
    id in s.creations[sid].tried || !IdleAt(s, id)
  }

  /** The session has been granted the runner's incarnation, and nobody else holds the session. */
  ghost predicate Granted(s: System, sid: string, id: string) {
    && HoldersOf(s.table, sid) == {id}
    && id in s.incarnation && Grant(s.incarnation[id], sid) in s.grants
  }

  // ---- one pass over an answer ----

  /** An untried idle candidate is taken. */
  lemma CandidateIsTaken(acts: seq<Action>, sid: string, candidates: seq<string>)
    requires IsTrying(Run(acts), sid, candidates) && candidates != []
    requires IdleAt(Run(acts), candidates[0]) && candidates[0] !in Run(acts).creations[sid].tried
    ensures var s, s' := Run(acts), Run(acts + [TryNext(sid)]);
            && InPhase(s', sid, Checking(candidates[0])) && Granted(s', sid, candidates[0])
            && s'.creations[sid].bucketsLeft == s.creations[sid].bucketsLeft
            && s'.table.Keys == s.table.Keys
            && forall k :: k in s.table && k != candidates[0] ==> s'.table[k] == s.table[k]
  {
    var s, id := Run(acts), candidates[0];
    RunKeepsInv(acts);
    NotHolding(s, sid);
    assert RecordFits(s, id);
    OneMore(acts, TryNext(sid));
    var s' := Step(s, TryNext(sid));
    hide Run, Inv, RecordFits;
    assert s'.table == Apply(s.table, Assign(id, sid));
    assert forall k :: k in s.table ==> k !in HoldersOf(s.table, sid);
    assert HoldersOf(s'.table, sid) == {id};
    assert s'.grants[|s.grants|] == Grant(s.incarnation[id], sid);
  }

  /** A candidate tried before or not idle is passed over. */
  lemma CandidateIsSkipped(acts: seq<Action>, sid: string, candidates: seq<string>)
    requires IsTrying(Run(acts), sid, candidates) && candidates != [] && Worthless(Run(acts), sid, candidates[0])
    ensures var s, s' := Run(acts), Run(acts + [TryNext(sid)]);
            var c, c' := s.creations[sid], s'.creations[sid];
            && s'.table == s.table && s'.incarnation == s.incarnation && IsTrying(s', sid, candidates[1..])
            && c'.bucketsLeft == c.bucketsLeft && c'.tried == c.tried + {candidates[0]}
            && c'.phase.progressed == (c.phase.progressed || candidates[0] !in c.tried)
  {
    OneMore(acts, TryNext(sid));
    hide Run;
    assert candidates[0] in Run(acts).creations[sid].tried ==>
        Run(acts).creations[sid].tried + {candidates[0]} == Run(acts).creations[sid].tried;
  }

  /** A pass takes the first candidate that is untried and idle. */
  lemma {:induction false} PassTakesFirstIdle(acts: seq<Action>, sid: string, candidates: seq<string>, k: nat)
    requires IsTrying(Run(acts), sid, candidates) && k < |candidates|
    requires !Worthless(Run(acts), sid, candidates[k])
    requires forall j :: 0 <= j < k ==> Worthless(Run(acts), sid, candidates[j])
    ensures var s' := Run(acts + Tries(sid, k + 1));
            InPhase(s', sid, Checking(candidates[k])) && Granted(s', sid, candidates[k])
    decreases k
  {
    var next := acts + [TryNext(sid)];
    assert acts + Tries(sid, k + 1) == next + Tries(sid, k);
    hide Run, Granted, InPhase;
    if k == 0 {
      CandidateIsTaken(acts, sid, candidates);
      assert next + Tries(sid, 0) == next;
    } else {
      CandidateIsSkipped(acts, sid, candidates);
      PassTakesFirstIdle(next, sid, candidates[1..], k - 1);
    }
  }

  /** After a pass that found nothing: ask again if there was something new to try, otherwise the bucket is done. */
  ghost predicate PassedOver(c: Creation, c': Creation, candidates: seq<string>) {
    if (c.phase.Trying? && c.phase.progressed) || exists id :: id in candidates && id !in c.tried then
      && c'.phase == Querying && c'.bucketsLeft == c.bucketsLeft
      && c'.tried == c.tried + (set id | id in candidates)
    else BucketDone(c, c')
  }

  predicate BucketDone(c: Creation, c': Creation) {
    if c.bucketsLeft <= 1 then c'.phase == NoIdleRunner
    else c'.phase == Querying && c'.bucketsLeft == c.bucketsLeft - 1 && c'.tried == {}
  }

  lemma {:induction false} PassFindsNone(acts: seq<Action>, sid: string, candidates: seq<string>)
    requires IsTrying(Run(acts), sid, candidates)
    requires forall j :: 0 <= j < |candidates| ==> Worthless(Run(acts), sid, candidates[j])
    ensures var s, s' := Run(acts), Run(acts + Tries(sid, |candidates| + 1));
            && s'.table == s.table && sid in s'.creations
            && PassedOver(s.creations[sid], s'.creations[sid], candidates)
    decreases candidates
  {
    var next := acts + [TryNext(sid)];
    assert acts + Tries(sid, |candidates| + 1) == next + Tries(sid, |candidates|);
    if candidates == [] {
      assert next + Tries(sid, 0) == next;
      OneMore(acts, TryNext(sid));
      assert (set id | id in candidates) == {};
    } else {
      assert Worthless(Run(acts), sid, candidates[0]);
      CandidateIsSkipped(acts, sid, candidates);
      hide Run, Tries;
      StillWorthless(Run(acts), Run(next), sid, candidates);
      hide Worthless;
      PassFindsNone(next, sid, candidates[1..]);
      PassedOverAlong(Run(acts).creations[sid], Run(next).creations[sid],
                      Run(next + Tries(sid, |candidates|)).creations[sid], candidates);
    }
  }

  lemma StillWorthless(s: System, s': System, sid: string, candidates: seq<string>)
    requires sid in s.creations && sid in s'.creations && s'.table == s.table && candidates != []
    requires s.creations[sid].tried <= s'.creations[sid].tried
    requires forall j :: 0 <= j < |candidates| ==> Worthless(s, sid, candidates[j])
    ensures forall j :: 0 <= j < |candidates[1..]| ==> Worthless(s', sid, candidates[1..][j])
  {
    forall j | 0 <= j < |candidates[1..]| ensures Worthless(s', sid, candidates[1..][j]) {
      assert candidates[1..][j] == candidates[j + 1] && Worthless(s, sid, candidates[j + 1]);
    }
  }

  lemma PassedOverAlong(c: Creation, c1: Creation, c': Creation, candidates: seq<string>)
    requires candidates != [] && c.phase.Trying? && c1.phase.Trying? && c1.bucketsLeft == c.bucketsLeft
    requires c1.tried == c.tried + {candidates[0]}
    requires c1.phase.progressed == (c.phase.progressed || candidates[0] !in c.tried)
    requires PassedOver(c1, c', candidates[1..])
    ensures PassedOver(c, c', candidates)
  {
    assert candidates == [candidates[0]] + candidates[1..];
    assert (set id | id in candidates) == {candidates[0]} + (set id | id in candidates[1..]);
    assert c.tried + ({candidates[0]} + (set id | id in candidates[1..]))
           == c1.tried + (set id | id in candidates[1..]);
  }

  // ---- one query ----

  /** A query whose answer lists an untried idle runner leads to the first such runner. */
  lemma QueryTakesFirstIdle(acts: seq<Action>, sid: string, answer: seq<string>, k: nat)
    requires InPhase(Run(acts), sid, Querying) && k < |answer| && !Worthless(Run(acts), sid, answer[k])
    requires forall j :: 0 <= j < k ==> Worthless(Run(acts), sid, answer[j])
    ensures var s' := Run(acts + [Query(sid, answer)] + Tries(sid, k + 1));
            InPhase(s', sid, Checking(answer[k])) && Granted(s', sid, answer[k])
  {
    OneMore(acts, Query(sid, answer));
    PassTakesFirstIdle(acts + [Query(sid, answer)], sid, answer, k);
  }

  /** Otherwise the bucket is asked again while the answer lists runners not tried before, and done when it does not. */
  lemma QueryFindsNone(acts: seq<Action>, sid: string, answer: seq<string>)
    requires InPhase(Run(acts), sid, Querying)
    requires forall j :: 0 <= j < |answer| ==> Worthless(Run(acts), sid, answer[j])
    ensures var s, s' := Run(acts), Run(acts + [Query(sid, answer)] + Tries(sid, |answer| + 1));
            && s'.table == s.table && sid in s'.creations
            && PassedOver(s.creations[sid], s'.creations[sid], answer)
  {
    var next := acts + [Query(sid, answer)];
    OneMore(acts, Query(sid, answer));
    if answer == [] {
      OneMore(next, TryNext(sid));
      assert Tries(sid, 1) == [TryNext(sid)];
    } else {
      PassFindsNone(next, sid, answer);
    }
  }

  // ---- the verdict ----

  lemma HealthyIsReturned(acts: seq<Action>, sid: string, id: string)
    requires InPhase(Run(acts), sid, Checking(id))
    ensures var s' := Run(acts + [Healthy(sid)]);
            InPhase(s', sid, Created(id)) && s'.table == Run(acts).table
  {
    OneMore(acts, Healthy(sid));
  }

  /** An unhealthy runner is deleted, and the same bucket is asked again from scratch. */
  lemma UnhealthyIsPurged(acts: seq<Action>, sid: string, id: string)
    requires InPhase(Run(acts), sid, Checking(id))
    ensures var s, s' := Run(acts), Run(acts + [Unhealthy(sid)] + [Purge(sid)]);
            && s'.table == s.table - {id} && InPhase(s', sid, Querying)
            && s'.creations[sid].bucketsLeft == s.creations[sid].bucketsLeft && s'.creations[sid].tried == {}
  {
    OneMore(acts, Unhealthy(sid));
    OneMore(acts + [Unhealthy(sid)], Purge(sid));
  }

  /** A runner is returned only after a healthy verdict, and about to be deleted only after an unhealthy one. */
  lemma {:induction false} VerdictComesFirst(acts: seq<Action>, sid: string)
    requires sid in Run(acts).creations
    ensures Run(acts).creations[sid].phase.Created? ==> Healthy(sid) in acts
    ensures Run(acts).creations[sid].phase.Purging? ==> Unhealthy(sid) in acts
  {
    var before, a := acts[..|acts| - 1], acts[|acts| - 1];
    assert acts == before + [a] && Run(acts) == Step(Run(before), a);
    hide Run, Step;
    StepVerdict(Run(before), a, sid);
    if sid in Run(before).creations {
      VerdictComesFirst(before, sid);
    }
  }

  lemma StepVerdict(s: System, a: Action, sid: string)
    requires sid in Step(s, a).creations
    ensures var p := Step(s, a).creations[sid].phase;
            && (p.Created? ==> a == Healthy(sid) || (sid in s.creations && s.creations[sid].phase.Created?))
            && (p.Purging? ==> a == Unhealthy(sid) || (sid in s.creations && s.creations[sid].phase.Purging?))
  {
    if sid in s.creations && !Concerns(a, sid) {
      OthersUntouched(s, a, sid);
      hide Step;
    }
  }

  // ---- giving up ----

  /** The action ends a bucket: the answer is empty, or all of it had been tried before. */
  predicate EndsBucket(s: System, sid: string, a: Action) {
    sid in s.creations &&
    var p := s.creations[sid].phase;
    (p.Querying? && a == Query(sid, [])) || (p.Trying? && p.candidates == [] && !p.progressed && a == TryNext(sid))
  }

  function BucketsEnded(acts: seq<Action>, sid: string): nat {
    if acts == [] then 0
    else
      var before, a := acts[..|acts| - 1], acts[|acts| - 1];
      BucketsEnded(before, sid) + if EndsBucket(Run(before), sid, a) then 1 else 0
  }

  /** The number of buckets the creation began with. */
  function BucketsOf(acts: seq<Action>, sid: string): nat {
    if acts == [] then 0
    else
      var before, a := acts[..|acts| - 1], acts[|acts| - 1];
      if sid !in Run(before).creations && a.Begin? && a.session == sid then a.buckets else BucketsOf(before, sid)
  }

  /** A creation gives up exactly when it has ended as many buckets as there are. */
  lemma {:induction false} GivesUpAfterAllBuckets(acts: seq<Action>, sid: string)
    requires sid in Run(acts).creations
    ensures var c := Run(acts).creations[sid];
            && BucketsEnded(acts, sid) + c.bucketsLeft == BucketsOf(acts, sid)
            && (c.phase == NoIdleRunner <==> BucketsEnded(acts, sid) == BucketsOf(acts, sid))
  {
    var before, a := acts[..|acts| - 1], acts[|acts| - 1];
    assert Run(acts) == Step(Run(before), a);
    hide Run, Step, EndsBucket;
    if sid in Run(before).creations {
      GivesUpAfterAllBuckets(before, sid);
    } else {
      NothingEnded(before, sid);
    }
    StepEnds(Run(before), a, sid);
  }

  lemma StepEnds(s: System, a: Action, sid: string)
    requires sid in Step(s, a).creations
    requires sid in s.creations ==> (s.creations[sid].phase == NoIdleRunner <==> s.creations[sid].bucketsLeft == 0)
    ensures var c := Step(s, a).creations[sid];
            && (c.phase == NoIdleRunner <==> c.bucketsLeft == 0)
            && (if sid in s.creations then
                  c.bucketsLeft + (if EndsBucket(s, sid, a) then 1 else 0) == s.creations[sid].bucketsLeft
                else a == Begin(sid, c.bucketsLeft) && !EndsBucket(s, sid, a))
  {
    if sid in s.creations {
      if Concerns(a, sid) {
        OwnStepEnds(s, a, sid);
      } else {
        OthersUntouched(s, a, sid);
      }
    }
    hide StepCreation;
  }

  /** An action of the given session's creation, other than its beginning. */
  predicate Concerns(a: Action, sid: string) {
    !a.Register? && !a.Delete? && !a.Begin? && a.session == sid
  }

  lemma OthersUntouched(s: System, a: Action, sid: string)
    requires sid in s.creations && !Concerns(a, sid)
    ensures sid in Step(s, a).creations && Step(s, a).creations[sid] == s.creations[sid]
  {
    if !a.Register? && !a.Delete? && !a.Begin? && a.session in s.creations {
      OnlyOwnCreation(s, a.session, a);
      hide StepCreation;
    }
  }

  lemma OnlyOwnCreation(s: System, sid: string, a: Action)
    requires sid in s.creations
    ensures var s' := StepCreation(s, sid, a);
            && s'.creations.Keys == s.creations.Keys
            && forall k :: k in s.creations && k != sid ==> s'.creations[k] == s.creations[k]
  {
    if s.creations[sid].phase.Trying? {
      OnlyOwnTry(s, sid);
    }
    hide TryCandidate;
  }

  lemma OnlyOwnTry(s: System, sid: string)
    requires sid in s.creations && s.creations[sid].phase.Trying?
    ensures var s' := TryCandidate(s, sid);
            && s'.creations.Keys == s.creations.Keys
            && forall k :: k in s.creations && k != sid ==> s'.creations[k] == s.creations[k]
  {
    hide Apply, Succeeds;
  }

  lemma OwnStepEnds(s: System, a: Action, sid: string)
    requires sid in s.creations && Concerns(a, sid)
    requires s.creations[sid].phase == NoIdleRunner <==> s.creations[sid].bucketsLeft == 0
    ensures var s' := Step(s, a);
            && sid in s'.creations
            && (s'.creations[sid].phase == NoIdleRunner <==> s'.creations[sid].bucketsLeft == 0)
            && s'.creations[sid].bucketsLeft + (if EndsBucket(s, sid, a) then 1 else 0) == s.creations[sid].bucketsLeft
  {
    if s.creations[sid].phase.Trying? {
      TryEnds(s, sid);
    }
    hide TryCandidate, Apply, Succeeds;
  }

  lemma TryEnds(s: System, sid: string)
    requires sid in s.creations && s.creations[sid].phase.Trying? && s.creations[sid].bucketsLeft > 0
    ensures var s' := TryCandidate(s, sid);
            && sid in s'.creations
            && (s'.creations[sid].phase == NoIdleRunner <==> s'.creations[sid].bucketsLeft == 0)
            && s'.creations[sid].bucketsLeft + (if EndsBucket(s, sid, TryNext(sid)) then 1 else 0)
               == s.creations[sid].bucketsLeft
  {
    hide Apply, Succeeds;
  }

  lemma {:induction false} NothingEnded(acts: seq<Action>, sid: string)
    requires sid !in Run(acts).creations
    ensures BucketsEnded(acts, sid) == 0
  {
    if acts != [] {
      var before := acts[..|acts| - 1];
      assert Run(acts) == Step(Run(before), acts[|acts| - 1]);
      hide Step;
      CreationsStay(Run(before), acts[|acts| - 1]);
      NothingEnded(before, sid);
    }
  }

  lemma CreationsStay(s: System, a: Action)
    ensures s.creations.Keys <= Step(s, a).creations.Keys
  {
  }

  // ---- registrations and deletions ----

  predicate Over(p: Phase) {
    p.Created? || p.NoIdleRunner? || p.Aborted?
  }

  /** Cancellation or a store error ends a creation at any moment, and the runner it has by then is left to it. */
  lemma AbortEnds(acts: seq<Action>, sid: string)
    requires sid in Run(acts).creations && !Over(Run(acts).creations[sid].phase)
    ensures var s, s' := Run(acts), Run(acts + [Abort(sid)]);
            var p := s.creations[sid].phase;
            && s'.table == s.table
            && InPhase(s', sid, Aborted(if p.Checking? || p.Purging? then Some(p.runner) else None))
  {
    OneMore(acts, Abort(sid));
    hide Run;
  }

  /** How a creation has ended never changes. */
  lemma {:induction false} OutcomeIsFinal(acts: seq<Action>, more: seq<Action>, sid: string)
    requires sid in Run(acts).creations && Over(Run(acts).creations[sid].phase)
    ensures InPhase(Run(acts + more), sid, Run(acts).creations[sid].phase)
    decreases more
  {
    if more == [] {
      assert acts + more == acts;
    } else {
      var front, a := more[..|more| - 1], more[|more| - 1];
      OutcomeIsFinal(acts, front, sid);
      OneMore(acts + front, a);
      assert acts + front + [a] == acts + more;
      hide Run;
      StepKeepsOutcome(Run(acts + front), a, sid);
    }
  }

  lemma StepKeepsOutcome(s: System, a: Action, sid: string)
    requires sid in s.creations && Over(s.creations[sid].phase)
    ensures InPhase(Step(s, a), sid, s.creations[sid].phase)
  {
    if !a.Register? && !a.Delete? && !a.Begin? && a.session in s.creations && a.session != sid {
      OthersUntouched(s, a, sid);
    }
  }

  /** Registering an unknown runner makes it idle, in a new incarnation granted to nobody. */
  lemma RegisteredIsIdle(acts: seq<Action>, id: string, b: nat, url: string)
    requires id !in Run(acts).table
    ensures var s' := Run(acts + [Register(id, b, url)]);
            && id in s'.table && s'.table[id] == Runner(None, Some(b), url)
            && id in s'.incarnation && forall g :: g in s'.grants ==> g.incarnation != s'.incarnation[id]
  {
    RunKeepsInv(acts);
    OneMore(acts, Register(id, b, url));
    hide Run;
    assert forall g :: g in Run(acts).grants ==> g.incarnation < Run(acts).registrations;
  }

  lemma DeletedIsGone(acts: seq<Action>, id: string)
    ensures Run(acts + [Delete(id)]).table == Run(acts).table - {id}
  {
    OneMore(acts, Delete(id));
  }

  /** From any state, a new runner that a new session asks for and finds healthy is the session's runner. */
  lemma NewRunnerCanBeTaken(acts: seq<Action>, id: string, b: nat, url: string, sid: string, buckets: nat)
    requires id !in Run(acts).table && sid !in Run(acts).creations && 0 < buckets
    ensures var s' := Run(acts + [Register(id, b, url)] + [Begin(sid, buckets)] + [Query(sid, [id])]
                          + Tries(sid, 1) + [Healthy(sid)]);
            InPhase(s', sid, Created(id)) && Granted(s', sid, id)
  {
    var acts1 := acts + [Register(id, b, url)];
    var acts2 := acts1 + [Begin(sid, buckets)];
    var acts3 := acts2 + [Query(sid, [id])] + Tries(sid, 1);
    NewRunnerAwaits(acts, id, b, url, sid, buckets);
    hide Run, Step, Worthless, Tries;
    QueryTakesFirstIdle(acts2, sid, [id], 0);
    HealthyIsReturned(acts3, sid, id);
    HealthyKeepsGrants(acts3, sid);
  }

  lemma NewRunnerAwaits(acts: seq<Action>, id: string, b: nat, url: string, sid: string, buckets: nat)
    requires id !in Run(acts).table && sid !in Run(acts).creations && 0 < buckets
    ensures var s := Run(acts + [Register(id, b, url)] + [Begin(sid, buckets)]);
            InPhase(s, sid, Querying) && !Worthless(s, sid, id)
  {
    OneMore(acts, Register(id, b, url));
    OneMore(acts + [Register(id, b, url)], Begin(sid, buckets));
    hide Run;
    RegistersAndBegins(Run(acts), id, b, url, sid, buckets);
  }

  lemma RegistersAndBegins(s: System, id: string, b: nat, url: string, sid: string, buckets: nat)
    requires id !in s.table && sid !in s.creations && 0 < buckets
    ensures var s' := Step(Step(s, Register(id, b, url)), Begin(sid, buckets));
            InPhase(s', sid, Querying) && !Worthless(s', sid, id)
  {
    var s1 := Step(s, Register(id, b, url));
    assert IdleAt(s1, id) && s1.creations == s.creations;
    hide Apply, Succeeds;
    assert Step(s1, Begin(sid, buckets)) == Move(s1, sid, Creation(buckets, {}, Querying));
  }

  lemma HealthyKeepsGrants(acts: seq<Action>, sid: string)
    ensures var s, s' := Run(acts), Run(acts + [Healthy(sid)]);
            s'.table == s.table && s'.incarnation == s.incarnation && s'.grants == s.grants
  {
    OneMore(acts, Healthy(sid));
    hide Run;
  }
}
