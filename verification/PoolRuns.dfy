/**
 * Any number of brokers creating sessions from one pool. Every table access is one atomic step, index answers are
 * arbitrary, and registrations, deregistrations, closings and failures may happen at any point.
 */
module PoolRuns {
  import opened Prelude
  import opened PoolTable

  /** Where a session creation stands. The runner in `Checking` and `Purging` was assigned by this call. */
  datatype Phase =
    | Querying
    | Trying(candidates: seq<string>, progressed: bool)
    | Checking(runner: string)
    | Purging(runner: string)
    | Created(runner: string)
    | NoIdleRunner
    | Aborted(held: Option<string>)       // cancelled or failed; a runner may have been assigned before

  /** `tried` belongs to the current acquisition; it starts empty again in every bucket and after every purge. */
  datatype Creation = Creation(bucketsLeft: nat, tried: set<string>, phase: Phase)

  /** A successful registration opens a new incarnation of its runner; a grant hands an incarnation to a session. */
  datatype Grant = Grant(incarnation: nat, session: string)

  datatype System = System(
    table: Table,
    incarnation: map<string, nat>,
    registrations: nat,
    grants: seq<Grant>,
    creations: map<string, Creation>)

  datatype Action =
    | Register(id: string, bucket: nat, url: string)
    | Delete(id: string)                            // deregistration, closing, or the purge of a dead runner on resolve
    | Begin(session: string, buckets: nat)          // a session creation draws a fresh ID
    | Query(session: string, answer: seq<string>)   // the index may answer anything
    | TryNext(session: string)
    | Healthy(session: string)
    | Unhealthy(session: string)
    | Purge(session: string)
    | Abort(session: string)                        // cancellation or a store error

  const INIT := System(map[], map[], 0, [], map[])

  function Move(s: System, sid: string, c: Creation): System {
    s.(creations := s.creations[sid := c])
  }

  /** The bucket gave nothing: go on to the next one, or give up. */
  function BucketEmpty(s: System, sid: string): System
    requires sid in s.creations
  {
    var c := s.creations[sid];
    if c.bucketsLeft <= 1 then Move(s, sid, Creation(0, {}, NoIdleRunner))
    else Move(s, sid, Creation(c.bucketsLeft - 1, {}, Querying))
  }

  /** Which registration of an ID the record stems from; every record has one. */
  function IncarnationOf(s: System, id: string): nat {
    if id in s.incarnation then s.incarnation[id] else 0
  }

  function TryCandidate(s: System, sid: string): System
    requires sid in s.creations && s.creations[sid].phase.Trying?
  {
    var c := s.creations[sid];
    var p := c.phase;
    if p.candidates == [] then
      if p.progressed then Move(s, sid, c.(phase := Querying)) else BucketEmpty(s, sid)
    else
      var id := p.candidates[0];
      var rest := p.candidates[1..];
      if id in c.tried then Move(s, sid, c.(phase := Trying(rest, p.progressed)))
      else if Succeeds(s.table, Assign(id, sid)) then
        Move(s, sid, Creation(c.bucketsLeft, c.tried + {id}, Checking(id)))
        .(table := Apply(s.table, Assign(id, sid)),
          grants := s.grants + [Grant(IncarnationOf(s, id), sid)])
      else Move(s, sid, Creation(c.bucketsLeft, c.tried + {id}, Trying(rest, true)))
  }

  function StepCreation(s: System, sid: string, a: Action): System
    requires sid in s.creations
  {
    var c := s.creations[sid];
    match a
    case Query(_, answer) =>
      if !c.phase.Querying? then s
      else if answer == [] then BucketEmpty(s, sid)
      else Move(s, sid, c.(phase := Trying(answer, false)))
    case TryNext(_) => if c.phase.Trying? then TryCandidate(s, sid) else s
    case Healthy(_) => if c.phase.Checking? then Move(s, sid, c.(phase := Created(c.phase.runner))) else s
    case Unhealthy(_) => if c.phase.Checking? then Move(s, sid, c.(phase := Purging(c.phase.runner))) else s
    case Purge(_) =>
      if c.phase.Purging? then
        Move(s, sid, Creation(c.bucketsLeft, {}, Querying)).(table := Apply(s.table, Remove(c.phase.runner)))
      else s
    case Abort(_) =>
      if c.phase.Querying? || c.phase.Trying? then Move(s, sid, c.(phase := Aborted(None)))
      else if c.phase.Checking? || c.phase.Purging? then Move(s, sid, c.(phase := Aborted(Some(c.phase.runner))))
      else s
    case _ => s
  }

  /** One step; an action that is not possible in the state changes nothing. */
  function Step(s: System, a: Action): System {
    match a
    case Register(id, b, url) =>
      if Succeeds(s.table, Put(id, b, url)) then
        s.(table := Apply(s.table, Put(id, b, url)),
           incarnation := s.incarnation[id := s.registrations],
           registrations := s.registrations + 1)
      else s
    case Delete(id) => s.(table := Apply(s.table, Remove(id)))
    case Begin(sid, n) =>
      if sid in s.creations || n == 0 then s else Move(s, sid, Creation(n, {}, Querying))
    case _ => if a.session in s.creations then StepCreation(s, a.session, a) else s
  }

  function Run(acts: seq<Action>): System {
    if acts == [] then INIT else Step(Run(acts[..|acts| - 1]), acts[|acts| - 1])
  }

  // ---- the invariant ----

  /** The runner a creation may have assigned to its session, if any. */
  function MayHold(p: Phase): Option<string> {
    match p
    case Checking(r) => Some(r)
    case Purging(r) => Some(r)
    case Created(r) => Some(r)
    case Aborted(r) => r
    case _ => None
  }

  ghost predicate RecordFits(s: System, id: string)
    requires id in s.table
  {
    && (s.table[id].IsIdle() <==> !s.table[id].IsBusy())
    && id in s.incarnation && s.incarnation[id] < s.registrations
    && (forall j :: j in s.table && j in s.incarnation && s.incarnation[j] == s.incarnation[id] ==> j == id)
    && (s.table[id].IsIdle() ==> forall g :: g in s.grants ==> g.incarnation != s.incarnation[id])
    && (s.table[id].IsBusy() ==>
          var sid := s.table[id].session.value;
          && Grant(s.incarnation[id], sid) in s.grants
          && sid in s.creations && MayHold(s.creations[sid].phase) == Some(id))
  }

  ghost predicate Inv(s: System) {
    && (forall id :: id in s.table ==> RecordFits(s, id))
    && (forall i :: 0 <= i < |s.grants| ==> s.grants[i].incarnation < s.registrations)
    && (forall i, j :: 0 <= i < j < |s.grants| ==> s.grants[i].incarnation != s.grants[j].incarnation)
  }

  lemma MoveKeepsInv(s: System, sid: string, c: Creation)
    requires Inv(s)
    requires sid in s.creations ==>
               MayHold(c.phase) == MayHold(s.creations[sid].phase) || HoldersOf(s.table, sid) == {}
    ensures Inv(Move(s, sid, c))
  {
    var s' := Move(s, sid, c);
    forall id | id in s'.table ensures RecordFits(s', id) {
      assert RecordFits(s, id);
      if s.table[id].session == Some(sid) {
        assert id in HoldersOf(s.table, sid);
      }
    }
  }

  lemma NotHolding(s: System, sid: string)
    requires Inv(s) && (sid in s.creations ==> MayHold(s.creations[sid].phase) == None)
    ensures HoldersOf(s.table, sid) == {}
  {
    forall id | id in s.table ensures s.table[id].session != Some(sid) {
      assert RecordFits(s, id);
    }
  }

  lemma AssignKeepsInv(s: System, sid: string)
    requires Inv(s) && sid in s.creations && s.creations[sid].phase.Trying? && s.creations[sid].phase.candidates != []
    requires var id := s.creations[sid].phase.candidates[0];
             id !in s.creations[sid].tried && Succeeds(s.table, Assign(id, sid))
    ensures Inv(TryCandidate(s, sid))
  {
    var s' := TryCandidate(s, sid);
    var id := s.creations[sid].phase.candidates[0];
    assert RecordFits(s, id);
    NotHolding(s, sid);
    forall j | j in s'.table ensures RecordFits(s', j) {
      assert RecordFits(s, j);
      if j == id {
        assert s'.grants[|s.grants|] == Grant(s.incarnation[id], sid);
      } else {
        assert j !in HoldersOf(s.table, sid);
      }
    }
  }

  lemma RemoveKeepsInv(s: System, id: string)
    requires Inv(s)
    ensures Inv(s.(table := Apply(s.table, Remove(id))))
  {
    var s' := s.(table := Apply(s.table, Remove(id)));
    forall j | j in s'.table ensures RecordFits(s', j) {
      assert RecordFits(s, j);
    }
  }

  lemma RegisterKeepsInv(s: System, id: string, b: nat, url: string)
    requires Inv(s)
    ensures Inv(Step(s, Register(id, b, url)))
  {
    var s' := Step(s, Register(id, b, url));
    forall j | j in s'.table ensures RecordFits(s', j) {
      if j != id || id in s.table {
        assert RecordFits(s, j);
      }
      forall k | k in s'.table && k in s'.incarnation && s'.incarnation[k] == s'.incarnation[j] ensures k == j {
        assert k in s.table ==> RecordFits(s, k);
        assert j in s.table ==> RecordFits(s, j);
      }
    }
  }

  lemma CreationStepKeepsInv(s: System, sid: string, a: Action)
    requires Inv(s) && sid in s.creations
    ensures Inv(StepCreation(s, sid, a))
  {
    var c := s.creations[sid];
    if MayHold(c.phase) == None {
      NotHolding(s, sid);
    }
    if a.TryNext? && c.phase.Trying? && c.phase.candidates != [] && c.phase.candidates[0] !in c.tried
       && Succeeds(s.table, Assign(c.phase.candidates[0], sid)) {
      AssignKeepsInv(s, sid);
    } else if a.Purge? && c.phase.Purging? {
      var s1 := s.(table := Apply(s.table, Remove(c.phase.runner)));
      RemoveKeepsInv(s, c.phase.runner);
      forall id | id in s1.table ensures s1.table[id].session != Some(sid) {
        assert RecordFits(s, id);
      }
      MoveKeepsInv(s1, sid, Creation(c.bucketsLeft, {}, Querying));
    } else {
      var s' := StepCreation(s, sid, a);
      assert s' == s || s' == Move(s, sid, s'.creations[sid]);
      if s' != s {
        MoveKeepsInv(s, sid, s'.creations[sid]);
      }
    }
  }

  lemma StepKeepsInv(s: System, a: Action)
    requires Inv(s)
    ensures Inv(Step(s, a))
  {
    match a
    case Register(id, b, url) => RegisterKeepsInv(s, id, b, url);
    case Delete(id) => RemoveKeepsInv(s, id);
    case Begin(sid, n) =>
      if sid !in s.creations && n != 0 {
        MoveKeepsInv(s, sid, Creation(n, {}, Querying));
      }
    case _ =>
      if a.session in s.creations {
        CreationStepKeepsInv(s, a.session, a);
      }
  }

  lemma {:induction false} RunKeepsInv(acts: seq<Action>)
    ensures Inv(Run(acts))
  {
    if acts != [] {
      RunKeepsInv(acts[..|acts| - 1]);
      StepKeepsInv(Run(acts[..|acts| - 1]), acts[|acts| - 1]);
    }
  }

  // ---- safety over every interleaving ----

  /** Each registration is handed to at most one session ever, and a record is exactly one of idle and busy. */
  lemma EachRegistrationGrantedOnce(acts: seq<Action>)
    ensures var s := Run(acts);
            && IdleXorBusy(s.table)
            && (forall i, j :: 0 <= i < j < |s.grants| ==> s.grants[i].incarnation != s.grants[j].incarnation)
            && (forall id :: id in s.table && s.table[id].IsBusy() ==>
                  id in s.incarnation && Grant(s.incarnation[id], s.table[id].session.value) in s.grants)
            && (forall id, g :: id in s.table && s.table[id].IsIdle() && g in s.grants ==>
                  id in s.incarnation && g.incarnation != s.incarnation[id])
  {
    RunKeepsInv(acts);
    var s := Run(acts);
    forall id | id in s.table ensures RecordFits(s, id) {
    }
  }

  /** At most one runner record carries a session ID, although a creation uses its ID for several acquisitions. */
  lemma OneRunnerPerSession(acts: seq<Action>, a: string, b: string)
    requires var t := Run(acts).table;
             a in t && b in t && t[a].IsBusy() && t[a].session == t[b].session
    ensures a == b
  {
    RunKeepsInv(acts);
    assert RecordFits(Run(acts), a) && RecordFits(Run(acts), b);
  }

  /** A creation that gave up holds nothing; one that returned or was cut short holds at most the runner it names. */
  ghost predicate HoldsAtMostItsRunner(s: System, sid: string) {
    HoldersOf(s.table, sid) <=
      if sid in s.creations && MayHold(s.creations[sid].phase).Some? then {MayHold(s.creations[sid].phase).value}
      else {}
  }

  lemma CreationHoldsAtMostItsRunner(acts: seq<Action>, sid: string)
    ensures HoldsAtMostItsRunner(Run(acts), sid)
  {
    RunKeepsInv(acts);
    var s := Run(acts);
    forall id | id in HoldersOf(s.table, sid)
      ensures sid in s.creations && MayHold(s.creations[sid].phase) == Some(id)
    {
      assert RecordFits(s, id);
    }
  }

  /** Within one incarnation a runner keeps its URL and bucket, and once busy it keeps its session. */
  ghost predicate Continues(r: Runner, r': Runner) {
    && r'.url == r.url
    && (r.IsBusy() ==> r' == r)
    && (r.IsIdle() && r'.IsIdle() ==> r' == r)
  }

  lemma {:induction false} IncarnationIsStable(acts: seq<Action>, more: seq<Action>, id: string)
    requires var s, s' := Run(acts), Run(acts + more);
             && id in s.table && id in s'.table && id in s.incarnation && id in s'.incarnation
             && s'.incarnation[id] == s.incarnation[id]
    ensures Continues(Run(acts).table[id], Run(acts + more).table[id])
    decreases |more|
  {
    RunKeepsInv(acts);
    assert RecordFits(Run(acts), id);
    if more == [] {
      assert acts + more == acts;
    } else {
      var n := |more| - 1;
      RunAppend(acts, more);
      RunKeepsInv(acts + more[..n]);
      IncarnationNeverReturns(acts, more[..n], id);
      var m := Run(acts + more[..n]);
      hide Run, RecordFits, Inv;
      StepAdvances(m, more[n], id);
      hide Step;
      StepContinues(m, more[n], id);
      IncarnationIsStable(acts, more[..n], id);
      assert RecordFits(m, id);
      BusyXorIdle(m, id);
    }
  }

  lemma RunAppend(acts: seq<Action>, more: seq<Action>)
    requires more != []
    ensures Run(acts + more) == Step(Run(acts + more[..|more| - 1]), more[|more| - 1])
  {
    assert (acts + more)[..|acts + more| - 1] == acts + more[..|more| - 1];
  }

  lemma BusyXorIdle(s: System, id: string)
    requires id in s.table && RecordFits(s, id)
    ensures s.table[id].IsIdle() <==> !s.table[id].IsBusy()
  {
  }

  /** The incarnation of an ID only moves forward. */
  lemma StepAdvances(s: System, a: Action, id: string)
    requires id in s.incarnation && s.incarnation[id] < s.registrations
    ensures var s' := Step(s, a);
            && s.registrations <= s'.registrations
            && id in s'.incarnation && s.incarnation[id] <= s'.incarnation[id] < s'.registrations
  {
  }

  lemma StepContinues(s: System, a: Action, id: string)
    requires Inv(s) && id in Step(s, a).table
    requires id in s.incarnation && id in Step(s, a).incarnation && Step(s, a).incarnation[id] == s.incarnation[id]
    requires s.incarnation[id] < s.registrations
    ensures id in s.table && Continues(s.table[id], Step(s, a).table[id])
  {
    assert id in s.table ==> RecordFits(s, id);
  }

  lemma {:induction false} IncarnationNeverReturns(acts: seq<Action>, more: seq<Action>, id: string)
    requires id in Run(acts).incarnation && Run(acts).incarnation[id] < Run(acts).registrations
    ensures var s, s' := Run(acts), Run(acts + more);
            && s.registrations <= s'.registrations
            && id in s'.incarnation && s.incarnation[id] <= s'.incarnation[id] < s'.registrations
    decreases |more|
  {
    if more == [] {
      assert acts + more == acts;
    } else {
      var n := |more| - 1;
      RunAppend(acts, more);
      hide Run, Step;
      IncarnationNeverReturns(acts, more[..n], id);
      StepAdvances(Run(acts + more[..n]), more[n], id);
    }
  }

  /**
   * Registering again while the record exists is invisible to the whole run, wherever it happens: a retry loop never
   * frees a runner, moves it or changes its URL.
   */
  lemma {:induction false} RetriesAreInvisible(acts: seq<Action>, more: seq<Action>, id: string, b: nat, url: string)
    requires id in Run(acts).table
    ensures Run(acts + [Register(id, b, url)] + more) == Run(acts + more)
    decreases |more|
  {
    var retried := acts + [Register(id, b, url)];
    if more == [] {
      assert retried + more == retried && retried[..|acts|] == acts;
      assert acts + more == acts;
    } else {
      RunAppend(retried, more);
      RunAppend(acts, more);
      RetriesAreInvisible(acts, more[..|more| - 1], id, b, url);
    }
  }
}
