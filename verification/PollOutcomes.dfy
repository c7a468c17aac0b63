/** What the outcome of a call says: each one has its own cause, and every call that is served comes to one. */
module PollOutcomes {
  import opened PollKeys
  import opened PollTable
  import opened PollBallot
  import opened PollRuns
  import opened PollTheorems

  /** The choices a request needs to be options of the poll. */
  function Named(q: Request): set<string> {
    match q
    case Vote(c) => {c}
    case Unvote(_) => {}
    case Switch(from, to) => {from, to}
  }

  /** When the ballot answers how. */
  lemma OutcomeExactlyWhen(b: Ballot, v: string, q: Request)
    ensures var o := Cast(b, v, q).1;
            var valid := b.Open? && forall c :: c in Named(q) ==> c in b.options;
            && (o == PollNotFound <==> !q.Unvote? && b.Closed?)
            && (o == InvalidChoice <==> b.Open? && exists c :: c in Named(q) && c !in b.options)
            && (o == MaxChoicesExceeded <==> q.Vote? && valid && |Own(b, v)| >= b.maxChoices)
            && (o == StoreError <==> q.Switch? && valid && q.from == q.to)
            && (q.Vote? ==> (o == DuplicateVote <==>
                               valid && |Own(b, v)| < b.maxChoices && (v, q.choice) in Own(b, v)))
            && (q.Unvote? ==> (o == Ok <==> b.Open? && (v, q.choice) in Own(b, v)))
            && (q.Switch? && valid && q.from != q.to ==>
                  && (o == VoteNotFound <==> (v, q.from) !in Own(b, v))
                  && (o == Ok <==> (v, q.from) in Own(b, v) && (v, q.to) !in Own(b, v)))
  {
    if b.Open? && q.Vote? && q.choice !in b.options {
      assert q.choice in Named(q);
    }
    if b.Open? && q.Switch? {
      assert q.from in Named(q) && q.to in Named(q);
    }
  }

  // ---- a store error has a cause ----

  lemma CommitOutcome(t: Table, v: string, q: Request)
    requires Sound(t) && IsVisitor(v) && Checked(t, q)
    ensures Commit(t, v, q).1 == StoreError ==> q.Switch? && q.from == q.to
  {
    match q
    case Vote(c) => VoteTransaction(t, v, c);
    case Unvote(c) =>
      VoteKeyIsNotMeta(v, c);
      if VoteKey(v, c) in t {
        assert VoteKey(v, c) in VoteKeys(t);
      }
      UnvoteTransaction(t, v, c);
    case Switch(from, to) => SwitchTransaction(t, v, from, to);
  }

  predicate Ended(s: System, id: nat, o: Outcome) {
    id in s.calls && s.calls[id].phase == Done(o)
  }

  lemma AdvanceOutcome(s: System, id: nat)
    requires Inv(s) && Active(s, id)
    ensures var q := s.calls[id].request;
            Ended(Step(s, Advance(id)), id, StoreError) ==> q.Switch? && q.from == q.to
  {
    hide Commit, Sound;
    var c := s.calls[id];
    assert CallFits(s, id);
    if AtCommit(c) {
      CommitStep(s, id);
      CommitOutcome(s.table, c.visitor, c.request);
    }
  }

  /** A call ends in a store error only if one of its table accesses failed, or it switches a choice to itself. */
  lemma {:induction false} StoreErrorHasCause(acts: seq<Action>, id: nat)
    requires Ended(Run(acts), id, StoreError)
    ensures var q := Run(acts).calls[id].request;
            Fault(id) in acts || (q.Switch? && q.from == q.to)
  {
    var before, a := acts[..|acts| - 1], acts[|acts| - 1];
    var s := Run(before);
    RunKeepsInv(before);
    assert acts == before + [a] && Run(acts) == Step(s, a);
    hide Run, Step;
    if a == Fault(id) {
    } else if id in s.calls && s.calls[id].phase.Done? {
      StepExtends(s, a);
      StoreErrorHasCause(before, id);
    } else {
      OnlyOwnStepsEnd(s, a, id);
      AdvanceOutcome(s, id);
      StepProgress(s, a, id);
    }
  }

  /** A call comes to its end in a step of its own. */
  lemma OnlyOwnStepsEnd(s: System, a: Action, id: nat)
    requires !(id in s.calls && s.calls[id].phase.Done?)
    requires id in Step(s, a).calls && Step(s, a).calls[id].phase.Done?
    ensures Active(s, id) && (a == Advance(id) || a == Fault(id))
  {
    hide Commit;
  }

  /** A failing table access ends its call in a store error and writes nothing. */
  lemma FaultEnds(acts: seq<Action>, id: nat)
    requires Active(Run(acts), id)
    ensures Ended(Run(acts + [Fault(id)]), id, StoreError)
    ensures Run(acts + [Fault(id)]).table == Run(acts).table
  {
    assert (acts + [Fault(id)])[..|acts|] == acts;
  }

  /** A call has one outcome for good. */
  lemma {:induction false} OutcomeIsFinal(acts: seq<Action>, more: seq<Action>, id: nat, o: Outcome)
    requires Ended(Run(acts), id, o)
    ensures Ended(Run(acts + more), id, o)
    decreases |more|
  {
    if more == [] {
      assert acts + more == acts;
    } else {
      var n := |more| - 1;
      OutcomeIsFinal(acts, more[..n], id, o);
      RunAppend(acts, more);
      hide Step, Run;
      StepExtends(Run(acts + more[..n]), more[n]);
    }
  }

  // ---- every call that is served comes to an end ----

  function Count(acts: seq<Action>, a: Action): nat {
    if acts == [] then 0 else Count(acts[..|acts| - 1], a) + if acts[|acts| - 1] == a then 1 else 0
  }

  /** How far a call has come. */
  function Progress(p: Phase): nat {
    match p
    case Started => 0
    case MetaRead(_) => 1
    case Passed => 2
    case Done(_) => 3
  }

  lemma StepProgress(s: System, a: Action, id: nat)
    requires id in s.calls
    ensures var c, s' := s.calls[id], Step(s, a);
            && id in s'.calls && s'.calls[id].visitor == c.visitor && s'.calls[id].request == c.request
            && (s'.calls[id].phase.Done?
                || Progress(s'.calls[id].phase) >= Progress(c.phase) + if a == Advance(id) then 1 else 0)
  {
    hide Commit;
  }

  lemma {:induction false} RunProgress(acts: seq<Action>, more: seq<Action>, id: nat)
    requires id in Run(acts).calls
    ensures var c, s' := Run(acts).calls[id], Run(acts + more);
            && id in s'.calls && s'.calls[id].visitor == c.visitor && s'.calls[id].request == c.request
            && (s'.calls[id].phase.Done?
                || Progress(s'.calls[id].phase) >= Progress(c.phase) + Count(more, Advance(id)))
    decreases |more|
  {
    if more == [] {
      assert acts + more == acts;
    } else {
      var n := |more| - 1;
      RunProgress(acts, more[..n], id);
      RunAppend(acts, more);
      hide Step, Run;
      StepProgress(Run(acts + more[..n]), more[n], id);
      StepExtends(Run(acts + more[..n]), more[n]);
    }
  }

  /** A call that is begun and gets three table accesses, interleaved with anything, has ended. */
  lemma ServedCallsEnd(acts: seq<Action>, id: nat, v: string, q: Request, more: seq<Action>)
    requires id !in Run(acts).calls && IsVisitor(v) && Count(more, Advance(id)) >= 3
    ensures var s := Run(acts + [Begin(id, v, q)] + more);
            id in s.calls && s.calls[id].visitor == v && s.calls[id].request == q && s.calls[id].phase.Done?
  {
    var begun := acts + [Begin(id, v, q)];
    RunAppend(acts, [Begin(id, v, q)]);
    assert acts + [] == acts && [Begin(id, v, q)][..0] == [];
    RunProgress(begun, more, id);
  }

  /** The call has its place in the log, after `from`, with the ballot's outcome and effect there. */
  ghost predicate Performed(s: System, id: nat, v: string, q: Request, from: nat) {
    && id in s.calls && from <= s.calls[id].landedAt < |s.log|
    && var i := s.calls[id].landedAt;
       var (b, o) := Cast(Final(s.log[..i]), v, q);
       s.log[i] == Landed(id, v, q, o) && Final(s.log[..i + 1]) == b
  }

  /**
   * Put together: a call that is begun and gets its table accesses, none of which fails, ends with the outcome and the
   * effect of the ballot's atomic operation at its place in the log.
   */
  lemma ServedCallsArePerformed(acts: seq<Action>, id: nat, v: string, q: Request, more: seq<Action>)
    requires id !in Run(acts).calls && IsVisitor(v) && Count(more, Advance(id)) >= 3 && (q.Switch? ==> q.from != q.to)
    requires var all := acts + [Begin(id, v, q)] + more;
             Fault(id) !in all && forall w :: AlwaysAtMost(all, w, 1)
    ensures Performed(Run(acts + [Begin(id, v, q)] + more), id, v, q, |Run(acts).log|)
  {
    hide Run, Step, Count, Cast, Legal, Final, AlwaysAtMost;
    var all := acts + [Begin(id, v, q)] + more;
    ServedCallsEnd(acts, id, v, q, more);
    PollRefinesBallot(all);
    var s := Run(all);
    var c := s.calls[id];
    if c.phase == Done(StoreError) {
      StoreErrorHasCause(all, id);
    }
    assert all == acts + ([Begin(id, v, q)] + more);
    RunExtends(acts, [Begin(id, v, q)] + more);
    RunKeepsInv(all);
    assert CallFits(s, id);
    PerformedThere(s, id);
  }

  lemma PerformedThere(s: System, id: nat)
    requires id in s.calls && s.calls[id].phase.Done? && s.calls[id].phase.outcome != StoreError && Legal(s.log)
    requires var c := s.calls[id];
             c.landedAt < |s.log| && s.log[c.landedAt] == Landed(id, c.visitor, c.request, c.phase.outcome)
    ensures Performed(s, id, s.calls[id].visitor, s.calls[id].request, s.calls[id].landedAt)
  {
    hide Cast, Legal;
    var i := s.calls[id].landedAt;
    LegalAt(s.log, i);
    assert s.log[..i + 1] == s.log[..i] + [s.log[i]];
    Appended(s.log[..i], s.log[i]);
  }

  lemma {:induction false} LegalAt(log: seq<Entry>, i: nat)
    requires Legal(log) && i < |log|
    ensures Reports(Final(log[..i]), log[i])
  {
    if i < |log| - 1 {
      LegalAt(log[..|log| - 1], i);
      assert log[..|log| - 1][..i] == log[..i];
    }
  }
}
