/** What the concurrent poll guarantees over whole runs: it refines the ballot. */
module PollTheorems {
  import opened PollKeys
  import opened PollTable
  import opened PollBallot
  import opened PollRuns

  // ---- the sequential meaning of a log ----

  /** The ballot after a log is executed entry by entry; a store failure does nothing. */
  function Final(log: seq<Entry>): Ballot {
    if log == [] then Closed else Execute(Final(log[..|log| - 1]), log[|log| - 1])
  }

  function Execute(b: Ballot, e: Entry): Ballot {
    if e.PollOpened? then (if b.Closed? then Open(e.options, e.maxChoices, {}) else b)
    else if e.outcome == StoreError then b
    else Cast(b, e.visitor, e.request).0
  }

  /** Every entry reports what the ballot reports at that point, or a store failure. */
  predicate Legal(log: seq<Entry>) {
    log == [] || (Legal(log[..|log| - 1]) && Reports(Final(log[..|log| - 1]), log[|log| - 1]))
  }

  predicate Reports(b: Ballot, e: Entry) {
    e.Landed? && e.outcome != StoreError ==> Cast(b, e.visitor, e.request).1 == e.outcome
  }

  lemma Appended(log: seq<Entry>, e: Entry)
    ensures Final(log + [e]) == Execute(Final(log), e)
    ensures Legal(log + [e]) <==> Legal(log) && Reports(Final(log), e)
  {
    assert (log + [e])[..|log|] == log;
  }

  // ---- how far calls of one visitor overlap ----

  predicate Active(s: System, id: nat) {
    id in s.calls && !s.calls[id].phase.Done?
  }

  /** The calls of a visitor that passed the limit check and have not committed. */
  function InFlight(s: System, v: string): set<nat> {
    set id | id in s.calls && s.calls[id].visitor == v && s.calls[id].phase.Passed?
  }

  ghost predicate AlwaysAtMost(acts: seq<Action>, v: string, k: nat) {
    |InFlight(Run(acts), v)| <= k && (acts != [] ==> AlwaysAtMost(acts[..|acts| - 1], v, k))
  }

  predicate Passing(s: System, id: nat) {
    id in s.calls && s.calls[id].phase.Passed?
  }

  /** No visitor has two votes between limit check and commit at one time. */
  ghost predicate Apart(s: System) {
    forall i, j :: Passing(s, i) && Passing(s, j) && s.calls[i].visitor == s.calls[j].visitor ==> i == j
  }

  lemma AtMostOneIsApart(s: System)
    requires forall v :: |InFlight(s, v)| <= 1
    ensures Apart(s)
  {
    forall i, j | Passing(s, i) && Passing(s, j) && s.calls[i].visitor == s.calls[j].visitor ensures i == j {
      var f := InFlight(s, s.calls[i].visitor);
      assert f == {i, j} + (f - {i, j});
    }
  }

  /** Calls of one visitor never overlap. */
  ghost predicate Exclusive(s: System) {
    forall i, j :: Active(s, i) && Active(s, j) && s.calls[i].visitor == s.calls[j].visitor ==> i == j
  }

  ghost predicate AlwaysExclusive(acts: seq<Action>) {
    Exclusive(Run(acts)) && (acts != [] ==> AlwaysExclusive(acts[..|acts| - 1]))
  }

  lemma {:induction false} ExclusiveIsAtMostOne(acts: seq<Action>, v: string)
    requires AlwaysExclusive(acts)
    ensures AlwaysAtMost(acts, v, 1)
  {
    var f := InFlight(Run(acts), v);
    if f != {} {
      var i :| i in f;
      forall j | j in f ensures j == i {
        assert Active(Run(acts), i) && Active(Run(acts), j);
      }
      assert f == {i};
    }
    if acts != [] {
      ExclusiveIsAtMostOne(acts[..|acts| - 1], v);
    }
  }

  // ---- refinement ----

  /** The limit check of a call that passed it still holds, and the log explains the table. */
  ghost predicate Refines(s: System) {
    && Inv(s)
    && Legal(s.log) && Final(s.log) == Abs(s.table)
    && forall id :: id in s.calls && s.calls[id].phase.Passed? ==>
         |OwnKeys(s.table, s.calls[id].visitor)| < s.table[META].maxChoices
  }

  lemma FinishRefines(s: System, id: nat, t: Table, o: Outcome)
    requires Refines(s) && Active(s, id) && Inv(Finish(s, id, t, o))
    requires if o == StoreError then Abs(t) == Abs(s.table)
             else Cast(Abs(s.table), s.calls[id].visitor, s.calls[id].request) == (Abs(t), o)
    requires forall i :: i in s.calls && i != id && s.calls[i].phase.Passed? ==>
               Opened(t) && t[META].maxChoices == s.table[META].maxChoices
               && |OwnKeys(t, s.calls[i].visitor)| <= |OwnKeys(s.table, s.calls[i].visitor)|
    ensures Refines(Finish(s, id, t, o))
  {
    Appended(s.log, Landed(id, s.calls[id].visitor, s.calls[id].request, o));
  }

  lemma CommitRefines(s: System, id: nat)
    requires Refines(s) && Apart(s) && Active(s, id) && AtCommit(s.calls[id])
    ensures Refines(Step(s, Advance(id)))
  {
    hide Commit, Sound;
    var c := s.calls[id];
    assert CallFits(s, id);
    CommitStep(s, id);
    StepKeepsInv(s, Advance(id));
    CommitChanges(s.table, c.visitor, c.request);
    CommitIsAtomic(s.table, c.visitor, c.request);
    var t, o := Commit(s.table, c.visitor, c.request).0, Commit(s.table, c.visitor, c.request).1;
    forall i | i in s.calls && i != id && s.calls[i].phase.Passed?
      ensures Opened(t) && t[META].maxChoices == s.table[META].maxChoices
              && |OwnKeys(t, s.calls[i].visitor)| <= |OwnKeys(s.table, s.calls[i].visitor)|
    {
      assert CallFits(s, i);
      assert Passing(s, i) && (c.request.Vote? ==> Passing(s, id));
      ChangesOwnKeys(s.table, c.visitor, c.request, t, o, s.calls[i].visitor);
    }
    FinishRefines(s, id, t, o);
  }

  lemma CheckRefines(s: System, id: nat)
    requires Refines(s) && Active(s, id) && !AtCommit(s.calls[id])
    ensures Refines(Step(s, Advance(id)))
  {
    hide Commit;
    var c := s.calls[id];
    assert CallFits(s, id);
    StepKeepsInv(s, Advance(id));
    if c.phase.Started? && !Opened(s.table) {
      FinishRefines(s, id, s.table, PollNotFound);
    } else if c.phase.Started? && !NamesOptions(c.request, s.table[META].options) {
      FinishRefines(s, id, s.table, InvalidChoice);
    } else if c.phase.MetaRead? && |OwnKeys(s.table, c.visitor)| >= c.phase.maxChoices {
      OwnKeysAreOwnVotes(s.table, c.visitor);
      FinishRefines(s, id, s.table, MaxChoicesExceeded);
    }
  }

  lemma StepRefines(s: System, a: Action)
    requires Refines(s) && Apart(s)
    ensures Refines(Step(s, a))
  {
    hide Commit, Sound;
    StepKeepsInv(s, a);
    match a
    case OpenPoll(os, m) =>
      if META !in s.table {
        OpenIsSound(s.table, os, m);
        Appended(s.log, PollOpened(os, m));
        forall id | id in s.calls ensures !s.calls[id].phase.Passed? {
          assert CallFits(s, id);
        }
      }
    case Begin(_, _, _) =>
    case Advance(id) =>
      if Active(s, id) {
        if AtCommit(s.calls[id]) { CommitRefines(s, id); } else { CheckRefines(s, id); }
      }
    case Fault(id) =>
      if Active(s, id) {
        FinishRefines(s, id, s.table, StoreError);
      }
  }

  lemma {:induction false} RunRefines(acts: seq<Action>)
    requires forall v :: AlwaysAtMost(acts, v, 1)
    ensures Refines(Run(acts))
  {
    if acts != [] {
      var before := acts[..|acts| - 1];
      forall v ensures AlwaysAtMost(before, v, 1) && |InFlight(Run(before), v)| <= 1 {
        assert AlwaysAtMost(acts, v, 1);
      }
      RunRefines(before);
      AtMostOneIsApart(Run(before));
      StepRefines(Run(before), acts[|acts| - 1]);
    }
  }

  /**
   * One order of atomic ballot operations explains the state: executing the log gives the table's ballot, every entry
   * reports what the ballot reports, and every finished call has its own entry, with its own result, placed between
   * its beginning and its end.
   */
  ghost predicate Explained(s: System) {
    && Legal(s.log) && Final(s.log) == Abs(s.table)
    && forall id :: id in s.calls && s.calls[id].phase.Done? ==>
         var c := s.calls[id];
         && c.begunAt <= c.landedAt < |s.log|
         && s.log[c.landedAt] == Landed(id, c.visitor, c.request, c.phase.outcome)
  }

  /**
   * Refinement: unless two votes of one visitor are between limit check and commit at one time, every interleaving is
   * explained by atomic ballot operations, whatever else overlaps.
   */
  lemma PollRefinesBallot(acts: seq<Action>)
    requires forall v :: AlwaysAtMost(acts, v, 1)
    ensures Explained(Run(acts))
  {
    RunRefines(acts);
    var s := Run(acts);
    forall id | id in s.calls && s.calls[id].phase.Done?
      ensures s.calls[id].begunAt <= s.calls[id].landedAt < |s.log|
      ensures var c := s.calls[id];
              s.log[c.landedAt] == Landed(id, c.visitor, c.request, c.phase.outcome)
    {
      assert CallFits(s, id);
    }
  }

  /** In particular when calls of one visitor never overlap. */
  lemma ExclusiveCallsRefineBallot(acts: seq<Action>)
    requires AlwaysExclusive(acts)
    ensures Explained(Run(acts))
  {
    forall v ensures AlwaysAtMost(acts, v, 1) {
      ExclusiveIsAtMostOne(acts, v);
    }
    PollRefinesBallot(acts);
  }

  lemma StepExtends(s: System, a: Action)
    ensures var s' := Step(s, a);
            && s.log <= s'.log && s.calls.Keys <= s'.calls.Keys
            && (forall id :: id in s.calls && s.calls[id].phase.Done? ==> s'.calls[id] == s.calls[id])
            && (forall id :: id in s.calls ==> s'.calls[id].begunAt == s.calls[id].begunAt)
            && (forall id :: id in s'.calls && id !in s.calls ==> |s.log| <= s'.calls[id].begunAt)
  {
    hide Commit;
  }

  lemma RunAppend(acts: seq<Action>, more: seq<Action>)
    requires more != []
    ensures Run(acts + more) == Step(Run(acts + more[..|more| - 1]), more[|more| - 1])
  {
    assert (acts + more)[..|acts + more| - 1] == acts + more[..|more| - 1];
  }

  /** The log only grows, finished calls stay as they are, and later calls begin at the end of the log. */
  lemma {:induction false} RunExtends(acts: seq<Action>, more: seq<Action>)
    ensures var s, s' := Run(acts), Run(acts + more);
            && s.log <= s'.log && s.calls.Keys <= s'.calls.Keys
            && (forall id :: id in s.calls && s.calls[id].phase.Done? ==> s'.calls[id] == s.calls[id])
            && (forall id :: id in s'.calls && id !in s.calls ==> |s.log| <= s'.calls[id].begunAt)
    decreases |more|
  {
    if more == [] {
      assert acts + more == acts;
    } else {
      var n := |more| - 1;
      RunExtends(acts, more[..n]);
      RunAppend(acts, more);
      hide Step, Run;
      StepExtends(Run(acts + more[..n]), more[n]);
    }
  }

  predicate LandsBefore(s: System, first: nat, second: nat) {
    first in s.calls && second in s.calls && s.calls[first].landedAt < s.calls[second].landedAt
  }

  /** The order respects real time: a call that finished before another began also comes first in the log. */
  lemma LogRespectsRealTime(acts: seq<Action>, more: seq<Action>, first: nat, second: nat)
    requires first in Run(acts).calls && Run(acts).calls[first].phase.Done?
    requires second !in Run(acts).calls
    requires second in Run(acts + more).calls && Run(acts + more).calls[second].phase.Done?
    ensures LandsBefore(Run(acts + more), first, second)
  {
    RunExtends(acts, more);
    RunKeepsInv(acts);
    RunKeepsInv(acts + more);
    assert CallFits(Run(acts), first);
    assert CallFits(Run(acts + more), second);
  }

  /** A poll once opened keeps its options and limit for ever, whoever opens it again. */
  lemma {:induction false} OpenedPollIsFixed(acts: seq<Action>, more: seq<Action>)
    requires Opened(Run(acts).table)
    ensures var t, t' := Run(acts).table, Run(acts + more).table;
            Opened(t') && t'[META].options == t[META].options && t'[META].maxChoices == t[META].maxChoices
    decreases |more|
  {
    if more == [] {
      assert acts + more == acts;
    } else {
      var n := |more| - 1;
      OpenedPollIsFixed(acts, more[..n]);
      RunAppend(acts, more);
      StepFixesPoll(Run(acts + more[..n]), acts + more[..n], more[n]);
    }
  }

  lemma StepFixesPoll(s: System, before: seq<Action>, a: Action)
    requires s == Run(before) && Opened(s.table)
    ensures var t, t' := s.table, Step(s, a).table;
            Opened(t') && t'[META].options == t[META].options && t'[META].maxChoices == t[META].maxChoices
  {
    RunKeepsInv(before);
    if a.Advance? && a.call in s.calls && AtCommit(s.calls[a.call]) {
      var c := s.calls[a.call];
      assert CallFits(s, a.call);
      CommitStep(s, a.call);
      CommitChanges(s.table, c.visitor, c.request);
    }
  }
}
