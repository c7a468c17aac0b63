/** Any number of poll requests served concurrently: every read and every transaction is one atomic step. */
module PollRuns {
  import opened PollKeys
  import opened PollTable
  import opened PollBallot

  /** How far a call has come; a vote has passed its limit check in `Passed`. */
  datatype Phase = Started | MetaRead(maxChoices: int) | Passed | Done(outcome: Outcome)

  /** `begunAt` and `landedAt` are positions in the log: its length when the call began, and its own entry. */
  datatype Call = Call(visitor: string, request: Request, phase: Phase, begunAt: nat, landedAt: nat)

  datatype Entry =
    | PollOpened(options: seq<string>, maxChoices: int)
    | Landed(call: nat, visitor: string, request: Request, outcome: Outcome)

  datatype System = System(table: Table, calls: map<nat, Call>, log: seq<Entry>)

  datatype Action =
    | OpenPoll(newOptions: seq<string>, newMax: int)        // the presenter's conditional put of META
    | Begin(newCall: nat, newVisitor: string, newRequest: Request)
    | Advance(call: nat)                                    // the next table access of a call
    | Fault(call: nat)                                      // that access fails without writing, e.g. on contention

  const INIT := System(map[], map[], [])

  function Finish(s: System, id: nat, t: Table, o: Outcome): System
    requires id in s.calls
  {
    var c := s.calls[id];
    System(t, s.calls[id := c.(phase := Done(o), landedAt := |s.log|)],
           s.log + [Landed(id, c.visitor, c.request, o)])
  }

  function Move(s: System, id: nat, p: Phase): System
    requires id in s.calls
  {
    s.(calls := s.calls[id := s.calls[id].(phase := p)])
  }

  predicate NamesOptions(q: Request, options: seq<string>) {
    match q
    case Vote(c) => c in options
    case Unvote(_) => true
    case Switch(from, to) => from in options && to in options
  }

  function AdvanceCall(s: System, id: nat): System
    requires id in s.calls
  {
    var c := s.calls[id];
    match c.phase
    case Started =>
      if c.request.Unvote? then
        var (t, o) := Commit(s.table, c.visitor, c.request); Finish(s, id, t, o)
      else if !Opened(s.table) then Finish(s, id, s.table, PollNotFound)
      else if !NamesOptions(c.request, s.table[META].options) then Finish(s, id, s.table, InvalidChoice)
      else Move(s, id, MetaRead(s.table[META].maxChoices))
    case MetaRead(m) =>
      if c.request.Vote? then
        if |OwnKeys(s.table, c.visitor)| >= m then Finish(s, id, s.table, MaxChoicesExceeded)
        else Move(s, id, Passed)
      else
        var (t, o) := Commit(s.table, c.visitor, c.request); Finish(s, id, t, o)
    case Passed =>
      var (t, o) := Commit(s.table, c.visitor, c.request); Finish(s, id, t, o)
    case Done(_) => s
  }

  function ZeroVotes(options: seq<string>): map<string, int> {
    map o | o in options :: 0
  }

  /** One step; an action that is not possible in the state changes nothing. */
  function Step(s: System, a: Action): System {
    match a
    case OpenPoll(os, m) =>
      if META in s.table then s
      else System(s.table[META := Meta(os, m, ZeroVotes(os))], s.calls, s.log + [PollOpened(os, m)])
    case Begin(id, v, q) =>
      if id in s.calls || !IsVisitor(v) then s
      else s.(calls := s.calls[id := Call(v, q, Started, |s.log|, 0)])
    case Advance(id) => if id in s.calls then AdvanceCall(s, id) else s
    case Fault(id) =>
      if id in s.calls && !s.calls[id].phase.Done? then Finish(s, id, s.table, StoreError) else s
  }

  function Run(acts: seq<Action>): System {
    if acts == [] then INIT else Step(Run(acts[..|acts| - 1]), acts[|acts| - 1])
  }

  // ---- what every interleaving keeps, overlapping calls of one visitor included ----

  predicate CallFits(s: System, id: nat)
    requires id in s.calls
  {
    var c := s.calls[id];
    && IsVisitor(c.visitor)
    && c.begunAt <= |s.log|
    && match c.phase
       case Started => true
       case MetaRead(m) => !c.request.Unvote? && Checked(s.table, c.request) && m == s.table[META].maxChoices
       case Passed => c.request.Vote? && Checked(s.table, c.request)
       case Done(o) => c.begunAt <= c.landedAt < |s.log| && s.log[c.landedAt] == Landed(id, c.visitor, c.request, o)
  }

  ghost predicate Inv(s: System) {
    Sound(s.table) && forall id :: id in s.calls ==> CallFits(s, id)
  }

  /** Whether the next step of a call is its transaction. */
  predicate AtCommit(c: Call) {
    c.phase.Passed? || (c.phase.MetaRead? && c.request.Switch?) || (c.phase.Started? && c.request.Unvote?)
  }

  lemma CommitStep(s: System, id: nat)
    requires id in s.calls && AtCommit(s.calls[id])
    ensures var c := s.calls[id];
            var (t, o) := Commit(s.table, c.visitor, c.request);
            Step(s, Advance(id)) == Finish(s, id, t, o)
  {
  }

  /** Ending a call keeps the invariant when the new table is sound and still has its poll record. */
  lemma FinishKeepsInv(s: System, id: nat, t: Table, o: Outcome)
    requires Inv(s) && id in s.calls && Sound(t)
    requires Opened(s.table) ==> Opened(t) && t[META].options == s.table[META].options
                                 && t[META].maxChoices == s.table[META].maxChoices
    ensures Inv(Finish(s, id, t, o))
  {
    hide Sound;
    var s' := Finish(s, id, t, o);
    forall i | i in s'.calls ensures CallFits(s', i) {
      assert CallFits(s, i);
    }
  }

  lemma OpenIsSound(t: Table, os: seq<string>, m: int)
    requires Sound(t) && META !in t
    ensures Sound(t[META := Meta(os, m, ZeroVotes(os))]) && VoteKeys(t) == {}
    ensures VoteKeys(t[META := Meta(os, m, ZeroVotes(os))]) == {}
  {
    var t' := t[META := Meta(os, m, ZeroVotes(os))];
    assert VoteKeys(t') == VoteKeys(t);
    assert forall c :: KeysFor(t', c) == {};
  }

  lemma StepKeepsInv(s: System, a: Action)
    requires Inv(s)
    ensures Inv(Step(s, a))
  {
    hide Commit, Sound;
    match a
    case OpenPoll(os, m) =>
      if META !in s.table {
        OpenIsSound(s.table, os, m);
        forall id | id in s.calls ensures CallFits(Step(s, a), id) {
          assert CallFits(s, id);
        }
      }
    case Begin(id, v, q) =>
      forall i | i in Step(s, a).calls ensures CallFits(Step(s, a), i) {
        assert i in s.calls ==> CallFits(s, i);
      }
    case Advance(id) =>
      if id in s.calls {
        var c := s.calls[id];
        assert CallFits(s, id);
        if AtCommit(c) {
          CommitStep(s, id);
          CommitChanges(s.table, c.visitor, c.request);
          FinishKeepsInv(s, id, Commit(s.table, c.visitor, c.request).0, Commit(s.table, c.visitor, c.request).1);
        } else if c.phase.Started? && !Opened(s.table) {
          FinishKeepsInv(s, id, s.table, PollNotFound);
        } else if c.phase.Started? && !NamesOptions(c.request, s.table[META].options) {
          FinishKeepsInv(s, id, s.table, InvalidChoice);
        } else if c.phase.MetaRead? && |OwnKeys(s.table, c.visitor)| >= c.phase.maxChoices {
          FinishKeepsInv(s, id, s.table, MaxChoicesExceeded);
        } else {
          MoveKeepsInv(s, id);
        }
      }
    case Fault(id) =>
      if id in s.calls && !s.calls[id].phase.Done? {
        FinishKeepsInv(s, id, s.table, StoreError);
      }
  }

  lemma MoveKeepsInv(s: System, id: nat)
    requires Inv(s) && id in s.calls && !AtCommit(s.calls[id])
    requires var c := s.calls[id];
             && (c.phase.Started? ==> Opened(s.table) && NamesOptions(c.request, s.table[META].options))
             && (c.phase.MetaRead? ==> |OwnKeys(s.table, c.visitor)| < c.phase.maxChoices)
    ensures Inv(Step(s, Advance(id)))
  {
    hide Commit, Sound;
    var s' := Step(s, Advance(id));
    forall i | i in s'.calls ensures CallFits(s', i) {
      assert CallFits(s, i);
      assert CallFits(s, id);
    }
  }

  lemma {:induction false} RunKeepsInv(acts: seq<Action>)
    ensures Inv(Run(acts))
  {
    if acts != [] {
      RunKeepsInv(acts[..|acts| - 1]);
      StepKeepsInv(Run(acts[..|acts| - 1]), acts[|acts| - 1]);
    }
  }

  /**
   * The stored counters are the vote records counted option by option: never negative, kept for exactly the options,
   * and adding up to the number of records.
   */
  ghost predicate CountersCount(t: Table) {
    Opened(t) ==>
      && t[META].votes.Keys == (set o | o in t[META].options)
      && (forall o :: o in t[META].options ==> 0 <= t[META].votes[o] == |KeysFor(t, o)|)
      && SumOver(t[META].votes, t[META].votes.Keys) == |VoteKeys(t)|
  }

  /** In every reachable state, overlapping calls of one visitor included, the counters count the records. */
  lemma CountersMatchRecords(acts: seq<Action>)
    ensures CountersCount(Run(acts).table)
  {
    RunKeepsInv(acts);
    var t := Run(acts).table;
    if Opened(t) {
      CountersAddUp(t);
    }
  }
}
