/** The runner's registry of shells, one per session ID. */
module Sessions {
  import opened Prelude

  datatype Error = GenError | StartError | DuplicateID | SessionNotFound | CloseError(reason: string)

  /** A shell as its owner sees it: closing it may report an error, and should happen at most once. */
  class Shell {
    const onClose: Option<Error>
    var closes: nat

    constructor (onClose: Option<Error>)
      ensures closes == 0 && this.onClose == onClose
    {
      this.onClose := onClose;
      closes := 0;
    }

    method Close() returns (err: Option<Error>)
      modifies this
      ensures closes == old(closes) + 1 && err == onClose
    {
      closes := closes + 1;
      err := onClose;
    }
  }

  /** The error kept when outcomes come in one by one and only the first error is remembered. */
  function FirstError(errs: seq<Option<Error>>): Option<Error> {
    if errs == [] then None
    else
      var earlier := FirstError(errs[..|errs| - 1]);
      if earlier.Some? then earlier else errs[|errs| - 1]
  }

  lemma {:induction false} FirstErrorIsFirst(errs: seq<Option<Error>>, i: nat)
    requires i <= |errs| && (forall j :: 0 <= j < i ==> errs[j].None?) && (i < |errs| ==> errs[i].Some?)
    ensures FirstError(errs) == if i < |errs| then errs[i] else None
  {
    if errs != [] {
      var n := |errs| - 1;
      FirstErrorIsFirst(errs[..n], if i < n then i else n);
    }
  }

  class SessionManager {
    var sessions: map<string, Shell>
    /** Every shell this manager has started. */
    ghost var started: set<Shell>

    /** Each started shell is open and registered under exactly one ID, or has been closed exactly once. */
    ghost predicate Valid()
      reads this, started
    {
      && (forall id :: id in sessions ==> sessions[id] in started)
      && (forall a, b :: a in sessions && b in sessions && sessions[a] == sessions[b] ==> a == b)
      && (forall s :: s in started ==> s.closes == if s in sessions.Values then 0 else 1)
    }

    constructor ()
      ensures Valid() && sessions == map[] && started == {}
    {
      sessions, started := map[], {};
    }

    /** `genID` and `newShell` are what generator and factory answer; the inner option is the shell's close error. */
    method Create(genID: Option<string>, newShell: Option<Option<Error>>)
      returns (id: string, shell: Shell?, err: Option<Error>, ghost made: set<Shell>)
      requires Valid()
      modifies this
      ensures Valid()
      ensures err == if genID.None? then Some(GenError) else if newShell.None? then Some(StartError)
                     else if genID.value in old(sessions) then Some(DuplicateID) else None
      ensures err.None? ==> && shell != null && made == {shell} && id == genID.value
                            && sessions == old(sessions)[id := shell] && shell.onClose == newShell.value
      ensures err.Some? ==> shell == null && sessions == old(sessions)
      ensures started == old(started) + made && fresh(made) && (made == {} <==> genID.None? || newShell.None?)
    {
      id, shell, made := "", null, {};
      if genID.None? {
        return id, shell, Some(GenError), made;
      }
      if newShell.None? {
        return id, shell, Some(StartError), made;
      }
      var newcomer := new Shell(newShell.value);
      made := {newcomer};
      started := started + made;
      if genID.value in sessions {
        var ignored := newcomer.Close();
        return id, shell, Some(DuplicateID), made;
      }
      AddedValues(sessions, genID.value, newcomer);
      sessions := sessions[genID.value := newcomer];
      return genID.value, newcomer, None, made;
    }

    method Get(id: string) returns (shell: Shell?, err: Option<Error>)
      requires Valid()
      ensures if id in sessions then shell == sessions[id] && shell.closes == 0 && err.None?
              else shell == null && err == Some(SessionNotFound)
    {
      if id !in sessions {
        return null, Some(SessionNotFound);
      }
      assert sessions[id] in sessions.Values;
      return sessions[id], None;
    }

    method Delete(id: string) returns (err: Option<Error>)
      requires Valid()
      modifies this, started
      ensures Valid() && started == old(started)
      ensures if id in old(sessions) then
                var shell := old(sessions)[id];
                && sessions == old(sessions) - {id} && err == shell.onClose
                && shell.closes == 1 && forall s :: s in started && s != shell ==> s.closes == old(s.closes)
              else && sessions == old(sessions) && err == Some(SessionNotFound)
                   && forall s :: s in started ==> unchanged(s)
    {
      if id !in sessions {
        return Some(SessionNotFound);
      }
      var shell := sessions[id];
      assert shell in sessions.Values;
      sessions := sessions - {id};
      RemovedValues(old(sessions), id);
      err := shell.Close();
    }

    /** Closes what was registered, in some order; `order` lists the IDs as they are closed. */
    method CloseAll() returns (err: Option<Error>, ghost order: seq<string>)
      requires Valid()
      modifies this, started
      ensures Valid() && started == old(started) && sessions == map[]
      ensures forall s :: s in started ==> s.closes == 1
      ensures forall id :: id in order <==> id in old(sessions)
      ensures forall i, j :: 0 <= i < j < |order| ==> order[i] != order[j]
      ensures err == FirstError(Outcomes(old(sessions), order))
    {
      var all := sessions;
      sessions := map[];
      err, order := None, [];
      var pending := all.Keys;
      AllPending(all);
      NoOutcome(all);
      hide Outcomes, FirstError, StillPending;
      while pending != {}
        invariant sessions == map[] && started == old(started) && pending <= all.Keys
        invariant forall id :: id in all.Keys <==> id in pending || id in order
        invariant forall id :: id in order ==> id !in pending
        invariant forall i, j :: 0 <= i < j < |order| ==> order[i] != order[j]
        invariant forall s :: s in started ==> s.closes == if StillPending(all, pending, s) then 0 else 1
        invariant err == FirstError(Outcomes(all, order))
        decreases pending
      {
        var id :| id in pending;
        var shell := all[id];
        var e := shell.Close();
        if e.Some? && err.None? {
          err := e;
        }
        OutcomeStep(all, order, id);
        PendingStep(all, pending, id);
        order, pending := order + [id], pending - {id};
      }
    }
  }

  lemma NoOutcome(m: map<string, Shell>)
    ensures FirstError(Outcomes(m, [])) == None
  {
  }

  lemma OutcomeStep(m: map<string, Shell>, order: seq<string>, id: string)
    requires id in m
    ensures var before := FirstError(Outcomes(m, order));
            FirstError(Outcomes(m, order + [id])) == if before.Some? then before else m[id].onClose
  {
    assert Outcomes(m, order + [id])[..|order|] == Outcomes(m, order);
  }

  /** The shell's session has not been closed yet. */
  ghost predicate StillPending(all: map<string, Shell>, pending: set<string>, s: Shell) {
    exists id :: id in pending && id in all && all[id] == s
  }

  lemma AllPending(all: map<string, Shell>)
    ensures forall s :: StillPending(all, all.Keys, s) <==> s in all.Values
  {
  }

  lemma PendingStep(all: map<string, Shell>, pending: set<string>, id: string)
    requires id in pending && id in all
    requires forall a, b :: a in all && b in all && all[a] == all[b] ==> a == b
    ensures forall s :: StillPending(all, pending - {id}, s) <==> StillPending(all, pending, s) && s != all[id]
    ensures StillPending(all, pending, all[id])
  {
    forall s | StillPending(all, pending, s) && s != all[id] ensures StillPending(all, pending - {id}, s) {
      var k :| k in pending && k in all && all[k] == s;
      assert k in pending - {id};
    }
  }

  lemma AddedValues(m: map<string, Shell>, id: string, s: Shell)
    requires id !in m
    ensures m[id := s].Values == m.Values + {s}
  {
    assert m[id := s][id] == s;
    forall v | v in m.Values ensures v in m[id := s].Values {
      var k :| k in m && m[k] == v;
      assert m[id := s][k] == v;
    }
  }

  lemma RemovedValues(m: map<string, Shell>, id: string)
    requires id in m && forall a, b :: a in m && b in m && m[a] == m[b] ==> a == b
    ensures (m - {id}).Values == m.Values - {m[id]}
  {
    forall s | s in m.Values - {m[id]} ensures s in (m - {id}).Values {
      var k :| k in m && m[k] == s;
      assert k in m - {id};
    }
  }

  /** What closing the listed sessions reports. */
  ghost function Outcomes(m: map<string, Shell>, order: seq<string>): seq<Option<Error>>
  {
    seq(|order|, i requires 0 <= i < |order| => if order[i] in m then m[order[i]].onClose else None)
  }
}
