/** Any number of concurrent Create, Delete and CloseAll calls on one session manager, one locked section per step. */
module SessionRuns {
  /** A call between its steps: a shell started but not yet registered, or shells taken out of the registry to close. */
  datatype Call = Creating(id: string, shell: nat) | Closing(shells: set<nat>)

  /** Shells are numbered in the order they are started; `closes` counts how often each has been closed. */
  datatype System = System(sessions: map<string, nat>, calls: map<nat, Call>, closes: seq<nat>)

  datatype Action =
    | NewShell(call: nat, id: string)    // Create: the ID is drawn and the shell is running
    | Register(call: nat)                // Create: the locked section
    | Remove(call: nat, id: string)      // Delete: the locked section
    | Swap(call: nat)                    // CloseAll: the locked section
    | Close(call: nat, shell: nat)       // closing one of the shells in the call's hands

  const INIT := System(map[], map[], [])

  /** One step; an action that is not possible in the state changes nothing. */
  function Step(s: System, a: Action): System {
    match a
    case NewShell(c, id) =>
      if c in s.calls then s
      else s.(calls := s.calls[c := Creating(id, |s.closes|)], closes := s.closes + [0])
    case Register(c) =>
      if c !in s.calls || !s.calls[c].Creating? then s
      else
        var id, n := s.calls[c].id, s.calls[c].shell;
        if id in s.sessions then s.(calls := s.calls[c := Closing({n})])
        else s.(sessions := s.sessions[id := n], calls := s.calls - {c})
    case Remove(c, id) =>
      if c in s.calls || id !in s.sessions then s
      else s.(sessions := s.sessions - {id}, calls := s.calls[c := Closing({s.sessions[id]})])
    case Swap(c) =>
      if c in s.calls then s
      else s.(sessions := map[], calls := s.calls[c := Closing(s.sessions.Values)])
    case Close(c, n) =>
      if InHands(s, c, n) && s.calls[c].Closing? && n < |s.closes| then
        s.(calls := s.calls[c := Closing(s.calls[c].shells - {n})], closes := s.closes[n := s.closes[n] + 1])
      else s
  }

  function Run(acts: seq<Action>): System {
    if acts == [] then INIT else Step(Run(acts[..|acts| - 1]), acts[|acts| - 1])
  }

  predicate Registered(s: System, id: string, n: nat) {
    id in s.sessions && s.sessions[id] == n
  }

  predicate Holds(call: Call, n: nat) {
    match call
    case Creating(_, shell) => n == shell
    case Closing(shells) => n in shells
  }

  predicate InHands(s: System, c: nat, n: nat) {
    c in s.calls && Holds(s.calls[c], n)
  }

  /** Nobody can reach the shell any more. */
  ghost predicate Gone(s: System, n: nat) {
    (forall id :: !Registered(s, id, n)) && forall c :: !InHands(s, c, n)
  }

  /** A shell has one place at most: one ID, or one call's hands. */
  ghost predicate OnePlace(s: System, n: nat) {
    && (forall a, b :: Registered(s, a, n) && Registered(s, b, n) ==> a == b)
    && (forall a, b :: InHands(s, a, n) && InHands(s, b, n) ==> a == b)
    && (forall id, c :: Registered(s, id, n) ==> !InHands(s, c, n))
  }

  ghost predicate Fits(s: System, n: nat) {
    && OnePlace(s, n)
    && (n >= |s.closes| ==> Gone(s, n))
    && (n < |s.closes| ==> s.closes[n] == if Gone(s, n) then 1 else 0)
  }

  ghost predicate Inv(s: System) {
    forall n: nat :: Fits(s, n)
  }

  lemma StepKeepsFits(s: System, a: Action, n: nat)
    requires Inv(s)
    ensures Fits(Step(s, a), n)
  {
    assert Fits(s, n);
    match a
    case NewShell(c, id) =>
      var m := |s.closes|;
      assert Fits(s, m);
      var s' := Step(s, a);
      if c !in s.calls {
        assert n == m ==> InHands(s', c, n);
        assert forall k :: k != c ==> (InHands(s', k, n) <==> InHands(s, k, n));
        assert forall k :: Registered(s', k, n) <==> Registered(s, k, n);
      }
    case Register(c) => RegisterKeepsFits(s, c, n);
    case Remove(c, id) => RemoveKeepsFits(s, c, id, n);
    case Swap(c) => SwapKeepsFits(s, c, n);
    case Close(c, m) => CloseKeepsFits(s, c, m, n);
  }

  /** A shell whose places did not change fits as before. */
  lemma SamePlaces(s: System, s': System, n: nat)
    requires Fits(s, n)
    requires |s'.closes| == |s.closes| && (n < |s.closes| ==> s'.closes[n] == s.closes[n])
    requires forall id :: Registered(s', id, n) <==> Registered(s, id, n)
    requires forall c :: InHands(s', c, n) <==> InHands(s, c, n)
    ensures Fits(s', n)
  {
    assert Gone(s', n) <==> Gone(s, n);
  }

  lemma RegisterKeepsFits(s: System, c: nat, n: nat)
    requires Inv(s)
    ensures Fits(Step(s, Register(c)), n)
  {
    var s' := Step(s, Register(c));
    assert Fits(s, n);
    if c in s.calls && s.calls[c].Creating? {
      var id, m := s.calls[c].id, s.calls[c].shell;
      assert InHands(s, c, m) && Fits(s, m);
      if id in s.sessions || n != m {
        SamePlaces(s, s', n);
      } else {
        assert Registered(s', id, n);
        assert forall k :: Registered(s', k, n) ==> k == id || Registered(s, k, n);
        assert forall k :: InHands(s', k, n) ==> k != c && InHands(s, k, n);
      }
    }
  }

  lemma RemoveKeepsFits(s: System, c: nat, id: string, n: nat)
    requires Inv(s)
    ensures Fits(Step(s, Remove(c, id)), n)
  {
    var s' := Step(s, Remove(c, id));
    assert Fits(s, n);
    if c !in s.calls && id in s.sessions {
      if n == s.sessions[id] {
        assert Registered(s, id, n) && InHands(s', c, n);
        assert forall k :: Registered(s', k, n) ==> k != id && Registered(s, k, n);
        assert forall k :: InHands(s', k, n) ==> k == c || InHands(s, k, n);
      } else {
        SamePlaces(s, s', n);
      }
    }
  }

  lemma SwapKeepsFits(s: System, c: nat, n: nat)
    requires Inv(s)
    ensures Fits(Step(s, Swap(c)), n)
  {
    var s' := Step(s, Swap(c));
    assert Fits(s, n);
    if c !in s.calls {
      assert forall k :: !Registered(s', k, n);
      if n in s.sessions.Values {
        var id :| id in s.sessions && s.sessions[id] == n;
        assert Registered(s, id, n) && InHands(s', c, n);
        assert forall k :: InHands(s', k, n) ==> k == c || InHands(s, k, n);
      } else {
        assert forall k :: !Registered(s, k, n);
        SamePlaces(s, s', n);
      }
    }
  }

  lemma CloseKeepsFits(s: System, c: nat, m: nat, n: nat)
    requires Inv(s)
    ensures Fits(Step(s, Close(c, m)), n)
  {
    var s' := Step(s, Close(c, m));
    assert Fits(s, n);
    if InHands(s, c, m) && s.calls[c].Closing? && m < |s.closes| {
      if n == m {
        assert forall k :: InHands(s', k, n) ==> k != c && InHands(s, k, n);
        assert forall k :: Registered(s', k, n) <==> Registered(s, k, n);
        assert Gone(s', n) by {
          forall k ensures !InHands(s', k, n) { assert InHands(s, k, n) ==> k == c; }
        }
      } else {
        SamePlaces(s, s', n);
      }
    }
  }

  lemma {:induction false} RunKeepsInv(acts: seq<Action>)
    ensures Inv(Run(acts))
  {
    if acts != [] {
      var before := acts[..|acts| - 1];
      RunKeepsInv(before);
      forall n: nat ensures Fits(Run(acts), n) {
        StepKeepsFits(Run(before), acts[|acts| - 1], n);
      }
    }
  }

  /**
   * After any interleaving every started shell is registered under one ID, or in the hands of one call, or has been
   * closed, and then exactly once.
   */
  lemma EachShellIsInOnePlace(acts: seq<Action>, n: nat)
    requires n < |Run(acts).closes|
    ensures var s := Run(acts);
            OnePlace(s, n) && s.closes[n] <= 1 && (s.closes[n] == 1 <==> Gone(s, n))
  {
    RunKeepsInv(acts);
    assert Fits(Run(acts), n);
  }

  lemma {:induction false} RunExtends(acts: seq<Action>, more: seq<Action>, n: nat)
    requires n < |Run(acts).closes|
    ensures var s, s' := Run(acts), Run(acts + more);
            n < |s'.closes| && s.closes[n] <= s'.closes[n]
    decreases more
  {
    if more == [] {
      assert acts + more == acts;
    } else {
      var front := more[..|more| - 1];
      assert (acts + more)[..|acts + more| - 1] == acts + front;
      RunExtends(acts, front, n);
    }
  }

  /** A shell that has been closed is never registered again, so no later Get returns it. */
  lemma ClosedShellsStayGone(acts: seq<Action>, more: seq<Action>, n: nat, id: string)
    requires n < |Run(acts).closes| && Run(acts).closes[n] == 1
    ensures var s := Run(acts + more);
            !Registered(s, id, n) && n < |s.closes| && s.closes[n] == 1
  {
    RunExtends(acts, more, n);
    EachShellIsInOnePlace(acts + more, n);
  }

  // ---- what each call achieves ----

  predicate Unregisters(a: Action, id: string) {
    a.Swap? || (a.Remove? && a.id == id)
  }

  predicate Concerns(a: Action, c: nat) {
    a.call == c
  }

  /** A session stays registered, to the same shell, until it is deleted or all are closed. */
  lemma {:induction false} RegistrationStays(acts: seq<Action>, more: seq<Action>, id: string, n: nat)
    requires Registered(Run(acts), id, n) && forall a :: a in more ==> !Unregisters(a, id)
    ensures Registered(Run(acts + more), id, n)
    decreases more
  {
    if more == [] {
      assert acts + more == acts;
    } else {
      var front, a := more[..|more| - 1], more[|more| - 1];
      assert forall b :: b in front ==> b in more;
      RegistrationStays(acts, front, id, n);
      OneStep(acts + front, a);
      assert acts + front + [a] == acts + more;
      assert !Unregisters(a, id);
    }
  }

  /** What a call has in hand stays there until it acts again. */
  lemma {:induction false} CallWaits(acts: seq<Action>, more: seq<Action>, c: nat)
    requires c in Run(acts).calls && forall a :: a in more ==> !Concerns(a, c)
    ensures c in Run(acts + more).calls && Run(acts + more).calls[c] == Run(acts).calls[c]
    decreases more
  {
    if more == [] {
      assert acts + more == acts;
    } else {
      var front, a := more[..|more| - 1], more[|more| - 1];
      assert forall b :: b in front ==> b in more;
      CallWaits(acts, front, c);
      OneStep(acts + front, a);
      assert acts + front + [a] == acts + more;
      assert !Concerns(a, c);
      hide Run;
      StepOfOther(Run(acts + front), a, c);
    }
  }

  lemma StepOfOther(s: System, a: Action, c: nat)
    requires c in s.calls && !Concerns(a, c)
    ensures c in Step(s, a).calls && Step(s, a).calls[c] == s.calls[c]
  {
  }

  /**
   * A creation, whatever happens between its steps: it starts a new shell, which it registers under its ID unless the
   * ID is taken by then. In that case the other session keeps its shell and the creation has its own to close.
   */
  lemma CreationRegisters(acts: seq<Action>, between: seq<Action>, c: nat, id: string)
    requires c !in Run(acts).calls && forall a :: a in between ==> !Concerns(a, c)
    ensures var n := |Run(acts).closes|;
            var before := Run(acts + [NewShell(c, id)] + between);
            var after := Run(acts + [NewShell(c, id)] + between + [Register(c)]);
            if id in before.sessions then after.sessions == before.sessions && InHands(after, c, n)
            else after.sessions == before.sessions[id := n] && c !in after.calls
  {
    var started := acts + [NewShell(c, id)];
    OneStep(acts, NewShell(c, id));
    CallWaits(started, between, c);
    OneStep(started + between, Register(c));
  }

  /** A deletion takes out its session and no other, and has the shell to close. */
  lemma DeletionTakesOne(acts: seq<Action>, c: nat, id: string, n: nat)
    requires Registered(Run(acts), id, n) && c !in Run(acts).calls
    ensures var s, s' := Run(acts), Run(acts + [Remove(c, id)]);
            && InHands(s', c, n) && (forall m :: !Registered(s', id, m))
            && forall k, m :: k != id ==> (Registered(s', k, m) <==> Registered(s, k, m))
  {
    OneStep(acts, Remove(c, id));
  }

  /** Deleting an ID that is not registered changes nothing. */
  lemma DeletionOfNone(acts: seq<Action>, c: nat, id: string)
    requires forall n :: !Registered(Run(acts), id, n)
    ensures Run(acts + [Remove(c, id)]) == Run(acts)
  {
    OneStep(acts, Remove(c, id));
    assert id in Run(acts).sessions ==> Registered(Run(acts), id, Run(acts).sessions[id]);
  }

  /** Closing all empties the registry, with exactly the shells that were registered to close. */
  lemma CloseAllTakesAll(acts: seq<Action>, c: nat)
    requires c !in Run(acts).calls
    ensures var s, s' := Run(acts), Run(acts + [Swap(c)]);
            && (forall id, n :: !Registered(s', id, n))
            && forall n :: InHands(s', c, n) <==> exists id :: Registered(s, id, n)
  {
    OneStep(acts, Swap(c));
    var s, s' := Run(acts), Run(acts + [Swap(c)]);
    forall n ensures InHands(s', c, n) <==> exists id :: Registered(s, id, n) {
      if n in s.sessions.Values {
        var id :| id in s.sessions && s.sessions[id] == n;
        assert Registered(s, id, n);
      }
    }
  }

  /** Whenever a closing call gets to close a shell it has, the shell is closed, for the first time, and no other is. */
  lemma ClosingCloses(acts: seq<Action>, c: nat, n: nat)
    requires InHands(Run(acts), c, n) && Run(acts).calls[c].Closing?
    ensures var s, s' := Run(acts), Run(acts + [Close(c, n)]);
            && |s'.closes| == |s.closes| && n < |s.closes| && s.closes[n] == 0 && s'.closes[n] == 1
            && (forall m :: 0 <= m < |s.closes| && m != n ==> s'.closes[m] == s.closes[m])
            && s'.sessions == s.sessions && !InHands(s', c, n)
  {
    RunKeepsInv(acts);
    assert Fits(Run(acts), n);
    OneStep(acts, Close(c, n));
  }

  // ---- no shell is lost ----

  function Open(s: System): set<nat> {
    set n | 0 <= n < |s.closes| && s.closes[n] == 0
  }

  /** Whatever place an open shell has, its holder can bring it to be closed. */
  lemma OpenShellCanBeClosed(acts: seq<Action>, n: nat) returns (more: seq<Action>)
    requires n in Open(Run(acts))
    ensures Open(Run(acts + more)) == Open(Run(acts)) - {n}
  {
    var s := Run(acts);
    assert !Gone(s, n) by {
      RunKeepsInv(acts);
      assert Fits(s, n);
    }
    hide Run, Step, Open, Fits, Inv;
    if c :| InHands(s, c, n) {
      if s.calls[c].Closing? {
        more := CloseHeld(acts, n, c);
      } else {
        more := CloseUnregistered(acts, n, c);
      }
    } else {
      var id :| Registered(s, id, n);
      more := CloseRegistered(acts, n, id);
    }
  }

  lemma CloseHeld(acts: seq<Action>, n: nat, c: nat) returns (more: seq<Action>)
    requires n in Open(Run(acts)) && InHands(Run(acts), c, n) && Run(acts).calls[c].Closing?
    ensures Open(Run(acts + more)) == Open(Run(acts)) - {n}
  {
    more := [Close(c, n)];
    OneStep(acts, Close(c, n));
  }

  lemma CloseUnregistered(acts: seq<Action>, n: nat, c: nat) returns (more: seq<Action>)
    requires n in Open(Run(acts)) && InHands(Run(acts), c, n) && Run(acts).calls[c].Creating?
    ensures Open(Run(acts + more)) == Open(Run(acts)) - {n}
  {
    var s, acts1 := Run(acts), acts + [Register(c)];
    OneStep(acts, Register(c));
    var rest;
    if s.calls[c].id in s.sessions {
      rest := CloseHeld(acts1, n, c);
    } else {
      rest := CloseRegistered(acts1, n, s.calls[c].id);
    }
    more := [Register(c)] + rest;
    assert acts1 + rest == acts + more;
  }

  lemma OneStep(acts: seq<Action>, a: Action)
    ensures Run(acts + [a]) == Step(Run(acts), a)
  {
    assert (acts + [a])[..|acts + [a]| - 1] == acts;
  }

  lemma CloseRegistered(acts: seq<Action>, n: nat, id: string) returns (more: seq<Action>)
    requires n in Open(Run(acts)) && Registered(Run(acts), id, n)
    ensures Open(Run(acts + more)) == Open(Run(acts)) - {n}
  {
    var c := Unused(Run(acts).calls.Keys);
    more := [Remove(c, id), Close(c, n)];
    OneStep(acts, Remove(c, id));
    OneStep(acts + [Remove(c, id)], Close(c, n));
    assert acts + [Remove(c, id)] + [Close(c, n)] == acts + more;
    assert InHands(Run(acts + [Remove(c, id)]), c, n);
  }

  lemma {:induction false} Unused(used: set<nat>) returns (c: nat)
    ensures c !in used && forall u :: u in used ==> u < c
  {
    if used == {} {
      c := 0;
    } else {
      var u :| u in used;
      var d := Unused(used - {u});
      c := if d > u then d else u + 1;
      forall v | v in used ensures v < c {
        assert v == u || v in used - {u};
      }
    }
  }

  predicate AllClosedOnce(s: System) {
    forall n :: 0 <= n < |s.closes| ==> s.closes[n] == 1
  }

  /** No shell is lost: from every reachable state all shells can still be closed, each for the first time. */
  lemma {:induction false} AllCanBeClosed(acts: seq<Action>) returns (more: seq<Action>)
    ensures AllClosedOnce(Run(acts + more))
    decreases Open(Run(acts))
  {
    if n :| n in Open(Run(acts)) {
      var first := OpenShellCanBeClosed(acts, n);
      var rest := AllCanBeClosed(acts + first);
      more := first + rest;
      assert acts + first + rest == acts + more;
    } else {
      more := [];
      assert acts + more == acts;
      RunKeepsInv(acts);
      forall n: nat | n < |Run(acts).closes| ensures Run(acts).closes[n] == 1 {
        assert Fits(Run(acts), n) && n !in Open(Run(acts));
      }
    }
  }
}
