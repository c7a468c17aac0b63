/** Sticky sessions over whole sequential runs of one broker with an up-to-date index. */
module StickyRuns {
  import opened Prelude
  import opened PoolTable
  import opened Broker
  import opened BrokerService

  /**
   * One request and what it returned. Health may differ from one resolve to the next; a request may be cut short by
   * a store failure or cancellation.
   */
  datatype Event =
    | Resolve(sid: string, newSid: string, healthy: string -> bool, disturbed: Disturbance, result: ResolveResult)
    | Close(closed: string, storeFails: bool, closeResult: CloseResult)
    | Register(id: string, bucket: nat, url: string)
    | Deregister(gone: string)

  /** The table and every session ID that has been drawn or named so far. */
  datatype State = State(table: Table, named: set<string>)

  /** Drawn session IDs are never empty and never drawn or named before. */
  ghost predicate Step(s: State, e: Event, s': State, buckets: nat) {
    match e
    case Resolve(sid, n, h, d, r) =>
      && n != "" && n != sid && n !in s.named
      && s'.named == s.named + {sid, n}
      && Resolves(s.table, s'.table, h, d, buckets, sid, n, r)
    case Close(sid, f, r) => s'.named == s.named + {sid} && Closes(s.table, s'.table, f, sid, r)
    case Register(id, b, url) => s' == s.(table := Apply(s.table, Put(id, b, url)))
    case Deregister(id) => s' == s.(table := Apply(s.table, Remove(id)))
  }

  ghost predicate IsRun(states: seq<State>, events: seq<Event>, buckets: nat) {
    && |states| == |events| + 1
    && Inv(states[0])
    && forall i :: 0 <= i < |events| ==> Step(states[i], events[i], states[i + 1], buckets)
  }

  ghost predicate Inv(s: State) {
    && IdleXorBusy(s.table)
    && (forall a, b :: a in s.table && b in s.table && s.table[a].IsBusy() && s.table[a].session == s.table[b].session
          ==> a == b)
    && (forall a :: a in s.table && s.table[a].IsBusy() ==> s.table[a].session.value in s.named)
    && (forall a :: a in s.table ==> s.table[a].session != Some(""))
  }

  ghost predicate Holds(t: Table, sid: string, id: string, url: string) {
    id in t && t[id].session == Some(sid) && t[id].url == url
  }

  /** The events that end a session: closing it, deregistering its runner, or finding that runner unhealthy. */
  predicate Releases(e: Event, sid: string, id: string, url: string) {
    match e
    case Resolve(s, _, h, _, _) => s == sid && !h(url)
    case Close(s, _, r) => s == sid && r == Closed
    case Register(_, _, _) => false
    case Deregister(r) => r == id
  }

  // ---- one creation ----

  /** What a creation under a fresh ID leaves: the invariant, the busy runners, and nobody new under other IDs. */
  ghost predicate Harmless(t: Table, t': Table, n: string) {
    && (forall k :: k in t' ==>
          k in t && (t'[k] == t[k] || (t[k].IsIdle() && t'[k] == t[k].(session := Some(n), bucket := None))))
    && (forall k, l :: k in t' && l in t' && t'[k].session == Some(n) && t'[l].session == Some(n) ==> k == l)
    && (forall k :: k in t && !t[k].IsIdle() ==> k in t' && t'[k] == t[k])
  }

  lemma CreationIsHarmless(t: Table, t': Table, h: string -> bool, buckets: nat, patience: Option<nat>, n: string,
                           r: CreateResult)
    requires Creates(t, t', h, buckets, patience, n, r) && HoldersOf(t, n) == {}
    ensures Harmless(t, t', n)
  {
    CreatesShape(t, t', h, buckets, patience, n, r);
    hide Creates, Harmless, AssignedAfterPurge, HoldersOf;
    if PurgedSome(t, t', h, buckets) {
      PurgeIsHarmless(t, t', h, buckets, n);
    } else {
      var id :| AssignedAfterPurge(t, t', h, buckets, n, id);
      AssignmentIsHarmless(t, t', h, buckets, n, id);
    }
  }

  lemma Unheld(t: Table, n: string)
    requires HoldersOf(t, n) == {}
    ensures forall k :: k in t ==> t[k].session != Some(n)
  {
    forall k | k in t ensures t[k].session != Some(n) {
      assert k !in HoldersOf(t, n);
    }
  }

  lemma BusyStay(t: Table, t': Table, h: string -> bool, buckets: nat)
    requires t.Keys - t'.Keys <= Dead(t, h, buckets)
    ensures forall k :: k in t && !t[k].IsIdle() ==> k in t'
  {
    forall k | k in t && !t[k].IsIdle() ensures k in t' {
      assert k !in Dead(t, h, buckets);
      assert k !in t.Keys - t'.Keys;
    }
  }

  lemma PurgeIsHarmless(t: Table, t': Table, h: string -> bool, buckets: nat, n: string)
    requires PurgedSome(t, t', h, buckets) && HoldersOf(t, n) == {}
    ensures Harmless(t, t', n)
  {
    Unheld(t, n);
    BusyStay(t, t', h, buckets);
    hide Dead, HoldersOf;
  }

  lemma AssignmentIsHarmless(t: Table, t': Table, h: string -> bool, buckets: nat, n: string, id: string)
    requires AssignedAfterPurge(t, t', h, buckets, n, id) && HoldersOf(t, n) == {}
    ensures Harmless(t, t', n)
  {
    Unheld(t, n);
    BusyStay(t, t', h, buckets);
    hide Dead, HoldersOf;
  }

  lemma CreationForResolve(t: Table, t': Table, h: string -> bool, d: Disturbance, buckets: nat, n: string, re: bool,
                           r: ResolveResult)
    requires CreatesForResolve(t, t', h, d, buckets, n, re, r) && HoldersOf(t, n) == {}
    ensures Harmless(t, t', n)
    ensures r.Resolved? ==> r.session == n && r.created && r.reassigned == re && exists id :: Holds(t', n, id, r.url)
  {
    match r
    case Resolved(s, url, c, a) =>
      var l: Listing :| l.url == url && Creates(t, t', h, buckets, d.patience, n, Created(n, l));
      CreationIsHarmless(t, t', h, buckets, d.patience, n, Created(n, l));
      assert Holds(t', n, l.id, url);
    case NoRunner => CreationIsHarmless(t, t', h, buckets, d.patience, n, NoIdleRunner);
    case Aborted =>
      if Creates(t, t', h, buckets, d.patience, n, Cancelled) {
        CreationIsHarmless(t, t', h, buckets, d.patience, n, Cancelled);
      } else {
        CreationIsHarmless(t, t', h, buckets, d.patience, n, StoreFailed);
      }
  }

  lemma HarmlessKeepsInv(s: State, t: Table, s': State, n: string)
    requires Inv(s) && Harmless(t, s'.table, n) && n !in s.named && n != "" && s.named + {n} <= s'.named
    requires forall k :: k in t ==> k in s.table && t[k] == s.table[k]
    ensures Inv(s')
  {
  }

  // ---- one event ----

  lemma FreshIsUnheld(s: State, n: string)
    requires Inv(s) && n !in s.named
    ensures HoldersOf(s.table, n) == {}
  {
  }

  /** A resolve either keeps the table, or removes the session's holder at most and creates harmlessly. */
  lemma ResolveShape(s: State, sid: string, n: string, h: string -> bool, d: Disturbance, r: ResolveResult, s': State,
                     buckets: nat)
    requires Inv(s) && Step(s, Resolve(sid, n, h, d, r), s', buckets)
    ensures s'.table == s.table || Harmless(s.table, s'.table, n)
            || exists id :: id in HoldersOf(s.table, sid) && !h(s.table[id].url)
                            && Harmless(s.table - {id}, s'.table, n)
  {
    FreshIsUnheld(s, n);
    if sid == "" || HoldersOf(s.table, sid) == {} {
      CreationForResolve(s.table, s'.table, h, d, buckets, n, false, r);
    } else {
      var id :| id in HoldersOf(s.table, sid) && ResolvesFrom(s.table, s'.table, h, d, buckets, sid, id, n, r);
      if !h(s.table[id].url) && !(s'.table == s.table && r == Aborted) {
        assert HoldersOf(s.table - {id}, n) <= HoldersOf(s.table, n);
        CreationForResolve(s.table - {id}, s'.table, h, d.AfterCheck(), buckets, n, true, r);
      }
    }
  }

  lemma StepKeepsInv(s: State, e: Event, s': State, buckets: nat)
    requires Inv(s) && Step(s, e, s', buckets)
    ensures Inv(s') && s.named <= s'.named
  {
    match e
    case Resolve(sid, n, h, d, r) =>
      ResolveShape(s, sid, n, h, d, r, s', buckets);
      if Harmless(s.table, s'.table, n) {
        HarmlessKeepsInv(s, s.table, s', n);
      } else if s'.table != s.table {
        var id :| id in HoldersOf(s.table, sid) && !h(s.table[id].url) && Harmless(s.table - {id}, s'.table, n);
        HarmlessKeepsInv(s, s.table - {id}, s', n);
      }
    case Close(_, _, _) =>
    case Register(_, _, _) =>
    case Deregister(_) =>
  }

  /** A session keeps its runner through every event that does not release it. */
  lemma StepKeepsHolder(s: State, e: Event, s': State, buckets: nat, sid: string, id: string, url: string)
    requires Inv(s) && Step(s, e, s', buckets) && Holds(s.table, sid, id, url) && !Releases(e, sid, id, url)
    ensures Holds(s'.table, sid, id, url)
  {
    hide Resolves;
    if e.Resolve? {
      ResolveShape(s, e.sid, e.newSid, e.healthy, e.disturbed, e.result, s', buckets);
      hide Step, Inv;
    }
  }

  /** A session nobody holds, once named, is never held again. */
  lemma StepKeepsReleased(s: State, e: Event, s': State, buckets: nat, sid: string)
    requires Inv(s) && Step(s, e, s', buckets) && HoldersOf(s.table, sid) == {} && sid in s.named
    ensures HoldersOf(s'.table, sid) == {}
  {
    assert forall k :: k in s.table ==> s.table[k].session != Some(sid) by {
      assert forall k :: k in HoldersOf(s.table, sid) <==> k in s.table && s.table[k].session == Some(sid);
    }
    if e.Resolve? {
      ResolveShape(s, e.sid, e.newSid, e.healthy, e.disturbed, e.result, s', buckets);
    }
  }

  /** Resolving a held session: the same runner while it is healthy, otherwise a new session. */
  lemma ResolveHeld(s: State, sid: string, n: string, h: string -> bool, d: Disturbance, r: ResolveResult, s': State,
                    buckets: nat, id: string, url: string)
    requires Inv(s) && Step(s, Resolve(sid, n, h, d, r), s', buckets) && Holds(s.table, sid, id, url)
    ensures h(url) ==> s'.table == s.table && (r == Resolved(sid, url, false, false) || (d.AtOnce() && r == Aborted))
    ensures !h(url) && r.Resolved? ==> r.session == n != sid && r.created && r.reassigned
    ensures !h(url) && !r.Aborted? ==> HoldersOf(s'.table, sid) == {}
  {
    FreshIsUnheld(s, n);
    assert id in HoldersOf(s.table, sid);
    var x :| x in HoldersOf(s.table, sid) && ResolvesFrom(s.table, s'.table, h, d, buckets, sid, x, n, r);
    assert x == id;
    hide Inv, Step;
    if !h(url) && !(s'.table == s.table && r == Aborted) {
      assert HoldersOf(s.table - {id}, n) <= HoldersOf(s.table, n);
      CreationForResolve(s.table - {id}, s'.table, h, d.AfterCheck(), buckets, n, true, r);
      assert HoldersOf(s.table - {id}, sid) == {};
      HarmlessKeepsUnheld(s.table - {id}, s'.table, n, sid);
    }
  }

  lemma HarmlessKeepsUnheld(t: Table, t': Table, n: string, sid: string)
    requires Harmless(t, t', n) && HoldersOf(t, sid) == {} && sid != n
    ensures HoldersOf(t', sid) == {}
  {
    forall k | k in t' ensures t'[k].session != Some(sid) {
      assert k !in HoldersOf(t, sid);
    }
  }

  lemma ResolveUnheld(s: State, sid: string, n: string, h: string -> bool, d: Disturbance, r: ResolveResult, s': State,
                      buckets: nat)
    requires Inv(s) && Step(s, Resolve(sid, n, h, d, r), s', buckets) && HoldersOf(s.table, sid) == {}
    ensures r.Resolved? ==> r.session == n != sid && r.created && !r.reassigned
  {
    FreshIsUnheld(s, n);
    CreationForResolve(s.table, s'.table, h, d, buckets, n, false, r);
  }

  /** Whatever a resolve returns, the returned session is held by a runner with the returned URL. */
  lemma ResolvedIsHeld(s: State, sid: string, n: string, h: string -> bool, d: Disturbance, r: ResolveResult, s': State,
                       buckets: nat)
    requires Inv(s) && Step(s, Resolve(sid, n, h, d, r), s', buckets) && r.Resolved?
    ensures exists id :: Holds(s'.table, r.session, id, r.url)
  {
    FreshIsUnheld(s, n);
    if sid == "" || HoldersOf(s.table, sid) == {} {
      CreationForResolve(s.table, s'.table, h, d, buckets, n, false, r);
    } else {
      var id :| id in HoldersOf(s.table, sid) && ResolvesFrom(s.table, s'.table, h, d, buckets, sid, id, n, r);
      if h(s.table[id].url) {
        assert Holds(s'.table, sid, id, r.url);
      } else {
        assert HoldersOf(s.table - {id}, n) <= HoldersOf(s.table, n);
        CreationForResolve(s.table - {id}, s'.table, h, d.AfterCheck(), buckets, n, true, r);
      }
    }
  }

  /** A healthy runner is idle in one of the buckets. */
  predicate AnyUsable(t: Table, h: string -> bool, buckets: nat) {
    exists id :: id in t && t[id].bucket.Some? && t[id].bucket.value < buckets && h(t[id].url)
  }

  /**
   * A resolve that is not cut short never aborts: it finds a runner if and only if the session has a healthy one or a
   * healthy one is idle, and creates a session exactly in the second case.
   */
  lemma ResolvesExactlyWhen(s: State, sid: string, n: string, h: string -> bool, r: ResolveResult, s': State,
                            buckets: nat)
    requires Inv(s) && Step(s, Resolve(sid, n, h, Disturbance(false, None), r), s', buckets)
    ensures !r.Aborted?
    ensures var kept := exists id, url :: Holds(s.table, sid, id, url) && h(url);
            && (r.Resolved? <==> kept || AnyUsable(s.table, h, buckets))
            && (r.Resolved? ==> (r.created <==> !kept) && h(r.url))
  {
    var d := Disturbance(false, None);
    FreshIsUnheld(s, n);
    hide Creates, Inv;
    if HoldersOf(s.table, sid) == {} {
      forall id, url ensures !Holds(s.table, sid, id, url) {
        assert id !in HoldersOf(s.table, sid);
      }
      CreatedWhenUsable(s.table, s'.table, h, d, buckets, n, false, r);
    } else {
      var id :| id in HoldersOf(s.table, sid);
      assert Holds(s.table, sid, id, s.table[id].url);
      OneHolder(s, sid, id);
      assert sid != "" by { assert Inv(s); NeverUnnamed(s, id); }
      assert ResolvesFrom(s.table, s'.table, h, d, buckets, sid, id, n, r);
      if !h(s.table[id].url) {
        CreatedWhenUsable(s.table - {id}, s'.table, h, d.AfterCheck(), buckets, n, true, r);
        BusyIsUnusable(s, sid, id, h, buckets);
      }
    }
  }

  lemma NeverUnnamed(s: State, id: string)
    requires Inv(s) && id in s.table
    ensures s.table[id].session != Some("")
  {
  }

  lemma OneHolder(s: State, sid: string, id: string)
    requires Inv(s) && id in HoldersOf(s.table, sid)
    ensures forall x, url :: Holds(s.table, sid, x, url) ==> x == id && url == s.table[id].url
    ensures forall x :: x in HoldersOf(s.table, sid) ==> x == id
  {
  }

  lemma BusyIsUnusable(s: State, sid: string, id: string, h: string -> bool, buckets: nat)
    requires Inv(s) && id in HoldersOf(s.table, sid)
    ensures AnyUsable(s.table - {id}, h, buckets) <==> AnyUsable(s.table, h, buckets)
  {
    assert s.table[id].bucket.None?;
    if AnyUsable(s.table, h, buckets) {
      var x :| x in s.table && s.table[x].bucket.Some? && s.table[x].bucket.value < buckets && h(s.table[x].url);
      assert x in s.table - {id};
    }
  }

  lemma CreatedWhenUsable(t: Table, t': Table, h: string -> bool, d: Disturbance, buckets: nat, n: string, re: bool,
                          r: ResolveResult)
    requires CreatesForResolve(t, t', h, d, buckets, n, re, r) && d == Disturbance(false, None)
    ensures !r.Aborted? && (r.Resolved? <==> AnyUsable(t, h, buckets))
    ensures r.Resolved? ==> r.created && h(r.url)
  {
    match r
    case Resolved(_, url, _, _) =>
      var l: Listing :| l.url == url && Creates(t, t', h, buckets, d.patience, n, Created(n, l));
      CreatedExactlyWhen(t, t', h, buckets, d.patience, n, Created(n, l));
    case NoRunner => CreatedExactlyWhen(t, t', h, buckets, d.patience, n, NoIdleRunner);
    case Aborted =>
  }

  // ---- whole runs ----

  lemma {:induction false} RunKeepsInv(states: seq<State>, events: seq<Event>, buckets: nat, i: nat)
    requires IsRun(states, events, buckets) && i <= |events|
    ensures Inv(states[i])
  {
    if i > 0 {
      RunKeepsInv(states, events, buckets, i - 1);
      StepKeepsInv(states[i - 1], events[i - 1], states[i], buckets);
    }
  }

  lemma {:induction false} HolderStays(states: seq<State>, events: seq<Event>, buckets: nat, i: nat, j: nat,
                                       sid: string, id: string, url: string)
    requires IsRun(states, events, buckets) && i <= j <= |events|
    requires Holds(states[i].table, sid, id, url)
    requires forall k :: i <= k < j ==> !Releases(events[k], sid, id, url)
    ensures Holds(states[j].table, sid, id, url)
  {
    if i < j {
      HolderStays(states, events, buckets, i, j - 1, sid, id, url);
      RunKeepsInv(states, events, buckets, j - 1);
      StepKeepsHolder(states[j - 1], events[j - 1], states[j], buckets, sid, id, url);
    }
  }

  /**
   * Stickiness. Once a resolve has returned a session and a URL, exactly one runner holds the session, and every
   * later resolve of it returns the same URL, creates and reassigns nothing and leaves the table unchanged, until the
   * session is closed, its runner deregistered or found unhealthy.
   */
  lemma SessionsAreSticky(states: seq<State>, events: seq<Event>, buckets: nat, i: nat, j: nat, id: string)
    requires IsRun(states, events, buckets) && i < j < |events|
    requires events[i].Resolve? && events[i].result.Resolved?
    requires id in HoldersOf(states[i + 1].table, events[i].result.session)
    requires forall k :: i < k < j ==> !Releases(events[k], events[i].result.session, id, events[i].result.url)
    requires events[j].Resolve? && events[j].sid == events[i].result.session && events[j].healthy(events[i].result.url)
    ensures events[j].result == Resolved(events[i].result.session, events[i].result.url, false, false)
            || (events[j].disturbed.AtOnce() && events[j].result == Aborted)
    ensures states[j + 1].table == states[j].table
  {
    StepOfRun(states, events, buckets, i);
    StepOfRun(states, events, buckets, j);
    StickyFrom(states, events, buckets, i, j, events[i], events[j], id);
  }

  lemma StickyFrom(states: seq<State>, events: seq<Event>, buckets: nat, i: nat, j: nat, e: Event, f: Event, id: string)
    requires IsRun(states, events, buckets) && i < j < |events| == |states| - 1
    requires e.Resolve? && e.result.Resolved? && f.Resolve? && f.sid == e.result.session && f.healthy(e.result.url)
    requires Inv(states[i]) && Step(states[i], e, states[i + 1], buckets) && Inv(states[i + 1])
    requires Inv(states[j]) && Step(states[j], f, states[j + 1], buckets)
    requires id in HoldersOf(states[i + 1].table, e.result.session)
    requires forall k :: i < k < j ==> !Releases(events[k], e.result.session, id, e.result.url)
    ensures f.result == Resolved(e.result.session, e.result.url, false, false)
            || (f.disturbed.AtOnce() && f.result == Aborted)
    ensures states[j + 1].table == states[j].table
  {
    hide IsRun, Step, Inv, Resolves, HoldersOf, Releases, Holds;
    var sid, url := e.result.session, e.result.url;
    ResolvedIsHeld(states[i], e.sid, e.newSid, e.healthy, e.disturbed, e.result, states[i + 1], buckets);
    HolderHolds(states[i + 1], sid, id, url);
    HolderStays(states, events, buckets, i + 1, j, sid, id, url);
    ResolveHeld(states[j], f.sid, f.newSid, f.healthy, f.disturbed, f.result, states[j + 1], buckets, id, url);
  }

  lemma StepOfRun(states: seq<State>, events: seq<Event>, buckets: nat, i: nat)
    requires IsRun(states, events, buckets) && i < |events|
    ensures |states| == |events| + 1 && Step(states[i], events[i], states[i + 1], buckets)
    ensures Inv(states[i]) && Inv(states[i + 1])
  {
    hide Step, Inv;
    RunKeepsInv(states, events, buckets, i);
    RunKeepsInv(states, events, buckets, i + 1);
  }

  lemma HolderHolds(s: State, sid: string, id: string, url: string)
    requires Inv(s) && id in HoldersOf(s.table, sid) && exists x :: Holds(s.table, sid, x, url)
    ensures Holds(s.table, sid, id, url)
  {
    var x :| Holds(s.table, sid, x, url);
    assert x == id;
  }

  lemma {:induction false} ReleasedStays(states: seq<State>, events: seq<Event>, buckets: nat, i: nat, j: nat,
                                         sid: string)
    requires IsRun(states, events, buckets) && i <= j <= |events|
    requires HoldersOf(states[i].table, sid) == {} && sid in states[i].named
    ensures HoldersOf(states[j].table, sid) == {} && sid in states[j].named
  {
    hide Step, Inv, HoldersOf;
    if i < j {
      ReleasedStays(states, events, buckets, i, j - 1, sid);
      RunKeepsInv(states, events, buckets, j - 1);
      StepKeepsInv(states[j - 1], events[j - 1], states[j], buckets);
      StepKeepsReleased(states[j - 1], events[j - 1], states[j], buckets, sid);
    }
  }

  /** A releasing event, unless it was a resolve cut short, leaves the session without a runner. */
  lemma ReleaseFrees(s: State, e: Event, s': State, buckets: nat, sid: string, id: string, url: string)
    requires Inv(s) && Step(s, e, s', buckets) && Holds(s.table, sid, id, url) && Releases(e, sid, id, url)
    requires e.Resolve? ==> !e.result.Aborted?
    ensures HoldersOf(s'.table, sid) == {} && sid in s'.named
  {
    if e.Resolve? {
      ResolveHeld(s, e.sid, e.newSid, e.healthy, e.disturbed, e.result, s', buckets, id, url);
    } else if e.Close? {
      assert id in HoldersOf(s.table, sid);
    }
  }

  /** However a session loses its runner, a resolve cut short after deleting it included, nobody holds it then. */
  lemma LostHolderFrees(s: State, e: Event, s': State, buckets: nat, sid: string, id: string, url: string)
    requires Inv(s) && Step(s, e, s', buckets) && Holds(s.table, sid, id, url) && !Holds(s'.table, sid, id, url)
    ensures Releases(e, sid, id, url)
    ensures HoldersOf(s'.table, sid) == {} && sid in s'.named
  {
    if !Releases(e, sid, id, url) {
      StepKeepsHolder(s, e, s', buckets, sid, id, url);
    }
    StepKeepsInv(s, e, s', buckets);
    if e.Resolve? {
      ResolveShape(s, e.sid, e.newSid, e.healthy, e.disturbed, e.result, s', buckets);
    } else if e.Close? {
      assert id in HoldersOf(s.table, sid);
    }
  }

  /** Once a session has lost its runner its ID never comes back: every later resolve that succeeds has another one. */
  lemma ReleasedSessionsNeverReturn(states: seq<State>, events: seq<Event>, buckets: nat, i: nat, j: nat,
                                    sid: string, id: string, url: string)
    requires IsRun(states, events, buckets) && i < j < |events|
    requires Holds(states[i].table, sid, id, url) && !Holds(states[i + 1].table, sid, id, url)
    requires events[j].Resolve? && events[j].sid == sid && events[j].result.Resolved?
    ensures events[j].result.session != sid && events[j].result.created && !events[j].result.reassigned
  {
    hide Step, Inv, Resolves, HoldersOf;
    RunKeepsInv(states, events, buckets, i);
    RunKeepsInv(states, events, buckets, j);
    LostHolderFrees(states[i], events[i], states[i + 1], buckets, sid, id, url);
    ReleasedStays(states, events, buckets, i + 1, j, sid);
    var f := events[j];
    ResolveUnheld(states[j], sid, f.newSid, f.healthy, f.disturbed, f.result, states[j + 1], buckets);
  }
}
