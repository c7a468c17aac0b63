/** The table of single-use runners and the atomic accesses brokers make to it. */
module PoolTable {
  import opened Prelude

  /** A record is idle while it has a bucket and busy while it has a session; both attributes are sparse. */
  datatype Runner = Runner(session: Option<string>, bucket: Option<nat>, url: string) {
    predicate IsIdle() { bucket.Some? }
    predicate IsBusy() { session.Some? }
  }

  type Table = map<string, Runner>

  /** One write access. Registration and assignment are conditional, deletion is not. */
  datatype Access =
    | Put(id: string, bucket: nat, url: string)
    | Assign(id: string, session: string)
    | Remove(id: string)

  /** Whether the condition of an access holds. */
  predicate Succeeds(t: Table, a: Access) {
    match a
    case Put(id, _, _) => id !in t
    case Assign(id, _) => id in t && t[id].IsIdle()
    case Remove(_) => true
  }

  function Apply(t: Table, a: Access): Table {
    if !Succeeds(t, a) then t else
      match a
      case Put(id, b, url) => t[id := Runner(None, Some(b), url)]
      case Assign(id, sid) => t[id := t[id].(session := Some(sid), bucket := None)]
      case Remove(id) => t - {id}
  }

  function ApplyAll(t: Table, accesses: seq<Access>): Table
    decreases accesses
  {
    if accesses == [] then t else ApplyAll(Apply(t, accesses[0]), accesses[1..])
  }

  function IdleIds(t: Table): set<string> {
    set id | id in t && t[id].IsIdle()
  }

  function IdleIn(t: Table, bucket: nat): set<string> {
    set id | id in t && t[id].bucket == Some(bucket)
  }

  function HoldersOf(t: Table, sid: string): set<string> {
    set id | id in t && t[id].session == Some(sid)
  }

  /** Every record is exactly one of idle and busy. */
  ghost predicate IdleXorBusy(t: Table) {
    forall id :: id in t ==> (t[id].IsIdle() <==> !t[id].IsBusy())
  }

  // ---- what other brokers can do to the table meanwhile ----

  function PutIds(accesses: seq<Access>): set<string> {
    set a | a in accesses && a.Put? :: a.id
  }

  function KeysAfter(present: set<string>, a: Access): set<string> {
    match a
    case Put(id, _, _) => present + {id}
    case Assign(_, _) => present
    case Remove(id) => present - {id}
  }

  /**
   * No ID is registered again after its record was deleted: a registration names an ID whose record is present, which
   * is a retry without effect, or one never known before.
   */
  predicate FreshPuts(accesses: seq<Access>, present: set<string>, known: set<string>)
    decreases accesses
  {
    accesses == [] ||
    var a := accesses[0];
    && (a.Put? ==> a.id in present || a.id !in known)
    && FreshPuts(accesses[1..], KeysAfter(present, a), if a.Put? then known + {a.id} else known)
  }

  /** What other brokers do to a table from now on registers no ID again after its record was deleted. */
  predicate NoReuse(t: Table, accesses: seq<Access>) {
    FreshPuts(accesses, t.Keys, t.Keys)
  }

  lemma {:induction false} FreshPutsKnowingLess(o: seq<Access>, present: set<string>, known: set<string>,
                                                less: set<string>)
    requires FreshPuts(o, present, known) && less <= known
    ensures FreshPuts(o, present, less)
    decreases o
  {
    if o != [] {
      var a := o[0];
      FreshPutsKnowingLess(o[1..], KeysAfter(present, a), if a.Put? then known + {a.id} else known,
                           if a.Put? then less + {a.id} else less);
    }
  }

  /** A deletion of one's own does not make a later registration a reuse that was none before. */
  lemma {:induction false} FreshPutsWithout(o: seq<Access>, present: set<string>, known: set<string>, id: string)
    requires FreshPuts(o, present, known)
    ensures FreshPuts(o, present - {id}, known - {id})
    decreases o
  {
    if o != [] {
      var a := o[0];
      var present', known' := KeysAfter(present, a), if a.Put? then known + {a.id} else known;
      if a.Put? && a.id == id {
        assert KeysAfter(present - {id}, a) == present' && known - {id} + {id} == known';
      } else {
        FreshPutsWithout(o[1..], present', known', id);
        assert KeysAfter(present - {id}, a) == present' - {id};
        assert a.Put? ==> known - {id} + {a.id} == known' - {id};
      }
    }
  }

  lemma NoReuseWithout(t: Table, o: seq<Access>, id: string)
    requires NoReuse(t, o)
    ensures NoReuse(t - {id}, o)
  {
    FreshPutsWithout(o, t.Keys, t.Keys, id);
    assert (t - {id}).Keys == t.Keys - {id};
  }

  /** No access hands a runner to the given session. */
  predicate NeverAssigns(accesses: seq<Access>, sid: string) {
    forall a :: a in accesses && a.Assign? ==> a.session != sid
  }

  lemma FirstPut(burst: seq<Access>)
    requires burst != []
    ensures PutIds(burst) == (if burst[0].Put? then {burst[0].id} else {}) + PutIds(burst[1..])
  {
    assert burst == [burst[0]] + burst[1..];
  }

  lemma AccessKeepsTakenTaken(t: Table, a: Access, known: set<string>)
    requires a.Put? ==> a.id in t || a.id !in known
    ensures Apply(t, a).Keys == KeysAfter(t.Keys, a)
    ensures forall x :: x in known && x !in IdleIds(t) ==> x !in IdleIds(Apply(t, a))
  {
  }

  /** Known IDs that are not idle stay so while no deleted ID is registered again. */
  lemma {:induction false} BurstKeepsTakenTaken(t: Table, burst: seq<Access>, rest: seq<Access>, known: set<string>)
    requires FreshPuts(burst + rest, t.Keys, known) && t.Keys <= known
    ensures var t', known' := ApplyAll(t, burst), known + PutIds(burst);
            && FreshPuts(rest, t'.Keys, known') && t'.Keys <= known'
            && (forall x :: x in known && x !in IdleIds(t) ==> x !in IdleIds(t'))
    decreases burst
  {
    hide IdleIds;
    if burst == [] {
      assert burst + rest == rest;
      assert known + PutIds(burst) == known;
    } else {
      var a, tail := burst[0], burst[1..];
      assert (burst + rest)[1..] == tail + rest;
      AccessKeepsTakenTaken(t, a, known);
      FirstPut(burst);
      hide PutIds, Apply;
      var known1 := if a.Put? then known + {a.id} else known;
      BurstKeepsTakenTaken(Apply(t, a), tail, rest, known1);
      assert known1 + PutIds(tail) == known + PutIds(burst);
    }
  }

  lemma {:induction false} BurstKeepsSessionFree(t: Table, burst: seq<Access>, sid: string)
    requires NeverAssigns(burst, sid)
    ensures HoldersOf(ApplyAll(t, burst), sid) <= HoldersOf(t, sid)
    decreases burst
  {
    if burst != [] {
      assert burst[0] in burst && NeverAssigns(burst[1..], sid);
      BurstKeepsSessionFree(Apply(t, burst[0]), burst[1..], sid);
    }
  }

  /** A burst of accesses adds at most one idle runner each. */
  lemma {:induction false} BurstAddsIdle(t: Table, burst: seq<Access>)
    ensures |IdleIds(ApplyAll(t, burst))| <= |IdleIds(t)| + |burst|
    ensures ApplyAll(t, burst).Keys <= t.Keys + PutIds(burst)
    decreases burst
  {
    if burst != [] {
      var a := burst[0];
      var t1 := Apply(t, a);
      BurstAddsIdle(t1, burst[1..]);
      assert IdleIds(t1) <= if a.Put? then IdleIds(t) + {a.id} else IdleIds(t);
      assert |IdleIds(t1)| <= |IdleIds(t)| + 1 by {
        if a.Put? { Subset(IdleIds(t1), IdleIds(t) + {a.id}); } else { Subset(IdleIds(t1), IdleIds(t)); }
      }
      assert a in burst && forall b :: b in burst[1..] ==> b in burst;
    }
  }

  lemma {:induction false} Subset(a: set<string>, b: set<string>)
    requires a <= b
    ensures |a| <= |b|
  {
    assert b == a + (b - a);
  }

  lemma BurstKeepsNoReuse(t: Table, burst: seq<Access>, rest: seq<Access>)
    requires NoReuse(t, burst + rest)
    ensures NoReuse(ApplyAll(t, burst), rest)
  {
    BurstKeepsTakenTaken(t, burst, rest, t.Keys);
    FreshPutsKnowingLess(rest, ApplyAll(t, burst).Keys, t.Keys + PutIds(burst), ApplyAll(t, burst).Keys);
  }
}
