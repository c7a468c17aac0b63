/** One partition of the poll table and the atomic transactions the store runs on it. */
module PollTable {
  import opened PollKeys

  datatype Item =
    | Meta(options: seq<string>, maxChoices: int, votes: map<string, int>)
    | VoteRecord

  type Table = map<string, Item>

  /** What a poll operation reports to its caller. */
  datatype Outcome =
    | Ok
    | MaxChoicesExceeded
    | DuplicateVote
    | VoteNotFound
    | PollNotFound
    | InvalidChoice
    | StoreError

  /** One member of a transaction; the first two carry the condition of the request. */
  datatype Write =
    | PutNew(putKey: string)
    | DeleteExisting(deleteKey: string)
    | AddVotes(deltas: seq<(string, int)>)

  /** Nothing is written unless every condition holds; a request naming one item twice is refused outright. */
  datatype TxResult =
    | Committed(table: Table)
    | Canceled(reasons: seq<string>)
    | Refused

  const NONE := "None"
  const CONDITION_FAILED := "ConditionalCheckFailed"
  const VALIDATION := "ValidationError"

  function Target(w: Write): string {
    match w
    case PutNew(k) => k
    case DeleteExisting(k) => k
    case AddVotes(_) => META
  }

  function Reason(t: Table, w: Write): string {
    match w
    case PutNew(k) => if k in t then CONDITION_FAILED else NONE
    case DeleteExisting(k) => if k in t then NONE else CONDITION_FAILED
    case AddVotes(_) => if META in t && t[META].Meta? then NONE else VALIDATION
  }

  function AddDeltas(votes: map<string, int>, deltas: seq<(string, int)>): map<string, int>
    decreases deltas
  {
    if deltas == [] then votes else
      var (c, d) := deltas[0];
      AddDeltas(votes[c := (if c in votes then votes[c] else 0) + d], deltas[1..])
  }

  function ApplyWrite(t: Table, w: Write): Table {
    match w
    case PutNew(k) => t[k := VoteRecord]
    case DeleteExisting(k) => t - {k}
    case AddVotes(ds) =>
      if META in t && t[META].Meta? then t[META := t[META].(votes := AddDeltas(t[META].votes, ds))] else t
  }

  function ApplyWrites(t: Table, ws: seq<Write>): Table
    decreases ws
  {
    if ws == [] then t else ApplyWrites(ApplyWrite(t, ws[0]), ws[1..])
  }

  function TransactWrite(t: Table, ws: seq<Write>): TxResult {
    if exists i, j :: 0 <= i < j < |ws| && Target(ws[i]) == Target(ws[j]) then
      Refused
    else if forall i :: 0 <= i < |ws| ==> Reason(t, ws[i]) == NONE then
      Committed(ApplyWrites(t, ws))
    else
      Canceled(seq(|ws|, i requires 0 <= i < |ws| => Reason(t, ws[i])))
  }

  function After(t: Table, r: TxResult): Table {
    if r.Committed? then r.table else t
  }

  // ---- the three transactions and the way their failures are reported ----

  function VoteWrites(v: string, c: string): seq<Write> {
    [PutNew(VoteKey(v, c)), AddVotes([(c, 1)])]
  }

  function UnvoteWrites(v: string, c: string): seq<Write> {
    [DeleteExisting(VoteKey(v, c)), AddVotes([(c, -1)])]
  }

  function SwitchWrites(v: string, from: string, to: string): seq<Write> {
    [DeleteExisting(VoteKey(v, from)), PutNew(VoteKey(v, to)), AddVotes([(from, -1), (to, 1)])]
  }

  function VoteOutcome(r: TxResult): Outcome {
    if r.Committed? then Ok
    else if r.Canceled? && |r.reasons| > 0 && r.reasons[0] == CONDITION_FAILED then DuplicateVote
    else StoreError
  }

  function UnvoteOutcome(r: TxResult): Outcome {
    if r.Committed? then Ok
    else if r.Canceled? && |r.reasons| > 0 && r.reasons[0] == CONDITION_FAILED then VoteNotFound
    else StoreError
  }

  function SwitchOutcome(r: TxResult): Outcome {
    if r.Committed? then Ok
    else if r.Canceled? && |r.reasons| >= 2 && r.reasons[0] == CONDITION_FAILED then VoteNotFound
    else if r.Canceled? && |r.reasons| >= 2 && r.reasons[1] == CONDITION_FAILED then DuplicateVote
    else StoreError
  }

  // ---- reads ----

  /** The poll record, when the poll has been opened. */
  predicate Opened(t: Table) {
    META in t && t[META].Meta?
  }

  /** The keys the prefix query returns; an empty visitor is never queried. */
  function OwnKeys(t: Table, v: string): set<string> {
    if v == "" then {} else set k | k in t && Prefix(v) <= k
  }

  function VoteKeys(t: Table): set<string> {
    set k | k in t && k != META
  }

  function KeysFor(t: Table, c: string): set<string> {
    set k | k in VoteKeys(t) && ChoiceOf(k) == c
  }

  // ---- what every reachable table satisfies ----

  /** Every item but META is a vote of a genuine visitor for one of the options. */
  ghost predicate WellFormed(t: Table) {
    && (META in t ==> t[META].Meta?)
    && forall k :: k in VoteKeys(t) ==>
         && t[k].VoteRecord?
         && HashIndex(k) < |k|
         && IsVisitor(VisitorOf(k))
         && META in t && ChoiceOf(k) in t[META].options
  }

  /** The stored counter of each option is the number of vote records for it. */
  ghost predicate CountersAgree(t: Table) {
    Opened(t) ==>
      && t[META].votes.Keys == (set o | o in t[META].options)
      && forall c :: c in t[META].votes ==> t[META].votes[c] == |KeysFor(t, c)|
  }

  ghost predicate Sound(t: Table) {
    WellFormed(t) && CountersAgree(t)
  }

  /** The table with one counter changed. */
  function Bump(t: Table, c: string, d: int): Table {
    if !Opened(t) then t else
      var votes := t[META].votes;
      t[META := t[META].(votes := votes[c := (if c in votes then votes[c] else 0) + d])]
  }

  // ---- closed forms of the transactions on an opened poll ----

  lemma VoteTransaction(t: Table, v: string, c: string)
    requires Opened(t)
    ensures var r := TransactWrite(t, VoteWrites(v, c));
            var k := VoteKey(v, c);
            && VoteOutcome(r) == (if k in t then DuplicateVote else Ok)
            && After(t, r) == if k in t then t else Bump(t[k := VoteRecord], c, 1)
  {
    var ws := VoteWrites(v, c);
    VoteKeyIsNotMeta(v, c);
    var t1 := ApplyWrite(t, ws[0]);
    assert ws[1..] == [ws[1]] && ws[1..][1..] == [];
    assert ApplyWrites(t, ws) == ApplyWrites(t1, ws[1..]) == ApplyWrite(t1, ws[1]);
    var ds := [(c, 1)];
    assert ds[1..] == [];
    assert AddDeltas(t[META].votes, ds) == t[META].votes[c := (if c in t[META].votes then t[META].votes[c] else 0) + 1];
    assert Reason(t, ws[1]) == NONE;
  }

  lemma UnvoteTransaction(t: Table, v: string, c: string)
    requires Opened(t) || VoteKey(v, c) !in t
    ensures var r := TransactWrite(t, UnvoteWrites(v, c));
            var k := VoteKey(v, c);
            && UnvoteOutcome(r) == (if k in t then Ok else VoteNotFound)
            && After(t, r) == if k in t then Bump(t - {k}, c, -1) else t
  {
    var ws := UnvoteWrites(v, c);
    VoteKeyIsNotMeta(v, c);
    var t1 := ApplyWrite(t, ws[0]);
    assert ws[1..] == [ws[1]] && ws[1..][1..] == [];
    assert ApplyWrites(t, ws) == ApplyWrites(t1, ws[1..]) == ApplyWrite(t1, ws[1]);
    var ds := [(c, -1)];
    assert ds[1..] == [];
    assert Reason(t, ws[0]) == if VoteKey(v, c) in t then NONE else CONDITION_FAILED;
    if VoteKey(v, c) in t {
      var votes := t[META].votes;
      assert AddDeltas(votes, ds) == votes[c := (if c in votes then votes[c] else 0) - 1];
      assert Reason(t, ws[1]) == NONE;
    }
  }

  /** Deletion is reported before insertion when both conditions fail; equal choices are refused as a request. */
  lemma SwitchTransaction(t: Table, v: string, from: string, to: string)
    requires Opened(t)
    ensures var r := TransactWrite(t, SwitchWrites(v, from, to));
            var fk, tk := VoteKey(v, from), VoteKey(v, to);
            && SwitchOutcome(r) == (if from == to then StoreError else if fk !in t then VoteNotFound
                                    else if tk in t then DuplicateVote else Ok)
            && After(t, r) == if from == to || fk !in t || tk in t then t
                              else Bump(Bump((t - {fk})[tk := VoteRecord], from, -1), to, 1)
  {
    var fk, tk := VoteKey(v, from), VoteKey(v, to);
    VoteKeyIsNotMeta(v, from);
    VoteKeyIsNotMeta(v, to);
    ThreeWrites(t, DeleteExisting(fk), PutNew(tk), AddVotes([(from, -1), (to, 1)]));
    hide ApplyWrites, TransactWrite, AddDeltas;
    if from != to {
      assert fk[|v| + 1..] == from && tk[|v| + 1..] == to;
      TwoDeltas((t - {fk})[tk := VoteRecord], from, to);
    }
  }

  lemma ThreeWrites(t: Table, a: Write, b: Write, c: Write)
    ensures var r := TransactWrite(t, [a, b, c]);
            if Target(a) == Target(b) || Target(a) == Target(c) || Target(b) == Target(c) then r == Refused
            else if Reason(t, a) == Reason(t, b) == Reason(t, c) == NONE then
              r == Committed(ApplyWrite(ApplyWrite(ApplyWrite(t, a), b), c))
            else r == Canceled([Reason(t, a), Reason(t, b), Reason(t, c)])
  {
    var ws := [a, b, c];
    assert ws[1..] == [b, c] && [b, c][1..] == [c] && [c][1..] == [];
    assert Target(ws[0]) == Target(a) && Target(ws[1]) == Target(b) && Target(ws[2]) == Target(c);
    assert Reason(t, ws[0]) == Reason(t, a) && Reason(t, ws[1]) == Reason(t, b) && Reason(t, ws[2]) == Reason(t, c);
    assert ApplyWrites(t, ws) == ApplyWrites(ApplyWrite(t, a), [b, c])
        == ApplyWrites(ApplyWrite(ApplyWrite(t, a), b), [c]) == ApplyWrite(ApplyWrite(ApplyWrite(t, a), b), c);
  }

  lemma TwoDeltas(t: Table, from: string, to: string)
    requires Opened(t) && from != to
    ensures ApplyWrite(t, AddVotes([(from, -1), (to, 1)])) == Bump(Bump(t, from, -1), to, 1)
  {
    var votes := t[META].votes;
    var votes1 := votes[from := (if from in votes then votes[from] else 0) - 1];
    assert [(from, -1), (to, 1)][1..] == [(to, 1)] && [(to, 1)][1..] == [];
    assert AddDeltas(votes, [(from, -1), (to, 1)]) == AddDeltas(votes1, [(to, 1)])
        == votes1[to := (if to in votes1 then votes1[to] else 0) + 1];
  }

  // ---- the invariant is kept ----

  lemma InsertedKeys(t: Table, v: string, c: string)
    requires WellFormed(t) && Opened(t) && IsVisitor(v) && c in t[META].options && VoteKey(v, c) !in t
    ensures var t' := Bump(t[VoteKey(v, c) := VoteRecord], c, 1);
            && WellFormed(t')
            && VoteKeys(t') == VoteKeys(t) + {VoteKey(v, c)}
            && KeysFor(t', c) == KeysFor(t, c) + {VoteKey(v, c)}
            && VoteKey(v, c) !in KeysFor(t, c)
            && forall o :: o != c ==> KeysFor(t', o) == KeysFor(t, o)
  {
    var k := VoteKey(v, c);
    var t' := Bump(t[k := VoteRecord], c, 1);
    DecodeInvertsVoteKey(v, c);
    VoteKeyIsNotMeta(v, c);
    assert t'.Keys == t.Keys + {k};
    assert forall x :: x in VoteKeys(t) ==> t'[x] == t[x];
    KeysForInsert(t, t', k);
  }

  lemma KeysForInsert(t: Table, t': Table, k: string)
    requires VoteKeys(t') == VoteKeys(t) + {k} && k !in VoteKeys(t)
    ensures forall o :: KeysFor(t', o) == if o == ChoiceOf(k) then KeysFor(t, o) + {k} else KeysFor(t, o)
    ensures k !in KeysFor(t, ChoiceOf(k))
  {
    hide VoteKeys, ChoiceOf;
  }

  lemma OneMore(s: set<string>, x: string)
    requires x !in s
    ensures |s + {x}| == |s| + 1
  {
  }

  lemma CountersFollow(t: Table, t': Table, c: string, d: int)
    requires CountersAgree(t) && Opened(t) && Opened(t') && c in t[META].options
    requires c in t[META].votes && t'[META].options == t[META].options
    requires t'[META].votes == t[META].votes[c := t[META].votes[c] + d]
    requires |KeysFor(t', c)| == |KeysFor(t, c)| + d
    requires forall o :: o != c ==> KeysFor(t', o) == KeysFor(t, o)
    ensures CountersAgree(t')
  {
    hide KeysFor;
    assert t'[META].votes.Keys == t[META].votes.Keys;
  }

  lemma InsertKeepsSound(t: Table, v: string, c: string)
    requires Sound(t) && Opened(t) && IsVisitor(v) && c in t[META].options && VoteKey(v, c) !in t
    ensures var t' := Bump(t[VoteKey(v, c) := VoteRecord], c, 1);
            Sound(t') && VoteKeys(t') == VoteKeys(t) + {VoteKey(v, c)}
  {
    InsertedKeys(t, v, c);
    OneMore(KeysFor(t, c), VoteKey(v, c));
    hide WellFormed, KeysFor, VoteKeys;
    var t' := Bump(t[VoteKey(v, c) := VoteRecord], c, 1);
    VoteKeyIsNotMeta(v, c);
    CountersFollow(t, t', c, 1);
  }

  lemma RemovedKeysAfter(t: Table, v: string, c: string)
    requires WellFormed(t) && IsVisitor(v) && VoteKey(v, c) in t
    ensures Opened(t) && c in t[META].options
    ensures var t' := Bump(t - {VoteKey(v, c)}, c, -1);
            && WellFormed(t')
            && VoteKeys(t') == VoteKeys(t) - {VoteKey(v, c)}
            && |KeysFor(t', c)| == |KeysFor(t, c)| - 1
            && forall o :: o != c ==> KeysFor(t', o) == KeysFor(t, o)
  {
    var k := VoteKey(v, c);
    DecodeInvertsVoteKey(v, c);
    VoteKeyIsNotMeta(v, c);
    assert k in VoteKeys(t);
    assert k != META && ChoiceOf(k) == c;
    hide HashIndex, VisitorOf, ChoiceOf, VoteKey, IsVisitor;
    var t' := Bump(t - {k}, c, -1);
    assert t'.Keys == t.Keys - {k};
    assert KeysFor(t', c) == KeysFor(t, c) - {k};
    assert k in KeysFor(t, c);
  }

  lemma RemoveKeepsSound(t: Table, v: string, c: string)
    requires Sound(t) && IsVisitor(v) && VoteKey(v, c) in t
    ensures Opened(t) && c in t[META].options
    ensures var t' := Bump(t - {VoteKey(v, c)}, c, -1);
            Sound(t') && VoteKeys(t') == VoteKeys(t) - {VoteKey(v, c)}
  {
    RemovedKeysAfter(t, v, c);
    hide WellFormed, KeysFor, VoteKeys;
    var t' := Bump(t - {VoteKey(v, c)}, c, -1);
    VoteKeyIsNotMeta(v, c);
    CountersFollow(t, t', c, -1);
  }

  /** A switch is a removal followed by an insertion. */
  lemma SwitchIsRemoveThenInsert(t: Table, v: string, from: string, to: string)
    requires Sound(t) && IsVisitor(v) && from != to
    requires VoteKey(v, from) in t && VoteKey(v, to) !in t
    requires Opened(t) && to in t[META].options
    ensures var mid := Bump(t - {VoteKey(v, from)}, from, -1);
            && Opened(mid)
            && Bump(Bump((t - {VoteKey(v, from)})[VoteKey(v, to) := VoteRecord], from, -1), to, 1)
               == Bump(mid[VoteKey(v, to) := VoteRecord], to, 1)
  {
    hide Sound;
    VoteKeyIsNotMeta(v, from);
    VoteKeyIsNotMeta(v, to);
    var fk, tk := VoteKey(v, from), VoteKey(v, to);
    var mid := Bump(t - {fk}, from, -1);
    var u := (t - {fk})[tk := VoteRecord];
    assert u[META] == (t - {fk})[META];
    assert Bump(u, from, -1) == mid[tk := VoteRecord];
  }
}
