/** The stderr collector of a shell: bytes arrive in reads cut anywhere, and a marker line ends a command's share. */
module Stderr {
  import opened Prelude
  import opened Lines

  /** `closes` counts how often the done channel of the current command has been closed. */
  datatype Collector = Collector(buf: string, marker: string, closes: nat)

  predicate OccursAt(s: string, m: string, k: nat) {
    k + |m| <= |s| && s[k..k + |m|] == m
  }

  /** Position of the first occurrence, if any. */
  function FirstIndex(s: string, m: string): (r: Option<nat>)
    ensures r.Some? ==> OccursAt(s, m, r.value) && forall k :: 0 <= k < r.value ==> !OccursAt(s, m, k)
    ensures r.None? ==> forall k :: !OccursAt(s, m, k)
  {
    if OccursAt(s, m, 0) then Some(0)
    else if s == "" then None
    else
      var r := FirstIndex(s[1..], m);
      assert forall k: nat :: k > 0 ==> (OccursAt(s, m, k) <==> OccursAt(s[1..], m, k - 1));
      if r.Some? then Some(r.value + 1) else None
  }

  /** Looks for the marker line in the buffer; when it is there, takes it out and closes the channel. */
  function CheckMarker(c: Collector): Collector {
    if c.marker == "" then c else
      match FirstIndex(c.buf, c.marker)
      case None => c
      case Some(i) =>
        var end := i + |c.marker|;
        var after := if end < |c.buf| && c.buf[end] == '\n' then end + 1 else end;
        Collector(c.buf[..i] + c.buf[after..], "", c.closes + 1)
  }

  function OnRead(c: Collector, chunk: string): Collector {
    CheckMarker(c.(buf := c.buf + chunk))
  }

  function Absorb(c: Collector, chunks: seq<string>): Collector {
    if chunks == [] then c else OnRead(Absorb(c, Front(chunks)), Last(chunks))
  }

  /** The marker does not occur before the place where the shell prints it. */
  predicate MarkerLast(e: string, marker: string) {
    FirstIndex(e + marker, marker) == Some(|e|)
  }

  /** The marker shows up in the received bytes exactly when all of it has been received. */
  lemma MarkerVisible(e: string, m: string, p: string)
    requires m != "" && MarkerLast(e, m) && p <= e + m + "\n"
    ensures FirstIndex(p, m) == if |p| < |e| + |m| then None else Some(|e|)
  {
    hide FirstIndex, OccursAt;
    var full := e + m;
    forall k: nat
      ensures OccursAt(p, m, k) ==> k + |m| <= |p|
      ensures k <= |e| && k + |m| <= |p| ==> (OccursAt(p, m, k) <==> OccursAt(full, m, k))
    {
      OccursSame(p, full, m, k);
    }
  }

  lemma OccursSame(p: string, full: string, m: string, k: nat)
    requires p <= full + "\n"
    ensures OccursAt(p, m, k) ==> k + |m| <= |p|
    ensures k + |m| <= |p| && k + |m| <= |full| ==> (OccursAt(p, m, k) <==> OccursAt(full, m, k))
  {
    if k + |m| <= |p| && k + |m| <= |full| {
      SamePart(p, full, k, k + |m|);
    }
  }

  lemma SamePart(p: string, full: string, i: nat, j: nat)
    requires i <= j <= |p| && j <= |full| && p <= full + "\n"
    ensures p[i..j] == full[i..j]
  {
    assert forall k :: i <= k < j ==> p[k] == (full + "\n")[k] == full[k];
  }

  /** Some single read delivers both the byte before position n and the byte at it. */
  predicate SameRead(chunks: seq<string>, n: nat) {
    chunks != [] &&
    (SameRead(Front(chunks), n) || (|Concat(Front(chunks))| < n && n < |Concat(chunks)|))
  }

  lemma ConcatLast(chunks: seq<string>)
    requires chunks != []
    ensures Concat(chunks) == Concat(Front(chunks)) + Last(chunks)
  {
    assert chunks == Front(chunks) + [Last(chunks)];
    ConcatAppend(Front(chunks), [Last(chunks)]);
    assert Concat([Last(chunks)]) == Last(chunks);
  }

  lemma {:induction false} SameReadIsLate(chunks: seq<string>, n: nat)
    requires SameRead(chunks, n)
    ensures n < |Concat(chunks)|
  {
    ConcatLast(chunks);
    if SameRead(Front(chunks), n) {
      SameReadIsLate(Front(chunks), n);
    }
  }

  /**
   * However the bytes of e, marker and newline are cut into reads, the channel is closed exactly once, as soon as the
   * whole marker has arrived. The buffer then holds e, and a newline that came in a later read stays behind it.
   */
  lemma {:induction false} StderrInAnyCut(e: string, m: string, chunks: seq<string>)
    requires m != "" && MarkerLast(e, m)
    requires Concat(chunks) <= e + m + "\n"
    ensures var c, n := Absorb(Collector("", m, 0), chunks), |e| + |m|;
            var p := Concat(chunks);
            if |p| < n then c == Collector(p, m, 0)
            else c == Collector(if |p| == n || SameRead(chunks, n) then e else e + "\n", "", 1)
  {
    hide FirstIndex, MarkerLast;
    if chunks != [] {
      var head, last := Front(chunks), Last(chunks);
      ConcatLast(chunks);
      var full, n, q, p := e + m + "\n", |e| + |m|, Concat(head), Concat(chunks);
      assert q <= full;
      StderrInAnyCut(e, m, head);
      if |q| < n {
        MarkerVisible(e, m, p);
        if SameRead(head, n) { SameReadIsLate(head, n); }
        if |p| >= n { TakenOut(e, m, p); }
      } else {
        LateNewline(full, q, last, n);
        if SameRead(head, n) { SameReadIsLate(head, n); }
      }
    }
  }

  lemma TakenOut(e: string, m: string, p: string)
    requires m != "" && MarkerLast(e, m) && p <= e + m + "\n" && |p| >= |e| + |m|
    ensures CheckMarker(Collector(p, m, 0)) == Collector(e, "", 1)
  {
    MarkerVisible(e, m, p);
    assert p[..|e|] == e;
    if |p| == |e| + |m| + 1 { assert p == e + m + "\n"; }
  }

  lemma LateNewline(full: string, q: string, last: string, n: nat)
    requires q + last <= full && n <= |q| && |full| == n + 1 && full[n] == '\n'
    ensures last == if |q + last| == |q| then "" else "\n"
    ensures |q| == n + 1 ==> last == ""
  {
    assert last == (q + last)[|q|..] == full[|q|..|q| + |last|];
  }
}
