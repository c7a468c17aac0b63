/** When a shell gets out of step with bash, over any sequence of calls, and what happens then. */
module ShellSync {
  import opened Prelude
  import opened Lines
  import opened Stderr
  import opened Shell
  import opened ShellRuns

  /** Unless the shell is marked broken, no byte of an earlier command is unread. */
  predicate InStep(w: Wire) {
    w.broken.Some? || w.unread == ""
  }

  /** The call reaches bash on a shell that is open and not marked broken. */
  predicate Runs(w: Wire, call: Call) {
    w.broken.None? && w.end.Open? && !call.ctx.doneBefore && call.reply.writeOk
  }

  /**
   * The answer has more lines after its first marker line, and the shell does not notice: that line has a readable
   * exit code, or no send has failed before it.
   */
  predicate Desyncs(call: Call) {
    var m := MarkerOf(call);
    var lines := Clean(Tokens(Emitted(call.reply, m)));
    FirstMarker(lines, m) + 1 < |lines| && !SendLost(lines, m, call.ctx.sends)
  }

  /** For a complete answer: exactly when the output has a marker line of its own, except for the failed send. */
  lemma DesyncsExactlyWhen(call: Call)
    requires Whole(call)
    ensures var m := MarkerOf(call);
            var lines := Clean(Tokens(Frame(call.reply.out, m, call.reply.code)));
            && FirstMarker(lines, m) < |lines|
            && (Desyncs(call) <==> !MarkerFree(call.reply.out, m) && !SendLost(lines, m, call.ctx.sends))
  {
    MarkerShape(call.nanos);
    FirstMarkerOfFrame(call.reply.out, MarkerOf(call), call.reply.code);
    hide Frame, Tokens, Clean, SendLost, Marker, MarkerFree, Split, FirstMarker;
  }

  /** An output without a marker line never puts the shell out of step, wherever the stream ends. */
  lemma MarkerFreeNeverDesyncs(call: Call)
    requires MarkerFree(call.reply.out, MarkerOf(call))
    ensures !Desyncs(call)
  {
    var m := MarkerOf(call);
    MarkerShape(call.nanos);
    MarkerIsLastLine(call.reply.out, m, call.reply.code, Emitted(call.reply, m));
  }

  /** A shell in step gets out of step without being marked broken exactly by such an answer. */
  lemma StepsOutExactlyWhen(w: Wire, call: Call)
    requires InStep(w)
    ensures InStep(Serve(w, call).0) <==> !(Runs(w, call) && Desyncs(call))
  {
    if Runs(w, call) {
      var m, p := MarkerOf(call), Emitted(call.reply, MarkerOf(call));
      var w1 := w.(pipe := if call.pace.early then "" else w.pipe, stderr := Collector("", m, 0));
      assert Serve(w, call) == ServeWritten(w1, call);
      hide Serve, ServeWritten, Marker, Emitted, Tokens, Clean, SendLost, FirstMarker, Script;
      assert w.unread + p == p;
      LeftUnread(w1, call, p);
      var lines := Clean(Tokens(p));
      var k := FirstMarker(lines, m);
      if k < |lines| {
        RestUnread(p, k + 1);
      }
    } else if w.broken.None? && !call.ctx.doneBefore && call.reply.writeOk {
      EndedCall(w, call);
    }
  }

  lemma EndedCall(w: Wire, call: Call)
    requires w.broken.None? && w.unread == "" && !w.end.Open? && !call.ctx.doneBefore && call.reply.writeOk
    ensures Serve(w, call).0.broken.Some? && Serve(w, call).2 == []
  {
    NoTokens();
    assert Clean([]) == [];
  }

  /** The states of one shell before and after each of its calls. */
  ghost predicate IsRun(ws: seq<Wire>, calls: seq<Call>) {
    |ws| == |calls| + 1 && ws[0] == START && forall i :: 0 <= i < |calls| ==> ws[i + 1] == Serve(ws[i], calls[i]).0
  }

  predicate GetsOut(w: Wire, call: Call) {
    Runs(w, call) && Desyncs(call)
  }

  lemma {:induction false} ShellStaysInStepUntil(ws: seq<Wire>, calls: seq<Call>, n: nat)
    requires IsRun(ws, calls) && n < |ws|
    requires forall i :: 0 <= i < n ==> !GetsOut(ws[i], calls[i])
    ensures InStep(ws[n])
  {
    hide Serve, GetsOut;
    if n > 0 {
      ShellStaysInStepUntil(ws, calls, n - 1);
      GetsOutExactlyWhen(ws[n - 1], calls[n - 1]);
      assert ws[n - 1 + 1] == Serve(ws[n - 1], calls[n - 1]).0;
    }
  }

  lemma GetsOutExactlyWhen(w: Wire, call: Call)
    requires InStep(w)
    ensures InStep(Serve(w, call).0) <==> !GetsOut(w, call)
  {
    StepsOutExactlyWhen(w, call);
  }

  /**
   * Over any sequence of calls, with cancellation, failed writes and end of stream at any point: a shell that is not
   * marked broken has no unread byte of any earlier command, unless a call got an answer that puts it out of step.
   */
  lemma ShellStaysInStep(ws: seq<Wire>, calls: seq<Call>, n: nat)
    requires IsRun(ws, calls) && n < |ws|
    requires forall i :: 0 <= i < n ==> !Desyncs(calls[i])
    ensures InStep(ws[n])
  {
    forall i | 0 <= i < n ensures !GetsOut(ws[i], calls[i]) {
      assert !Desyncs(calls[i]);
    }
    ShellStaysInStepUntil(ws, calls, n);
  }

  /** All states of a run are in step exactly when no call got such an answer while the shell was running. */
  lemma RunInStepExactlyWhen(ws: seq<Wire>, calls: seq<Call>)
    requires IsRun(ws, calls)
    ensures (forall n :: 0 <= n < |ws| ==> InStep(ws[n]))
            <==> forall i :: 0 <= i < |calls| ==> !GetsOut(ws[i], calls[i])
  {
    hide Serve, GetsOut, InStep;
    if forall i :: 0 <= i < |calls| ==> !GetsOut(ws[i], calls[i]) {
      forall n | 0 <= n < |ws| ensures InStep(ws[n]) {
        ShellStaysInStepUntil(ws, calls, n);
      }
    }
    if forall n :: 0 <= n < |ws| ==> InStep(ws[n]) {
      forall i | 0 <= i < |calls| ensures !GetsOut(ws[i], calls[i]) {
        GetsOutExactlyWhen(ws[i], calls[i]);
        assert InStep(ws[i + 1]);
      }
    }
  }

  /** In step on both streams: between commands at most the newline after the last marker waits on stderr. */
  predicate Ready(w: Wire) {
    w.broken.Some? || (w.unread == "" && (w.end.Open? ==> Synced(w)))
  }

  lemma CutEnds(w: Wire, call: Call)
    requires Runs(w, call) && call.reply.cut.Some?
    ensures !Serve(w, call).0.end.Open?
  {
    var w1 := w.(pipe := if call.pace.early then "" else w.pipe, stderr := Collector("", MarkerOf(call), 0));
    assert Serve(w, call) == ServeWritten(w1, call);
    hide Serve, ServeWritten, Marker, Emitted, Script;
    LeftUnread(w1, call, AfterWrite(w1, call).unread);
  }

  lemma ServeKeepsReady(w: Wire, call: Call)
    requires Ready(w) && Tame(call)
    ensures Ready(Serve(w, call).0)
  {
    if w.broken.None? && !call.ctx.doneBefore && call.reply.writeOk {
      if !w.end.Open? { EndedCall(w, call); }
      else if call.reply.cut.Some? {
        MarkerFreeNeverDesyncs(call);
        StepsOutExactlyWhen(w, call);
        CutEnds(w, call);
      } else { WholeCallStderr(w, call); }
    }
  }

  /** Commands without markers where the shell looks for them leave both streams in step. */
  lemma {:induction false} ShellStaysReady(ws: seq<Wire>, calls: seq<Call>, n: nat)
    requires IsRun(ws, calls) && n < |ws|
    requires forall i :: 0 <= i < n ==> Tame(calls[i])
    ensures Ready(ws[n])
  {
    hide Serve, Tame;
    if n > 0 {
      ShellStaysReady(ws, calls, n - 1);
      ServeKeepsReady(ws[n - 1], calls[n - 1]);
      assert ws[n - 1 + 1] == Serve(ws[n - 1], calls[n - 1]).0;
    }
  }

  /** The lines of a call's own stdout that precede its marker. */
  function Share(call: Call): seq<string> {
    var lines := Clean(Tokens(Emitted(call.reply, MarkerOf(call))));
    lines[..FirstMarker(lines, MarkerOf(call))]
  }

  lemma ServeDeliversShare(w: Wire, call: Call)
    requires InStep(w)
    ensures var ch := Serve(w, call).2;
            ch == [] || ch == Deliver(Share(call), call.ctx.sends)
  {
    if w.broken.None? && !call.ctx.doneBefore && call.reply.writeOk {
      if !w.end.Open? {
        EndedCall(w, call);
      } else {
        var p := Emitted(call.reply, MarkerOf(call));
        assert w.unread + p == p;
        SentLines(w, call);
      }
    }
  }

  lemma DeliverPrefix(ls: seq<string>, sends: Option<nat>)
    ensures Deliver(ls, sends) <= Lined(Visible(ls))
  {
  }

  lemma ShareOfWholeCall(call: Call)
    requires Whole(call) && MarkerFree(call.reply.out, MarkerOf(call))
    ensures Share(call) == Clean(Split(call.reply.out))
  {
    MarkerShape(call.nanos);
    FirstMarkerOfFrame(call.reply.out, MarkerOf(call), call.reply.code);
  }

  /** What a call may send: a beginning of its own lines, which for one that ran to its end are its output's. */
  ghost predicate SendsOwnLines(call: Call, ch: seq<string>) {
    && ch <= Lined(Visible(Share(call)))
    && (Whole(call) && MarkerFree(call.reply.out, MarkerOf(call)) ==>
          ch <= Lined(Visible(Clean(Split(call.reply.out)))))
  }

  /** No command's stdout is attributed to another, in any sequence of calls without an answer that desynchronises. */
  lemma OutputStaysWithItsCommand(ws: seq<Wire>, calls: seq<Call>, n: nat)
    requires IsRun(ws, calls) && n < |calls|
    requires forall i :: 0 <= i < n ==> !Desyncs(calls[i])
    ensures SendsOwnLines(calls[n], Serve(ws[n], calls[n]).2)
  {
    ShellStaysInStep(ws, calls, n);
    var call := calls[n];
    ServeDeliversShare(ws[n], call);
    if Whole(call) && MarkerFree(call.reply.out, MarkerOf(call)) {
      ShareOfWholeCall(call);
    }
    DeliverPrefix(Share(call), call.ctx.sends);
    hide Serve, Split, Share, Clean, Deliver, Lined, Visible, MarkerFree, MarkerLast;
  }

  /** A broken shell stays broken: every later call writes nothing to stdin, sends nothing and fails. */
  lemma {:induction false} BrokenForEver(ws: seq<Wire>, calls: seq<Call>, i: nat, j: nat)
    requires IsRun(ws, calls) && i <= j < |calls| && ws[i].broken.Some?
    ensures ws[j] == ws[i]
    ensures Serve(ws[j], calls[j]) == (ws[i], Failed(ws[i].broken.value), [])
  {
    if i < j {
      BrokenForEver(ws, calls, i, j - 1);
      assert ws[j - 1 + 1] == Serve(ws[j - 1], calls[j - 1]).0;
    }
  }

  // ---- out of step ----

  /** What a call sends: the lines before the first marker line, without the separator, as far as sends succeed. */
  lemma SentLines(w: Wire, call: Call)
    requires w.broken.None? && w.end.Open? && !call.ctx.doneBefore && call.reply.writeOk
    ensures var lines := Clean(Tokens(w.unread + Emitted(call.reply, MarkerOf(call))));
            Serve(w, call).2 == Deliver(lines[..FirstMarker(lines, MarkerOf(call))], call.ctx.sends)
  {
    hide Split, Decimal, Atoi, Marker, Script, Pieces, Absorb, Tokens, FirstMarker, Frame, Deliver, SendFails, Emitted;
  }

  /**
   * Out of step, the next command is handed the stale line in front of its own output; only an empty one directly
   * before a marker line is taken for the separator.
   */
  lemma StaleLineGoesToNextCommand(w: Wire, call: Call, l: string, rest: string)
    requires w.broken.None? && w.end.Open? && w.unread == l + "\n" + rest && '\n' !in l
    requires !(MarkerOf(call) <= l) && Whole(call) && call.ctx.sends.None?
    ensures var ch := Serve(w, call).2;
            && (ch == [] <==>
                  DropCR(l) == "" && MarkerOf(call) <= FirstLine(rest + Emitted(call.reply, MarkerOf(call))))
            && (ch != [] ==> ch[0] == DropCR(l) + "\n")
  {
    var m, p := MarkerOf(call), Emitted(call.reply, MarkerOf(call));
    MarkerShape(call.nanos);
    CleanKeepsMarker(l, m);
    assert w.unread + p == l + "\n" + (rest + p);
    TokensLine(l, rest + p);
    assert rest + p != "";
    ScanOne(rest + p);
    CleanKeepsMarker(FirstLine(rest + p), m);
    var lines := Clean(Tokens(w.unread + p));
    SentLines(w, call);
    hide Serve, Tokens, DropCR, Split, FirstLine, Emitted;
    assert lines[0] == DropCR(l) && lines[1] == DropCR(FirstLine(rest + p));
    StaleFirst(lines, m);
  }

  lemma StaleFirst(lines: seq<string>, m: string)
    requires |lines| >= 2 && !(m <= lines[0])
    ensures var sent := Visible(lines[..FirstMarker(lines, m)]);
            && (sent == [] <==> lines[0] == "" && m <= lines[1])
            && (sent != [] ==> sent[0] == lines[0])
  {
    var k := FirstMarker(lines, m);
    assert k >= 1 && (k == 1 <==> m <= lines[1]);
  }

  /**
   * One failing family: an output that prints the marker and an exit code itself. Its call succeeds with that code,
   * the shell is not marked broken, and the line after it is handed to the next command.
   */
  lemma ForgedMarkerLeaksLine(w: Wire, call: Call, next: Call, l: string)
    requires Synced(w) && Whole(call) && Whole(next) && next.ctx.sends.None?
    requires call.reply.out == MarkerOf(call) + "0\n" + l && '\n' !in l && DropCR(l) != "" && !(MarkerOf(next) <= l)
    ensures var (w', r, ch) := Serve(w, call);
            && w'.broken.None? && w'.unread != "" && ch == [] && r.Exited? && r.code == 0
            && Serve(w', next).2 != [] && Serve(w', next).2[0] == DropCR(l) + "\n"
  {
    var rest := MarkerOf(call) + Decimal(call.reply.code) + "\n";
    ForgedMarkerServed(w, call, l, rest);
    StaleLineGoesToNextCommand(Serve(w, call).0, next, l, rest);
  }

  lemma ForgedMarkerServed(w: Wire, call: Call, l: string, rest: string)
    requires Synced(w) && Whole(call)
    requires call.reply.out == MarkerOf(call) + "0\n" + l && rest == MarkerOf(call) + Decimal(call.reply.code) + "\n"
    ensures var (w', r, ch) := Serve(w, call);
            && w'.broken.None? && w'.end.Open? && w'.unread == l + "\n" + rest
            && ch == [] && r.Exited? && r.code == 0
  {
    var m := MarkerOf(call);
    var w1 := w.(pipe := if call.pace.early then "" else w.pipe, stderr := Collector("", m, 0));
    assert Serve(w, call) == ServeWritten(w1, call);
    MarkerShape(call.nanos);
    ForgedUnread(w1, call, l, rest);
    ForgedFrame(m, l + "\n" + rest);
    NoneSent(call.ctx.sends);
    hide Serve, ServeWritten, AfterWrite, Tokens, Clean, FirstMarker, AfterLines, Deliver, SendFails, Atoi, Marker,
         Decimal, Emitted, Script;
    var lines := Clean(Tokens((m + "0") + "\n" + (l + "\n" + rest)));
    MarkerReached(w1, call, lines, 0);
    assert lines[..0] == [];
  }

  lemma ForgedUnread(w: Wire, call: Call, l: string, rest: string)
    requires w.unread == "" && w.end.Open? && call.reply.cut.None?
    requires call.reply.out == MarkerOf(call) + "0\n" + l && rest == MarkerOf(call) + Decimal(call.reply.code) + "\n"
    ensures AfterWrite(w, call).unread == (MarkerOf(call) + "0") + "\n" + (l + "\n" + rest)
  {
    hide Marker, Decimal, Script;
    var m := MarkerOf(call);
    assert m + "0\n" == m + "0" + "\n";
    assert w.unread + Emitted(call.reply, m) == Frame(call.reply.out, m, call.reply.code);
  }

  lemma NoneSent(sends: Option<nat>)
    ensures Deliver([], sends) == [] && !SendFails([], sends)
  {
  }

  lemma ForgedFrame(m: string, tail: string)
    requires m != "" && '\n' !in m
    ensures var frame := (m + "0") + "\n" + tail;
            var lines := Clean(Tokens(frame));
            && lines != [] && FirstMarker(lines, m) == 0 && Atoi(lines[0][|m|..]) == Some(0)
            && AfterLines(frame, 1) == tail
  {
    var l, frame := m + "0", (m + "0") + "\n" + tail;
    assert Decimal(0) == "0";
    MarkerLine(m, 0);
    AtoiOfDecimal(0);
    TokensLine(l, tail);
    LineAndRest(frame);
    SplitLine(l, tail);
    assert frame[|l|] == '\n' && frame[|l|] in frame;
    assert frame == FirstLine(frame) + "\n" + AfterLine(frame) && FirstLine(frame) == l;
    hide Tokens, Split, FirstLine, AfterLine;
    assert AfterLine(frame) == frame[|l| + 1..] == tail;
    assert AfterLines(frame, 1) == AfterLines(AfterLine(frame), 0);
  }

  /** For example: a command prints such a line and a secret; the second command prints nothing and is handed it. */
  lemma ForgedMarkerExample()
    ensures var first := Call("first", 1, Reply(Marker(1) + "0\nsecret", 0, "", true, None), Context(false, None),
                              Reads(true, [], true));
            var second := Call("second", 2, Reply("", 0, "", true, None), Context(false, None), Reads(true, [], true));
            var w := Serve(START, first).0;
            w.broken.None? && Serve(w, second).2 != [] && Serve(w, second).2[0] == "secret\n"
  {
    var first := Call("first", 1, Reply(Marker(1) + "0\nsecret", 0, "", true, None), Context(false, None),
                      Reads(true, [], true));
    var second := Call("second", 2, Reply("", 0, "", true, None), Context(false, None), Reads(true, [], true));
    assert Marker(2)[0] == '_' && "secret"[0] == 's';
    hide Serve;
    ForgedMarkerLeaksLine(START, first, second, "secret");
  }
}
