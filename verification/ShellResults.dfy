/** What a call returns and when the shell is broken, for every state of the pipes and every behaviour of bash. */
module ShellResults {
  import opened Prelude
  import opened Lines
  import opened Stderr
  import opened Shell
  import opened ShellRuns

  /** The script is written: the shell is not broken, the request is not done and the write succeeds. */
  predicate Reached(w: Wire, call: Call) {
    w.broken.None? && !call.ctx.doneBefore && call.reply.writeOk
  }

  /** The lines a call can read: those left unread, and what bash adds while the stream is open. */
  function Heard(w: Wire, call: Call): seq<string> {
    Clean(Tokens(if w.end.Open? then w.unread + Emitted(call.reply, MarkerOf(call)) else w.unread))
  }

  /** Where the first line starting with the marker is, or the number of lines. */
  function MarkerAt(w: Wire, call: Call): nat {
    FirstMarker(Heard(w, call), MarkerOf(call))
  }

  predicate MarkerComes(w: Wire, call: Call) {
    exists i :: 0 <= i < |Heard(w, call)| && MarkerOf(call) <= Heard(w, call)[i]
  }

  /** What stands behind the first marker. */
  function ExitCode(w: Wire, call: Call): Option<int>
    requires MarkerComes(w, call)
  {
    Atoi(Heard(w, call)[MarkerAt(w, call)][|MarkerOf(call)|..])
  }

  predicate EndsByError(w: Wire, call: Call) {
    if w.end.Open? then call.reply.cut.Some? && call.reply.cut.value.1 else w.end == ReadError
  }

  predicate SendFailsBefore(w: Wire, call: Call) {
    SendFails(Heard(w, call)[..MarkerAt(w, call)], call.ctx.sends)
  }

  lemma MarkerComesAt(w: Wire, call: Call)
    ensures MarkerComes(w, call) <==> MarkerAt(w, call) < |Heard(w, call)|
  {
    hide Heard;
  }

  /**
   * A call ends with an exit code if and only if it reached bash, a line with the marker and a readable exit code came,
   * and no send had failed before it; that is then the code returned.
   */
  lemma ExitsExactlyWhen(w: Wire, call: Call)
    ensures var r := Serve(w, call).1;
            && (r.Exited? <==> Reached(w, call) && MarkerComes(w, call) && ExitCode(w, call).Some?
                               && !SendFailsBefore(w, call))
            && (r.Exited? ==> Some(r.code) == ExitCode(w, call))
  {
    MarkerComesAt(w, call);
    hide Split, Decimal, Atoi, Marker, Script, Pieces, Absorb, Tokens, FirstMarker, Frame, Deliver, SendFails, Emitted,
         Clean, AfterLines, MarkerComes;
  }

  /** Each error has its cause. A shell that was broken before returns the error that broke it. */
  lemma FailsExactlyWhen(w: Wire, call: Call)
    requires w.broken.None?
    ensures var r, reached, comes := Serve(w, call).1, Reached(w, call), MarkerComes(w, call);
            && (r == Failed(ContextDone) <==> call.ctx.doneBefore)
            && (r == Failed(WriteFailed) <==> !call.ctx.doneBefore && !call.reply.writeOk)
            && (r == Failed(ScanFailed) <==> reached && !comes && EndsByError(w, call))
            && (r == Failed(UnexpectedEnd) <==> reached && !comes && !EndsByError(w, call))
            && (r == Failed(BadExitCode) <==> reached && comes && ExitCode(w, call).None?)
            && (r == Failed(SendFailed) <==> reached && comes && ExitCode(w, call).Some? && SendFailsBefore(w, call))
  {
    MarkerComesAt(w, call);
    hide Split, Decimal, Atoi, Marker, Script, Pieces, Absorb, Tokens, FirstMarker, Frame, Deliver, SendFails, Emitted,
         Clean, AfterLines, MarkerComes;
  }

  /**
   * A call leaves the shell broken if and only if it was broken before, or the request was not done and the write
   * failed, no marker line came, or a send failed and the marker line had no readable exit code.
   */
  lemma BreaksExactlyWhen(w: Wire, call: Call)
    ensures var b := Serve(w, call).0.broken;
            && (b.Some? <==>
                  || w.broken.Some?
                  || (!call.ctx.doneBefore
                      && (!call.reply.writeOk || !MarkerComes(w, call)
                          || (ExitCode(w, call).None? && SendFailsBefore(w, call)))))
            && (w.broken.Some? ==> b == w.broken)
            && (w.broken.None? && b.Some? ==>
                  b.value == if !call.reply.writeOk then WriteFailed else if MarkerComes(w, call) then SendFailed
                             else if EndsByError(w, call) then ScanFailed else UnexpectedEnd)
  {
    MarkerComesAt(w, call);
    hide Split, Decimal, Atoi, Marker, Script, Pieces, Absorb, Tokens, FirstMarker, Frame, Deliver, SendFails, Emitted,
         Clean, AfterLines, MarkerComes;
  }

  /**
   * What is sent: the visible lines in front of the marker, all of those that came when it never does, as far as sends
   * succeed. The script is written exactly when the call reaches bash; otherwise nothing is sent or read.
   */
  lemma SendsExactly(w: Wire, call: Call)
    ensures var (w', _, ch) := Serve(w, call);
            if Reached(w, call) then
              && w'.stdin == w.stdin + [Script(call.command, MarkerOf(call))]
              && ch == Deliver(Heard(w, call)[..MarkerAt(w, call)], call.ctx.sends)
            else w'.stdin == w.stdin && w'.unread == w.unread && w'.end == w.end && ch == []
  {
    hide Split, Decimal, Atoi, Marker, Script, Pieces, Absorb, Tokens, FirstMarker, Frame, Deliver, SendFails, Emitted,
         Clean, AfterLines;
  }

  /** Without cancellation the chunks are those lines, each with a newline, and nothing else. */
  lemma UncancelledSendsAll(w: Wire, call: Call)
    requires Reached(w, call) && call.ctx.sends.None?
    ensures var ls, ch := Visible(Heard(w, call)[..MarkerAt(w, call)]), Serve(w, call).2;
            |ch| == |ls| && forall i :: 0 <= i < |ls| ==> ch[i] == ls[i] + "\n"
  {
    SendsExactly(w, call);
    hide Serve, Heard, MarkerAt, Visible;
  }

  /** What the stderr goroutine can read: bytes left over unless they were read before, and what bash adds. */
  function ErrorBytes(w: Wire, call: Call): string {
    (if call.pace.early then "" else w.pipe)
    + (if w.end.Open? then call.reply.err + MarkerOf(call) + "\n" else "")
  }

  /** The wire as the script is written: a fresh collector, with bytes left over or not. */
  function Primed(w: Wire, call: Call): Wire {
    w.(pipe := if call.pace.early then "" else w.pipe, stderr := Collector("", MarkerOf(call), 0))
  }

  lemma Writes(w: Wire, call: Call)
    requires Reached(w, call)
    ensures Serve(w, call) == ServeWritten(Primed(w, call), call)
    ensures AfterWrite(Primed(w, call), call).pipe == ErrorBytes(w, call)
    ensures Clean(Tokens(AfterWrite(Primed(w, call), call).unread)) == Heard(w, call)
  {
    hide ServeWritten, Clean, Tokens, Marker, Script, Emitted;
    var left := if call.pace.early then "" else w.pipe;
    assert left + call.reply.err + MarkerOf(call) + "\n" == left + (call.reply.err + MarkerOf(call) + "\n");
    assert left + "" == left;
  }

  /** The stderr returned is what a fresh collector holds after reading the pipe at the goroutine's pace. */
  lemma StderrReturned(w: Wire, call: Call)
    ensures var (w', r, _) := Serve(w, call);
            r.Exited? ==>
              var c := Collector("", MarkerOf(call), 0);
              var ps := Pieces(c, ErrorBytes(w, call), call.pace);
              r.stderr == Absorb(c, ps).buf && w'.pipe == ErrorBytes(w, call)[|Concat(ps)|..]
  {
    if Serve(w, call).1.Exited? {
      ExitsExactlyWhen(w, call);
      MarkerComesAt(w, call);
      Writes(w, call);
      hide Serve, ServeWritten, AfterWrite, ErrorBytes, Split, Decimal, Atoi, Marker, Script, Pieces, Absorb, Tokens,
           FirstMarker, Emitted, Clean, MarkerComes, Heard;
      StderrReached(Primed(w, call), call, ErrorBytes(w, call));
    }
  }

  // ---- what is written, and by which line it is recognised ----

  /**
   * The lines of a script: the environment is reloaded around the command, whose exit code is kept right after it; then
   * the marker goes to stderr, a newline to stdout, and the marker with the exit code to stdout.
   */
  lemma ScriptLines(command: string, m: string)
    requires '\n' !in m
    ensures Split(Script(command, m))
            == [RELOAD_ENV] + Split(command)
               + ["__ec=$?", RELOAD_ENV, "builtin echo '" + m + "' >&2", "builtin echo ''",
                  "builtin echo '" + m + "'${__ec}", ""]
  {
    var rest := Unlines(Epilogue(m));
    ReloadIsOneLine();
    EpilogueLines(m);
    hide RELOAD_ENV, Split, Unlines;
    assert Script(command, m) == RELOAD_ENV + "\n" + (command + "\n" + rest);
    SplitAfterNewline(command, rest);
    SplitLine(RELOAD_ENV, command + "\n" + rest);
    hide Script;
    Regroup([RELOAD_ENV], Split(command), Epilogue(m) + [""]);
  }

  lemma Regroup(a: seq<string>, b: seq<string>, c: seq<string>)
    ensures a + (b + c) == a + b + c
  {
  }

  lemma EpilogueLines(m: string)
    requires '\n' !in m
    ensures Split(Unlines(Epilogue(m))) == Epilogue(m) + [""]
  {
    ReloadIsOneLine();
    hide RELOAD_ENV;
    forall l | l in Epilogue(m) ensures '\n' !in l {
    }
    hide Split, Unlines, Epilogue;
    SplitUnlines(Epilogue(m));
  }

  lemma ReloadIsOneLine()
    ensures '\n' !in RELOAD_ENV
  {
  }

  lemma {:induction false} SplitUnlines(ls: seq<string>)
    requires forall l :: l in ls ==> '\n' !in l
    ensures Split(Unlines(ls)) == ls + [""]
  {
    if ls != [] {
      SplitUnlines(ls[1..]);
      SplitLine(ls[0], Unlines(ls[1..]));
    }
  }

  /** The marker line of one command is never taken for that of a command started at another time. */
  lemma MarkersDiffer(a: nat, b: nat, code: nat)
    ensures Marker(a) <= Marker(b) + Decimal(code) <==> a == b
  {
    var p, q := Decimal(a), Decimal(b);
    var s, t := Marker(a), Marker(b) + Decimal(code);
    if s <= t {
      hide Decimal;
      assert forall i :: 0 <= i < |p| ==> IsDigit(p[i]) && s[6 + i] == p[i] == t[6 + i];
      assert s[6 + |p|] == '_' == t[6 + |p|];
      assert forall i :: 0 <= i < |q| ==> IsDigit(q[i]) && t[6 + i] == q[i];
      assert t[6 + |q|] == '_';
      assert |p| == |q|;
      assert p == q;
      DigitsOfDecimal(a);
      DigitsOfDecimal(b);
    }
  }
}
