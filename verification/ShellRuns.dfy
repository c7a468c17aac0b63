/** What commands get back from one shell, over any sequence of calls. */
module ShellRuns {
  import opened Prelude
  import opened Lines
  import opened Stderr
  import opened Shell

  /** No line of the output starts with the marker. */
  predicate MarkerFree(out: string, m: string) {
    forall i :: 0 <= i < |Split(out)| ==> !(m <= Split(out)[i])
  }

  /** Between commands: nothing of stdout is unread, and at most the newline after the last marker waits on stderr. */
  predicate Synced(w: Wire) {
    w.broken.None? && w.unread == "" && w.end.Open? && (w.pipe == "" || w.pipe == "\n")
  }

  function MarkerOf(call: Call): string {
    Marker(call.nanos)
  }

  /** The call reaches bash and bash answers in full. */
  predicate Whole(call: Call) {
    !call.ctx.doneBefore && call.reply.writeOk && call.reply.cut.None? && call.reply.code <= MAX_INT
  }

  lemma MarkerShape(nanos: nat)
    ensures var m := Marker(nanos);
            m != "" && '\n' !in m && '\r' !in m
  {
    var d := Decimal(nanos);
    assert forall c :: c in d ==> IsDigit(c);
    assert "__MRK_"[0] == '_' && Marker(nanos)[0] == '_';
  }

  // ---- the lines of a frame ----

  lemma FrameSplit(out: string, m: string, code: nat)
    requires '\n' !in m
    ensures Split(Frame(out, m, code)) == Split(out) + [m + Decimal(code), ""]
    ensures Tokens(Frame(out, m, code)) == Split(out) + [m + Decimal(code)]
  {
    var l := m + Decimal(code);
    SplitAfterNewline(out, l + "\n");
    SplitLine(l, "");
    assert l + "\n" + "" == l + "\n" && [l] + [""] == [l, ""];
    assert out + "\n" + (l + "\n") == Frame(out, m, code);
    var ps := Split(out) + [l, ""];
    assert Last(ps) == "" && Front(ps) == Split(out) + [l];
  }

  /** Dropping a carriage return neither makes nor hides a marker. */
  lemma CleanKeepsMarker(l: string, m: string)
    requires m != "" && '\r' !in m
    ensures m <= DropCR(l) <==> m <= l
  {
    assert Last(m) in m;
    if m <= l && |l| == |m| {
      assert l == m;
    }
  }

  lemma MarkerLine(m: string, code: nat)
    requires m != ""
    ensures DropCR(m + Decimal(code)) == m + Decimal(code) && (m + Decimal(code))[|m|..] == Decimal(code)
  {
    var d := Decimal(code);
    assert Last(m + d) == Last(d) && Last(d) in d;
  }

  /** The first marker line of a frame is the real one exactly when the output has none of its own. */
  lemma FirstMarkerOfFrame(out: string, m: string, code: nat)
    requires m != "" && '\n' !in m && '\r' !in m
    ensures var lines, n := Clean(Tokens(Frame(out, m, code))), |Split(out)|;
            && |lines| == n + 1 && lines[..n] == Clean(Split(out)) && lines[n] == m + Decimal(code)
            && FirstMarker(lines, m) <= n
            && (FirstMarker(lines, m) == n <==> MarkerFree(out, m))
  {
    var n := |Split(out)|;
    FrameSplit(out, m, code);
    MarkerLine(m, code);
    var lines := Clean(Tokens(Frame(out, m, code)));
    assert lines[..n] == Clean(Split(out));
    forall i | 0 <= i < n ensures m <= lines[i] <==> m <= Split(out)[i] {
      CleanKeepsMarker(Split(out)[i], m);
    }
    assert m <= lines[n];
    hide Frame;
    var k := FirstMarker(lines, m);
  }

  // ---- stderr ----

  lemma {:induction false} AbsorbAhead(c: Collector, x: string, rest: seq<string>)
    ensures Absorb(c, [x] + rest) == Absorb(OnRead(c, x), rest)
    decreases rest
  {
    hide OnRead;
    if rest == [] {
      assert [x] + rest == [x] && Front([x]) == [];
    } else {
      assert Front([x] + rest) == [x] + Front(rest) && Last([x] + rest) == Last(rest);
      AbsorbAhead(c, x, Front(rest));
    }
  }

  lemma NextPiece(c: Collector, pipe: string, sizes: seq<nat>)
    requires c.closes == 0 && pipe != ""
    ensures var n := ReadSize(pipe, sizes);
            PiecesUntilDone(c, pipe, sizes)
            == [pipe[..n]] + PiecesUntilDone(OnRead(c, pipe[..n]), pipe[n..], if sizes == [] then [] else sizes[1..])
  {
  }

  /** Reading until the marker is found stops with the channel closed, or with everything read. */
  lemma {:induction false} PiecesClose(c: Collector, pipe: string, sizes: seq<nat>)
    ensures var ps := PiecesUntilDone(c, pipe, sizes);
            Absorb(c, ps).closes > 0 || Concat(ps) == pipe
    decreases |pipe|
  {
    if c.closes == 0 && pipe != "" {
      NextPiece(c, pipe, sizes);
      hide OnRead, PiecesUntilDone, Absorb;
      var n := ReadSize(pipe, sizes);
      var sizes' := if sizes == [] then [] else sizes[1..];
      var rest := PiecesUntilDone(OnRead(c, pipe[..n]), pipe[n..], sizes');
      PiecesClose(OnRead(c, pipe[..n]), pipe[n..], sizes');
      AbsorbAhead(c, pipe[..n], rest);
      assert pipe == pipe[..n] + pipe[n..];
    }
  }

  /** The read that completes the marker ends with it, so that its newline comes in a later read. */
  predicate NewlineApart(e: string, m: string, sizes: seq<nat>) {
    |Concat(PiecesUntilDone(Collector("", m, 0), e + m + "\n", sizes))| == |e| + |m|
  }

  /**
   * A command's stderr, with `e` in the pipe before its marker. When the newline comes apart from the marker it ends
   * up behind `e` if it is read before the buffer is collected, and stays in the pipe if it is not.
   */
  lemma StderrCollected(e: string, m: string, pace: Reads)
    requires m != "" && MarkerLast(e, m)
    ensures var pipe, apart := e + m + "\n", NewlineApart(e, m, pace.sizes);
            var ps := Pieces(Collector("", m, 0), pipe, pace);
            && Absorb(Collector("", m, 0), ps) == Collector(if apart && pace.late then e + "\n" else e, "", 1)
            && pipe[|Concat(ps)|..] == if apart && !pace.late then "\n" else ""
  {
    var pipe, c0, n := e + m + "\n", Collector("", m, 0), |e| + |m|;
    var ps := Pieces(c0, pipe, pace);
    var until := PiecesUntilDone(c0, pipe, pace.sizes);
    PiecesClose(c0, pipe, pace.sizes);
    StderrInAnyCut(e, m, until);
    StderrInAnyCut(e, m, ps);
    hide OnRead, FirstIndex, MarkerLast;
    assert |Concat(until)| >= n;
    NotLate(until, c0, pipe, pace, e, m);
    if ps != until {
      var last := pipe[|Concat(until)|..];
      assert ps == until + [last] && |last| == 1;
      ConcatLast(ps);
      assert Front(ps) == until;
      assert |Concat(ps)| == n + 1;
      assert !SameRead(until, n) by {
        if SameRead(until, n) { SameReadIsLate(until, n); }
      }
    }
  }

  /** Reading stops with the read that completes the marker: a newline arriving with it is taken out too. */
  lemma NotLate(ps: seq<string>, c0: Collector, pipe: string, pace: Reads, e: string, m: string)
    requires m != "" && MarkerLast(e, m) && pipe == e + m + "\n" && c0 == Collector("", m, 0)
    requires ps == PiecesUntilDone(c0, pipe, pace.sizes) && |Concat(ps)| >= |e| + |m|
    ensures |Concat(ps)| == |e| + |m| || SameRead(ps, |e| + |m|)
  {
    if |Concat(ps)| > |e| + |m| {
      StopsAtClose(c0, pipe, pace.sizes);
      hide PiecesUntilDone, Absorb, OnRead, FirstIndex, MarkerLast;
      LastRead(ps, pipe);
      StderrInAnyCut(e, m, Front(ps));
    }
  }

  lemma LastRead(ps: seq<string>, pipe: string)
    requires Concat(ps) != "" && Concat(ps) <= pipe
    ensures ps != [] && Concat(ps) == Concat(Front(ps)) + Last(ps) && Concat(Front(ps)) <= pipe
  {
    ConcatLast(ps);
  }

  lemma {:induction false} StopsAtClose(c: Collector, pipe: string, sizes: seq<nat>)
    ensures var ps := PiecesUntilDone(c, pipe, sizes);
            ps != [] ==> Absorb(c, Front(ps)).closes == 0
    decreases |pipe|
  {
    hide OnRead;
    var ps := PiecesUntilDone(c, pipe, sizes);
    if ps != [] {
      var n := ReadSize(pipe, sizes);
      var sizes' := if sizes == [] then [] else sizes[1..];
      var rest := PiecesUntilDone(OnRead(c, pipe[..n]), pipe[n..], sizes');
      StopsAtClose(OnRead(c, pipe[..n]), pipe[n..], sizes');
      if rest == [] {
        assert Front(ps) == [];
      } else {
        assert Front(ps) == [pipe[..n]] + Front(rest);
        AbsorbAhead(c, pipe[..n], Front(rest));
      }
    }
  }

  lemma LeftoverKeepsMarkerLast(e: string, m: string)
    requires m != "" && m[0] != '\n' && MarkerLast(e, m)
    ensures MarkerLast("\n" + e, m)
  {
    var s, s' := e + m, "\n" + e + m;
    assert s' == "\n" + s && s'[1..] == s;
    if |m| <= |s'| {
      assert s'[0..|m|][0] == '\n' != m[0];
    }
    assert FirstIndex(s'[1..], m) == Some(|e|);
    assert |"\n" + e| == |e| + 1;
  }

  // ---- one call ----

  /** The first marker line has no readable exit code and a send before it has failed. */
  predicate SendLost(lines: seq<string>, m: string, sends: Option<nat>)
    requires FirstMarker(lines, m) < |lines|
  {
    var k := FirstMarker(lines, m);
    Atoi(lines[k][|m|..]).None? && SendFails(lines[..k], sends)
  }

  /**
   * What a call that bash answers in full does: nothing stays unread exactly when the output has no marker line of its
   * own, and then the output's lines are sent, as far as sends succeed, and the exit code is bash's. The shell is
   * marked broken only when a send has failed and no exit code can be read.
   */
  ghost predicate AnsweredInFull(w: Wire, call: Call, w': Wire, r: Result, ch: seq<string>) {
    && w'.stdin == w.stdin + [Script(call.command, MarkerOf(call))]
    && (w'.unread == "" <==> MarkerFree(call.reply.out, MarkerOf(call)))
    && (var lines, m := Clean(Tokens(Frame(call.reply.out, MarkerOf(call), call.reply.code))), MarkerOf(call);
        FirstMarker(lines, m) < |lines| && (w'.broken.Some? <==> SendLost(lines, m, call.ctx.sends)))
    && (MarkerFree(call.reply.out, MarkerOf(call)) ==>
          var lines := Clean(Split(call.reply.out));
          && ch == Deliver(lines, call.ctx.sends)
          && w'.broken.None? && w'.end.Open?
          && (if SendFails(lines, call.ctx.sends) then r == Failed(SendFailed)
              else r.Exited? && r.code == call.reply.code))
  }

  /** A call that bash answers in full, on a shell in step. */
  lemma WholeCall(w: Wire, call: Call)
    requires Synced(w) && Whole(call)
    ensures var (w', r, ch) := Serve(w, call);
            AnsweredInFull(w, call, w', r, ch)
  {
    var w1 := w.(pipe := if call.pace.early then "" else w.pipe, stderr := Collector("", MarkerOf(call), 0));
    assert Serve(w, call) == ServeWritten(w1, call);
    hide Serve;
    WholeCallWritten(w1, call);
  }

  lemma WholeCallWritten(w: Wire, call: Call)
    requires w.broken.None? && w.unread == "" && w.end.Open? && Whole(call)
    ensures var (w', r, ch) := ServeWritten(w, call);
            AnsweredInFull(w, call, w', r, ch)
  {
    var m, out, code := MarkerOf(call), call.reply.out, call.reply.code;
    var frame := Frame(out, m, code);
    var lines := Clean(Tokens(frame));
    var k := FirstMarker(lines, m);
    assert AfterWrite(w, call).unread == frame by {
      assert w.unread + frame == frame;
    }
    assert k < |lines| && (k + 1 == |lines| <==> MarkerFree(out, m))
        && (k + 1 == |lines| ==> lines[..k] == Clean(Split(out)) && Atoi(lines[k][|m|..]) == Some(code)) by {
      MarkerShape(call.nanos);
      FirstMarkerOfFrame(out, m, code);
      MarkerLine(m, code);
      AtoiOfDecimal(code);
    }
    assert AfterLines(frame, k + 1) == "" <==> k + 1 == |lines| by {
      ScanMany(frame, k + 1);
      NoTokens();
    }
    hide Frame, Tokens, Clean, FirstMarker, Split, Decimal, Atoi, Marker, MarkerFree, AfterLines, AfterWrite,
         ServeWritten, Deliver, SendFails, Emitted, Script;
    MarkerReached(w, call, lines, k);
  }

  /** What a call does once a marker line has been found. */
  lemma MarkerReached(w: Wire, call: Call, lines: seq<string>, k: nat)
    requires lines == Clean(Tokens(AfterWrite(w, call).unread))
    requires k == FirstMarker(lines, MarkerOf(call)) && k < |lines|
    requires w.broken.None? && w.end.Open? && call.reply.cut.None?
    ensures var (w', r, ch) := ServeWritten(w, call);
            var code := Atoi(lines[k][|MarkerOf(call)|..]);
            && w'.stdin == w.stdin + [Script(call.command, MarkerOf(call))]
            && w'.unread == AfterLines(AfterWrite(w, call).unread, k + 1)
            && w'.end.Open?
            && ch == Deliver(lines[..k], call.ctx.sends)
            && (w'.broken.Some? <==> code.None? && SendFails(lines[..k], call.ctx.sends))
            && (code.Some? ==> if SendFails(lines[..k], call.ctx.sends) then r == Failed(SendFailed)
                               else r.Exited? && r.code == code.value)
  {
    hide Split, Decimal, Atoi, Marker, Script, Pieces, Absorb, Tokens, FirstMarker, Frame, Deliver, SendFails, Clean,
         Emitted;
  }

  /** The stderr a call collects once its marker line has been found with a readable exit code. */
  lemma StderrReached(w: Wire, call: Call, pipe: string)
    requires w.stderr == Collector("", MarkerOf(call), 0) && pipe == AfterWrite(w, call).pipe
    requires var lines := Clean(Tokens(AfterWrite(w, call).unread));
             var k := FirstMarker(lines, MarkerOf(call));
             k < |lines| && Atoi(lines[k][|MarkerOf(call)|..]).Some?
    ensures var (w', r, ch) := ServeWritten(w, call);
            var ps := Pieces(w.stderr, pipe, call.pace);
            && w'.pipe == pipe[|Concat(ps)|..]
            && (r.Exited? ==> r.stderr == Absorb(w.stderr, ps).buf)
  {
    hide Split, Decimal, Atoi, Marker, Script, Pieces, Absorb, Tokens, FirstMarker, Frame, Deliver, SendFails, Emitted,
         Clean, AfterLines;
  }

  /**
   * Its stderr: what was left over from the previous command, this command's, and a newline read apart from the marker
   * but in time. It is what the command printed exactly when nothing was left over and no such newline came.
   */
  lemma WholeCallStderr(w: Wire, call: Call)
    requires Synced(w) && Whole(call) && MarkerFree(call.reply.out, MarkerOf(call))
    requires MarkerLast(call.reply.err, MarkerOf(call))
    ensures var (w', r, ch) := Serve(w, call);
            var e := (if call.pace.early then "" else w.pipe) + call.reply.err;
            var apart := NewlineApart(e, MarkerOf(call), call.pace.sizes);
            && Synced(w')
            && w'.pipe == (if apart && !call.pace.late then "\n" else "")
            && (r.Exited? ==>
                  && r.stderr == (if apart && call.pace.late then e + "\n" else e)
                  && (r.stderr == call.reply.err <==> (w.pipe == "" || call.pace.early) && !(apart && call.pace.late)))
  {
    var m, code, left := MarkerOf(call), call.reply.code, if call.pace.early then "" else w.pipe;
    var w1 := w.(pipe := left, stderr := Collector("", m, 0));
    assert Serve(w, call) == ServeWritten(w1, call);
    WholeCall(w, call);
    assert Serve(w, call).0.unread == "" && Serve(w, call).0.broken.None? && Serve(w, call).0.end.Open?;
    hide AnsweredInFull, Serve, ServeWritten, Split, Clean, Deliver, SendFails, Decimal, Atoi, Marker, Script, Tokens,
         FirstMarker, Frame, Emitted, MarkerLast, MarkerFree, Pieces, Absorb;
    var e := left + call.reply.err;
    FrameHasCode(w1, call);
    ErrorOutput(left, call);
    StderrReached(w1, call, e + m + "\n");
    StderrCollected(e, m, call.pace);
  }

  lemma FrameHasCode(w: Wire, call: Call)
    requires w.unread == "" && w.end.Open? && Whole(call)
    ensures var lines := Clean(Tokens(AfterWrite(w, call).unread));
            var k := FirstMarker(lines, MarkerOf(call));
            MarkerFree(call.reply.out, MarkerOf(call)) ==>
              k < |lines| && Atoi(lines[k][|MarkerOf(call)|..]) == Some(call.reply.code)
  {
    var m, code := MarkerOf(call), call.reply.code;
    assert AfterWrite(w, call).unread == Frame(call.reply.out, m, code) by {
      assert w.unread + Emitted(call.reply, m) == Frame(call.reply.out, m, code);
    }
    MarkerShape(call.nanos);
    FirstMarkerOfFrame(call.reply.out, m, code);
    MarkerLine(m, code);
    AtoiOfDecimal(code);
  }

  /** A newline left over in front does not move the first occurrence of the marker. */
  lemma ErrorOutput(left: string, call: Call)
    requires (left == "" || left == "\n") && MarkerLast(call.reply.err, MarkerOf(call))
    ensures MarkerOf(call) != "" && MarkerLast(left + call.reply.err, MarkerOf(call))
  {
    MarkerShape(call.nanos);
    if left == "\n" {
      LeftoverKeepsMarkerLast(call.reply.err, MarkerOf(call));
    } else {
      assert left + call.reply.err == call.reply.err;
    }
  }

  /** The complete lines of a beginning of a frame are the output's lines, then the marker line. */
  lemma PrefixLines(out: string, m: string, code: nat, p: string)
    requires '\n' !in m && p <= Frame(out, m, code)
    ensures |Tokens(p)| <= |Split(out)| + 1
    ensures forall i :: 0 <= i < |Tokens(p)| - 1 ==> Tokens(p)[i] == Split(out)[i]
  {
    FrameSplit(out, m, code);
    SplitPrefix(p, Frame(out, m, code));
    hide Frame, Split, Decimal;
    var ps, all, n := Split(p), Split(Frame(out, m, code)), |Split(out)|;
    assert |ps| == n + 2 ==> Last(ps) <= all[n + 1] == "";
    forall i | 0 <= i < |Tokens(p)| - 1 ensures Tokens(p)[i] == Split(out)[i] {
      assert Tokens(p)[i] == ps[i] == Front(ps)[i] == all[i];
    }
  }

  /** Even when the stream ends somewhere inside the frame, only the last line read can be a marker line. */
  lemma MarkerIsLastLine(out: string, m: string, code: nat, p: string)
    requires m != "" && '\n' !in m && '\r' !in m && MarkerFree(out, m) && p <= Frame(out, m, code)
    ensures var lines := Clean(Tokens(p));
            FirstMarker(lines, m) + 1 >= |lines|
  {
    PrefixLines(out, m, code, p);
    hide Frame, Split, Tokens, DropCR;
    var lines := Clean(Tokens(p));
    forall i | 0 <= i < |lines| - 1 ensures !(m <= lines[i]) {
      CleanKeepsMarker(Tokens(p)[i], m);
    }
  }

  /** What a written call leaves unread: what follows the marker line, or nothing when the stream ended without one. */
  lemma LeftUnread(w: Wire, call: Call, text: string)
    requires text == AfterWrite(w, call).unread
    ensures var w' := ServeWritten(w, call).0;
            var lines := Clean(Tokens(text));
            var k := FirstMarker(lines, MarkerOf(call));
            && w'.unread == (if k == |lines| then "" else AfterLines(text, k + 1))
            && w'.end == AfterWrite(w, call).end
            && (w.broken.None? ==>
                  (w'.broken.None? <==> k < |lines| && !SendLost(lines, MarkerOf(call), call.ctx.sends)))
  {
    hide Split, Decimal, Atoi, Marker, Script, Pieces, Absorb, Tokens, FirstMarker, Frame, Deliver, SendFails, Emitted,
         Clean, AfterLines;
  }

  lemma RestUnread(p: string, n: nat)
    requires n <= |Tokens(p)|
    ensures AfterLines(p, n) == "" <==> n == |Tokens(p)|
  {
    ScanMany(p, n);
    NoTokens();
  }

  /** Output and error output do not contain the marker where the shell looks for it. */
  predicate Tame(call: Call) {
    && MarkerFree(call.reply.out, MarkerOf(call)) && MarkerLast(call.reply.err, MarkerOf(call))
    && call.reply.code <= MAX_INT
  }

  /** A cancelled call sends what the uncancelled call sends up to the first failed send, and nothing after it. */
  lemma CancelledIsPrefix(w: Wire, call: Call, sends: Option<nat>)
    requires call.ctx.sends.None?
    ensures var cut := Serve(w, call.(ctx := call.ctx.(sends := sends))).2;
            && cut <= Serve(w, call).2
            && |cut| == if sends.Some? && sends.value < |Serve(w, call).2| then sends.value else |Serve(w, call).2|
  {
    hide Split, Decimal, Atoi, Marker, Script, Pieces, Absorb, Tokens, FirstMarker, Frame, Emitted, Lined, Visible;
  }

  // ---- the text a command's lines make up ----

  /** The text, with a newline added when it has an unterminated last line. */
  function Terminated(s: string): string {
    if s == "" || Last(s) == '\n' then s else s + "\n"
  }

  /** No line ends in a carriage return. */
  predicate NoCarriageReturns(s: string) {
    forall i :: 0 <= i < |Split(s)| && Split(s)[i] != "" ==> Last(Split(s)[i]) != '\r'
  }

  lemma {:induction false} ConcatLined(ls: seq<string>)
    ensures Concat(Lined(ls)) == Unlines(ls)
  {
    if ls != [] {
      ConcatLined(ls[1..]);
      assert Lined(ls)[1..] == Lined(ls[1..]);
    }
  }

  lemma {:induction false} LastPiece(s: string)
    ensures Last(Split(s)) == "" <==> s == "" || Last(s) == '\n'
  {
    if s != "" {
      LastPiece(s[1..]);
      if s[1..] == "" {
        assert Split(s) == Push(s[0], [""]);
        assert [s[0]] + "" == [s[0]] && Last(Push(s[0], [""])) == if s[0] == '\n' then "" else [s[0]];
      } else {
        assert Last(s) == Last(s[1..]);
        var ps := Split(s[1..]);
        assert Last(Push(s[0], ps)) == if s[0] != '\n' && |ps| == 1 then [s[0]] + ps[0] else Last(ps);
        if |ps| == 1 && ps[0] == "" {
          SingleEmptyPiece(s[1..]);
        }
      }
    }
  }

  lemma SingleEmptyPiece(s: string)
    requires Split(s) == [""]
    ensures s == ""
  {
    UnlinesSplit(s);
    assert Unlines([""]) == "" + "\n" + Unlines([]);
    assert |s + "\n"| == 1;
  }

  lemma UnlinesBlankLast(ls: seq<string>)
    requires ls != [] && Last(ls) == ""
    ensures Unlines(ls) == Unlines(Front(ls)) + "\n"
  {
    assert ls == Front(ls) + [""];
    UnlinesAppend(Front(ls), [""]);
    assert Unlines([""]) == "" + "\n" + Unlines([]) == "\n";
  }

  lemma VisibleText(s: string)
    ensures Unlines(Visible(Split(s))) == Terminated(s)
  {
    var ps := Split(s);
    UnlinesSplit(s);
    LastPiece(s);
    if Last(ps) == "" {
      UnlinesBlankLast(ps);
      hide Split, Unlines;
      assert Unlines(Front(ps)) == (Unlines(Front(ps)) + "\n")[..|s|] == s;
    }
  }

  lemma {:induction false} CleanShortens(ls: seq<string>)
    ensures |Unlines(Clean(ls))| <= |Unlines(ls)|
    ensures |Unlines(Clean(ls))| == |Unlines(ls)| <==> Clean(ls) == ls
  {
    if ls != [] {
      CleanShortens(ls[1..]);
      assert Clean(ls)[1..] == Clean(ls[1..]);
      assert Clean(ls) == [DropCR(ls[0])] + Clean(ls[1..]) && ls == [ls[0]] + ls[1..];
    }
  }

  /** The lines sent for an output make up that output, terminated, exactly when none of its lines ends in '\r'. */
  lemma SentTextIsOutput(out: string)
    ensures Concat(Lined(Visible(Clean(Split(out))))) == Terminated(out) <==> NoCarriageReturns(out)
  {
    var ls := Split(out);
    ConcatLined(Visible(Clean(ls)));
    VisibleText(out);
    if NoCarriageReturns(out) {
      assert Clean(ls) == ls;
    } else {
      CleanShortens(ls);
      assert Clean(ls) != ls;
      LastVisible(ls);
      LastVisible(Clean(ls));
      assert Last(ls) == "" ==> Last(Clean(ls)) == "";
    }
  }

  lemma LastVisible(ls: seq<string>)
    requires ls != []
    ensures |Unlines(Visible(ls))| == |Unlines(ls)| - if Last(ls) == "" then 1 else 0
  {
    if Last(ls) == "" {
      UnlinesBlankLast(ls);
    }
  }
}
