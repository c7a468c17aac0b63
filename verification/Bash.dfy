/** The shell object that runs one command at a time in a persistent bash process. */
module Bash {
  import opened Prelude
  import opened Lines
  import opened Stderr
  import opened Shell
  import opened ShellRuns

  // ---- what the scan loop keeps ----

  lemma FirstNewline(s: string, i: nat, a: string, b: string)
    requires i < |s| && '\n' !in s[..i] && s[i] == '\n'
    requires s == a + "\n" + b && '\n' !in a
    ensures a == s[..i] && b == s[i + 1..]
  {
    assert s[|a|] == '\n' && forall k :: 0 <= k < i ==> s[k] == s[..i][k] != '\n';
    assert forall k :: 0 <= k < |a| ==> s[k] == a[k] != '\n';
    assert |a| == i;
  }

  lemma LineEndsAt(s: string, i: nat)
    requires i <= |s| && '\n' !in s[..i] && (i < |s| ==> s[i] == '\n')
    ensures FirstLine(s) == s[..i]
    ensures AfterLine(s) == if i < |s| then s[i + 1..] else ""
  {
    hide FirstLine, AfterLine;
    LineAndRest(s);
    if i < |s| {
      assert s[i] in s;
      FirstNewline(s, i, FirstLine(s), AfterLine(s));
    } else {
      assert s[..i] == s;
    }
  }

  lemma VisibleStep(ls: seq<string>, l: string)
    ensures Visible(ls + [l]) == if l == "" then ls else ls + [l]
  {
    assert Front(ls + [l]) == ls;
  }

  lemma LinedStep(ls: seq<string>, l: string)
    ensures Lined(ls + [l]) == Lined(ls) + [l + "\n"]
  {
  }

  /** What is sent for a line that is not a marker line. */
  function Sends(pending: bool, l: string): seq<string> {
    if pending then (if l == "" then ["\n"] else ["\n", l + "\n"]) else if l == "" then [] else [l + "\n"]
  }

  lemma VisiblyLonger(ls: seq<string>, l: string)
    ensures Lined(Visible(ls + [l])) == Lined(Visible(ls)) + Sends(ls != [] && Last(ls) == "", l)
  {
    VisibleStep(ls, l);
    LinedStep(ls, l);
    if ls != [] && Last(ls) == "" {
      assert ls == Front(ls) + [""];
      LinedStep(Front(ls), "");
      hide Lined;
      assert "" + "\n" == "\n" && Visible(ls) == Front(ls);
      assert Lined(Front(ls)) + ["\n"] + [l + "\n"] == Lined(Front(ls)) + ["\n", l + "\n"];
    } else {
      assert Visible(ls) == ls;
    }
  }

  /** One more line: the held-back empty line goes out first, then the line itself unless it is empty. */
  lemma DeliverStep(ls: seq<string>, l: string, sends: Option<nat>)
    ensures SendFails(ls, sends) ==> SendFails(ls + [l], sends) && Deliver(ls + [l], sends) == Deliver(ls, sends)
    ensures !SendFails(ls, sends) && sends.Some? ==> |Deliver(ls, sends)| <= sends.value
    ensures !SendFails(ls, sends) ==>
              var out := Sends(ls != [] && Last(ls) == "", l);
              && Deliver(ls + [l], sends) == Take(Deliver(ls, sends) + out, sends)
              && (SendFails(ls + [l], sends) <==> sends.Some? && sends.value < |Deliver(ls, sends) + out|)
  {
    VisiblyLonger(ls, l);
    hide Visible, Sends;
    var a, out := Lined(Visible(ls)), Sends(ls != [] && Last(ls) == "", l);
    assert sends.Some? && sends.value < |a| ==> (a + out)[..sends.value] == a[..sends.value];
  }

  /** Scanning on: the next line is the next token. */
  lemma NextLine(text: string, i: nat)
    requires i <= |Tokens(text)|
    ensures AfterLines(text, i) == "" <==> i == |Tokens(text)|
    ensures i < |Tokens(text)| ==> FirstLine(AfterLines(text, i)) == Tokens(text)[i]
    ensures AfterLine(AfterLines(text, i)) == AfterLines(text, i + 1)
  {
    ScanMany(text, i);
    NoTokens();
    AfterLinesStep(text, i);
    hide Tokens, AfterLine, FirstLine, AfterLines;
    var rest := AfterLines(text, i);
    if rest != "" {
      ScanOne(rest);
    }
  }

  class BashShell {
    /** Scripts written to bash. */
    var stdin: seq<string>
    /** What bash printed on stdout and no call has scanned. */
    var unread: string
    var end: StreamEnd
    var broken: Option<Failure>
    /** What bash printed on stderr and the reading goroutine has not fetched. */
    var pipe: string
    var stderrBuf: string
    var stderrMarker: string
    /** How often the current command's done channel has been closed. */
    var closes: nat

    ghost function Pipes(): Wire
      reads this
    {
      Wire(stdin, unread, end, broken, pipe, Collector(stderrBuf, stderrMarker, closes))
    }

    constructor ()
      ensures Pipes() == START
    {
      stdin, unread, end, broken := [], "", Open, None;
      pipe, stderrBuf, stderrMarker, closes := "", "", "", 0;
    }

    // ---- stderr ----

    method CheckStderrMarker()
      modifies `stderrBuf, `stderrMarker, `closes
      ensures Pipes() == old(Pipes()).(stderr := CheckMarker(old(Pipes().stderr)))
    {
      if stderrMarker == "" {
        return;
      }
      var content := stderrBuf;
      var idx := FirstIndex(content, stderrMarker);
      if idx.None? {
        return;
      }
      var markerEnd := idx.value + |stderrMarker|;
      if markerEnd < |content| && content[markerEnd] == '\n' {
        markerEnd := markerEnd + 1;
      }
      stderrBuf := content[..idx.value] + content[markerEnd..];
      stderrMarker := "";
      closes := closes + 1;
    }

    /** One turn of the goroutine that reads stderr. */
    method ReadStderr(n: nat)
      requires n <= |pipe|
      modifies `pipe, `stderrBuf, `stderrMarker, `closes
      ensures Pipes() == old(Pipes()).(pipe := old(pipe[n..]), stderr := OnRead(old(Pipes().stderr), old(pipe[..n])))
    {
      stderrBuf := stderrBuf + pipe[..n];
      pipe := pipe[n..];
      CheckStderrMarker();
    }

    method ResetStderr()
      modifies `stderrBuf
      ensures stderrBuf == ""
    {
      stderrBuf := "";
    }

    /** The goroutine's reads while a call waits for the done channel, and one before it collects the buffer. */
    method AwaitStderr(pace: Reads)
      modifies `pipe, `stderrBuf, `stderrMarker, `closes
      ensures var ps := Pieces(old(Pipes().stderr), old(pipe), pace);
              Pipes() == old(Pipes()).(pipe := old(pipe)[|Concat(ps)|..], stderr := Absorb(old(Pipes().stderr), ps))
    {
      var sizes := pace.sizes;
      ghost var c0, pipe0 := Pipes().stderr, pipe;
      ghost var done: seq<string> := [];
      hide OnRead, Absorb, PiecesUntilDone, ReadSize, Concat;
      NoPieces(c0);
      while closes == 0 && pipe != ""
        invariant Pipes() == old(Pipes()).(pipe := pipe, stderr := Absorb(c0, done))
        invariant PiecesUntilDone(c0, pipe0, pace.sizes) == done + PiecesUntilDone(Pipes().stderr, pipe, sizes)
        invariant pipe0 == Concat(done) + pipe
        decreases |pipe|
      {
        var n := ReadSize(pipe, sizes);
        ghost var piece, rest := pipe[..n], pipe[n..];
        NextPiece(Pipes().stderr, pipe, sizes);
        ReadStderr(n);
        sizes := if sizes == [] then [] else sizes[1..];
        assert done + [piece] + PiecesUntilDone(Pipes().stderr, pipe, sizes)
            == done + ([piece] + PiecesUntilDone(Pipes().stderr, pipe, sizes));
        OneMorePiece(c0, done, piece);
        done := done + [piece];
        assert pipe0 == Concat(done) + pipe;
      }
      PiecesEnd(Pipes().stderr, pipe, sizes);
      assert done == PiecesUntilDone(c0, pipe0, pace.sizes);
      assert pipe0[|Concat(done)|..] == pipe;
      ghost var ps := Pieces(c0, pipe0, pace);
      assert ps == if pace.late && pipe != "" then done + [pipe] else done;
      if pace.late && pipe != "" {
        OneMorePiece(c0, done, pipe);
        assert pipe0 == Concat(ps) && pipe[..|pipe|] == pipe;
        assert pipe[|pipe|..] == "" == pipe0[|Concat(ps)|..];
        ReadStderr(|pipe|);
      }
    }

    // ---- stdout ----

    /** The next line without its line ending; false once everything of an ended stream has been read. */
    method Scan() returns (ok: bool, line: string)
      requires end.Open? ==> '\n' in unread
      modifies `unread
      ensures ok <==> old(unread) != ""
      ensures unread == AfterLine(old(unread))
      ensures !ok ==> unread == ""
      ensures ok ==> line == DropCR(FirstLine(old(unread)))
    {
      if unread == "" {
        return false, "";
      }
      var i := 0;
      while i < |unread| && unread[i] != '\n'
        invariant i <= |unread| && '\n' !in unread[..i]
      {
        i := i + 1;
      }
      LineEndsAt(unread, i);
      line := DropCR(unread[..i]);
      unread := if i < |unread| then unread[i + 1..] else "";
      return true, line;
    }

    /** Bash's answer to a script appears on its two output streams, unless stdout has ended before. */
    method Answer(reply: Reply, marker: string)
      modifies `unread, `end, `pipe
      ensures end == if !old(end).Open? then old(end) else if reply.cut.None? then Open
                     else if reply.cut.value.1 then ReadError else Eof
      ensures unread == if old(end).Open? then old(unread) + Emitted(reply, marker) else old(unread)
      ensures pipe == if old(end).Open? then old(pipe) + reply.err + marker + "\n" else old(pipe)
    {
      if end.Open? {
        unread := unread + Emitted(reply, marker);
        end := if reply.cut.None? then Open else if reply.cut.value.1 then ReadError else Eof;
        pipe := pipe + reply.err + marker + "\n";
      }
    }

    /**
     * Runs one command. `ch` holds what has been sent to the stdout channel when that is closed; the state, the results
     * and the channel are exactly those of `Serve`.
     */
    method ExecuteStream(command: string, nanos: nat, reply: Reply, ctx: Context, pace: Reads)
      returns (exitCode: int, stderr: string, err: Option<Failure>, ch: seq<string>)
      modifies this
      ensures var (w, r, sent) := Serve(old(Pipes()), Call(command, nanos, reply, ctx, pace));
              Pipes() == w && ch == sent && (exitCode, stderr, err) == Returned(r)
    {
      ch := [];
      if broken.Some? {
        return -1, "", broken, ch;
      }
      if pace.early {
        ReadStderr(|pipe|);
      }
      ResetStderr();
      var marker := Marker(nanos);
      stderrMarker, closes := marker, 0;
      ghost var call, w1 := Call(command, nanos, reply, ctx, pace), Pipes();
      assert w1 == old(Pipes()).(pipe := if pace.early then "" else old(pipe), stderr := Collector("", marker, 0));
      if ctx.doneBefore {
        return -1, "", Some(ContextDone), ch;
      }
      if !reply.writeOk {
        broken := Some(WriteFailed);
        return -1, "", broken, ch;
      }
      assert Serve(old(Pipes()), call) == ServeWritten(w1, call);
      hide Serve, ServeWritten, Emitted, Script, Marker;
      stdin := stdin + [Script(command, marker)];
      Answer(reply, marker);
      if end.Open? {
        AnswerHasMarker(old(unread), reply, nanos);
      }
      exitCode, stderr, err, ch := ScanAnswer(w1, call, marker, ctx.sends, pace);
    }

    /** Reads the answer line by line up to the marker line. */
    method ScanAnswer(ghost w1: Wire, ghost call: Call, marker: string, sends: Option<nat>, pace: Reads)
      returns (exitCode: int, stderr: string, err: Option<Failure>, ch: seq<string>)
      requires broken.None? && Pipes() == AfterWrite(w1, call) && w1.stderr == Pipes().stderr
      requires marker == MarkerOf(call) && sends == call.ctx.sends && pace == call.pace
      requires end.Open? ==> HasMarker(unread, marker) && EndsInNewline(unread)
      modifies `unread, `broken, `pipe, `stderrBuf, `stderrMarker, `closes
      ensures var (w, r, sent) := ServeWritten(w1, call);
              Pipes() == w && ch == sent && (exitCode, stderr, err) == Returned(r)
    {
      hide Emitted, Tokens, Clean, AfterLine, AfterLines, FirstLine, FirstMarker, Deliver, SendFails, DropCR, Atoi,
           Script, Marker, Pieces, Absorb, AfterWrite, EndsInNewline;
      ghost var w2, text := Pipes(), unread;
      ghost var lines := Clean(Tokens(text));
      ghost var k, i := FirstMarker(lines, marker), 0;
      NothingDelivered(text, sends);
      ch := [];
      var pendingEmpty, sendErr := false, false;
      while true
        invariant i <= k && unread == AfterLines(text, i)
        invariant end.Open? ==> k < |lines| && EndsInNewline(unread)
        invariant ch == Deliver(lines[..i], sends) && sendErr == SendFails(lines[..i], sends)
        invariant !sendErr ==> pendingEmpty == (i > 0 && lines[i - 1] == "")
        invariant Pipes() == w2.(unread := unread, broken := if sendErr then Some(SendFailed) else None)
        decreases |lines| - i
      {
        NextLine(text, i);
        if end.Open? {
          RestEndsInNewline(unread);
        }
        var ok, line := Scan();
        if !ok {
          break;
        }
        assert line == lines[i];
        if marker <= line {
          assert i == k;
          var code := Atoi(line[|marker|..]);
          if code.None? {
            return -1, "", Some(BadExitCode), ch;
          }
          AwaitStderr(pace);
          stderr := stderrBuf;
          if sendErr {
            broken := None;
            return -1, "", Some(SendFailed), ch;
          }
          return code.value, stderr, None, ch;
        }
        assert lines[..i + 1] == lines[..i] + [line];
        if !sendErr {
          ok, ch, pendingEmpty := Forward(lines[..i], ch, line, pendingEmpty, sends);
          if !ok {
            sendErr := true;
            broken := Some(SendFailed);
          }
        } else {
          DeliverStep(lines[..i], line, sends);
        }
        i := i + 1;
      }
      broken := Some(if end.ReadError? then ScanFailed else UnexpectedEnd);
      return -1, "", broken, ch;
    }
  }

  /** The three values a call returns. */
  function Returned(r: Result): (int, string, Option<Failure>) {
    match r
    case Exited(code, stderr) => (code, stderr, None)
    case Failed(e) => (-1, "", Some(e))
  }

  /** Sends fail from some point on, when the context is done and nobody receives. */
  method SendLine(ch: seq<string>, line: string, sends: Option<nat>) returns (ok: bool, ch': seq<string>)
    ensures ok <==> !(sends.Some? && sends.value <= |ch|)
    ensures ch' == if ok then ch + [line + "\n"] else ch
  {
    ok := sends.None? || |ch| < sends.value;
    ch' := if ok then ch + [line + "\n"] else ch;
  }

  /** Passes a line on; an empty one is held back until the next line shows that it is not the separator. */
  method Forward(ghost before: seq<string>, ch: seq<string>, line: string, pendingEmpty: bool, sends: Option<nat>)
    returns (ok: bool, ch': seq<string>, pendingEmpty': bool)
    requires ch == Deliver(before, sends) && !SendFails(before, sends)
    requires pendingEmpty <==> before != [] && Last(before) == ""
    ensures ch' == Deliver(before + [line], sends)
    ensures ok <==> !SendFails(before + [line], sends)
    ensures ok ==> (pendingEmpty' <==> line == "")
  {
    DeliverStep(before, line, sends);
    hide Deliver, SendFails;
    assert ch + Sends(false, "") == ch && "" + "\n" == "\n";
    assert ch + Sends(true, line) == ch + ["\n"] + Sends(false, line);
    assert pendingEmpty ==> (ch + Sends(true, line))[..|ch| + 1] == ch + ["\n"];
    assert (ch + Sends(pendingEmpty, line))[..|ch|] == ch;
    ok, ch', pendingEmpty' := true, ch, pendingEmpty;
    if pendingEmpty {
      ok, ch' := SendLine(ch, "", sends);
      if !ok {
        return;
      }
      pendingEmpty' := false;
    }
    if line == "" {
      pendingEmpty' := true;
    } else {
      ok, ch' := SendLine(ch', line, sends);
    }
  }

  predicate HasMarker(text: string, marker: string) {
    var lines := Clean(Tokens(text));
    FirstMarker(lines, marker) < |lines|
  }

  predicate EndsInNewline(s: string) {
    s != "" ==> Last(s) == '\n' && '\n' in s
  }

  lemma RestEndsInNewline(s: string)
    requires EndsInNewline(s)
    ensures EndsInNewline(AfterLine(s))
    ensures s != "" ==> '\n' in s
  {
    LineAndRest(s);
    var rest := AfterLine(s);
    if rest != "" {
      assert Last(s) == Last(rest) && Last(rest) in rest;
    }
  }

  lemma NothingDelivered(text: string, sends: Option<nat>)
    ensures Deliver([], sends) == [] && !SendFails([], sends)
    ensures AfterLines(text, 0) == text
  {
  }

  lemma FrameAfter(before: string, out: string, m: string, code: nat)
    ensures before + Frame(out, m, code) == Frame(before + out, m, code)
    ensures EndsInNewline(Frame(out, m, code)) && Frame(out, m, code) != ""
  {
    hide Decimal;
    var f := Frame(out, m, code);
    assert Last(f) == '\n' && Last(f) in f;
  }

  /** On an open stream a complete answer ends with the marker line, whatever was still unread before it. */
  lemma AnswerHasMarker(before: string, reply: Reply, nanos: nat)
    requires reply.cut.None?
    ensures var text, m := before + Emitted(reply, Marker(nanos)), Marker(nanos);
            HasMarker(text, m) && EndsInNewline(text)
  {
    var m := Marker(nanos);
    MarkerShape(nanos);
    FrameAfter(before, reply.out, m, reply.code);
    FrameAfter("", before + reply.out, m, reply.code);
    hide Frame, FirstMarker, Tokens, Clean, Split, Marker, Decimal, EndsInNewline;
    FirstMarkerOfFrame(before + reply.out, m, reply.code);
  }

  // ---- the stderr pieces one by one ----

  lemma NoPieces(c: Collector)
    ensures Absorb(c, []) == c && Concat([]) == ""
  {
  }

  lemma PiecesEnd(c: Collector, pipe: string, sizes: seq<nat>)
    requires c.closes > 0 || pipe == ""
    ensures PiecesUntilDone(c, pipe, sizes) == []
  {
  }

  lemma OneMorePiece(c: Collector, ps: seq<string>, p: string)
    ensures Absorb(c, ps + [p]) == OnRead(Absorb(c, ps), p)
    ensures Concat(ps + [p]) == Concat(ps) + p
  {
    assert Front(ps + [p]) == ps;
    ConcatAppend(ps, [p]);
    assert Concat([p]) == p;
  }
}
