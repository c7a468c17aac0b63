/** The persistent bash session: one command at a time is written to stdin, and its two output streams are read back. */
module Shell {
  import opened Prelude
  import opened Lines
  import opened Stderr

  datatype StreamEnd = Open | Eof | ReadError

  datatype Failure =
    | ContextDone
    | WriteFailed
    | BadExitCode
    | SendFailed
    | ScanFailed
    | UnexpectedEnd

  datatype Result = Exited(code: int, stderr: string) | Failed(error: Failure)

  /** What bash does with a command. Stdout may end after some bytes, by a read error or not; the write may fail. */
  datatype Reply = Reply(out: string, code: nat, err: string, writeOk: bool, cut: Option<(nat, bool)>)

  /** Cancellation: already done before the write, or making the send after the first `sends` ones fail. */
  datatype Context = Context(doneBefore: bool, sends: Option<nat>)

  /**
   * When the stderr goroutine reads: bytes left from the previous command before the reset or not, this command's
   * bytes in pieces of the given sizes, and the bytes after the marker before the buffer is collected or not.
   */
  datatype Reads = Reads(early: bool, sizes: seq<nat>, late: bool)

  datatype Call = Call(command: string, nanos: nat, reply: Reply, ctx: Context, pace: Reads)

  /** The shell as its callers can tell it: what was written, what is still unread, and whether it is out of step. */
  datatype Wire = Wire(stdin: seq<string>, unread: string, end: StreamEnd, broken: Option<Failure>,
                       pipe: string, stderr: Collector)

  const START := Wire([], "", Open, None, "", Collector("", "", 0))

  const RELOAD_ENV :=
    "unset __HM_SESS_VARS_SOURCED; " + ". \"$HOME/.nix-profile/etc/" + "profile.d/hm-session-vars.sh\" "
    + "2>/dev/null || true"

  function Marker(nanos: nat): string {
    "__MRK_" + Decimal(nanos) + "_END__"
  }

  function Script(command: string, marker: string): string {
    RELOAD_ENV + "\n" + (command + "\n" + Unlines(Epilogue(marker)))
  }

  /** The lines after a command: keep its exit code, print the marker on stderr and, with the code, on stdout. */
  function Epilogue(marker: string): seq<string> {
    ["__ec=$?", RELOAD_ENV, "builtin echo '" + marker + "' >&2", "builtin echo ''",
     "builtin echo '" + marker + "'${__ec}"]
  }

  /** What bash prints on stdout for a command: its output, an empty line's newline, the marker and the exit code. */
  function Frame(out: string, marker: string, code: nat): string {
    out + "\n" + marker + Decimal(code) + "\n"
  }

  function Emitted(r: Reply, marker: string): string {
    var frame := Frame(r.out, marker, r.code);
    if r.cut.Some? && r.cut.value.0 <= |frame| then frame[..r.cut.value.0] else frame
  }

  // ---- line scanning ----

  function FirstLine(s: string): string {
    Split(s)[0]
  }

  function AfterLine(s: string): string {
    if s == "" then "" else if s[0] == '\n' then s[1..] else AfterLine(s[1..])
  }

  function AfterLines(s: string, n: nat): string
    decreases n
  {
    if n == 0 then s else AfterLines(AfterLine(s), n - 1)
  }

  /** A text is its first line, and after a newline the rest. */
  lemma {:induction false} LineAndRest(s: string)
    ensures if '\n' in s then s == FirstLine(s) + "\n" + AfterLine(s) else FirstLine(s) == s && AfterLine(s) == ""
    ensures '\n' !in FirstLine(s)
    ensures s != "" ==> |AfterLine(s)| < |s|
  {
    PiecesHaveNoNewline(s);
    if '\n' !in s {
      SplitPlain(s);
      NoRest(s);
    } else if s[0] != '\n' {
      LineAndRest(s[1..]);
      assert FirstLine(s) == [s[0]] + FirstLine(s[1..]);
    }
  }

  lemma {:induction false} NoRest(s: string)
    requires '\n' !in s
    ensures AfterLine(s) == ""
  {
    if s != "" {
      assert s[0] in s && forall c :: c in s[1..] ==> c in s;
      NoRest(s[1..]);
    }
  }

  lemma TokensLine(l: string, rest: string)
    requires '\n' !in l
    ensures Tokens(l + "\n" + rest) == [l] + Tokens(rest)
  {
    SplitLine(l, rest);
    var ps := Split(rest);
    assert Last([l] + ps) == Last(ps) && Front([l] + ps) == [l] + Front(ps);
  }

  lemma ScanOne(s: string)
    requires s != ""
    ensures Tokens(s) == [FirstLine(s)] + Tokens(AfterLine(s))
    ensures |AfterLine(s)| < |s|
  {
    LineAndRest(s);
    if '\n' in s {
      TokensLine(FirstLine(s), AfterLine(s));
    } else {
      SplitPlain(s);
    }
  }

  lemma {:induction false} ScanMany(s: string, n: nat)
    requires n <= |Tokens(s)|
    ensures Tokens(AfterLines(s, n)) == Tokens(s)[n..]
    ensures n == |Tokens(s)| ==> AfterLines(s, n) == ""
    decreases n
  {
    NoTokens();
    hide Tokens, AfterLine, FirstLine;
    if s != "" {
      ScanOne(s);
    }
    if n > 0 {
      ScanMany(AfterLine(s), n - 1);
    }
  }

  lemma NoTokens()
    ensures Tokens("") == []
  {
  }

  lemma {:induction false} AfterLinesStep(s: string, n: nat)
    ensures AfterLine(AfterLines(s, n)) == AfterLines(s, n + 1)
    decreases n
  {
    if n > 0 {
      AfterLinesStep(AfterLine(s), n - 1);
    }
  }

  // ---- what reaches the caller ----

  /** Index of the first line starting with the marker, or the number of lines. */
  function FirstMarker(ls: seq<string>, marker: string): (n: nat)
    ensures n <= |ls| && (n < |ls| ==> marker <= ls[n])
    ensures forall i :: 0 <= i < n ==> !(marker <= ls[i])
  {
    if ls == [] || marker <= ls[0] then 0 else 1 + FirstMarker(ls[1..], marker)
  }

  /** All lines but an empty last one: the separator the script prints before the marker. */
  function Visible(ls: seq<string>): seq<string> {
    if ls != [] && Last(ls) == "" then Front(ls) else ls
  }

  function Lined(ls: seq<string>): (r: seq<string>)
    ensures |r| == |ls| && forall i :: 0 <= i < |ls| ==> r[i] == ls[i] + "\n"
  {
    seq(|ls|, i requires 0 <= i < |ls| => ls[i] + "\n")
  }

  /** The first sends that succeed. */
  function Take<T>(s: seq<T>, n: Option<nat>): seq<T> {
    if n.Some? && n.value < |s| then s[..n.value] else s
  }

  function Deliver(ls: seq<string>, sends: Option<nat>): seq<string> {
    Take(Lined(Visible(ls)), sends)
  }

  predicate SendFails(ls: seq<string>, sends: Option<nat>) {
    sends.Some? && sends.value < |Visible(ls)|
  }

  // ---- the stderr side ----

  function ReadSize(pipe: string, sizes: seq<nat>): (n: nat)
    requires pipe != ""
    ensures 0 < n <= |pipe|
  {
    if sizes != [] && 0 < sizes[0] <= |pipe| then sizes[0] else |pipe|
  }

  /** The pieces read until the marker has been found. */
  function PiecesUntilDone(c: Collector, pipe: string, sizes: seq<nat>): (ps: seq<string>)
    ensures Concat(ps) <= pipe
    decreases |pipe|
  {
    if c.closes > 0 || pipe == "" then [] else
      var n := ReadSize(pipe, sizes);
      [pipe[..n]] + PiecesUntilDone(OnRead(c, pipe[..n]), pipe[n..], if sizes == [] then [] else sizes[1..])
  }

  function Pieces(c: Collector, pipe: string, pace: Reads): (ps: seq<string>)
    ensures Concat(ps) <= pipe
  {
    var ps := PiecesUntilDone(c, pipe, pace.sizes);
    var n := |Concat(ps)|;
    if pace.late && n < |pipe| then
      ConcatAppend(ps, [pipe[n..]]);
      assert Concat([pipe[n..]]) == pipe[n..] && pipe == pipe[..n] + pipe[n..];
      ps + [pipe[n..]]
    else ps
  }

  // ---- one command ----

  /** What a call does to the shell, what it returns and which chunks it sends to the stdout channel. */
  function Serve(w: Wire, call: Call): (Wire, Result, seq<string>) {
    if w.broken.Some? then (w, Failed(w.broken.value), []) else
      var m := Marker(call.nanos);
      var w1 := w.(pipe := if call.pace.early then "" else w.pipe, stderr := Collector("", m, 0));
      if call.ctx.doneBefore then (w1, Failed(ContextDone), [])
      else if !call.reply.writeOk then (w1.(broken := Some(WriteFailed)), Failed(WriteFailed), [])
      else ServeWritten(w1, call)
  }

  /** The wire once bash has reacted to the script; a stream that has ended stays as it is. */
  function AfterWrite(w: Wire, call: Call): Wire {
    var m := Marker(call.nanos);
    if !w.end.Open? then w.(stdin := w.stdin + [Script(call.command, m)])
    else w.(stdin := w.stdin + [Script(call.command, m)],
            unread := w.unread + Emitted(call.reply, m),
            end := if call.reply.cut.None? then Open else if call.reply.cut.value.1 then ReadError else Eof,
            pipe := w.pipe + call.reply.err + m + "\n")
  }

  function ServeWritten(w1: Wire, call: Call): (Wire, Result, seq<string>) {
    var m := Marker(call.nanos);
    var w2 := AfterWrite(w1, call);
    var lines := Clean(Tokens(w2.unread));
    var k := FirstMarker(lines, m);
    var ch := Deliver(lines[..k], call.ctx.sends);
    var failed := SendFails(lines[..k], call.ctx.sends);
    if k == |lines| then
      var e := if w2.end == ReadError then ScanFailed else UnexpectedEnd;
      (w2.(unread := "", broken := Some(e)), Failed(e), ch)
    else
      var w3 := w2.(unread := AfterLines(w2.unread, k + 1));
      var code := Atoi(lines[k][|m|..]);
      if code.None? then (w3.(broken := if failed then Some(SendFailed) else None), Failed(BadExitCode), ch)
      else
        var ps := Pieces(w3.stderr, w3.pipe, call.pace);
        var c := Absorb(w3.stderr, ps);
        var w4 := w3.(stderr := c, pipe := w3.pipe[|Concat(ps)|..]);
        if failed then (w4, Failed(SendFailed), ch) else (w4, Exited(code.value, c.buf), ch)
  }
}
