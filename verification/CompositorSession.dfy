/** The control socket with the compositor behind it: what the replies of a connection say
    about the commands, and the lines that get none. */
module CompositorSession {
  import opened Wrappers
  import opened Bytes
  import opened Targets
  import opened Injection
  import Socket = ControlSocket
  import Typing

  /** What a line asks for, once its words are read. */
  datatype Request =
    | StateQuery(pid: Pid)
    | GeometryQuery(pid: Pid)
    | Activation(pid: Pid)
    | Injection(command: Command)

  /** The text of lines and replies. */
  datatype Wording = Wording(
    parse: Bytes -> Request,
    spell: Token -> Bytes,
    state: (State, Pid) -> Bytes,
    geometry: (State, Pid) -> Result<Bytes, Bytes>
  )

  function Spelled(w: Wording, refusal: Option<Token>): Option<Bytes> {
    match refusal
    case None => None
    case Some(token) => Some(w.spell(token))
  }

  ghost function CarryOut(env: Env, w: Wording, s: State, text: Bytes): (State, Socket.Verdict)
    requires WellFormed(s)
  {
    match w.parse(text)
    case StateQuery(pid) => (s, Socket.QueryState(w.state(s, pid)))
    case GeometryQuery(pid) => (s, Socket.QueryGeometry(w.geometry(s, pid)))
    case Activation(pid) =>
      (ActivateStep(env, s, pid).0, Socket.Activate(Spelled(w, ActivateStep(env, s, pid).1)))
    case Injection(command) =>
      (CommandStep(env, s, command).0, Socket.Command(Spelled(w, CommandStep(env, s, command).1)))
  }

  ghost function Server(env: Env, w: Wording): Socket.Server<State> {
    (s: State, text: Bytes) => if WellFormed(s) then CarryOut(env, w, s, text) else (s, Socket.Command(None))
  }

  /** The steps of the compositor that a line comes to; queries are none. */
  function StepsOf(w: Wording, line: Bytes): seq<Step> {
    match w.parse(Socket.Text(line))
    case Activation(pid) => [ActivatePid(pid)]
    case Injection(command) => [Inject(command)]
    case _ => []
  }

  function AllSteps(w: Wording, lines: seq<Bytes>): seq<Step>
    decreases |lines|
  {
    if lines == [] then [] else StepsOf(w, lines[0]) + AllSteps(w, lines[1..])
  }

  /** The line is a command or an activation that succeeds in state `s`. */
  ghost predicate Succeeds(env: Env, w: Wording, s: State, line: Bytes)
    requires WellFormed(s)
  {
    match w.parse(Socket.Text(line))
    case Activation(pid) => ActivateStep(env, s, pid).1 == None
    case Injection(command) => CommandStep(env, s, command).1 == None
    case _ => false
  }

  function OkOrError(w: Wording, refusal: Option<Token>): Socket.Event {
    match refusal
    case None => Socket.ReplyOk
    case Some(token) => Socket.ReplyErr(w.spell(token))
  }

  /** The reply that a line should get in state `s`: the report that was asked for, or the
      reason there is none; `ok`, or the reason of the refusal. */
  ghost function Due(env: Env, w: Wording, s: State, line: Bytes): Socket.Event
    requires WellFormed(s)
  {
    match w.parse(Socket.Text(line))
    case StateQuery(pid) => Socket.ReplyReport(w.state(s, pid))
    case GeometryQuery(pid) =>
      (match w.geometry(s, pid)
       case Ok(report) => Socket.ReplyReport(report)
       case Err(token) => Socket.ReplyErr(token))
    case Activation(pid) => OkOrError(w, ActivateStep(env, s, pid).1)
    case Injection(command) => OkOrError(w, CommandStep(env, s, command).1)
  }

  /** Carrying out a line is running its steps. */
  lemma CarryOutRuns(env: Env, w: Wording, s: State, line: Bytes)
    requires WellFormed(s)
    ensures WellFormed(Run(env, s, StepsOf(w, line)))
    ensures CarryOut(env, w, s, Socket.Text(line)).0 == Run(env, s, StepsOf(w, line))
    ensures Socket.Reply(CarryOut(env, w, s, Socket.Text(line)).1) == Due(env, w, s, line)
    ensures Due(env, w, s, line) == Socket.ReplyOk <==> Succeeds(env, w, s, line)
  {
    var steps := StepsOf(w, line);
    if steps != [] {
      ApplyKeepsWellFormed(env, s, steps[0]);
      assert steps[1..] == [];
      assert Run(env, Apply(env, s, steps[0]), []) == Apply(env, s, steps[0]);
    }
  }

  /** The k-th reply is `ok` exactly if the k-th line is a command or an activation that
      succeeds in the state to which the lines before it brought the compositor. */
  lemma {:induction false} ReplyIsOkExactly(env: Env, w: Wording, s: State, lines: seq<Bytes>, k: nat)
    requires WellFormed(s) && k < |lines|
    ensures |Socket.RepliesTo(Server(env, w), s, lines)| == |lines|
    ensures WellFormed(Run(env, s, AllSteps(w, lines[..k])))
    ensures Socket.RepliesTo(Server(env, w), s, lines)[k] == Due(env, w, Run(env, s, AllSteps(w, lines[..k])), lines[k])
    ensures Socket.RepliesTo(Server(env, w), s, lines)[k] == Socket.ReplyOk
            <==> Succeeds(env, w, Run(env, s, AllSteps(w, lines[..k])), lines[k])
    decreases k
  {
    var server := Server(env, w);
    Socket.ExchangesReply(server, s, lines);
    CarryOutRuns(env, w, s, lines[0]);
    if k > 0 {
      var next := CarryOut(env, w, s, Socket.Text(lines[0])).0;
      assert server(s, Socket.Text(lines[0])).0 == next;
      ReplyIsOkExactly(env, w, next, lines[1..], k - 1);
      assert lines[..k][0] == lines[0] && lines[..k][1..] == lines[1..][..k - 1];
      RunAppend(env, s, StepsOf(w, lines[0]), AllSteps(w, lines[1..][..k - 1]));
      CarryOutRuns(env, w, Run(env, s, AllSteps(w, lines[..k])), lines[k]);
    } else {
      assert AllSteps(w, lines[..0]) == [];
    }
  }

  lemma AnswerIsOkExactly(env: Env, w: Wording, s: State, lines: seq<Bytes>, k: nat)
    requires WellFormed(s) && 0 < k < |lines|
    ensures var replies := Socket.RepliesTo(Server(env, w), s, lines[1..]);
            var steps := AllSteps(w, lines[1..k]);
            && |replies| == |lines| - 1 && WellFormed(Run(env, s, steps))
            && replies[k - 1] == Due(env, w, Run(env, s, steps), lines[k])
            && (replies[k - 1] == Socket.ReplyOk <==> Succeeds(env, w, Run(env, s, steps), lines[k]))
  {
    ReplyIsOkExactly(env, w, s, lines[1..], k - 1);
    assert lines[1..][..k - 1] == lines[1..k];
  }

  function NewConnection(s: State): Socket.Connection<State> {
    Socket.Connection(Socket.Session(false, true, s, []), [])
  }

  /** A connection from its beginning, under any delivery of any stream: each line gets the
      reply it should get, and `ok` exactly if its command succeeds. */
  lemma ConnectionAnswersExactly(env: Env, w: Wording, s: State, stream: Bytes, chunks: seq<Bytes>, k: nat)
    requires WellFormed(s) && Socket.Delivery(Server(env, w), NewConnection(s), stream, chunks)
    requires var lines := Socket.Fitting(Socket.CompleteLines(stream));
             0 < k < |lines| && Socket.Text(lines[0]) == Socket.HELLO
    ensures var replies := Socket.Replies(Socket.ReceiveAll(Server(env, w), NewConnection(s), chunks).session.log);
            var lines := Socket.Fitting(Socket.CompleteLines(stream));
            var steps := AllSteps(w, lines[1..k]);
            && |replies| == |lines| && WellFormed(Run(env, s, steps))
            && replies[k] == Due(env, w, Run(env, s, steps), lines[k])
            && (replies[k] == Socket.ReplyOk <==> Succeeds(env, w, Run(env, s, steps), lines[k]))
  {
    var lines := Socket.Fitting(Socket.CompleteLines(stream));
    var replies := Socket.RepliesTo(Server(env, w), s, lines[1..]);
    Socket.ConnectionReplies(Server(env, w), s, stream, chunks);
    AnswerIsOkExactly(env, w, s, lines, k);
    assert ([Socket.EchoHello] + replies)[k] == replies[k - 1];
  }

  // Lines that are too long

  /** A `t` line for a window and a text. */
  function TypeLine(app: Bytes, text: seq<bv8>): Bytes {
    [116, 32] + app + [32] + AsBytes(Typing.HexEncode(text))
  }

  function AsBytes(s: seq<bv8>): Bytes {
    seq(|s|, i requires 0 <= i < |s| => s[i] as int as Byte)
  }

  lemma {:induction false} HexHasNoNewline(text: seq<bv8>)
    ensures |Typing.HexEncode(text)| == 2 * |text|
    ensures forall d :: d in Typing.HexEncode(text) ==> d != 10
    decreases |text|
  {
    if text != [] {
      HexHasNoNewline(text[1..]);
      DigitIsNoNewline(text[0] >> 4);
      DigitIsNoNewline(text[0] & 15);
    }
  }

  lemma ByteOf(b: bv8)
    ensures b as int == 10 <==> b == 10
  {
    assert b == (b as int) as bv8;
  }

  lemma DigitIsNoNewline(n: bv8)
    requires n < 16
    ensures Typing.HexDigit(n) != 10
  {
  }

  /** A line and what follows it in the stream is served exactly if the line fits. */
  lemma FirstLineServedExactly(line: Bytes, rest: Bytes)
    requires Socket.NEWLINE !in line
    ensures Socket.Fitting(Socket.CompleteLines(line + [Socket.NEWLINE] + rest)) == []
            <==> |line| > Socket.MAX_LINE
  {
    var stream := line + [Socket.NEWLINE] + rest;
    Socket.IndexOfIs(stream, Socket.NEWLINE, |line|);
    assert stream[..|line|] == line;
  }

  /** The line of a text is served exactly if it fits the buffer; from 8190 characters on it
      never does. */
  lemma TypeLineServedExactly(app: Bytes, text: seq<bv8>, rest: Bytes)
    requires app != [] && Socket.NEWLINE !in app
    ensures Socket.Fitting(Socket.CompleteLines(TypeLine(app, text) + [Socket.NEWLINE] + rest)) == []
            <==> 3 + |app| + 2 * |text| > Socket.MAX_LINE
    ensures |text| >= 8190 ==> 3 + |app| + 2 * |text| > Socket.MAX_LINE
  {
    var hex := Typing.HexEncode(text);
    HexHasNoNewline(text);
    forall i | 0 <= i < |hex| ensures AsBytes(hex)[i] != Socket.NEWLINE {
      assert hex[i] in hex;
      ByteOf(hex[i]);
    }
    FirstLineServedExactly(TypeLine(app, text), rest);
  }

  /** A line that does not fit gets no reply, nor does anything after it: however the stream
      is delivered, the session is as it was. */
  lemma LongLineIsDropped<S>(
      server: Socket.Server<S>, c: Socket.Connection<S>, line: Bytes, rest: Bytes, chunks: seq<Bytes>)
    requires Socket.NEWLINE !in line && |line| > Socket.MAX_LINE && c.pending == []
    requires Socket.Delivery(server, c, line + [Socket.NEWLINE] + rest, chunks)
    ensures Socket.ReceiveAll(server, c, chunks).session == c.session
  {
    FirstLineServedExactly(line, rest);
    Socket.ChunkingIndependence(server, c, line + [Socket.NEWLINE] + rest, chunks);
    assert c.pending + (line + [Socket.NEWLINE] + rest) == line + [Socket.NEWLINE] + rest;
  }
}
