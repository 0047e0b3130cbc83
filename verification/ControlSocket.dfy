/** The control socket: bytes arrive in arbitrary pieces in a fixed buffer, and the lines
    they make up are answered one by one. */
module ControlSocket {
  import opened Wrappers
  import opened Bytes

  const BUFFER_SIZE: nat := 16384

  /** One place of the buffer is kept for a terminating zero. */
  const CAPACITY: nat := BUFFER_SIZE - 1

  /** The longest line that fits with its newline. */
  const MAX_LINE: nat := CAPACITY - 1

  const NEWLINE: Byte := 10
  const CARRIAGE_RETURN: Byte := 13
  const NUL: Byte := 0

  /** `cua-inject v1` */
  const HELLO: Bytes := [99, 117, 97, 45, 105, 110, 106, 101, 99, 116, 32, 118, 49]

  // Lines of a byte stream

  /** Where `b` first occurs; the length if it does not. */
  function IndexOf(bytes: Bytes, b: Byte): (i: nat)
    ensures i <= |bytes|
  {
    if bytes == [] || bytes[0] == b then 0 else 1 + IndexOf(bytes[1..], b)
  }

  lemma {:induction false} IndexOfFinds(bytes: Bytes, b: Byte)
    ensures var i := IndexOf(bytes, b);
            && b !in bytes[..i]
            && (i < |bytes| ==> bytes[i] == b)
  {
    if bytes != [] && bytes[0] != b {
      IndexOfFinds(bytes[1..], b);
      var i := IndexOf(bytes, b);
      assert bytes[..i] == [bytes[0]] + bytes[1..][..i - 1];
    }
  }

  /** The newline-terminated lines of a stream, without their newlines. */
  function CompleteLines(stream: Bytes): seq<Bytes>
    decreases |stream|
  {
    var i := IndexOf(stream, NEWLINE);
    if i == |stream| then [] else [stream[..i]] + CompleteLines(stream[i + 1..])
  }

  /** What follows the last newline. */
  function Partial(stream: Bytes): Bytes
    decreases |stream|
  {
    var i := IndexOf(stream, NEWLINE);
    if i == |stream| then stream else Partial(stream[i + 1..])
  }

  /** The lines before the first one that does not fit in the buffer. */
  function Fitting(lines: seq<Bytes>): seq<Bytes> {
    if lines == [] || |lines[0]| > MAX_LINE then [] else [lines[0]] + Fitting(lines[1..])
  }

  /** A line as the C string the handlers see: one trailing carriage return is trimmed, and
      an embedded zero ends it. */
  function Text(line: Bytes): Bytes {
    var trimmed := if line != [] && line[|line| - 1] == CARRIAGE_RETURN then line[..|line| - 1] else line;
    trimmed[..IndexOf(trimmed, NUL)]
  }

  // The session

  /** What carrying out a line came to; `None` for an error that did not happen. */
  datatype Verdict =
    | QueryState(report: Bytes)
    | QueryGeometry(geometry: Result<Bytes, Bytes>)
    | Activate(error: Option<Bytes>)
    | Command(error: Option<Bytes>)

  datatype Event =
    | EchoHello
    | RefuseVersion
    | Execute(text: Bytes, verdict: Verdict)
    | Flush
    | ReplyReport(report: Bytes)
    | ReplyOk
    | ReplyErr(token: Bytes)

  /** Everything behind the socket: it carries out a line and changes state. */
  type Server<!S> = (S, Bytes) -> (S, Verdict)

  datatype Session<S> = Session(hello: bool, open: bool, state: S, log: seq<Event>)

  /** The reply to a verdict, after the flush that delivers what the line injected. */
  function Answer(verdict: Verdict): seq<Event> {
    match verdict
    case QueryState(report) => [ReplyReport(report)]
    case QueryGeometry(Ok(report)) => [ReplyReport(report)]
    case QueryGeometry(Err(token)) => [ReplyErr(token)]
    case Activate(None) => [Flush, ReplyOk]
    case Activate(Some(token)) => [Flush, ReplyErr(token)]
    case Command(None) => [Flush, ReplyOk]
    case Command(Some(token)) => [Flush, ReplyErr(token)]
  }

  function ServeLine<S>(server: Server<S>, s: Session<S>, line: Bytes): Session<S> {
    Respond(server, s, Text(line))
  }

  function Respond<S>(server: Server<S>, s: Session<S>, text: Bytes): Session<S> {
    if !s.hello then
      if text == HELLO then s.(hello := true, log := s.log + [EchoHello])
      else s.(open := false, log := s.log + [RefuseVersion])
    else
      var (state, verdict) := server(s.state, text);
      s.(state := state, log := s.log + [Execute(text, verdict)] + Answer(verdict))
  }

  /** Serve lines until one of them closes the session. */
  function Serve<S>(server: Server<S>, s: Session<S>, lines: seq<Bytes>): Session<S>
    decreases |lines|
  {
    if !s.open || lines == [] then s
    else Serve(server, ServeLine(server, s, lines[0]), lines[1..])
  }

  /** A connection as a value: the session, and the bytes of an incomplete line. */
  datatype Connection<S> = Connection(session: Session<S>, pending: Bytes)

  /** One read; an empty one ends the connection. */
  function Receive<S>(server: Server<S>, c: Connection<S>, chunk: Bytes): Connection<S> {
    if chunk == [] then Connection(c.session.(open := false), c.pending)
    else Connection(Serve(server, c.session, CompleteLines(c.pending + chunk)), Partial(c.pending + chunk))
  }

  // The connection

  class Conn<S> {
    const server: Server<S>
    const buf: array<Byte>
    var len: nat
    var session: Session<S>

    ghost predicate Valid()
      reads this
    {
      buf.Length == BUFFER_SIZE && len <= CAPACITY
    }

    /** The bytes received that do not make up a line yet. */
    ghost function Pending(): Bytes
      requires Valid()
      reads this, buf
    {
      buf[..len]
    }

    constructor (server: Server<S>, state: S)
      ensures Valid() && this.server == server
      ensures session == Session(false, true, state, []) && Pending() == []
    {
      this.server := server;
      buf := new Byte[BUFFER_SIZE];
      len := 0;
      session := Session(false, true, state, []);
    }

    /** The socket is readable: `chunk` is what `read` returned, at most the room there is;
        nothing stands for end of file, an error, or a full buffer. */
    method Readable(hangup: bool, chunk: Bytes)
      requires Valid() && session.open
      requires |chunk| <= CAPACITY - len
      modifies this, buf
      ensures Valid()
      ensures var after := Receive(server, Connection(old(session), old(Pending())), if hangup then [] else chunk);
              session == after.session && (session.open ==> Pending() == after.pending)
    {
      if hangup || chunk == [] {
        session := session.(open := false);
        return;
      }
      Append(chunk);
      ghost var data := old(Pending()) + chunk;
      var p := Drain(data);
      if session.open {
        Compact(p);
      }
    }

    /** Serve the complete lines in the buffer; `p` is where the incomplete one begins. */
    method Drain(ghost data: Bytes) returns (p: nat)
      requires Valid() && session.open && Pending() == data
      modifies `session, buf
      ensures session == Serve(server, old(session), CompleteLines(data))
      ensures session.open ==> p <= len && buf[p..len] == Partial(data)
    {
      ghost var rest, served, partial := data, Serve(server, session, CompleteLines(data)), Partial(data);
      p := 0;
      assert buf[0..len] == data;
      var nl := Find(p);
      while nl < len
        invariant p <= nl <= len && session.open
        invariant buf[p..len] == rest
        invariant NEWLINE !in buf[p..nl] && (nl < len ==> buf[nl] == NEWLINE)
        invariant Remains(server, session, rest, served, partial)
        decreases len - p
      {
        rest := DrainOne(rest, p, nl, served, partial);
        if !session.open {
          return;
        }
        p := nl + 1;
        nl := Find(p);
      }
      NothingRemains(server, session, rest, served, partial);
    }

    /** The body of that loop: one line, from `p` to its newline at `nl`. */
    method DrainOne(ghost rest: Bytes, p: nat, nl: nat, ghost served: Session<S>, ghost partial: Bytes)
      returns (ghost next: Bytes)
      requires Valid() && session.open && Remains(server, session, rest, served, partial)
      requires p <= nl < len && buf[p..len] == rest
      requires NEWLINE !in buf[p..nl] && buf[nl] == NEWLINE
      modifies `session, buf
      ensures session == ServeLine(server, old(session), rest[..nl - p])
      ensures if session.open then Remains(server, session, next, served, partial) else session == served
      ensures buf[nl + 1..len] == next
    {
      var i := nl - p;
      next := rest[i + 1..];
      assert rest[..i] == buf[p..nl] && rest[i] == buf[nl] && next == buf[nl + 1..len];
      NextLine(rest, i);
      ServeStep(server, session, rest[..i], CompleteLines(next));
      var text := TakeLine(p, nl);
      ServeText(text);
    }

    /** `read` puts the bytes behind the ones already there, and a zero behind them. */
    method Append(chunk: Bytes)
      requires Valid() && |chunk| <= CAPACITY - len
      modifies `len, buf
      ensures Valid() && Pending() == old(Pending()) + chunk
    {
      forall i | 0 <= i < |chunk| {
        buf[len + i] := chunk[i];
      }
      len := len + |chunk|;
      buf[len] := NUL;
      assert buf[..len] == old(Pending()) + chunk;
    }

    /** End the line at `nl`, trim a carriage return, and take it as a C string. */
    method TakeLine(p: nat, nl: nat) returns (text: Bytes)
      requires Valid() && p <= nl < len
      modifies buf
      ensures text == Text(old(buf[p..nl]))
      ensures buf[nl + 1..len] == old(buf[nl + 1..len])
    {
      ghost var line := buf[p..nl];
      buf[nl] := NUL;
      if nl > p && buf[nl - 1] == CARRIAGE_RETURN {
        buf[nl - 1] := NUL;
      }
      CStringIsText(line, buf[p..nl]);
      text := CString(p, nl);
    }

    method ServeText(text: Bytes)
      requires session.open
      modifies `session
      ensures session == Respond(server, old(session), text)
    {
      if !session.hello {
        // Nothing is served before both sides have named the same protocol version.
        if text == HELLO {
          session := session.(hello := true, log := session.log + [EchoHello]);
        } else {
          session := session.(open := false, log := session.log + [RefuseVersion]);
        }
      } else {
        var (state, verdict) := server(session.state, text);
        session := session.(state := state, log := session.log + [Execute(text, verdict)]);
        // What was injected is delivered before it is acknowledged.
        session := session.(log := session.log + Answer(verdict));
      }
    }

    /** `memmove` the incomplete line to the front. */
    method Compact(p: nat)
      requires Valid() && p <= len
      modifies `len, buf
      ensures Valid() && Pending() == old(buf[p..len])
    {
      var remaining := len - p;
      forall i | 0 <= i < remaining {
        buf[i] := buf[p + i];
      }
      len := remaining;
    }

    /** `memchr` for a newline among the bytes received. */
    method Find(p: nat) returns (nl: nat)
      requires Valid() && p <= len
      ensures p <= nl <= len && NEWLINE !in buf[p..nl]
      ensures nl < len ==> buf[nl] == NEWLINE
    {
      nl := p;
      while nl < len && buf[nl] != NEWLINE
        invariant p <= nl <= len
        invariant NEWLINE !in buf[p..nl]
      {
        nl := nl + 1;
      }
    }

    /** The C string at `p`; there is a zero at `end`. */
    method CString(p: nat, end: nat) returns (text: Bytes)
      requires Valid() && p <= end <= len && buf[end] == NUL
      ensures text == buf[p..end][..IndexOf(buf[p..end], NUL)]
    {
      var q := p;
      while buf[q] != NUL
        invariant p <= q <= end
        invariant NUL !in buf[p..q]
        decreases end - q
      {
        q := q + 1;
      }
      assert buf[p..end][..q - p] == buf[p..q];
      IndexOfIs(buf[p..end], NUL, q - p);
      text := buf[p..q];
    }
  }

  lemma {:induction false} IndexOfIs(bytes: Bytes, b: Byte, i: nat)
    requires i <= |bytes| && b !in bytes[..i]
    requires i < |bytes| ==> bytes[i] == b
    ensures IndexOf(bytes, b) == i
  {
    if i > 0 {
      assert bytes[0] == bytes[..i][0];
      assert bytes[..i] == [bytes[0]] + bytes[1..][..i - 1];
      IndexOfIs(bytes[1..], b, i - 1);
    }
  }

  /** Serving the lines of `rest` leads to `served`, and leaves `partial`. */
  ghost predicate Remains<S>(server: Server<S>, s: Session<S>, rest: Bytes, served: Session<S>, partial: Bytes) {
    Serve(server, s, CompleteLines(rest)) == served && Partial(rest) == partial
  }

  lemma NothingRemains<S>(server: Server<S>, s: Session<S>, rest: Bytes, served: Session<S>, partial: Bytes)
    requires Remains(server, s, rest, served, partial) && NEWLINE !in rest
    ensures s == served && rest == partial
  {
    NoNextLine(rest);
  }

  lemma ServeStep<S>(server: Server<S>, s: Session<S>, line: Bytes, lines: seq<Bytes>)
    requires s.open
    ensures Serve(server, s, [line] + lines) == Serve(server, ServeLine(server, s, line), lines)
    ensures !ServeLine(server, s, line).open ==> Serve(server, s, [line] + lines) == ServeLine(server, s, line)
  {
    assert ([line] + lines)[1..] == lines;
  }

  /** One step along the stream: the line that ends at `i`, and what follows it. */
  lemma NextLine(rest: Bytes, i: nat)
    requires i < |rest| && NEWLINE !in rest[..i] && rest[i] == NEWLINE
    ensures CompleteLines(rest) == [rest[..i]] + CompleteLines(rest[i + 1..])
    ensures Partial(rest) == Partial(rest[i + 1..])
  {
    IndexOfIs(rest, NEWLINE, i);
  }

  lemma NoNextLine(rest: Bytes)
    requires NEWLINE !in rest
    ensures CompleteLines(rest) == [] && Partial(rest) == rest
  {
    assert rest[..|rest|] == rest;
    IndexOfIs(rest, NEWLINE, |rest|);
  }

  /** Overwriting a trailing carriage return with a zero trims it from the C string. */
  lemma CStringIsText(line: Bytes, memory: Bytes)
    requires |line| == |memory|
    requires line != [] ==>
               && memory[..|line| - 1] == line[..|line| - 1]
               && memory[|line| - 1] == (if line[|line| - 1] == CARRIAGE_RETURN then NUL else line[|line| - 1])
    ensures memory[..IndexOf(memory, NUL)] == Text(line)
  {
    if line != [] && line[|line| - 1] == CARRIAGE_RETURN {
      var trimmed := line[..|line| - 1];
      var i := IndexOf(trimmed, NUL);
      IndexOfFinds(trimmed, NUL);
      assert memory[..i] == trimmed[..i];
      IndexOfIs(memory, NUL, i);
    } else {
      assert memory == line;
    }
  }

  // Independence of how the stream is cut up

  /** The connection after reading `chunks` one after the other. */
  function ReceiveAll<S>(server: Server<S>, c: Connection<S>, chunks: seq<Bytes>): Connection<S>
    decreases |chunks|
  {
    if chunks == [] then c else ReceiveAll(server, Receive(server, c, chunks[0]), chunks[1..])
  }

  function Room<S>(c: Connection<S>): int {
    CAPACITY - |c.pending|
  }

  /** `chunks` is a way for the kernel to deliver `stream`: every read returns a non-empty
      piece of it that fits, and reading goes on until the session is closed, the stream has
      ended, or there is no room to read into. */
  ghost predicate Delivery<S>(server: Server<S>, c: Connection<S>, stream: Bytes, chunks: seq<Bytes>)
    decreases |chunks|
  {
    if chunks == [] then !c.session.open || stream == [] || Room(c) == 0
    else
      && c.session.open
      && 0 < |chunks[0]| <= Room(c)
      && chunks[0] <= stream
      && Delivery(server, Receive(server, c, chunks[0]), stream[|chunks[0]|..], chunks[1..])
  }

  lemma {:induction false} LinesAppend(a: Bytes, b: Bytes)
    ensures CompleteLines(a + b) == CompleteLines(a) + CompleteLines(Partial(a) + b)
    decreases |a|
  {
    var i := IndexOf(a, NEWLINE);
    IndexOfFinds(a, NEWLINE);
    if i < |a| {
      assert (a + b)[..i] == a[..i] && (a + b)[i + 1..] == a[i + 1..] + b;
      IndexOfIs(a + b, NEWLINE, i);
      LinesAppend(a[i + 1..], b);
    }
  }

  lemma {:induction false} PartialIsIncomplete(a: Bytes)
    ensures NEWLINE !in Partial(a) && |Partial(a)| <= |a|
    ensures forall line :: line in CompleteLines(a) ==> |line| < |a|
    decreases |a|
  {
    var i := IndexOf(a, NEWLINE);
    IndexOfFinds(a, NEWLINE);
    if i < |a| {
      PartialIsIncomplete(a[i + 1..]);
    } else {
      assert a[..i] == a;
    }
  }

  lemma {:induction false} FittingAppend(xs: seq<Bytes>, ys: seq<Bytes>)
    requires forall line :: line in xs ==> |line| <= MAX_LINE
    ensures Fitting(xs + ys) == xs + Fitting(ys)
  {
    if xs == [] {
      assert xs + ys == ys;
    } else {
      assert (xs + ys)[1..] == xs[1..] + ys;
      FittingAppend(xs[1..], ys);
    }
  }

  lemma {:induction false} ServeAppend<S>(server: Server<S>, s: Session<S>, xs: seq<Bytes>, ys: seq<Bytes>)
    ensures Serve(server, s, xs + ys) == Serve(server, Serve(server, s, xs), ys)
    decreases |xs|
  {
    if xs == [] {
      assert xs + ys == ys;
    } else if s.open {
      assert (xs + ys)[1..] == xs[1..] + ys;
      ServeAppend(server, ServeLine(server, s, xs[0]), xs[1..], ys);
    }
  }

  /** An unfinished line that fills the buffer does not fit, wherever its newline is. */
  lemma FullBufferFitsNothing(pending: Bytes, stream: Bytes)
    requires NEWLINE !in pending && (|pending| == CAPACITY || stream == [])
    ensures Fitting(CompleteLines(pending + stream)) == []
  {
    var all := pending + stream;
    assert forall k :: 0 <= k < |pending| ==> all[k] == pending[k] != NEWLINE;
    IndexOfFinds(all, NEWLINE);
    assert IndexOf(all, NEWLINE) >= |pending|;
  }

  lemma OneChunk<S>(server: Server<S>, s: Session<S>, data: Bytes, more: Bytes)
    requires |data| <= CAPACITY
    ensures Serve(server, s, Fitting(CompleteLines(data + more)))
            == Serve(server, Serve(server, s, CompleteLines(data)), Fitting(CompleteLines(Partial(data) + more)))
  {
    PartialIsIncomplete(data);
    LinesAppend(data, more);
    FittingAppend(CompleteLines(data), CompleteLines(Partial(data) + more));
    ServeAppend(server, s, CompleteLines(data), Fitting(CompleteLines(Partial(data) + more)));
  }

  /** However the stream is delivered, what is served are its newline-terminated lines, in
      order, up to the first that does not fit in the buffer or the refused handshake. */
  lemma {:induction false} ChunkingIndependence<S>(
      server: Server<S>, c: Connection<S>, stream: Bytes, chunks: seq<Bytes>)
    requires NEWLINE !in c.pending && |c.pending| <= CAPACITY
    requires Delivery(server, c, stream, chunks)
    ensures ReceiveAll(server, c, chunks).session
            == Serve(server, c.session, Fitting(CompleteLines(c.pending + stream)))
    decreases |chunks|
  {
    if chunks == [] {
      FinishedDelivery(server, c, stream);
    } else {
      var data, more := c.pending + chunks[0], stream[|chunks[0]|..];
      var next := Receive(server, c, chunks[0]);
      PartialIsIncomplete(data);
      ChunkingIndependence(server, next, more, chunks[1..]);
      OneRead(server, c, chunks[0], more);
      assert chunks[0] + more == stream;
    }
  }

  lemma OneRead<S>(server: Server<S>, c: Connection<S>, chunk: Bytes, more: Bytes)
    requires 0 < |chunk| <= Room(c)
    ensures var next := Receive(server, c, chunk);
            Serve(server, c.session, Fitting(CompleteLines(c.pending + (chunk + more))))
            == Serve(server, next.session, Fitting(CompleteLines(next.pending + more)))
  {
    assert c.pending + (chunk + more) == c.pending + chunk + more;
    OneChunk(server, c.session, c.pending + chunk, more);
  }

  lemma FinishedDelivery<S>(server: Server<S>, c: Connection<S>, stream: Bytes)
    requires NEWLINE !in c.pending
    requires !c.session.open || stream == [] || |c.pending| == CAPACITY
    ensures Serve(server, c.session, Fitting(CompleteLines(c.pending + stream))) == c.session
  {
    if c.session.open {
      FullBufferFitsNothing(c.pending, stream);
    }
  }

  // What a session's log looks like

  predicate IsReply(e: Event) {
    !e.Execute? && !e.Flush?
  }

  function Replies(log: seq<Event>): seq<Event> {
    if log == [] then []
    else Replies(log[..|log| - 1]) + if IsReply(log[|log| - 1]) then [log[|log| - 1]] else []
  }

  lemma {:induction false} RepliesAppend(a: seq<Event>, b: seq<Event>)
    ensures Replies(a + b) == Replies(a) + Replies(b)
  {
    if b == [] {
      assert a + b == a;
    } else {
      assert (a + b)[..|a + b| - 1] == a + b[..|b| - 1];
      RepliesAppend(a, b[..|b| - 1]);
    }
  }

  /** `ok` is sent only for a command that was carried out without an error, right after
      what it injected was flushed. */
  ghost predicate OkMeansDone(log: seq<Event>) {
    forall i :: 0 <= i < |log| && log[i] == ReplyOk ==>
      && i >= 2
      && log[i - 1] == Flush
      && log[i - 2].Execute?
      && (log[i - 2].verdict == Activate(None) || log[i - 2].verdict == Command(None))
  }

  /** No event of the log is part of a handshake. */
  predicate NoHandshake(log: seq<Event>) {
    forall i :: 0 <= i < |log| ==> log[i] != EchoHello && log[i] != RefuseVersion
  }

  /** Nothing is carried out before the handshake, or after a refusal. */
  predicate HandshakeFirst(s: Session) {
    if !s.open then s.log == [RefuseVersion]
    else if !s.hello then s.log == []
    else s.log != [] && s.log[0] == EchoHello && NoHandshake(s.log[1..])
  }

  lemma RepliesOfOne(e: Event)
    ensures Replies([e]) == if IsReply(e) then [e] else []
  {
    assert [e][..0] == [];
  }

  /** The line that is sent back for a verdict. */
  function Reply(verdict: Verdict): Event {
    Answer(verdict)[|Answer(verdict)| - 1]
  }

  lemma AnswerReplies(verdict: Verdict)
    ensures Replies(Answer(verdict)) == [Reply(verdict)]
  {
    var answer := Answer(verdict);
    var last := answer[|answer| - 1];
    RepliesOfOne(last);
    if |answer| == 2 {
      RepliesOfOne(Flush);
      assert answer == [Flush] + [last];
      RepliesAppend([Flush], [last]);
    } else {
      assert answer == [last];
    }
  }

  lemma AnswerMeansDone(text: Bytes, verdict: Verdict)
    ensures OkMeansDone([Execute(text, verdict)] + Answer(verdict))
    ensures NoHandshake([Execute(text, verdict)] + Answer(verdict))
  {
    var events := [Execute(text, verdict)] + Answer(verdict);
    assert |events| == 2 ==> events == [Execute(text, verdict), Answer(verdict)[0]];
    assert |events| == 3 ==> events == [Execute(text, verdict), Flush, Answer(verdict)[1]];
  }

  /** Carrying out a line and answering it: one reply, and `ok` only after the flush. */
  lemma Exchange(text: Bytes, verdict: Verdict)
    ensures var events := [Execute(text, verdict)] + Answer(verdict);
            Replies(events) == [Reply(verdict)] && OkMeansDone(events) && NoHandshake(events)
  {
    RepliesOfOne(Execute(text, verdict));
    AnswerReplies(verdict);
    RepliesAppend([Execute(text, verdict)], Answer(verdict));
    AnswerMeansDone(text, verdict);
  }

  lemma OkMeansDoneAppend(a: seq<Event>, b: seq<Event>)
    requires OkMeansDone(a) && OkMeansDone(b)
    ensures OkMeansDone(a + b)
  {
    forall i | 0 <= i < |a + b| && (a + b)[i] == ReplyOk
      ensures i >= 2 && (a + b)[i - 1] == Flush && (a + b)[i - 2].Execute?
      ensures (a + b)[i - 2].verdict == Activate(None) || (a + b)[i - 2].verdict == Command(None)
    {
      if i < |a| {
        assert a[i] == ReplyOk;
      } else {
        assert b[i - |a|] == ReplyOk;
      }
    }
  }

  lemma ServeLineKeeps<S>(server: Server<S>, s: Session<S>, line: Bytes)
    requires s.open && HandshakeFirst(s) && OkMeansDone(s.log)
    ensures HandshakeFirst(ServeLine(server, s, line)) && OkMeansDone(ServeLine(server, s, line).log)
    ensures |Replies(ServeLine(server, s, line).log)| == |Replies(s.log)| + 1
    ensures s.log <= ServeLine(server, s, line).log
  {
    var text := Text(line);
    if s.hello {
      var verdict := server(s.state, text).1;
      ExchangeKeeps(s.log, text, verdict);
      assert ServeLine(server, s, line).log == s.log + ([Execute(text, verdict)] + Answer(verdict));
    } else {
      RepliesOfOne(EchoHello);
      RepliesOfOne(RefuseVersion);
    }
  }

  lemma ExchangeKeeps(log: seq<Event>, text: Bytes, verdict: Verdict)
    requires log != [] && log[0] == EchoHello && NoHandshake(log[1..]) && OkMeansDone(log)
    ensures var longer := log + ([Execute(text, verdict)] + Answer(verdict));
            && longer[0] == EchoHello && NoHandshake(longer[1..]) && OkMeansDone(longer)
            && |Replies(longer)| == |Replies(log)| + 1
  {
    var added := [Execute(text, verdict)] + Answer(verdict);
    Exchange(text, verdict);
    RepliesAppend(log, added);
    OkMeansDoneAppend(log, added);
    HandshakeKept(log, added);
  }

  lemma HandshakeKept(log: seq<Event>, added: seq<Event>)
    requires log != [] && NoHandshake(log[1..]) && NoHandshake(added)
    ensures (log + added)[0] == log[0] && NoHandshake((log + added)[1..])
  {
    assert (log + added)[1..] == log[1..] + added;
  }

  /** In every session the handshake comes first, an acknowledgement means that the command
      was carried out, and each line served gets exactly one reply. */
  lemma {:induction false} SessionProtocol<S>(server: Server<S>, s: Session<S>, lines: seq<Bytes>)
    requires s.open && HandshakeFirst(s) && OkMeansDone(s.log)
    ensures var t := Serve(server, s, lines);
            && HandshakeFirst(t) && OkMeansDone(t.log) && s.log <= t.log
            && (t.open ==> |Replies(t.log)| == |Replies(s.log)| + |lines|)
            && (!t.open ==> t.log == [RefuseVersion])
    decreases |lines|
  {
    if lines != [] {
      ServeLineKeeps(server, s, lines[0]);
      var t := ServeLine(server, s, lines[0]);
      if t.open {
        SessionProtocol(server, t, lines[1..]);
      }
    }
  }

  /** The exchanges of the lines, one after the other, each in the state the lines before it
      led to. */
  function Exchanges<S>(server: Server<S>, state: S, lines: seq<Bytes>): seq<Event>
    decreases |lines|
  {
    if lines == [] then []
    else
      var (next, verdict) := server(state, Text(lines[0]));
      [Execute(Text(lines[0]), verdict)] + Answer(verdict) + Exchanges(server, next, lines[1..])
  }

  /** The reply that each line gets. */
  function RepliesTo<S>(server: Server<S>, state: S, lines: seq<Bytes>): seq<Event>
    decreases |lines|
  {
    if lines == [] then []
    else
      var (next, verdict) := server(state, Text(lines[0]));
      [Reply(verdict)] + RepliesTo(server, next, lines[1..])
  }

  lemma {:induction false} ExchangesReply<S>(server: Server<S>, state: S, lines: seq<Bytes>)
    ensures Replies(Exchanges(server, state, lines)) == RepliesTo(server, state, lines)
    ensures |RepliesTo(server, state, lines)| == |lines|
    decreases |lines|
  {
    if lines != [] {
      var (next, verdict) := server(state, Text(lines[0]));
      Exchange(Text(lines[0]), verdict);
      RepliesAppend([Execute(Text(lines[0]), verdict)] + Answer(verdict), Exchanges(server, next, lines[1..]));
      ExchangesReply(server, next, lines[1..]);
    }
  }

  /** After the handshake a session is the exchanges of its lines, in order. */
  lemma {:induction false} ServedInOrder<S>(server: Server<S>, s: Session<S>, lines: seq<Bytes>)
    requires s.open && s.hello
    ensures var t := Serve(server, s, lines);
            t.open && t.hello && t.log == s.log + Exchanges(server, s.state, lines)
    decreases |lines|
  {
    if lines != [] {
      var (next, verdict) := server(s.state, Text(lines[0]));
      ServedInOrder(server, ServeLine(server, s, lines[0]), lines[1..]);
      AppendThree(s.log, [Execute(Text(lines[0]), verdict)], Answer(verdict), Exchanges(server, next, lines[1..]));
    }
  }

  lemma AppendThree(log: seq<Event>, a: seq<Event>, b: seq<Event>, c: seq<Event>)
    ensures log + a + b + c == log + (a + b + c)
  {
  }

  /** All that a connection ever does, given the lines it serves. */
  function Transcript<S>(server: Server<S>, state: S, lines: seq<Bytes>): seq<Event> {
    if lines == [] then []
    else if Text(lines[0]) != HELLO then [RefuseVersion]
    else [EchoHello] + Exchanges(server, state, lines[1..])
  }

  /** A session from its beginning: the echo or the refusal, then the exchanges; the replies
      answer the lines one by one. */
  lemma SessionTranscript<S>(server: Server<S>, state: S, lines: seq<Bytes>)
    ensures var t := Serve(server, Session(false, true, state, []), lines);
            && t.log == Transcript(server, state, lines)
            && (t.hello ==> Replies(t.log) == [EchoHello] + RepliesTo(server, state, lines[1..]))
  {
    var initial := Session(false, true, state, []);
    if lines != [] && Text(lines[0]) == HELLO {
      var greeted := ServeLine(server, initial, lines[0]);
      assert greeted == Session(true, true, state, [EchoHello]);
      ServedInOrder(server, greeted, lines[1..]);
      RepliesAppend([EchoHello], Exchanges(server, state, lines[1..]));
      RepliesOfOne(EchoHello);
      ExchangesReply(server, state, lines[1..]);
    } else if lines != [] {
      assert !ServeLine(server, initial, lines[0]).open;
    }
  }

  /** A connection from its beginning: any stream, any delivery. */
  lemma ConnectionProtocol<S>(server: Server<S>, state: S, stream: Bytes, chunks: seq<Bytes>)
    requires Delivery(server, Connection(Session(false, true, state, []), []), stream, chunks)
    ensures var t := ReceiveAll(server, Connection(Session(false, true, state, []), []), chunks).session;
            && HandshakeFirst(t) && OkMeansDone(t.log)
            && t.log == Transcript(server, state, Fitting(CompleteLines(stream)))
            && (t.open ==> |Replies(t.log)| == |Fitting(CompleteLines(stream))|)
  {
    var initial := Session(false, true, state, []);
    ChunkingIndependence(server, Connection(initial, []), stream, chunks);
    assert [] + stream == stream;
    SessionProtocol(server, initial, Fitting(CompleteLines(stream)));
    SessionTranscript(server, state, Fitting(CompleteLines(stream)));
  }

  /** The replies of a connection whose handshake is accepted: the echo, and one to each line
      that is served after it. */
  lemma ConnectionReplies<S>(server: Server<S>, state: S, stream: Bytes, chunks: seq<Bytes>)
    requires Delivery(server, Connection(Session(false, true, state, []), []), stream, chunks)
    requires var lines := Fitting(CompleteLines(stream)); lines != [] && Text(lines[0]) == HELLO
    ensures Replies(ReceiveAll(server, Connection(Session(false, true, state, []), []), chunks).session.log)
            == [EchoHello] + RepliesTo(server, state, Fitting(CompleteLines(stream))[1..])
  {
    var lines := Fitting(CompleteLines(stream));
    ConnectionProtocol(server, state, stream, chunks);
    RepliesAppend([EchoHello], Exchanges(server, state, lines[1..]));
    RepliesOfOne(EchoHello);
    ExchangesReply(server, state, lines[1..]);
  }

  // Every line that is carried out is answered by what came of it

  /** What comes of a line is answered: the report or the error of a query at once, `ok` or
      the error of a command after a flush. */
  ghost predicate AnsweredAt(log: seq<Event>, i: nat)
    requires i < |log| && log[i].Execute?
  {
    match log[i].verdict
    case QueryState(report) => i + 1 < |log| && log[i + 1] == ReplyReport(report)
    case QueryGeometry(Ok(report)) => i + 1 < |log| && log[i + 1] == ReplyReport(report)
    case QueryGeometry(Err(token)) => i + 1 < |log| && log[i + 1] == ReplyErr(token)
    case Activate(None) => i + 2 < |log| && log[i + 1] == Flush && log[i + 2] == ReplyOk
    case Activate(Some(token)) => i + 2 < |log| && log[i + 1] == Flush && log[i + 2] == ReplyErr(token)
    case Command(None) => i + 2 < |log| && log[i + 1] == Flush && log[i + 2] == ReplyOk
    case Command(Some(token)) => i + 2 < |log| && log[i + 1] == Flush && log[i + 2] == ReplyErr(token)
  }

  ghost predicate EachAnswered(log: seq<Event>) {
    forall i :: 0 <= i < |log| && log[i].Execute? ==> AnsweredAt(log, i)
  }

  lemma AnsweredStays(log: seq<Event>, more: seq<Event>, i: nat)
    requires i < |log| && log[i].Execute? && AnsweredAt(log, i)
    ensures AnsweredAt(log + more, i)
  {
    assert forall k :: 0 <= k < |log| ==> (log + more)[k] == log[k];
  }

  lemma AnsweredHere(log: seq<Event>, text: Bytes, verdict: Verdict)
    ensures AnsweredAt(log + ([Execute(text, verdict)] + Answer(verdict)), |log|)
  {
    var added := [Execute(text, verdict)] + Answer(verdict);
    assert forall i :: 0 <= i < |added| ==> (log + added)[|log| + i] == added[i];
    assert forall i :: 0 <= i < |Answer(verdict)| ==> added[1 + i] == Answer(verdict)[i];
  }

  lemma AnsweredAppend(log: seq<Event>, text: Bytes, verdict: Verdict)
    requires EachAnswered(log)
    ensures EachAnswered(log + [Execute(text, verdict)] + Answer(verdict))
  {
    var added := [Execute(text, verdict)] + Answer(verdict);
    var longer := log + added;
    assert longer == log + [Execute(text, verdict)] + Answer(verdict);
    AnsweredHere(log, text, verdict);
    forall i | 0 <= i < |longer| && longer[i].Execute? ensures AnsweredAt(longer, i) {
      if i < |log| {
        assert longer[i] == log[i];
        AnsweredStays(log, added, i);
      } else {
        assert longer[i] == added[i - |log|];
      }
    }
  }

  lemma AnsweredGreeting(log: seq<Event>, greeting: Event)
    requires EachAnswered(log) && !greeting.Execute?
    ensures EachAnswered(log + [greeting])
  {
    forall i | 0 <= i < |log + [greeting]| && (log + [greeting])[i].Execute?
      ensures AnsweredAt(log + [greeting], i)
    {
      assert i < |log| && (log + [greeting])[i] == log[i];
      AnsweredStays(log, [greeting], i);
    }
  }

  /** In every session each line is answered by what came of it. */
  lemma {:induction false} SessionAnswers<S>(server: Server<S>, s: Session<S>, lines: seq<Bytes>)
    requires EachAnswered(s.log)
    ensures EachAnswered(Serve(server, s, lines).log)
    decreases |lines|
  {
    if s.open && lines != [] {
      if s.hello {
        AnsweredAppend(s.log, Text(lines[0]), server(s.state, Text(lines[0])).1);
      } else {
        AnsweredGreeting(s.log, EchoHello);
        AnsweredGreeting(s.log, RefuseVersion);
      }
      SessionAnswers(server, ServeLine(server, s, lines[0]), lines[1..]);
    }
  }

  // The lines of a stream

  /** Lines with their newlines. */
  function Joined(lines: seq<Bytes>): Bytes {
    if lines == [] then [] else lines[0] + [NEWLINE] + Joined(lines[1..])
  }

  /** The lines and what follows them make up the stream. */
  lemma {:induction false} LinesJoin(stream: Bytes)
    ensures Joined(CompleteLines(stream)) + Partial(stream) == stream
    decreases |stream|
  {
    var i := IndexOf(stream, NEWLINE);
    IndexOfFinds(stream, NEWLINE);
    if i < |stream| {
      var line, rest := stream[..i], stream[i + 1..];
      LinesJoin(rest);
      var joined := Joined(CompleteLines(rest));
      assert CompleteLines(stream)[1..] == CompleteLines(rest);
      Regroup2(line + [NEWLINE], joined, Partial(rest));
      assert stream == line + [NEWLINE] + rest;
    }
  }

  /** Newlines are nowhere in them. */
  lemma {:induction false} LinesHaveNoNewline(stream: Bytes)
    ensures forall line :: line in CompleteLines(stream) ==> 10 !in line
    ensures 10 !in Partial(stream) && NEWLINE == 10
    decreases |stream|
  {
    var i := IndexOf(stream, NEWLINE);
    IndexOfFinds(stream, NEWLINE);
    if i < |stream| {
      LinesHaveNoNewline(stream[i + 1..]);
    } else {
      assert stream[..i] == stream;
    }
  }

  /** What is served are the lines before the first that has more than 16382 bytes. */
  lemma {:induction false} FittingExactly(lines: seq<Bytes>)
    ensures Fitting(lines) <= lines
    ensures forall line :: line in Fitting(lines) ==> |line| <= 16382
    ensures |Fitting(lines)| < |lines| ==> |lines[|Fitting(lines)|]| > 16382
  {
    if lines != [] && |lines[0]| <= MAX_LINE {
      FittingExactly(lines[1..]);
      var more := Fitting(lines[1..]);
      assert Fitting(lines) == [lines[0]] + more;
      assert lines[1..][..|more|] == more && lines == [lines[0]] + lines[1..];
    }
  }

  /** A line without zeros is its own text, but for one carriage return at its end; a zero ends
      the text. */
  lemma TextExactly(line: Bytes, rest: Bytes)
    requires 0 !in line
    ensures Text(line + [13]) == line
    ensures line == [] || line[|line| - 1] != 13 ==> Text(line) == line
    ensures Text(line + [0] + rest) == line
  {
    IndexOfIs(line, NUL, |line|);
    assert (line + [13])[..|line|] == line;
    var cut := line + [0] + rest;
    var trimmed := if cut[|cut| - 1] == CARRIAGE_RETURN then cut[..|cut| - 1] else cut;
    assert trimmed[..|line|] == line && trimmed[|line|] == 0;
    IndexOfIs(trimmed, NUL, |line|);
  }

  /** The bytes of an ASCII string. */
  function Ascii(s: string): Bytes
    requires forall i :: 0 <= i < |s| ==> s[i] < 128 as char
  {
    seq(|s|, i requires 0 <= i < |s| => s[i] as int as Byte)
  }

  /** The handshake. */
  lemma HelloIs()
    ensures HELLO == Ascii("cua-inject v1")
  {
  }

  /** A hang-up, the end of the stream or a full buffer closes the connection, and nothing else
      changes; bytes never close one that is past its handshake. */
  lemma {:induction false} OnlyHangUpCloses<S>(server: Server<S>, c: Connection<S>, chunk: Bytes)
    requires c.session.open
    ensures Receive(server, c, []).session == c.session.(open := false)
    ensures chunk != [] && c.session.hello ==> Receive(server, c, chunk).session.open
  {
    if c.session.hello {
      ServedInOrder(server, c.session, CompleteLines(c.pending + chunk));
    }
  }
}
