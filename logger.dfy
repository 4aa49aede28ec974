/** The logging middleware (middlewares/logger.go): it reads the request body
    for the log and hands the same bytes on, then wraps the response writer
    in a recorder that tees every written slice into a buffer and remembers
    the status, 200 unless the handler sets one. The log lines themselves and
    the duration measurement are not modelled. */
module Logger {
  import opened GoStd

  /** `http.StatusOK`, the status recorded before the handler runs. */
  const StatusOK := 200

  /** The underlying `http.ResponseWriter`, seen as a sink: the bytes it was
      sent and the statuses it was given, in order. */
  class Sink {
    var received: seq<byte>
    var statuses: seq<int>

    constructor ()
      ensures received == [] && statuses == []
    {
      received, statuses := [], [];
    }

    /** Takes every byte of `b` and reports them all written. */
    method Write(b: seq<byte>) returns (n: int)
      modifies this
      ensures received == old(received) + b && statuses == old(statuses)
      ensures n == |b|
    {
      received := received + b;
      n := |b|;
    }

    method WriteHeader(statusCode: int)
      modifies this
      ensures statuses == old(statuses) + [statusCode] && received == old(received)
    {
      statuses := statuses + [statusCode];
    }
  }

  /** responseRecorder: the wrapped writer, the captured body and the
      recorded status. */
  class ResponseRecorder {
    const writer: Sink
    var body: seq<byte>
    var statusCode: int

    /** The recorder Logger builds: empty body, status 200. */
    constructor (w: Sink)
      ensures writer == w && body == [] && statusCode == StatusOK
    {
      writer := w;
      body := [];
      statusCode := StatusOK;
    }

    /** Appends `b` to the captured body, forwards the same `b` and returns
        what the wrapped writer returned. */
    method Write(b: seq<byte>) returns (n: int)
      modifies this, writer
      ensures body == old(body) + b && statusCode == old(statusCode)
      ensures writer.received == old(writer.received) + b && writer.statuses == old(writer.statuses)
      ensures n == |b|
    {
      body := body + b;
      n := writer.Write(b);
    }

    /** Records `statusCode` and forwards it. */
    method WriteHeader(statusCode: int)
      modifies this, writer
      ensures this.statusCode == statusCode && body == old(body)
      ensures writer.statuses == old(writer.statuses) + [statusCode] && writer.received == old(writer.received)
    {
      this.statusCode := statusCode;
      writer.WriteHeader(statusCode);
    }
  }

  // ---------------------------------------------------------------------------
  // What a handler does to its writer

  /** One call a handler makes on its response writer. */
  datatype Action = SetStatus(code: int) | WriteBody(chunk: seq<byte>)

  /** The bytes a handler writes: its chunks, concatenated in order. */
  function Written(actions: seq<Action>): seq<byte> {
    if actions == [] then []
    else (if actions[0].WriteBody? then actions[0].chunk else []) + Written(actions[1..])
  }

  /** The statuses a handler sets, in order. */
  function StatusesSet(actions: seq<Action>): seq<int> {
    if actions == [] then []
    else (if actions[0].SetStatus? then [actions[0].code] else []) + StatusesSet(actions[1..])
  }

  /** The status a recorder holds after the handler, starting from `current`. */
  function FinalStatus(actions: seq<Action>, current: int): int {
    if actions == [] then current
    else FinalStatus(actions[1..], if actions[0].SetStatus? then actions[0].code else current)
  }

  /** Writing two scripts one after the other writes both outputs in turn. */
  lemma {:induction false} WrittenAppend(a: seq<Action>, b: seq<Action>)
    ensures Written(a + b) == Written(a) + Written(b)
  {
    if a != [] {
      assert (a + b)[1..] == a[1..] + b;
      WrittenAppend(a[1..], b);
    } else {
      assert a + b == b;
    }
  }

  /** A handler that never sets a status leaves the starting one; otherwise
      the status is that of its most recent WriteHeader. */
  lemma {:induction false} FinalStatusIsLatest(actions: seq<Action>, current: int)
    ensures StatusesSet(actions) == [] ==> FinalStatus(actions, current) == current
    ensures StatusesSet(actions) != [] ==> FinalStatus(actions, current) == StatusesSet(actions)[|StatusesSet(actions)| - 1]
  {
    if actions != [] {
      FinalStatusIsLatest(actions[1..], if actions[0].SetStatus? then actions[0].code else current);
    }
  }

  /** The recorder driven by a handler: it captures exactly the bytes the
      handler wrote, forwards the same bytes and statuses, and ends on the
      handler's final status. */
  method RunHandler(rec: ResponseRecorder, actions: seq<Action>)
    modifies rec, rec.writer
    ensures rec.body == old(rec.body) + Written(actions)
    ensures rec.writer.received == old(rec.writer.received) + Written(actions)
    ensures rec.writer.statuses == old(rec.writer.statuses) + StatusesSet(actions)
    ensures rec.statusCode == FinalStatus(actions, old(rec.statusCode))
  {
    for i := 0 to |actions|
      invariant rec.body == old(rec.body) + Written(actions[..i])
      invariant rec.writer.received == old(rec.writer.received) + Written(actions[..i])
      invariant rec.writer.statuses == old(rec.writer.statuses) + StatusesSet(actions[..i])
      invariant FinalStatus(actions, old(rec.statusCode)) == FinalStatus(actions[i..], rec.statusCode)
    {
      ActionStep(actions, i);
      match actions[i] {
        case SetStatus(code) =>
          rec.WriteHeader(code);
        case WriteBody(chunk) =>
          var _ := rec.Write(chunk);
      }
    }
    assert actions[..|actions|] == actions;
  }

  /** What one more action adds to each running total. */
  lemma ActionStep(actions: seq<Action>, i: int)
    requires 0 <= i < |actions|
    ensures Written(actions[..i + 1]) == Written(actions[..i]) + (if actions[i].WriteBody? then actions[i].chunk else [])
    ensures StatusesSet(actions[..i + 1]) == StatusesSet(actions[..i]) + (if actions[i].SetStatus? then [actions[i].code] else [])
    ensures forall current :: FinalStatus(actions[i..], current)
              == FinalStatus(actions[i + 1..], if actions[i].SetStatus? then actions[i].code else current)
  {
    assert actions[..i + 1] == actions[..i] + [actions[i]];
    assert actions[i..][1..] == actions[i + 1..];
    WrittenAppend(actions[..i], [actions[i]]);
    StatusesSetAppend(actions[..i], [actions[i]]);
    assert [actions[i]][1..] == [];
  }

  /** Setting statuses in two scripts in turn sets both lists in order. */
  lemma {:induction false} StatusesSetAppend(a: seq<Action>, b: seq<Action>)
    ensures StatusesSet(a + b) == StatusesSet(a) + StatusesSet(b)
  {
    if a != [] {
      assert (a + b)[1..] == a[1..] + b;
      StatusesSetAppend(a[1..], b);
    } else {
      assert a + b == b;
    }
  }

  // ---------------------------------------------------------------------------
  // The request body

  /** What `io.ReadAll` returned for a non-nil body: the bytes it read and
      whether it reported an error. */
  datatype ReadResult = ReadResult(data: seq<byte>, failed: bool)

  /** The body Logger logs and the body it hands to the next handler, from
      the request's body (None for a nil body). */
  datatype CapturedBody = CapturedBody(logged: seq<byte>, forwarded: Option<seq<byte>>)

  /** Logger's body capture: a nil body stays nil and logs nothing; otherwise
      the next handler gets the bytes that were read, and they are logged
      unless the read failed. */
  function CaptureRequestBody(body: Option<ReadResult>): (c: CapturedBody)
    ensures body.None? <==> c.forwarded.None?
    ensures body.Some? ==> c.forwarded == Some(body.value.data)
    ensures c.logged == [] || (c.forwarded.Some? && c.logged == c.forwarded.value)
    ensures body.Some? && !body.value.failed ==> c.logged == body.value.data
  {
    match body
    case None => CapturedBody([], None)
    case Some(r) => CapturedBody(if r.failed then [] else r.data, Some(r.data))
  }

  /** What Logger writes to its "Outgoing response" line. */
  datatype Outgoing = Outgoing(status: int, body: seq<byte>)

  /** Logger around a handler: the next handler sees the captured request
      body; the response log holds the handler's final status (200 if it set
      none) and every byte it wrote, which are also exactly the bytes the
      client's writer received. */
  method Logger(w: Sink, body: Option<ReadResult>, next: seq<Action>) returns (forwarded: Option<seq<byte>>, logged: Outgoing)
    modifies w
    ensures forwarded == CaptureRequestBody(body).forwarded
    ensures logged.status == FinalStatus(next, StatusOK)
    ensures StatusesSet(next) == [] ==> logged.status == StatusOK
    ensures logged.body == Written(next)
    ensures w.received == old(w.received) + logged.body
    ensures w.statuses == old(w.statuses) + StatusesSet(next)
  {
    forwarded := CaptureRequestBody(body).forwarded;
    var rec := new ResponseRecorder(w);
    RunHandler(rec, next);
    FinalStatusIsLatest(next, StatusOK);
    logged := Outgoing(rec.statusCode, rec.body);
  }
}
