// The command engine of the server: parse the command header, run the handler
// of the command, write the response header or the error code.
module Server {
  import opened ByteOrder
  import opened Codec
  import opened Buffers

  const RC_COMMAND_SIZE: nat := 0x142
  const RC_COMMAND_CODE: nat := 0x143
  const RC_MEMORY: nat := 0x904
  const HEADER_SIZE := 10
  const SESSION_TAG: nat := 0x8001

  // ---- Handlers ----

  // One write into the response: a callback fills a slice of `size` bytes, whose
  // old contents it sees, and may change the state; None is the failure mode that
  // the source leaves as a panic.
  datatype WriteOp<!T> = WriteOp(size: nat, fill: (T, seq<byte>) -> Option<(T, seq<byte>)>)

  datatype Reply<!T> = Refuse(state: T, code: nat) | Answer(state: T, ops: seq<WriteOp<T>>)

  // A handler reads big-endian fields of the given widths off the request and
  // then, having turned the request into a response, only writes.
  datatype Handler<!T> = Handler(widths: seq<nat>, respond: (seq<nat>, T) -> Reply<T>)

  type Table<!T> = nat -> Option<Handler<T>>

  predicate IsErrorCode(code: nat) {
    0 < code < 0x1_0000_0000
  }

  ghost predicate FillsItsSlice<T(!new)>(op: WriteOp<T>) {
    forall t, slice | |slice| == op.size && op.fill(t, slice).Some? :: |op.fill(t, slice).value.1| == op.size
  }

  // What a callback must do for the two buffer forms to agree: in place, the old
  // contents of its slice are request bytes.
  ghost predicate IgnoresSlice<T(!new)>(op: WriteOp<T>) {
    forall t, slice, slice' | |slice| == |slice'| == op.size :: op.fill(t, slice) == op.fill(t, slice')
  }

  ghost predicate ReplyOk<T(!new)>(r: Reply<T>) {
    match r
    case Refuse(_, code) => IsErrorCode(code)
    case Answer(_, ops) => forall op | op in ops :: FillsItsSlice(op)
  }

  // What the types of the source guarantee of its handlers.
  ghost predicate TableOk<T(!new)>(table: Table<T>) {
    forall code, vals, t | table(code).Some? :: ReplyOk(table(code).value.respond(vals, t))
  }

  ghost predicate ReplyIgnores<T(!new)>(r: Reply<T>) {
    r.Answer? ==> forall op | op in r.ops :: IgnoresSlice(op)
  }

  ghost predicate TableIgnoresSlices<T(!new)>(table: Table<T>) {
    forall code, vals, t | table(code).Some? :: ReplyIgnores(table(code).value.respond(vals, t))
  }

  // ---- What a command comes to ----

  // The first `k` fields and the offset behind them.
  function ReadFields(widths: seq<nat>, request: seq<byte>, offset: nat, k: nat): (r: Option<(seq<nat>, nat)>)
    requires k <= |widths|
    ensures r.Some? ==> |r.value.0| == k
  {
    if k == 0 then Some(([], offset))
    else
      match ReadFields(widths, request, offset, k - 1)
      case None => None
      case Some((vals, at)) =>
        match ReadAt(request, at, widths[k - 1])
        case None => None
        case Some(v) => Some((vals + [v], at + widths[k - 1]))
  }

  datatype Writing<T> = Wrote(state: T, bytes: seq<byte>) | NoRoom(state: T, bytes: seq<byte>) | Crashed

  // The first `k` writes into a response that holds `response` before them. No
  // write changes the slice of a later one.
  function RunWrites<T>(ops: seq<WriteOp<T>>, state: T, response: seq<byte>, k: nat): (r: Writing<T>)
    requires k <= |ops|
  {
    if k == 0 then Wrote(state, [])
    else
      match RunWrites(ops, state, response, k - 1)
      case NoRoom(t, bytes) => NoRoom(t, bytes)
      case Crashed => Crashed
      case Wrote(t, bytes) => RunWriteOp(ops[k - 1], t, bytes, response)
  }

  function RunWriteOp<T>(op: WriteOp<T>, t: T, bytes: seq<byte>, response: seq<byte>): (r: Writing<T>) {
    var at := HEADER_SIZE + |bytes|;
    if at + op.size > |response| then NoRoom(t, bytes)
    else
      match op.fill(t, response[at..at + op.size])
      case None => Crashed
      case Some((t', data)) => Wrote(t', bytes + data)
  }

  // The result of `execute_command`. A failure says which header and payload
  // bytes had been written by then.
  datatype Exec<T> =
    | Success(state: T, payload: seq<byte>)
    | Failure(state: T, code: nat, header: seq<byte>, payload: seq<byte>)
    | Crash

  function Execute<T>(table: Table<T>, state: T, request: seq<byte>, response: seq<byte>): Exec<T> {
    var size, code := ReadAt(request, 2, 4), ReadAt(request, 6, 4);
    if ReadAt(request, 0, 2).None? || size.None? || size.value != |request| || code.None? then
      Failure(state, RC_COMMAND_SIZE, [], [])
    else if table(code.value).None? then Failure(state, RC_COMMAND_CODE, [], [])
    else Handle(table(code.value).value, state, request, response)
  }

  function Handle<T>(h: Handler<T>, state: T, request: seq<byte>, response: seq<byte>): Exec<T> {
    match ReadFields(h.widths, request, HEADER_SIZE, |h.widths|)
    case None => Failure(state, RC_COMMAND_SIZE, [], [])
    case Some((vals, _)) =>
      match h.respond(vals, state)
      case Refuse(t, code) => Failure(t, code, [], [])
      case Answer(t, ops) => Answered(ops, t, response)
  }

  // The answer of a handler, sealed.
  function Answered<T>(ops: seq<WriteOp<T>>, state: T, response: seq<byte>): Exec<T> {
    match RunWrites(ops, state, response, |ops|)
    case Crashed => Crash
    case NoRoom(t, bytes) => Failure(t, RC_MEMORY, [], bytes)
    case Wrote(t, bytes) => Seal(t, bytes, |response|)
  }

  // The three header writes; they fail only in a response of less than ten bytes.
  function Seal<T>(state: T, payload: seq<byte>, cap: nat): Exec<T> {
    if cap >= HEADER_SIZE then Success(state, payload)
    else Failure(state, RC_MEMORY, SuccessHeader(|payload|)[..if cap < 2 then 0 else if cap < 6 then 2 else 6], payload)
  }

  // Tag, size as u32 and response code of a success.
  function SuccessHeader(payload: nat): (h: seq<byte>)
    ensures |h| == HEADER_SIZE
  {
    assert Pow256(2) > SESSION_TAG && Pow256(4) == 0x1_0000_0000;
    BeBytes(2, SESSION_TAG) + BeBytes(4, (HEADER_SIZE + payload) % 0x1_0000_0000) + BeBytes(4, 0)
  }

  // Overwrites part of the response, if there is anything to write.
  function Overlay(b: seq<byte>, offset: nat, data: seq<byte>): (r: seq<byte>)
    requires data != [] ==> offset + |data| <= |b|
    ensures |r| == |b|
  {
    if data == [] then b else WriteAt(b, offset, data)
  }

  // The response buffer when `execute_command` returns.
  ghost predicate Left<T>(e: Exec<T>, before: seq<byte>, after: seq<byte>) {
    match e
    case Crash => true
    case Success(_, payload) =>
      && HEADER_SIZE + |payload| <= |before|
      && after == WriteAt(before, 0, SuccessHeader(|payload|) + payload)
    case Failure(_, _, header, payload) =>
      && (payload != [] ==> HEADER_SIZE + |payload| <= |before|)
      && |header| <= |before|
      && after == Overlay(Overlay(before, 0, header), HEADER_SIZE, payload)
  }

  // What the caller of `execute_command_*` gets: the returned size, or nothing
  // after a panic, and the response.
  ghost predicate Responded<T>(e: Exec<T>, before: seq<byte>, after: seq<byte>, r: Option<nat>) {
    match e
    case Crash => r == None
    case Success(_, payload) => Left(e, before, after) && r == Some(HEADER_SIZE + |payload|)
    case Failure(_, code, _, _) =>
      && r == Some(if |before| >= HEADER_SIZE then HEADER_SIZE else 0)
      && exists mid ::
           && Left(e, before, mid)
           && |mid| == |before|
           && after == if |before| >= HEADER_SIZE then WriteAt(mid, 6, ErrorBytes(code)) else mid
  }

  function ErrorBytes(code: nat): (b: seq<byte>)
    ensures |b| == 4
  {
    assert Pow256(4) == 0x1_0000_0000;
    BeBytes(4, code % 0x1_0000_0000)
  }

  ghost predicate StateAfter<T>(e: Exec<T>, state: T) {
    match e
    case Crash => true
    case Success(t, _) => state == t
    case Failure(t, _, _, _) => state == t
  }

  // `Result<usize, TpmRcError>`, with a panic made explicit.
  datatype Returned = Size(n: nat) | Error(code: nat) | Panicked

  ghost predicate ReturnedBy<T>(e: Exec<T>, r: Returned) {
    match e
    case Crash => r == Panicked
    case Success(_, payload) => r == Returned.Size(HEADER_SIZE + |payload|)
    case Failure(_, code, _, _) => r == Returned.Error(code)
  }

  // An error leaves its code in bytes 6 to 9 and returns 10, or 0 without room.
  ghost predicate Finished(result: Returned, before: seq<byte>, after: seq<byte>, r: Option<nat>) {
    match result
    case Panicked => r == None
    case Size(n) => r == Some(n) && after == before
    case Error(code) =>
      if |before| >= HEADER_SIZE then r == Some(HEADER_SIZE) && after == WriteAt(before, 6, ErrorBytes(code))
      else r == Some(0) && after == before
  }

  lemma {:induction false} FinishResponds<T>(
    e: Exec<T>, before: seq<byte>, mid: seq<byte>, after: seq<byte>, result: Returned, r: Option<nat>)
    requires Left(e, before, mid) && |mid| == |before| && ReturnedBy(e, result) && Finished(result, mid, after, r)
    ensures Responded(e, before, after, r)
  {
  }

  class TpmContext<T(!new)> {
    const table: Table<T>
    var state: T

    constructor (table: Table<T>, state: T)
      ensures this.table == table && this.state == state
    {
      this.table := table;
      this.state := state;
    }

    method ExecuteCommandSeparate(request: array<byte>, response: array<byte>) returns (r: Option<nat>)
      requires TableOk(table) && request != response
      modifies this, response
      ensures var e := Execute(table, old(state), request[..], old(response[..]));
              StateAfter(e, state) && Responded(e, old(response[..]), response[..], r)
    {
      ghost var e, before := Execute(table, state, request[..], response[..]), response[..];
      var result := ExecuteCommand(Separate(request, response));
      ghost var mid := response[..];
      r := Finish(result, response);
      FinishResponds(e, before, mid, response[..], result, r);
    }

    method ExecuteCommandInPlace(inOut: array<byte>, requestSize: nat) returns (r: Option<nat>)
      requires TableOk(table)
      modifies this, inOut
      ensures var request := old(inOut[..if requestSize < inOut.Length then requestSize else inOut.Length]);
              var e := Execute(table, old(state), request, old(inOut[..]));
              StateAfter(e, state) && Responded(e, old(inOut[..]), inOut[..], r)
    {
      ghost var request := inOut[..if requestSize < inOut.Length then requestSize else inOut.Length];
      ghost var e, before := Execute(table, state, request, inOut[..]), inOut[..];
      var result := ExecuteCommand(NewInOut(inOut, requestSize));
      ghost var mid := inOut[..];
      r := Finish(result, inOut);
      FinishResponds(e, before, mid, inOut[..], result, r);
    }

    // `fill_error` on the error branch of the match.
    method Finish(result: Returned, response: array<byte>) returns (r: Option<nat>)
      modifies response
      ensures Finished(result, old(response[..]), response[..], r)
    {
      match result
      case Panicked => return None;
      case Size(n) => return Some(n);
      case Error(code) =>
        var ok := Write(response, 6, ErrorBytes(code));
        return Some(if ok then HEADER_SIZE else 0);
    }

    method ExecuteCommand(buffers: TpmBuffers) returns (r: Returned)
      requires TableOk(table) && buffers.Valid()
      modifies this, buffers.GetResponse()
      ensures var e := Execute(table, old(state), old(buffers.GetRequest()), old(buffers.GetResponse()[..]));
              && StateAfter(e, state)
              && ReturnedBy(e, r)
              && Left(e, old(buffers.GetResponse()[..]), buffers.GetResponse()[..])
    {
      var requestSize := buffers.RequestLen();
      var cursor := new RequestResponseCursor(buffers, HEADER_SIZE);
      var session := cursor.ReadBe(2);
      if session.None? {
        return Returned.Error(RC_COMMAND_SIZE);
      }
      var size := cursor.ReadBe(4);
      if size.None? || size.value != requestSize {
        return Returned.Error(RC_COMMAND_SIZE);
      }
      var commandCode := cursor.ReadBe(4);
      if commandCode.None? {
        return Returned.Error(RC_COMMAND_SIZE);
      }
      var handler := table(commandCode.value);
      if handler.None? {
        return Returned.Error(RC_COMMAND_CODE);
      }
      r := RunHandler(handler.value, cursor);
    }

    // The handler on the cursor, and the header of a success.
    method RunHandler(h: Handler<T>, cursor: RequestResponseCursor) returns (r: Returned)
      requires cursor.buffers.Valid()
      requires forall vals, t :: ReplyOk(h.respond(vals, t))
      requires cursor.requestOffset == cursor.responseOffset == HEADER_SIZE
      modifies this, cursor, cursor.buffers.GetResponse()
      ensures var response := cursor.buffers.GetResponse();
              var e := Handle(h, old(state), old(cursor.buffers.GetRequest()), old(response[..]));
              && StateAfter(e, state)
              && ReturnedBy(e, r)
              && Left(e, old(response[..]), response[..])
    {
      ghost var request, response := cursor.buffers.GetRequest(), cursor.buffers.GetResponse();
      ghost var s0, before := state, response[..];
      var vals := ReadRequest(h.widths, cursor);
      assert response[..] == before && state == s0;
      if vals.None? {
        assert Handle(h, s0, request, before) == Failure(s0, RC_COMMAND_SIZE, [], []);
        return Returned.Error(RC_COMMAND_SIZE);
      }
      var reply := h.respond(vals.value, state);
      state := reply.state;
      if reply.Refuse? {
        assert Handle(h, s0, request, before) == Failure(state, reply.code, [], []);
        return Returned.Error(reply.code);
      }
      assert Handle(h, s0, request, before) == Answered(reply.ops, state, before);
      assert ReplyOk(reply);
      r := WriteResponse(reply.ops, cursor);
    }

    method ReadRequest(widths: seq<nat>, cursor: RequestResponseCursor) returns (r: Option<seq<nat>>)
      requires cursor.buffers.Valid() && cursor.requestOffset == HEADER_SIZE
      modifies cursor`requestOffset
      ensures match ReadFields(widths, cursor.buffers.GetRequest(), HEADER_SIZE, |widths|)
              case None => r == None
              case Some((vals, _)) => r == Some(vals)
    {
      ghost var request := cursor.buffers.GetRequest();
      var vals: seq<nat> := [];
      NothingRead(widths, request);
      for k := 0 to |widths|
        invariant cursor.buffers.GetRequest() == request
        invariant ReadFields(widths, request, HEADER_SIZE, k) == Some((vals, cursor.requestOffset))
      {
        var v := ReadNext(widths, k, vals, cursor, request);
        if v.None? {
          return None;
        }
        vals := vals + [v.value];
      }
      return Some(vals);
    }

    // The field at `k`, behind those that are read.
    method ReadNext(widths: seq<nat>, k: nat, ghost vals: seq<nat>, cursor: RequestResponseCursor,
                    ghost request: seq<byte>) returns (v: Option<nat>)
      requires cursor.buffers.Valid() && cursor.buffers.GetRequest() == request && k < |widths|
      requires ReadFields(widths, request, HEADER_SIZE, k) == Some((vals, cursor.requestOffset))
      modifies cursor`requestOffset
      ensures cursor.buffers.GetRequest() == request
      ensures v.None? ==> ReadFields(widths, request, HEADER_SIZE, |widths|).None?
      ensures v.Some? ==>
                ReadFields(widths, request, HEADER_SIZE, k + 1) == Some((vals + [v.value], cursor.requestOffset))
    {
      NextField(widths, request, k, vals, cursor.requestOffset);
      v := cursor.ReadBe(widths[k]);
    }

    // From `into_response` on, the request is no longer looked at.
    method WriteResponse(ops: seq<WriteOp<T>>, cursor: RequestResponseCursor) returns (r: Returned)
      requires cursor.buffers.Valid() && cursor.responseOffset == HEADER_SIZE
      requires forall op | op in ops :: FillsItsSlice(op)
      modifies this, cursor, cursor.buffers.GetResponse()
      ensures var response := cursor.buffers.GetResponse();
              var e := Answered(ops, old(state), old(response[..]));
              && StateAfter(e, state)
              && ReturnedBy(e, r)
              && Left(e, old(response[..]), response[..])
    {
      ghost var s0, before := state, cursor.buffers.GetResponse()[..];
      var stop: Option<Returned>;
      ghost var bytes: seq<byte>;
      stop, bytes := WriteAll(ops, cursor, before);
      if stop.Some? {
        return stop.value;
      }
      r := WriteHeader(cursor.buffers.GetResponse(), cursor.responseOffset, bytes, before);
    }

    // All writes of a handler, up to the first that fails.
    method WriteAll(ops: seq<WriteOp<T>>, cursor: RequestResponseCursor, ghost before: seq<byte>)
      returns (stop: Option<Returned>, ghost bytes: seq<byte>)
      requires cursor.responseOffset == HEADER_SIZE && cursor.buffers.GetResponse()[..] == before
      requires forall op | op in ops :: FillsItsSlice(op)
      modifies this, cursor, cursor.buffers.GetResponse()
      ensures stop.None? ==>
                Written(ops, old(state), before, |ops|, state, bytes, cursor.responseOffset,
                        cursor.buffers.GetResponse()[..])
      ensures stop.Some? ==> Stopped(ops, old(state), before, stop.value, state, cursor.buffers.GetResponse()[..])
    {
      ghost var s0 := state;
      bytes := [];
      stop := None;
      NothingWritten(ops, state, before);
      for k := 0 to |ops|
        invariant stop == None
        invariant Written(ops, s0, before, k, state, bytes, cursor.responseOffset, cursor.buffers.GetResponse()[..])
      {
        assert ops[k] in ops;
        stop, bytes := WriteNext(ops, k, cursor, before, s0, bytes);
        if stop.Some? {
          return;
        }
      }
    }

    // The write at `k`, behind those that are done.
    method WriteNext(ops: seq<WriteOp<T>>, k: nat, cursor: RequestResponseCursor, ghost before: seq<byte>, ghost s0: T,
                     ghost bytes: seq<byte>) returns (stop: Option<Returned>, ghost bytes': seq<byte>)
      requires k < |ops| && FillsItsSlice(ops[k])
      requires Written(ops, s0, before, k, state, bytes, cursor.responseOffset, cursor.buffers.GetResponse()[..])
      modifies this, cursor, cursor.buffers.GetResponse()
      ensures stop.None? ==>
                Written(ops, s0, before, k + 1, state, bytes', cursor.responseOffset, cursor.buffers.GetResponse()[..])
      ensures stop.Some? ==> Stopped(ops, s0, before, stop.value, state, cursor.buffers.GetResponse()[..])
    {
      ghost var t := state;
      stop, bytes' := WriteOne(ops[k], cursor, before, bytes);
      if stop.Some? {
        WritingStops(ops, s0, before, k, t, bytes, stop.value, state, bytes', cursor.responseOffset,
                     cursor.buffers.GetResponse()[..]);
      } else {
        WritingGoesOn(ops, s0, before, k, t, bytes, state, bytes');
      }
    }

    // One write behind `bytes`, and how it ends the command if it fails.
    method WriteOne(op: WriteOp<T>, cursor: RequestResponseCursor, ghost before: seq<byte>, ghost bytes: seq<byte>)
      returns (stop: Option<Returned>, ghost bytes': seq<byte>)
      requires FillsItsSlice(op)
      requires InPlace(before, bytes, cursor.responseOffset, cursor.buffers.GetResponse()[..])
      modifies this, cursor, cursor.buffers.GetResponse()
      ensures InPlace(before, bytes', cursor.responseOffset, cursor.buffers.GetResponse()[..]) || stop == Some(Panicked)
      ensures EndsOne(RunWriteOp(op, old(state), bytes, before), stop, state, bytes')
    {
      ghost var current := state;
      SliceUntouched(before, HEADER_SIZE, bytes, op.size);
      bytes' := bytes;
      var called := CallOp(op, cursor);
      match called
      case CallbackNoRoom => return Some(Returned.Error(RC_MEMORY)), bytes;
      case CallbackPanicked => return Some(Panicked), bytes;
      case CallbackDone(t) =>
        state := t;
        ghost var at := HEADER_SIZE + |bytes|;
        ghost var data := op.fill(current, before[at..at + op.size]).value.1;
        OpWrites(op, current, before, bytes, t, data);
        return None, bytes + data;
    }

    // `write_callback` with the callback of `op`.
    method CallOp(op: WriteOp<T>, cursor: RequestResponseCursor) returns (called: Called<T>)
      requires FillsItsSlice(op)
      modifies cursor, cursor.buffers.GetResponse()
      ensures var before, at := old(cursor.buffers.GetResponse()[..]), old(cursor.responseOffset);
              if at + op.size > |before| then
                called == CallbackNoRoom && cursor.responseOffset == at && cursor.buffers.GetResponse()[..] == before
              else
                match op.fill(state, before[at..at + op.size])
                case None => called == CallbackPanicked
                case Some((t, data)) =>
                  && |data| == op.size && called == CallbackDone(t) && cursor.responseOffset == at + op.size
                  && cursor.buffers.GetResponse()[..] == WriteAt(before, at, data)
    {
      var t := state;
      called := cursor.WriteCallback(op.size, (slice: seq<byte>) => op.fill(t, slice));
    }

    method WriteHeader(response: array<byte>, responseSize: nat,
                       ghost bytes: seq<byte>, ghost before: seq<byte>) returns (r: Returned)
      requires responseSize == HEADER_SIZE + |bytes|
      requires |before| == response.Length
      requires bytes != [] ==> HEADER_SIZE + |bytes| <= response.Length
      requires response[..] == Overlay(before, HEADER_SIZE, bytes)
      modifies response
      ensures var e := Seal(state, bytes, response.Length);
              ReturnedBy(e, r) && Left(e, before, response[..])
    {
      ghost var header, base := SuccessHeader(|bytes|), response[..];
      HeaderPieces(|bytes|);
      var ok := WriteField(response, 0, BeBytes(2, SESSION_TAG), header, base);
      if !ok {
        CutShort(state, bytes, before, response[..], 0);
        return Returned.Error(RC_MEMORY);
      }
      ok := WriteField(response, 2, BeBytes(4, responseSize % 0x1_0000_0000), header, base);
      if !ok {
        CutShort(state, bytes, before, response[..], 2);
        return Returned.Error(RC_MEMORY);
      }
      ok := WriteField(response, 6, BeBytes(4, 0), header, base);
      if !ok {
        CutShort(state, bytes, before, response[..], 6);
        return Returned.Error(RC_MEMORY);
      }
      HeaderAndPayload(before, header, bytes);
      return Returned.Size(responseSize);
    }
  }

  // The response with `bytes` behind the header's place, and the offset past them.
  ghost predicate InPlace(before: seq<byte>, bytes: seq<byte>, offset: nat, after: seq<byte>) {
    && offset == HEADER_SIZE + |bytes|
    && (bytes != [] ==> HEADER_SIZE + |bytes| <= |before|)
    && after == Overlay(before, HEADER_SIZE, bytes)
  }

  // A write goes on, or stops the command with an error or a panic.
  ghost predicate EndsOne<T>(w: Writing<T>, stop: Option<Returned>, t: T, bytes: seq<byte>) {
    match w
    case Crashed => stop == Some(Panicked)
    case NoRoom(t', b) => stop == Some(Returned.Error(RC_MEMORY)) && t == t' && bytes == b
    case Wrote(t', b) => stop == None && t == t' && bytes == b
  }

  // The first `k` writes are done.
  ghost predicate Written<T>(
    ops: seq<WriteOp<T>>, s0: T, before: seq<byte>, k: nat, t: T, bytes: seq<byte>, offset: nat, after: seq<byte>)
    requires k <= |ops|
  {
    RunWrites(ops, s0, before, k) == Wrote(t, bytes) && InPlace(before, bytes, offset, after)
  }

  lemma {:induction false} NothingWritten<T>(ops: seq<WriteOp<T>>, s0: T, before: seq<byte>)
    ensures Written(ops, s0, before, 0, s0, [], HEADER_SIZE, before)
  {
  }

  lemma {:induction false} WritingStops<T>(
    ops: seq<WriteOp<T>>, s0: T, before: seq<byte>, k: nat, t: T, bytes: seq<byte>,
    stop: Returned, t': T, bytes': seq<byte>, offset: nat, after: seq<byte>)
    requires k < |ops| && RunWrites(ops, s0, before, k) == Wrote(t, bytes)
    requires EndsOne(RunWriteOp(ops[k], t, bytes, before), Some(stop), t', bytes')
    requires InPlace(before, bytes', offset, after) || stop == Panicked
    ensures Stopped(ops, s0, before, stop, t', after)
  {
    WritesStop(ops, s0, before, k + 1, |ops|);
  }

  // The writes ended the command with `stop`.
  ghost predicate Stopped<T>(
    ops: seq<WriteOp<T>>, s0: T, before: seq<byte>, stop: Returned, t: T, after: seq<byte>)
  {
    var e := Answered(ops, s0, before);
    StateAfter(e, t) && ReturnedBy(e, stop) && Left(e, before, after)
  }

  lemma {:induction false} WritingGoesOn<T>(
    ops: seq<WriteOp<T>>, s0: T, before: seq<byte>, k: nat, t: T, bytes: seq<byte>, t': T, bytes': seq<byte>)
    requires k < |ops| && RunWrites(ops, s0, before, k) == Wrote(t, bytes)
    requires EndsOne(RunWriteOp(ops[k], t, bytes, before), None, t', bytes')
    ensures RunWrites(ops, s0, before, k + 1) == Wrote(t', bytes')
  {
  }

  // One of the three header writes: extends the part of the header in place.
  method WriteField(response: array<byte>, at: nat, data: seq<byte>,
                    ghost header: seq<byte>, ghost base: seq<byte>) returns (ok: bool)
    requires at + |data| <= |header| && header[at..at + |data|] == data != []
    requires |base| == response.Length && at <= |base|
    requires response[..] == Overlay(base, 0, header[..at])
    modifies response
    ensures ok <==> at + |data| <= response.Length
    ensures response[..] == if ok then WriteAt(base, 0, header[..at + |data|]) else old(response[..])
  {
    ok := Write(response, at, data);
    if ok {
      HeaderGrows(base, header, at, data);
    }
  }

  lemma {:induction false} HeaderGrows(base: seq<byte>, header: seq<byte>, at: nat, data: seq<byte>)
    requires at + |data| <= |header| && at + |data| <= |base| && header[at..at + |data|] == data
    ensures WriteAt(Overlay(base, 0, header[..at]), at, data) == WriteAt(base, 0, header[..at + |data|])
  {
    assert header[..at + |data|] == header[..at] + data;
    OverlayMore(base, 0, header[..at], data);
  }

  // The header write at `n` has no room: the state of the response is that of a
  // failure with the first `n` header bytes in place.
  lemma {:induction false} CutShort<T>(state: T, bytes: seq<byte>, before: seq<byte>, after: seq<byte>, n: nat)
    requires bytes != [] ==> HEADER_SIZE + |bytes| <= |before|
    requires |before| < HEADER_SIZE && n == if |before| < 2 then 0 else if |before| < 6 then 2 else 6
    requires after == Overlay(Overlay(before, HEADER_SIZE, bytes), 0, SuccessHeader(|bytes|)[..n])
    ensures Left(Seal(state, bytes, |before|), before, after)
  {
    assert bytes == [];
  }

  lemma {:induction false} HeaderPieces(payload: nat)
    ensures SESSION_TAG < Pow256(2) && Pow256(4) == 0x1_0000_0000
    ensures var header := SuccessHeader(payload);
            && header[..0] == [] && header[0..2] == BeBytes(2, SESSION_TAG)
            && header[2..6] == BeBytes(4, (HEADER_SIZE + payload) % 0x1_0000_0000)
            && header[6..10] == BeBytes(4, 0) && header[..10] == header
  {
    assert Pow256(2) > SESSION_TAG && Pow256(4) == 0x1_0000_0000;
  }

  lemma {:induction false} HeaderAndPayload(b: seq<byte>, header: seq<byte>, payload: seq<byte>)
    requires |header| + |payload| <= |b|
    ensures WriteAt(Overlay(b, |header|, payload), 0, header) == WriteAt(b, 0, header + payload)
  {
  }

  lemma {:induction false} NothingRead(widths: seq<nat>, request: seq<byte>)
    ensures ReadFields(widths, request, HEADER_SIZE, 0) == Some(([], HEADER_SIZE))
  {
  }

  // One field more is read, or all reading ends.
  lemma {:induction false} NextField(widths: seq<nat>, request: seq<byte>, k: nat, vals: seq<nat>, offset: nat)
    requires k < |widths| && ReadFields(widths, request, HEADER_SIZE, k) == Some((vals, offset))
    ensures match ReadAt(request, offset, widths[k])
            case None => ReadFields(widths, request, HEADER_SIZE, |widths|).None?
            case Some(v) => ReadFields(widths, request, HEADER_SIZE, k + 1) == Some((vals + [v], offset + widths[k]))
  {
    if ReadAt(request, offset, widths[k]).None? {
      FieldsRunOut(widths, request, HEADER_SIZE, k + 1, |widths|);
    }
  }

  lemma {:induction false} FieldsRunOut(widths: seq<nat>, request: seq<byte>, offset: nat, j: nat, k: nat)
    requires j <= k <= |widths| && ReadFields(widths, request, offset, j).None?
    ensures ReadFields(widths, request, offset, k).None?
  {
    if j < k {
      FieldsRunOut(widths, request, offset, j, k - 1);
    }
  }

  lemma {:induction false} WritesStop<T>(ops: seq<WriteOp<T>>, state: T, response: seq<byte>, j: nat, k: nat)
    requires j <= k <= |ops| && !RunWrites(ops, state, response, j).Wrote?
    ensures RunWrites(ops, state, response, k) == RunWrites(ops, state, response, j)
  {
    if j < k {
      WritesStop(ops, state, response, j, k - 1);
    }
  }

  lemma {:induction false} OpWrites<T>(
    op: WriteOp<T>, t: T, before: seq<byte>, bytes: seq<byte>, t': T, data: seq<byte>)
    requires var at := HEADER_SIZE + |bytes|;
             at + |data| <= |before| && |data| == op.size && op.fill(t, before[at..at + op.size]) == Some((t', data))
    ensures RunWriteOp(op, t, bytes, before) == Wrote(t', bytes + data)
    ensures WriteAt(Overlay(before, HEADER_SIZE, bytes), HEADER_SIZE + |bytes|, data)
         == Overlay(before, HEADER_SIZE, bytes + data)
  {
    OverlayMore(before, HEADER_SIZE, bytes, data);
  }

  // What is behind the written bytes is as it was.
  lemma {:induction false} SliceUntouched(b: seq<byte>, offset: nat, data: seq<byte>, size: nat)
    requires data != [] ==> offset + |data| <= |b|
    ensures var at := offset + |data|;
            at + size <= |b| ==> Overlay(b, offset, data)[at..at + size] == b[at..at + size]
  {
  }

  lemma {:induction false} OverlayMore(b: seq<byte>, offset: nat, data: seq<byte>, more: seq<byte>)
    requires offset + |data| + |more| <= |b|
    ensures WriteAt(Overlay(b, offset, data), offset + |data|, more) == Overlay(b, offset, data + more)
  {
  }
}
