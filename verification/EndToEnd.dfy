// The client's frames on the server, and the server's responses at the client.
module EndToEnd {
  import opened ByteOrder
  import opened Schemas
  import opened Codec
  import opened TpmTypes
  import opened Buffers
  import Server
  import GetRandom
  import BufferForms
  import opened ClientRequest
  import opened ClientResponse
  import opened FrameParser

  // ---- Requests ----

  // Every frame passes the header checks of the server, which goes on to the
  // command match with the client's code.
  lemma {:induction false} FrameReachesMatch<T>(c: Call, table: Server.Table<T>, state: T, response: seq<byte>)
    requires |FrameBytes(c)| < 0x1_0000_0000
    ensures Server.Execute(table, state, FrameBytes(c), response)
         == if table(c.code).None? then Server.Failure(state, Server.RC_COMMAND_CODE, [], [])
            else Server.Handle(table(c.code).value, state, FrameBytes(c), response)
  {
    var b := FrameBytes(c);
    FrameSize(c);
    HeaderFields(Tag(c.sessions), |b|, c.code, Body(c));
  }

  const GET_RANDOM_CMD := Struct([Plain(U16)])

  function GetRandomResp(): (t: RespTypes) {
    DecodesOne(TPM2B_DIGEST, []);
    RespTypes(EMPTY, Struct([Plain(TPM2B_DIGEST)]))
  }

  function GetRandomCall(n: nat): (c: Call)
    requires n < 0x1_0000
  {
    NothingMatches();
    CountMatches(n);
    Call(GetRandom.CC_GET_RANDOM, EMPTY, Record([]), [], GET_RANDOM_CMD, Record([Int(n)]))
  }

  lemma {:induction false} NothingMatches()
    ensures Valid(EMPTY) && Matches(EMPTY, Record([])) && Encode(EMPTY, Record([])) == []
  {
    assert MatchesFields([], [], 0);
  }

  lemma {:induction false} CountMatches(n: nat)
    requires n < 0x1_0000
    ensures Pow256(2) == 0x1_0000
    ensures Valid(GET_RANDOM_CMD) && Matches(GET_RANDOM_CMD, Record([Int(n)]))
    ensures Encode(GET_RANDOM_CMD, Record([Int(n)])) == BeBytes(2, n)
  {
    assert Pow256(2) == 0x1_0000;
    var fields, vals := GET_RANDOM_CMD.fields, [Int(n)];
    assert ValidField(fields[0]);
    assert MatchesElem(fields[0], vals[0]);
    assert MatchesFields(fields, vals, 1);
    assert EncodeFields(fields, vals, 1) == [] + BeBytes(2, n);
  }

  // A GetRandom frame asks the server for as many bytes as the caller asked for.
  lemma {:induction false} GetRandomReaches(n: nat)
    requires n < 0x1_0000
    ensures GetRandom.AsksFor(FrameBytes(GetRandomCall(n)), n)
  {
    var c := GetRandomCall(n);
    GetRandomBody(n);
    FrameSize(c);
    var b := FrameBytes(c);
    HeaderFields(Tag(c.sessions), |b|, c.code, Body(c));
    assert b[10..12] == b[HEADER_SIZE..];
  }

  lemma {:induction false} GetRandomBody(n: nat)
    requires n < 0x1_0000
    ensures Pow256(2) == 0x1_0000 && Body(GetRandomCall(n)) == BeBytes(2, n)
  {
    NothingMatches();
    CountMatches(n);
    assert Front(GetRandomCall(n)) == [];
  }

  // ---- Responses ----

  // The errors of a table's handlers, and of the engine, are not zero.
  lemma {:induction false} ErrorsAreCodes<T(!new)>(
    table: Server.Table<T>, state: T, request: seq<byte>, response: seq<byte>)
    requires Server.TableOk(table)
    ensures var e := Server.Execute(table, state, request, response);
            e.Failure? ==> Server.IsErrorCode(e.code)
  {
  }

  // The client's header reader on what the server leaves, for any request and
  // any response buffer of at least ten bytes: the server's error code on
  // failure, and on success the size that the server returned (as a u32), with
  // the payload behind the header.
  lemma {:induction false} ServerHeaderIsRead<T(!new)>(
    table: Server.Table<T>, state: T, request: seq<byte>, before: seq<byte>, after: seq<byte>, r: Option<nat>)
    requires Server.TableOk(table) && |before| >= HEADER_SIZE
    requires var e := Server.Execute(table, state, request, before);
             !e.Crash? && Server.Responded(e, before, after, r)
    ensures |after| == |before|
    ensures var e := Server.Execute(table, state, request, before);
            if e.Failure? then HeaderOf(after) == HeaderFailed(e.code) && r == Some(HEADER_SIZE)
            else
              && r == Some(HEADER_SIZE + |e.payload|) && r.value <= |after|
              && HeaderOf(after) == HeaderOk(ST_NO_SESSIONS, r.value % 0x1_0000_0000, HEADER_SIZE)
              && after[HEADER_SIZE..r.value] == e.payload
  {
    var e := Server.Execute(table, state, request, before);
    if e.Failure? {
      ErrorsAreCodes(table, state, request, before);
      BufferForms.CodeInPlace(before, after, e, r);
      ErrorIsRead(after, e.code);
    } else {
      SuccessIsRead(before, after, e.payload);
    }
  }

  lemma {:induction false} ErrorIsRead(b: seq<byte>, code: nat)
    requires Server.IsErrorCode(code) && |b| >= HEADER_SIZE && b[6..10] == Server.ErrorBytes(code)
    ensures HeaderOf(b) == HeaderFailed(code)
  {
    assert BeValue(Server.ErrorBytes(code)) == code;
  }

  lemma {:induction false} SuccessIsRead(before: seq<byte>, after: seq<byte>, payload: seq<byte>)
    requires HEADER_SIZE + |payload| <= |before|
    requires after == WriteAt(before, 0, Server.SuccessHeader(|payload|) + payload)
    ensures |after| == |before|
    ensures HeaderOf(after) == HeaderOk(ST_NO_SESSIONS, (HEADER_SIZE + |payload|) % 0x1_0000_0000, HEADER_SIZE)
    ensures after[HEADER_SIZE..HEADER_SIZE + |payload|] == payload
  {
    var size := HEADER_SIZE + |payload|;
    assert Server.SuccessHeader(|payload|) == HeaderBytes(ST_NO_SESSIONS, size % 0x1_0000_0000, 0);
    WrittenInFront(before, after, Server.SuccessHeader(|payload|), payload);
    HeaderFields(ST_NO_SESSIONS, size % 0x1_0000_0000, 0, payload + before[size..]);
  }

  lemma {:induction false} WrittenInFront(before: seq<byte>, after: seq<byte>, header: seq<byte>, payload: seq<byte>)
    requires |header| + |payload| <= |before| && after == WriteAt(before, 0, header + payload)
    ensures after == header + (payload + before[|header| + |payload|..])
    ensures after[|header|..|header| + |payload|] == payload
  {
  }

  // What the client makes of the server's outcome.
  function ServerAnswer<T>(e: Server.Exec<T>, t: RespTypes, sessions: Sessions): Answer {
    match e
    case Crash => Crashed
    case Failure(_, code, _, _) => Rejected(code)
    case Success(_, payload) => ReadBody(t, sessions, ST_NO_SESSIONS, payload)
  }

  // On the buffer of `run_command_with_handles` the client returns the server's
  // error code, or goes on with exactly the bytes of the payload.
  lemma {:induction false} ResponseIsRead<T(!new)>(
    table: Server.Table<T>, state: T, request: seq<byte>, before: RespBuffer, after: seq<byte>, r: Option<nat>,
    t: RespTypes, sessions: Sessions)
    requires Server.TableOk(table)
    requires var e := Server.Execute(table, state, request, before);
             !e.Crash? && Server.Responded(e, before, after, r)
    ensures |after| == RESP_BUFFER_SIZE
    ensures ReadResponse(t, sessions, after)
         == ServerAnswer(Server.Execute(table, state, request, before), t, sessions)
  {
    ServerHeaderIsRead(table, state, request, before, after, r);
    if r.value < 0x1_0000_0000 {
      SmallMod(r.value);
    }
  }

  // ---- A command of the client, run by the server ----

  // `run_command_with_handles` with the server as the TPM: what the client
  // returns and the state the server ends in, for any call and any command
  // table.
  method RunOnServer<T(!new)>(c: Call, t: RespTypes, server: Server.TpmContext<T>) returns (r: Answer)
    requires Server.TableOk(server.table)
    modifies server
    ensures match BuiltFrame(c)
            case BuildPanicked => r == Crashed && server.state == old(server.state)
            case BuildFailed(e) => r == Rejected(ErrorCode(e)) && server.state == old(server.state)
            case Frame(frame) =>
              var e := Server.Execute(server.table, old(server.state), frame, Zeros(RESP_BUFFER_SIZE));
              Server.StateAfter(e, server.state) && r == ServerAnswer(e, t, c.sessions)
  {
    var request := BuildRequest(c);
    match request
    case BuildPanicked => r := Crashed;
    case BuildFailed(e) => r := Rejected(ErrorCode(e));
    case Frame(bytes) => r := AskServer(bytes, t, c.sessions, server);
  }

  // `transact` with the server, and the reading of its response.
  method AskServer<T(!new)>(bytes: seq<byte>, t: RespTypes, sessions: Sessions, server: Server.TpmContext<T>)
    returns (r: Answer)
    requires Server.TableOk(server.table)
    modifies server
    ensures var e := Server.Execute(server.table, old(server.state), bytes, Zeros(RESP_BUFFER_SIZE));
            Server.StateAfter(e, server.state) && r == ServerAnswer(e, t, sessions)
  {
    ghost var state := server.state;
    var size, after := Transact(server, bytes, Zeros(RESP_BUFFER_SIZE));
    if size.None? {
      return Crashed;
    }
    ResponseIsRead(server.table, state, bytes, Zeros(RESP_BUFFER_SIZE), after, size, t, sessions);
    r := ParseResponse(t, sessions, after);
  }

  // One command on a response buffer that holds `before`: the returned size and
  // what the buffer holds then.
  method Transact<T(!new)>(server: Server.TpmContext<T>, bytes: seq<byte>, before: seq<byte>)
    returns (size: Option<nat>, after: seq<byte>)
    requires Server.TableOk(server.table)
    modifies server
    ensures var e := Server.Execute(server.table, old(server.state), bytes, before);
            Server.StateAfter(e, server.state) && Server.Responded(e, before, after, size)
  {
    var request := new byte[|bytes|](i requires 0 <= i < |bytes| => bytes[i]);
    var response := new byte[|before|](i requires 0 <= i < |before| => before[i]);
    assert request[..] == bytes && response[..] == before;
    size := server.ExecuteCommandSeparate(request, response);
    after := response[..];
  }

  // ---- GetRandom at both ends ----

  // The server sends the random bytes bare where the client expects a TPM2B. The
  // client gets an answer just when the first two bytes happen to be the size of
  // the rest, and then without them.
  predicate LooksSized(payload: seq<byte>) {
    && 2 <= |payload| <= 66
    && BeValue(payload[..2]) == |payload| - 2
  }

  // What the client makes of bare bytes: those behind the size that the first two
  // happen to be, TpmUnexpected for bytes left over behind a size that fits, and
  // Memory for one that does not.
  ghost predicate AnswerTo(bytes: seq<byte>, a: Answer) {
    if LooksSized(bytes) then
      a == Answered(Record([]), Record([Buffer(|bytes| - 2, bytes[2..] + Zeros(66 - |bytes|))]))
    else if 2 <= |bytes| && 2 + BeValue(bytes[..2]) < |bytes| && BeValue(bytes[..2]) <= 64 then a == Rejected(0x2010)
    else a == Rejected(0x904)
  }

  lemma {:induction false} GetRandomAnswer(payload: seq<byte>, sessions: Sessions)
    requires |sessions| == 0
    ensures AnswerTo(payload, ReadBody(GetRandomResp(), sessions, ST_NO_SESSIONS, payload))
  {
    DecodesOne(TPM2B_DIGEST, payload);
    if LooksSized(payload) {
      assert payload[|payload|..] == [];
      assert payload[2..|payload|] == payload[2..];
    }
  }

  // Sixteen zero bytes are one of the answers that do not get through.
  lemma {:induction false} ZerosAreRefused()
    ensures ReadBody(GetRandomResp(), [], ST_NO_SESSIONS, Zeros(16)) == Rejected(TCS_TPM_UNEXPECTED)
  {
    DecodesOne(TPM2B_DIGEST, Zeros(16));
    assert Zeros(16)[..2] == [0, 0];
    BeBytesOfValue([0, 0]);
    assert BeValue([0, 0]) == 0;
  }

  lemma {:induction false} DecodesOne(s: Schema, b: seq<byte>)
    requires Valid(s)
    ensures Valid(Struct([Plain(s)]))
    ensures Decode(Struct([Plain(s)]), b)
         == match Decode(s, b)
            case Failed(e) => Failed(e)
            case Parsed(v, rest) => Parsed(Record([v]), rest)
  {
    var fields := [Plain(s)];
    assert ValidField(fields[0]);
    assert DecodeFields(fields, b, 0) == Parsed([], b);
    assert DecodeField(fields[0], [], b) == DecodeElem(fields[0], b) == Decode(s, b);
    match DecodeFields(fields, b, 1)
    case Failed(_) =>
    case Parsed(vals, _) => assert vals == [] + [Decode(s, b).value] == [Decode(s, b).value];
  }

  // What an exchange of `n` bytes comes to: with room for them, one draw, the
  // state behind it, and an answer that depends on the bytes of the generator
  // alone.
  ghost predicate Exchanged<S(!new), E(!new)>(m: GetRandom.Drbg<S, E>, crypto: GetRandom.Crypto<S, E>, n: nat,
                                              after: GetRandom.Crypto<S, E>, a: Answer)
  {
    if 10 + n > 4096 then a == Rejected(0x904) && after == crypto
    else if GetRandom.DrawFails(m, crypto, n) then a == Crashed
    else exists bytes ::
           GetRandom.DrawnBy(m, crypto, n, after, bytes) && |bytes| == n && AnswerTo(bytes, a)
  }

  lemma {:induction false} GetRandomExchange<S(!new), E(!new)>(
    m: GetRandom.Drbg<S, E>, crypto: GetRandom.Crypto<S, E>, request: seq<byte>, response: RespBuffer, n: nat,
    e: Server.Exec<GetRandom.Crypto<S, E>>, after: GetRandom.Crypto<S, E>)
    requires GetRandom.FillsExactly(m) && GetRandom.AsksFor(request, n)
    requires e == GetRandom.Run(m, crypto, request, response) && Server.StateAfter(e, after)
    ensures Exchanged(m, crypto, n, after, ServerAnswer(e, GetRandomResp(), []))
  {
    GetRandom.RunOutcome(m, crypto, request, response);
    if e.Success? {
      GetRandom.DrawByCalls(m, crypto, n);
      GetRandom.DrawsExactly(m, crypto, n);
      GetRandomAnswer(e.payload, []);
    }
  }

  // No answer gets through for fewer than 2 or more than 66 bytes.
  lemma {:induction false} NoAnswerOutside<S(!new), E(!new)>(
    m: GetRandom.Drbg<S, E>, crypto: GetRandom.Crypto<S, E>, n: nat, after: GetRandom.Crypto<S, E>, a: Answer)
    requires Exchanged(m, crypto, n, after, a) && (n < 2 || n > 66)
    ensures !a.Answered?
  {
  }

  // GetRandom from the client's call to the client's answer, through a context
  // with the server's own command table.
  method GetRandomOnServer<S(!new), E(!new)>(m: GetRandom.Drbg<S, E>, crypto: GetRandom.Crypto<S, E>, n: nat)
    returns (r: Answer, after: GetRandom.Crypto<S, E>)
    requires GetRandom.FillsExactly(m) && n < 0x1_0000
    ensures Exchanged(m, crypto, n, after, r)
  {
    GetRandom.CommandsOk(m);
    var server := new Server.TpmContext(GetRandom.Commands(m), crypto);
    r := RunOnServer(GetRandomCall(n), GetRandomResp(), server);
    after := server.state;
    GetRandomFrameFits(n);
    var frame := FrameBytes(GetRandomCall(n));
    GetRandomReaches(n);
    var response := Zeros(RESP_BUFFER_SIZE);
    GetRandomExchange(m, crypto, frame, response, n, GetRandom.Run(m, crypto, frame, response), after);
  }

  lemma {:induction false} GetRandomFrameFits(n: nat)
    requires n < 0x1_0000
    ensures BuiltFrame(GetRandomCall(n)) == Frame(FrameBytes(GetRandomCall(n)))
    ensures |GetRandomCall(n).sessions| == 0
  {
    GetRandomBody(n);
  }
}
