// The client's reading of a response: header, handles, parameters and one
// authorization per session, with nothing left over.
module ClientResponse {
  import opened ByteOrder
  import opened Schemas
  import opened Codec
  import opened CodecLaws
  import opened Locality
  import opened TpmTypes
  import opened Unmarshal
  import opened ClientRequest

  const RESP_BUFFER_SIZE := 4096

  // TSS error codes of the client layer, and TPM error codes of the codec.
  const TCS_BAD_PARAMETER: nat := 0x2003
  const TCS_OUT_OF_MEMORY: nat := 0x2005
  const TCS_TPM_UNEXPECTED: nat := 0x2010

  function ErrorCode(e: Error): nat {
    match e
    case Size => 0x95
    case Selector => 0x98
    case Memory => 0x904
  }

  // RespHeader has the layout of CmdHeader.
  const RESP_HEADER := CMD_HEADER
  const TPMS_AUTH_RESPONSE := Struct([Plain(TPM2B_DIGEST), Plain(U8), Plain(Tpm2b(DIGEST_MAX))])
  const AUTH_REPLY := Plain(TPMS_AUTH_RESPONSE)

  lemma {:induction false} AuthReplyValid()
    ensures ValidField(AUTH_REPLY)
  {
    var fields := TPMS_AUTH_RESPONSE.fields;
    assert ValidField(fields[0]) && ValidField(fields[1]) && ValidField(fields[2]);
  }

  // The types of the handles and parameters that a command returns.
  datatype RespTypes_ = RespTypes(handleType: Schema, paramType: Schema)

  type RespTypes = t: RespTypes_ | Valid(t.handleType) && Valid(t.paramType)
    witness RespTypes(ByteArray(0), ByteArray(0))

  type RespBuffer = b: seq<byte> | |b| == RESP_BUFFER_SIZE witness Zeros(RESP_BUFFER_SIZE)

  // What the caller gets; Crashed is the slice `read..resp_size` of a size
  // below the header's.
  datatype Answer = Answered(handles: Value, params: Value) | Rejected(code: nat) | Crashed

  // ---- What the reader makes of a response ----

  // A header with the number of bytes read, or the error of `read_response_header`.
  datatype HeaderRead = HeaderOk(tag: nat, size: nat, read: nat) | HeaderFailed(code: nat)

  function HeaderOf(b: seq<byte>): HeaderRead {
    if |b| < HEADER_SIZE then HeaderFailed(ErrorCode(Memory))
    else
      var rc := BeValue(b[6..10]);
      if rc != 0 then HeaderFailed(rc) else HeaderOk(BeValue(b[..2]), BeValue(b[2..6]), HEADER_SIZE)
  }

  function ReadResponse(t: RespTypes, sessions: Sessions, b: RespBuffer): Answer {
    match HeaderOf(b)
    case HeaderFailed(code) => Rejected(code)
    case HeaderOk(tag, size, read) =>
      if size > RESP_BUFFER_SIZE then Rejected(TCS_OUT_OF_MEMORY)
      else if size < read then Crashed
      else ReadBody(t, sessions, tag, b[read..size])
  }

  function ReadBody(t: RespTypes, sessions: Sessions, tag: nat, b: seq<byte>): Answer {
    match Decode(t.handleType, b)
    case Failed(e) => Rejected(ErrorCode(e))
    case Parsed(handles, b1) =>
      match ReadParamSize(tag, b1)
      case None => Rejected(ErrorCode(Memory))
      case Some(b2) => ReadParams(t, sessions, handles, b2)
  }

  function ReadParams(t: RespTypes, sessions: Sessions, handles: Value, b: seq<byte>): Answer {
    match Decode(t.paramType, b)
    case Failed(e) => Rejected(ErrorCode(e))
    case Parsed(params, b') =>
      match ReadAuths(sessions, |sessions|, b')
      case Denied(code) => Rejected(code)
      case Passed(rest) => if rest == [] then Answered(handles, params) else Rejected(TCS_TPM_UNEXPECTED)
  }

  // Four bytes that are read and ignored, if the response has sessions.
  function ReadParamSize(tag: nat, b: seq<byte>): Option<seq<byte>> {
    if tag != ST_SESSIONS then Some(b) else if |b| < 4 then None else Some(b[4..])
  }

  datatype Check = Passed(rest: seq<byte>) | Denied(code: nat)

  // Each session judges its authorization before the next one is read.
  function ReadAuths(sessions: Sessions, k: nat, b: seq<byte>): Check
    requires k <= |sessions|
  {
    if k == 0 then Passed(b)
    else
      match ReadAuths(sessions, k - 1, b)
      case Denied(code) => Denied(code)
      case Passed(b') => ReadAuth(sessions[k - 1], b')
  }

  function ReadAuth(session: Session, b: seq<byte>): Check {
    AuthReplyValid();
    match DecodeElem(AUTH_REPLY, b)
    case Failed(e) => Denied(ErrorCode(e))
    case Parsed(auth, rest) =>
      match session.validate(auth)
      case Some(code) => Denied(code)
      case None => Passed(rest)
  }

  // ---- Reading it ----

  // `read_response_header` on any buffer: the error code that the header carries
  // comes back as an error.
  method ReadHeader(buffer: seq<byte>) returns (r: HeaderRead)
    ensures r == HeaderOf(buffer)
  {
    var header, read := UnmarshalHeader(buffer);
    if header.Err? {
      return HeaderFailed(ErrorCode(header.error));
    }
    var tag, size, rc := header.value.vals[0].n, header.value.vals[1].n, header.value.vals[2].n;
    if rc != 0 {
      return HeaderFailed(rc);
    }
    return HeaderOk(tag, size, read);
  }

  method UnmarshalHeader(buffer: seq<byte>) returns (header: Fallible<Value>, read: int)
    ensures if |buffer| < HEADER_SIZE then header == Err(Memory)
            else
              && header == Ok(HeaderValue(BeValue(buffer[..2]), BeValue(buffer[2..6]), BeValue(buffer[6..10])))
              && read == HEADER_SIZE
  {
    HeaderReads(buffer);
    var unmarsh := new UnmarshalBuf(buffer);
    header := TryUnmarshal(RESP_HEADER, unmarsh);
    read := |buffer| - |unmarsh.buffer|;
  }

  lemma {:induction false} HeaderReads(b: seq<byte>)
    ensures Valid(RESP_HEADER)
    ensures Decode(RESP_HEADER, b)
         == if |b| < HEADER_SIZE then Failed(Memory)
            else Parsed(HeaderValue(BeValue(b[..2]), BeValue(b[2..6]), BeValue(b[6..10])), b[HEADER_SIZE..])
  {
    if |b| < HEADER_SIZE {
      HeaderTooShort(b);
    } else {
      HeaderDecodes(b);
    }
  }

  lemma {:induction false} HeaderTooShort(b: seq<byte>)
    requires |b| < HEADER_SIZE
    ensures Valid(RESP_HEADER) && Decode(RESP_HEADER, b) == Failed(Memory)
  {
    var whole := b + Zeros(HEADER_SIZE - |b|);
    HeaderDecodes(whole);
    var header := Decode(RESP_HEADER, whole).value;
    Canonical(RESP_HEADER, whole);
    assert Encode(RESP_HEADER, header) == Encode(RESP_HEADER, header) + [] == whole && whole[..|b|] == b;
    StrictPrefixFails(RESP_HEADER, header, |b|);
  }

  // Any ten bytes are a header.
  lemma {:induction false} HeaderDecodes(b: seq<byte>)
    requires |b| >= HEADER_SIZE
    ensures Valid(RESP_HEADER)
    ensures Decode(RESP_HEADER, b)
         == Parsed(HeaderValue(BeValue(b[..2]), BeValue(b[2..6]), BeValue(b[6..10])), b[HEADER_SIZE..])
  {
    HeaderIsBytes(b);
    var tag, size, rc := BeValue(b[..2]), BeValue(b[2..6]), BeValue(b[6..10]);
    HeaderEncoding(tag, size, rc);
    RoundTrip(RESP_HEADER, HeaderValue(tag, size, rc), b[HEADER_SIZE..]);
  }

  lemma {:induction false} HeaderIsBytes(b: seq<byte>)
    requires |b| >= HEADER_SIZE
    ensures var tag, size, rc := BeValue(b[..2]), BeValue(b[2..6]), BeValue(b[6..10]);
            && tag < 0x1_0000 && size < 0x1_0000_0000 && rc < 0x1_0000_0000
            && b == HeaderBytes(tag, size, rc) + b[HEADER_SIZE..]
  {
    assert Pow256(2) == 0x1_0000 && Pow256(4) == 0x1_0000_0000;
    BeBytesOfValue(b[..2]);
    BeBytesOfValue(b[2..6]);
    BeBytesOfValue(b[6..10]);
    HeaderParts(b);
  }

  lemma {:induction false} HeaderParts(b: seq<byte>)
    requires |b| >= HEADER_SIZE
    ensures b == b[..2] + b[2..6] + b[6..10] + b[HEADER_SIZE..]
  {
  }

  // One `try_unmarshal` and `validate_auth_response`.
  method CheckAuth(session: Session, buf: UnmarshalBuf) returns (denied: Option<nat>)
    requires buf.Valid()
    modifies buf
    ensures buf.Valid()
    ensures match ReadAuth(session, old(buf.buffer))
            case Denied(code) => denied == Some(code)
            case Passed(rest) => denied == None && buf.buffer == rest
  {
    AuthReplyValid();
    var auth := UnmarshalElem(AUTH_REPLY, buf);
    if auth.Err? {
      return Some(ErrorCode(auth.error));
    }
    denied := session.validate(auth.value);
  }

  // `read_response_sessions`.
  method CheckAuths(sessions: Sessions, buf: UnmarshalBuf) returns (denied: Option<nat>)
    requires buf.Valid()
    modifies buf
    ensures buf.Valid()
    ensures match ReadAuths(sessions, |sessions|, old(buf.buffer))
            case Denied(code) => denied == Some(code)
            case Passed(rest) => denied == None && buf.buffer == rest
  {
    ghost var b := buf.buffer;
    if |sessions| == 0 {
      return None;
    }
    assert ReadAuths(sessions, 0, b) == Passed(b);
    denied := CheckAuth(sessions[0], buf);
    assert ReadAuths(sessions, 1, b) == ReadAuth(sessions[0], b);
    if denied.Some? || |sessions| == 1 {
      StaysDenied(sessions, b, 1, |sessions|);
      return;
    }
    denied := CheckAuth(sessions[1], buf);
    if denied.Some? || |sessions| == 2 {
      StaysDenied(sessions, b, 2, |sessions|);
      return;
    }
    ghost var b2 := buf.buffer;
    assert ReadAuths(sessions, 2, b) == Passed(b2);
    denied := CheckAuth(sessions[2], buf);
    assert ReadAuths(sessions, 3, b) == ReadAuth(sessions[2], b2);
  }

  lemma {:induction false} StaysDenied(sessions: Sessions, b: seq<byte>, j: nat, k: nat)
    requires j <= k <= |sessions|
    ensures ReadAuths(sessions, j, b).Denied? ==> ReadAuths(sessions, k, b) == ReadAuths(sessions, j, b)
  {
    if j < k {
      StaysDenied(sessions, b, j, k - 1);
    }
  }

  // The second half of `run_command_with_handles`.
  method ParseResponse(t: RespTypes, sessions: Sessions, b: RespBuffer) returns (r: Answer)
    ensures r == ReadResponse(t, sessions, b)
  {
    var header := ReadHeader(b);
    match header
    case HeaderFailed(code) => r := Rejected(code);
    case HeaderOk(tag, size, read) =>
      if size > |b| {
        return Rejected(TCS_OUT_OF_MEMORY);
      }
      if size < read {
        return Crashed;
      }
      r := ParseBody(t, sessions, tag, b[read..size]);
  }

  method ParseBody(t: RespTypes, sessions: Sessions, tag: nat, b: seq<byte>) returns (r: Answer)
    ensures r == ReadBody(t, sessions, tag, b)
  {
    var unmarsh := new UnmarshalBuf(b);
    var handles := TryUnmarshal(t.handleType, unmarsh);
    if handles.Err? {
      return Rejected(ErrorCode(handles.error));
    }
    if tag == ST_SESSIONS {
      var paramSize := ReadBytes(4, unmarsh);
      if paramSize.Err? {
        return Rejected(ErrorCode(paramSize.error));
      }
    }
    r := ParseParams(t, sessions, handles.value, unmarsh);
  }

  method ParseParams(t: RespTypes, sessions: Sessions, handles: Value, unmarsh: UnmarshalBuf) returns (r: Answer)
    requires unmarsh.Valid()
    modifies unmarsh
    ensures r == ReadParams(t, sessions, handles, old(unmarsh.buffer))
  {
    var params := TryUnmarshal(t.paramType, unmarsh);
    if params.Err? {
      return Rejected(ErrorCode(params.error));
    }
    var denied := CheckAuths(sessions, unmarsh);
    if denied.Some? {
      return Rejected(denied.value);
    }
    if !unmarsh.IsEmpty() {
      return Rejected(TCS_TPM_UNEXPECTED);
    }
    return Answered(handles, params.value);
  }

  // ---- Exactly the well-built responses are accepted ----

  // The parts of a response behind its header.
  datatype Reply = Reply(handles: Value, paramSize: seq<byte>, params: Value, auths: seq<Value>)

  // Each part is a value of its type, and every session accepts its own
  // authorization. The parameter size is there with sessions only, and may be
  // anything.
  ghost predicate ReplyOk(t: RespTypes, sessions: Sessions, tag: nat, r: Reply)
    requires ValidField(AUTH_REPLY)
  {
    && Matches(t.handleType, r.handles) && Matches(t.paramType, r.params)
    && |r.paramSize| == (if tag == ST_SESSIONS then 4 else 0)
    && |r.auths| == |sessions|
    && forall i | 0 <= i < |sessions| ::
         MatchesElem(AUTH_REPLY, r.auths[i]) && sessions[i].validate(NormalizeElem(AUTH_REPLY, r.auths[i])) == None
  }

  ghost function ReplyBytes(t: RespTypes, sessions: Sessions, tag: nat, r: Reply): (b: seq<byte>)
    requires ValidField(AUTH_REPLY) && ReplyOk(t, sessions, tag, r)
  {
    Encode(t.handleType, r.handles) + (r.paramSize
    + (Encode(t.paramType, r.params) + EncodeItems(AUTH_REPLY, r.auths, |sessions|)))
  }

  // The authorizations pass just when they decode and each session agrees.
  lemma {:induction false} AuthsPass(sessions: Sessions, k: nat, b: seq<byte>)
    requires ValidField(AUTH_REPLY) && k <= |sessions|
    ensures match DecodeItems(AUTH_REPLY, b, k)
            case Failed(_) => ReadAuths(sessions, k, b).Denied?
            case Parsed(auths, rest) =>
              if forall i | 0 <= i < k :: sessions[i].validate(auths[i]) == None
              then ReadAuths(sessions, k, b) == Passed(rest)
              else ReadAuths(sessions, k, b).Denied?
  {
    if k > 0 {
      AuthsPass(sessions, k - 1, b);
      var known := DecodeItems(AUTH_REPLY, b, k - 1);
      if known.Parsed? {
        var last := DecodeElem(AUTH_REPLY, known.rest);
        if last.Parsed? {
          var auths := known.value + [last.value];
          assert forall i | 0 <= i < k - 1 :: auths[i] == known.value[i];
        }
      }
    }
  }

  // A response that is built so is accepted, and its values come back.
  lemma {:induction false} AcceptsReply(t: RespTypes, sessions: Sessions, tag: nat, r: Reply)
    requires ValidField(AUTH_REPLY) && ReplyOk(t, sessions, tag, r)
    ensures ReadBody(t, sessions, tag, ReplyBytes(t, sessions, tag, r))
         == Answered(Normalize(t.handleType, r.handles), Normalize(t.paramType, r.params))
  {
    var auths := EncodeItems(AUTH_REPLY, r.auths, |sessions|);
    var ep := Encode(t.paramType, r.params);
    RoundTrip(t.handleType, r.handles, r.paramSize + (ep + auths));
    ParamSizeReads(tag, r.paramSize, ep + auths);
    RoundTrip(t.paramType, r.params, auths);
    AcceptsAuths(sessions, r.auths, auths);
  }

  lemma {:induction false} ParamSizeReads(tag: nat, paramSize: seq<byte>, tail: seq<byte>)
    requires |paramSize| == (if tag == ST_SESSIONS then 4 else 0)
    ensures ReadParamSize(tag, paramSize + tail) == Some(tail)
  {
    assert (paramSize + tail)[|paramSize|..] == tail;
  }

  lemma {:induction false} AcceptsAuths(sessions: Sessions, auths: seq<Value>, b: seq<byte>)
    requires ValidField(AUTH_REPLY) && |auths| == |sessions|
    requires forall i | 0 <= i < |sessions| ::
               MatchesElem(AUTH_REPLY, auths[i]) && sessions[i].validate(NormalizeElem(AUTH_REPLY, auths[i])) == None
    requires b == EncodeItems(AUTH_REPLY, auths, |sessions|)
    ensures ReadAuths(sessions, |sessions|, b) == Passed([])
  {
    RoundTripItems(AUTH_REPLY, auths, |sessions|, []);
    assert b + [] == b;
    AuthsPass(sessions, |sessions|, b);
    var decoded := NormalizeItems(AUTH_REPLY, auths, |sessions|);
    forall i | 0 <= i < |sessions|
      ensures sessions[i].validate(decoded[i]) == None
    {
      NormalizeItemsAt(AUTH_REPLY, auths, |sessions|, i);
    }
  }

  // And nothing else is: whatever the reader accepts is built so, from the very
  // values it returns.
  lemma {:induction false} AcceptsOnlyReplies(
    t: RespTypes, sessions: Sessions, tag: nat, b: seq<byte>)
    returns (r: Reply)
    requires ValidField(AUTH_REPLY)
    requires ReadBody(t, sessions, tag, b).Answered?
    ensures ReplyOk(t, sessions, tag, r) && ReplyBytes(t, sessions, tag, r) == b
    ensures ReadBody(t, sessions, tag, b) == Answered(r.handles, r.params)
    ensures r.handles == Normalize(t.handleType, r.handles) && r.params == Normalize(t.paramType, r.params)
  {
    var handles := Decode(t.handleType, b);
    Canonical(t.handleType, b);
    var b2 := ReadParamSize(tag, handles.rest).value;
    var paramSize := handles.rest[..|handles.rest| - |b2|];
    assert handles.rest == paramSize + b2;
    var params := Decode(t.paramType, b2);
    Canonical(t.paramType, b2);
    var auths := AcceptedAuths(sessions, params.rest);
    r := Reply(handles.value, paramSize, params.value, auths);
  }

  lemma {:induction false} AcceptedAuths(sessions: Sessions, b: seq<byte>) returns (auths: seq<Value>)
    requires ValidField(AUTH_REPLY)
    requires ReadAuths(sessions, |sessions|, b) == Passed([])
    ensures |auths| == |sessions|
    ensures forall i | 0 <= i < |sessions| ::
              MatchesElem(AUTH_REPLY, auths[i]) && sessions[i].validate(NormalizeElem(AUTH_REPLY, auths[i])) == None
    ensures b == EncodeItems(AUTH_REPLY, auths, |sessions|)
  {
    AuthsPass(sessions, |sessions|, b);
    auths := DecodeItems(AUTH_REPLY, b, |sessions|).value;
    CanonicalItems(AUTH_REPLY, b, |sessions|, auths);
    forall i | 0 <= i < |sessions|
      ensures NormalizeElem(AUTH_REPLY, auths[i]) == auths[i]
    {
      NormalizeItemsAt(AUTH_REPLY, auths, |sessions|, i);
    }
  }

  ghost predicate IsReply(t: RespTypes, sessions: Sessions, tag: nat, r: Reply, body: seq<byte>,
                          handles: Value, params: Value)
    requires ValidField(AUTH_REPLY)
  {
    && ReplyOk(t, sessions, tag, r)
    && body == ReplyBytes(t, sessions, tag, r)
    && handles == Normalize(t.handleType, r.handles) && params == Normalize(t.paramType, r.params)
  }

  ghost predicate WellBuilt(t: RespTypes, sessions: Sessions, tag: nat, body: seq<byte>, handles: Value, params: Value)
    requires ValidField(AUTH_REPLY)
  {
    exists r :: IsReply(t, sessions, tag, r, body, handles, params)
  }

  lemma {:induction false} BodyAnsweredIff(
    t: RespTypes, sessions: Sessions, tag: nat, body: seq<byte>, handles: Value, params: Value)
    requires ValidField(AUTH_REPLY)
    ensures ReadBody(t, sessions, tag, body) == Answered(handles, params)
       <==> WellBuilt(t, sessions, tag, body, handles, params)
  {
    forall r | IsReply(t, sessions, tag, r, body, handles, params)
      ensures ReadBody(t, sessions, tag, body) == Answered(handles, params)
    {
      AcceptsReply(t, sessions, tag, r);
    }
    if ReadBody(t, sessions, tag, body) == Answered(handles, params) {
      var r := AcceptsOnlyReplies(t, sessions, tag, body);
      assert IsReply(t, sessions, tag, r, body, handles, params);
    }
  }

  // What `run_command_with_handles` returns as Ok, for any response buffer.
  lemma {:induction false} AnsweredIff(t: RespTypes, sessions: Sessions, b: RespBuffer, handles: Value, params: Value)
    ensures ValidField(AUTH_REPLY)
    ensures var tag, size, rc := BeValue(b[..2]), BeValue(b[2..6]), BeValue(b[6..10]);
            ReadResponse(t, sessions, b) == Answered(handles, params)
            <==> rc == 0 && HEADER_SIZE <= size <= RESP_BUFFER_SIZE
                 && WellBuilt(t, sessions, tag, b[HEADER_SIZE..size], handles, params)
  {
    AuthReplyValid();
    var size := BeValue(b[2..6]);
    if HEADER_SIZE <= size <= RESP_BUFFER_SIZE {
      BodyAnsweredIff(t, sessions, BeValue(b[..2]), b[HEADER_SIZE..size], handles, params);
    }
  }

  // ---- What the other responses are refused with ----

  // TPM_RC_SIZE, TPM_RC_SELECTOR and TPM_RC_MEMORY.
  predicate CodeOf(e: Error, code: nat) {
    match e
    case Size => code == 0x95
    case Selector => code == 0x98
    case Memory => code == 0x904
  }

  // By the header: the code of the TPM, TcsOutOfMemory for a size above the
  // buffer, and a panic for one below the header.
  lemma {:induction false} HeaderDecides(t: RespTypes, sessions: Sessions, b: RespBuffer)
    ensures var tag, size, rc := BeValue(b[..2]), BeValue(b[2..6]), BeValue(b[6..10]);
            var r := ReadResponse(t, sessions, b);
            if rc != 0 then r == Rejected(rc)
            else if size > 4096 then r == Rejected(0x2005)
            else if size < 10 then r == Crashed
            else BodyDecides(t, sessions, tag, b[10..size], r)
  {
    var size := BeValue(b[2..6]);
    if 10 <= size <= 4096 {
      BodyOutcome(t, sessions, BeValue(b[..2]), b[10..size]);
    }
  }

  // By the body: the first part that does not decode gives its error, a size
  // field that is not there Memory, the first session that refuses its own code,
  // and bytes left over TcsTpmUnexpected.
  ghost predicate BodyDecides(t: RespTypes, sessions: Sessions, tag: nat, b: seq<byte>, r: Answer) {
    match Decode(t.handleType, b)
    case Failed(e) => r.Rejected? && CodeOf(e, r.code)
    case Parsed(handles, b1) =>
      if tag == 0x8002 && |b1| < 4 then r == Rejected(0x904)
      else
        match Decode(t.paramType, if tag == 0x8002 then b1[4..] else b1)
        case Failed(e) => r.Rejected? && CodeOf(e, r.code)
        case Parsed(params, b2) => exists rests :: AuthsDecide(sessions, b2, rests, Answered(handles, params), r)
  }

  // `rests` are what is left before and after each authorization that decodes and
  // that its session agrees to; the next one, or what is left, decides.
  ghost predicate AuthsDecide(sessions: Sessions, b: seq<byte>, rests: seq<seq<byte>>, ok: Answer, r: Answer) {
    && PassesBy(sessions, b, rests)
    && var last := rests[|rests| - 1];
       if |rests| <= |sessions| then r.Rejected? && SessionRefuses(sessions[|rests| - 1], last, r.code)
       else r == if last == [] then ok else Rejected(0x2010)
  }

  ghost predicate PassesBy(sessions: Sessions, b: seq<byte>, rests: seq<seq<byte>>) {
    && 0 < |rests| <= |sessions| + 1 && rests[0] == b
    && forall i | 0 < i < |rests| :: SessionAgrees(sessions[i - 1], rests[i - 1], rests[i])
  }

  ghost predicate SessionAgrees(session: Session, b: seq<byte>, rest: seq<byte>) {
    Valid(TPMS_AUTH_RESPONSE) &&
    match Decode(TPMS_AUTH_RESPONSE, b)
    case Failed(_) => false
    case Parsed(auth, after) => session.validate(auth) == None && rest == after
  }

  ghost predicate SessionRefuses(session: Session, b: seq<byte>, code: nat) {
    Valid(TPMS_AUTH_RESPONSE) &&
    match Decode(TPMS_AUTH_RESPONSE, b)
    case Failed(e) => CodeOf(e, code)
    case Parsed(auth, _) => session.validate(auth) == Some(code)
  }

  lemma {:induction false} AuthOutcome(session: Session, b: seq<byte>)
    ensures match ReadAuth(session, b)
            case Passed(rest) => SessionAgrees(session, b, rest)
            case Denied(code) => SessionRefuses(session, b, code)
  {
    AuthReplyValid();
    assert DecodeElem(AUTH_REPLY, b) == Decode(TPMS_AUTH_RESPONSE, b);
  }

  lemma {:induction false} AuthsOutcome(sessions: Sessions, k: nat, b: seq<byte>) returns (rests: seq<seq<byte>>)
    requires k <= |sessions|
    ensures PassesBy(sessions, b, rests)
    ensures match ReadAuths(sessions, k, b)
            case Passed(rest) => |rests| == k + 1 && rests[k] == rest
            case Denied(code) => |rests| <= k && SessionRefuses(sessions[|rests| - 1], rests[|rests| - 1], code)
  {
    if k == 0 {
      return [b];
    }
    rests := AuthsOutcome(sessions, k - 1, b);
    match ReadAuths(sessions, k - 1, b)
    case Denied(_) =>
    case Passed(at) =>
      AuthOutcome(sessions[k - 1], at);
      match ReadAuth(sessions[k - 1], at)
      case Denied(_) =>
      case Passed(rest) => rests := rests + [rest];
  }

  lemma {:induction false} BodyOutcome(t: RespTypes, sessions: Sessions, tag: nat, b: seq<byte>)
    ensures BodyDecides(t, sessions, tag, b, ReadBody(t, sessions, tag, b))
  {
    match Decode(t.handleType, b)
    case Failed(_) =>
    case Parsed(_, b1) =>
      var b2 := ReadParamSize(tag, b1);
      if b2.Some? {
        var params := Decode(t.paramType, b2.value);
        if params.Parsed? {
          var rests := AuthsOutcome(sessions, |sessions|, params.rest);
          assert AuthsDecide(sessions, params.rest, rests, Answered(Decode(t.handleType, b).value, params.value),
                             ReadBody(t, sessions, tag, b));
        }
      }
  }

  // ---- A whole command ----

  // The response buffer after a `transact`, or its error.
  datatype Reached = Responded(response: RespBuffer) | Unreached(code: nat)

  // Build, transact, parse: the TPM is asked once, with the frame, if the frame
  // fits the buffer, and not at all otherwise.
  method RunCommand<T>(c: Call, t: RespTypes, tpm: T, transact: (T, seq<byte>) -> (T, Reached))
    returns (r: Answer, after: T)
    ensures match BuiltFrame(c)
            case BuildPanicked => r == Crashed && after == tpm
            case BuildFailed(e) => r == Rejected(ErrorCode(e)) && after == tpm
            case Frame(frame) =>
              && after == transact(tpm, frame).0
              && match transact(tpm, frame).1
                 case Unreached(code) => r == Rejected(code)
                 case Responded(b) => r == ReadResponse(t, c.sessions, b)
  {
    after := tpm;
    var request := BuildRequest(c);
    match request
    case BuildPanicked => r := Crashed;
    case BuildFailed(e) => r := Rejected(ErrorCode(e));
    case Frame(bytes) =>
      var answered := transact(tpm, bytes);
      after := answered.0;
      match answered.1
      case Unreached(code) => r := Rejected(code);
      case Responded(b) => r := ParseResponse(t, c.sessions, b);
  }
}
