// The client's request frames: header, handles, authorization area, parameters,
// with the sizes patched in behind what they measure.
module ClientRequest {
  import opened ByteOrder
  import opened Schemas
  import opened Codec
  import opened Marshal
  import opened TpmTypes

  const CMD_BUFFER_SIZE := 4096
  const HEADER_SIZE := 10
  const ST_NO_SESSIONS: nat := 0x8001
  const ST_SESSIONS: nat := 0x8002

  const CMD_HEADER := Struct([Plain(U16), Plain(U32), Plain(U32)])
  const TPMS_AUTH_COMMAND := Struct([Plain(U32), Plain(TPM2B_DIGEST), Plain(U8), Plain(TPM2B_DIGEST)])

  // A session: the authorization it sends, and its verdict on the one that
  // comes back, where Some is an error code.
  datatype Session = Session(authCommand: Value, validate: Value -> Option<nat>)

  // At most three sessions, whose authorizations can be encoded.
  predicate SessionsOk(sessions: seq<Session>) {
    |sessions| <= 3 && forall i | 0 <= i < |sessions| :: Matches(TPMS_AUTH_COMMAND, sessions[i].authCommand)
  }

  type Sessions = s: seq<Session> | SessionsOk(s)

  // A command to run: its code, handles and parameters with their types, and the
  // sessions that authorize it.
  datatype Call_ = Call(
    code: nat, handleType: Schema, handles: Value, sessions: Sessions, paramType: Schema, params: Value)

  predicate CallOk(c: Call_) {
    && c.code < 0x1_0000_0000
    && Valid(c.handleType) && Valid(c.paramType)
    && Matches(c.handleType, c.handles) && Matches(c.paramType, c.params)
  }

  type Call = c: Call_ | CallOk(c) witness Call(0, ByteArray(0), Raw([]), [], ByteArray(0), Raw([]))

  // ---- The frame ----

  function Tag(sessions: Sessions): nat {
    if |sessions| == 0 then ST_NO_SESSIONS else ST_SESSIONS
  }

  function HeaderBytes(tag: nat, size: nat, code: nat): (h: seq<byte>)
    requires tag < 0x1_0000 && size < 0x1_0000_0000 && code < 0x1_0000_0000
    ensures |h| == HEADER_SIZE
  {
    assert Pow256(2) == 0x1_0000 && Pow256(4) == 0x1_0000_0000;
    BeBytes(2, tag) + BeBytes(4, size) + BeBytes(4, code)
  }

  // The authorizations of the first `k` sessions.
  function AuthBytes(sessions: Sessions, k: nat): (b: seq<byte>)
    requires k <= |sessions|
  {
    if k == 0 then [] else AuthBytes(sessions, k - 1) + Encode(TPMS_AUTH_COMMAND, sessions[k - 1].authCommand)
  }

  // Absent without sessions, else the size of the authorizations and themselves.
  function AuthArea(sessions: Sessions): (b: seq<byte>)
  {
    if |sessions| == 0 then []
    else
      assert Pow256(4) == 0x1_0000_0000;
      var auths := AuthBytes(sessions, |sessions|);
      BeBytes(4, |auths| % 0x1_0000_0000) + auths
  }

  function Front(c: Call): (b: seq<byte>) {
    Encode(c.handleType, c.handles) + AuthArea(c.sessions)
  }

  function Body(c: Call): (b: seq<byte>) {
    Front(c) + Encode(c.paramType, c.params)
  }

  function FrameBytes(c: Call): (b: seq<byte>)
    ensures |b| == HEADER_SIZE + |Body(c)|
  {
    HeaderBytes(Tag(c.sessions), (HEADER_SIZE + |Body(c)|) % 0x1_0000_0000, c.code) + Body(c)
  }

  // ---- What a frame without room comes to ----

  // Which bytes panic when they are the first without a place: the payload of a
  // TPM2B, and the size of the authorization area, behind which the source
  // slices before it writes.
  function AuthMask(sessions: Sessions, k: nat): (mask: seq<bool>)
    requires k <= |sessions|
    ensures |mask| == |AuthBytes(sessions, k)|
  {
    if k == 0 then []
    else AuthMask(sessions, k - 1) + PayloadMask(TPMS_AUTH_COMMAND, sessions[k - 1].authCommand)
  }

  function AreaMask(sessions: Sessions): (mask: seq<bool>)
    ensures |mask| == |AuthArea(sessions)|
  {
    if |sessions| == 0 then [] else Same(4, true) + AuthMask(sessions, |sessions|)
  }

  function FrontMask(c: Call): (mask: seq<bool>)
    ensures |mask| == |Front(c)|
  {
    PayloadMask(c.handleType, c.handles) + AreaMask(c.sessions)
  }

  function BodyMask(c: Call): (mask: seq<bool>)
    ensures |mask| == |Body(c)|
  {
    FrontMask(c) + PayloadMask(c.paramType, c.params)
  }

  function FrameMask(c: Call): (mask: seq<bool>)
    ensures |mask| == |FrameBytes(c)|
  {
    Same(HEADER_SIZE, false) + BodyMask(c)
  }

  // ---- Writing it ----

  // A failure among the authorizations, seen from the beginning of the area.
  lemma {:induction false} BehindSize(
    b0: seq<byte>, b1: seq<byte>, at: nat, size: seq<byte>, auths: seq<byte>, mask: seq<bool>, r: Outcome)
    requires |size| == 4 && |mask| == |auths| && at + 4 <= |b0|
    requires Wrote(b0, b1, at + 4, auths, mask, r) && !r.Written?
    ensures Wrote(b0, b1, at, size + auths, Same(4, true) + mask, r)
  {
    assert b1[..at] == b1[..at + 4][..at] == b0[..at];
  }

  // Room left for the size, then the authorizations, then the size itself.
  lemma {:induction false} SizeInFront(
    b0: seq<byte>, b1: seq<byte>, b2: seq<byte>, at: nat, size: seq<byte>, auths: seq<byte>, mask: seq<bool>)
    requires |size| == 4 && |mask| == |auths| && at + 4 <= |b0|
    requires Wrote(b0, b1, at + 4, auths, mask, Written(|auths|))
    requires Wrote(b1, b2, at, size, Same(4, false), Written(4))
    ensures Wrote(b0, b2, at, size + auths, Same(4, true) + mask, Written(4 + |auths|))
  {
    assert b1[..at] == b0[..at + 4][..at] == b0[..at];
    assert b1[at + 4..] == auths + b0[at + 4 + |auths|..];
  }

  lemma {:induction false} AuthPrefix(sessions: Sessions, j: nat, k: nat)
    requires j <= k <= |sessions|
    ensures AuthBytes(sessions, j) <= AuthBytes(sessions, k)
    ensures AuthMask(sessions, j) <= AuthMask(sessions, k)
    decreases k
  {
    if j < k {
      AuthPrefix(sessions, j, k - 1);
    }
  }

  // The first `k` authorizations are in place, or the area has failed.
  ghost predicate AuthsWritten(sessions: Sessions, k: nat, b0: seq<byte>, b1: seq<byte>, at: nat, r: Outcome)
    requires k <= |sessions| && at + 4 <= |b0|
  {
    if r.Written? then Wrote(b0, b1, at + 4, AuthBytes(sessions, k), AuthMask(sessions, k), r)
    else Wrote(b0, b1, at, AuthArea(sessions), AreaMask(sessions), r)
  }

  lemma {:induction false} NoAuthsYet(sessions: Sessions, b0: seq<byte>, at: nat)
    requires at + 4 <= |b0|
    ensures AuthsWritten(sessions, 0, b0, b0, at, Written(0))
  {
    NothingYet(b0, at + 4);
  }

  // A failure is that of the whole area, wherever it comes.
  lemma {:induction false} FailedAlready(
    sessions: Sessions, j: nat, k: nat, b0: seq<byte>, b1: seq<byte>, at: nat, r: Outcome)
    requires j <= |sessions| && k <= |sessions| && at + 4 <= |b0|
    requires AuthsWritten(sessions, j, b0, b1, at, r) && (r.Written? ==> j == k)
    ensures AuthsWritten(sessions, k, b0, b1, at, r)
  {
  }

  // One session more; a failure is that of the whole area.
  lemma {:induction false} SessionStep(
    sessions: Sessions, k: nat, b0: seq<byte>, b1: seq<byte>, b2: seq<byte>, at: nat, offset: nat, r: Outcome)
    requires k < |sessions| && at + 4 <= |b0|
    requires Wrote(b0, b1, at + 4, AuthBytes(sessions, k), AuthMask(sessions, k), Written(offset))
    requires var command := sessions[k].authCommand;
             at + 4 + offset <= |b1|
             && Wrote(b1, b2, at + 4 + offset, Encode(TPMS_AUTH_COMMAND, command),
                      PayloadMask(TPMS_AUTH_COMMAND, command), r)
    ensures AuthsWritten(sessions, k + 1, b0, b2, at, After(offset, r))
  {
    var command := sessions[k].authCommand;
    var all, allMask := AuthBytes(sessions, |sessions|), AuthMask(sessions, |sessions|);
    AuthPrefix(sessions, k + 1, |sessions|);
    WriteStep(b0, b1, b2, at + 4, AuthBytes(sessions, k), AuthMask(sessions, k), Encode(TPMS_AUTH_COMMAND, command),
              PayloadMask(TPMS_AUTH_COMMAND, command), all, allMask, r);
    if !r.Written? {
      assert Pow256(4) == 0x1_0000_0000;
      BehindSize(b0, b2, at, BeBytes(4, |all| % 0x1_0000_0000), all, allMask, r);
    }
  }

  // `auth_offset += s.get_auth_command().try_marshal(&mut buffer[auth_offset..])?`
  // in an area that begins at `at`, behind four bytes for its size.
  method WriteSession(sessions: Sessions, k: nat, buffer: array<byte>, at: nat, offset: nat,
                      ghost b0: seq<byte>) returns (r: Outcome)
    requires k < |sessions|
    requires at + 4 <= |b0| == buffer.Length
    requires AuthsWritten(sessions, k, b0, buffer[..], at, Written(offset))
    modifies buffer
    ensures AuthsWritten(sessions, k + 1, b0, buffer[..], at, r)
  {
    ghost var b1 := buffer[..];
    RoomBehind(b0, b1, at + 4, AuthBytes(sessions, k), AuthMask(sessions, k), offset);
    r := TryMarshal(TPMS_AUTH_COMMAND, sessions[k].authCommand, buffer, at + 4 + offset);
    SessionStep(sessions, k, b0, b1, buffer[..], at, offset, r);
    r := After(offset, r);
  }

  // `marshal_auth_size`, with the authorizations of all sessions in place.
  method MarshalAuthSize(sessions: Sessions, buffer: array<byte>, at: nat, offset: nat,
                         ghost b0: seq<byte>) returns (r: Outcome)
    requires |sessions| > 0
    requires at + 4 <= |b0| == buffer.Length
    requires AuthsWritten(sessions, |sessions|, b0, buffer[..], at, Written(offset))
    modifies buffer
    ensures r.Written? && Wrote(b0, buffer[..], at, AuthArea(sessions), AreaMask(sessions), r)
  {
    assert Pow256(4) == 0x1_0000_0000;
    ghost var b1 := buffer[..];
    var size := BeBytes(4, offset % 0x1_0000_0000);
    r := WriteBytes(size, buffer, at);
    SizeInFront(b0, b1, buffer[..], at, size, AuthBytes(sessions, |sessions|), AuthMask(sessions, |sessions|));
    r := Written(4 + offset);
  }

  lemma {:induction false} AreaPanics(sessions: Sessions, b: seq<byte>, at: nat)
    requires |sessions| > 0 && at <= |b| < at + 4
    ensures Wrote(b, b, at, AuthArea(sessions), AreaMask(sessions), Panic)
  {
    assert AreaMask(sessions)[..4] == Same(4, true);
  }

  // The authorizations go in first, each only if its session exists, and their
  // size in front of them last.
  method WriteCommandSessions(sessions: Sessions, buffer: array<byte>, at: nat) returns (r: Outcome)
    requires at <= buffer.Length
    modifies buffer
    ensures Wrote(old(buffer[..]), buffer[..], at, AuthArea(sessions), AreaMask(sessions), r)
  {
    if |sessions| == 0 {
      return Written(0);
    }
    ghost var b0 := buffer[..];
    if at + 4 > buffer.Length {
      AreaPanics(sessions, b0, at);
      return Panic;  // buffer[auth_offset..] past the end
    }
    r := WriteSessions(sessions, buffer, at, b0);
    if r.Written? {
      r := MarshalAuthSize(sessions, buffer, at, r.n, b0);
    }
  }

  // Up to three authorizations, one behind the other.
  method WriteSessions(sessions: Sessions, buffer: array<byte>, at: nat, ghost b0: seq<byte>) returns (r: Outcome)
    requires |sessions| > 0 && at + 4 <= |b0| == buffer.Length && buffer[..] == b0
    modifies buffer
    ensures AuthsWritten(sessions, |sessions|, b0, buffer[..], at, r)
  {
    NoAuthsYet(sessions, b0, at);
    r := WriteSession(sessions, 0, buffer, at, 0, b0);
    if !r.Written? || |sessions| == 1 {
      FailedAlready(sessions, 1, |sessions|, b0, buffer[..], at, r);
      return;
    }
    r := WriteOthers(sessions, buffer, at, r.n, b0);
  }

  // The second and, if it exists, the third.
  method WriteOthers(sessions: Sessions, buffer: array<byte>, at: nat, offset: nat, ghost b0: seq<byte>)
    returns (r: Outcome)
    requires |sessions| > 1 && at + 4 <= |b0| == buffer.Length
    requires AuthsWritten(sessions, 1, b0, buffer[..], at, Written(offset))
    modifies buffer
    ensures AuthsWritten(sessions, |sessions|, b0, buffer[..], at, r)
  {
    r := WriteSession(sessions, 1, buffer, at, offset, b0);
    if !r.Written? || |sessions| == 2 {
      FailedAlready(sessions, 2, |sessions|, b0, buffer[..], at, r);
      return;
    }
    r := WriteSession(sessions, 2, buffer, at, r.n, b0);
  }

  function HeaderValue(tag: nat, size: nat, code: nat): Value {
    Record([Int(tag), Int(size), Int(code)])
  }

  // The derived encoding of CmdHeader.
  lemma {:induction false} HeaderEncoding(tag: nat, size: nat, code: nat)
    requires tag < 0x1_0000 && size < 0x1_0000_0000 && code < 0x1_0000_0000
    ensures Valid(CMD_HEADER) && Matches(CMD_HEADER, HeaderValue(tag, size, code))
    ensures Encode(CMD_HEADER, HeaderValue(tag, size, code)) == HeaderBytes(tag, size, code)
    ensures Normalize(CMD_HEADER, HeaderValue(tag, size, code)) == HeaderValue(tag, size, code)
  {
    assert Pow256(2) == 0x1_0000 && Pow256(4) == 0x1_0000_0000;
    var fields, vals := CMD_HEADER.fields, HeaderValue(tag, size, code).vals;
    assert ValidField(fields[0]) && ValidField(fields[1]) && ValidField(fields[2]);
    assert MatchesElem(fields[0], vals[0]) && MatchesElem(fields[1], vals[1]) && MatchesElem(fields[2], vals[2]);
    assert MatchesFields(fields, vals, 3);
    assert EncodeFields(fields, vals, 1) == BeBytes(2, tag);
    assert EncodeFields(fields, vals, 2) == BeBytes(2, tag) + BeBytes(4, size);
    assert EncodeFields(fields, vals, 3) == HeaderBytes(tag, size, code);
    assert NormalizeFields(fields, vals, 1) == [vals[0]];
    assert NormalizeFields(fields, vals, 2) == [vals[0], vals[1]];
    assert NormalizeFields(fields, vals, 3) == vals;
  }

  method MarshalHeader(tag: nat, size: nat, code: nat, buffer: array<byte>) returns (r: Outcome)
    requires tag < 0x1_0000 && size < 0x1_0000_0000 && code < 0x1_0000_0000
    modifies buffer
    ensures Wrote(old(buffer[..]), buffer[..], 0, HeaderBytes(tag, size, code), Same(HEADER_SIZE, false), r)
  {
    HeaderEncoding(tag, size, code);
    HeaderHasNoPayload(tag, size, code, buffer.Length);
    r := TryMarshal(CMD_HEADER, HeaderValue(tag, size, code), buffer, 0);
  }

  lemma {:induction false} HeaderHasNoPayload(tag: nat, size: nat, code: nat, room: nat)
    requires tag < 0x1_0000 && size < 0x1_0000_0000 && code < 0x1_0000_0000
    requires Matches(CMD_HEADER, HeaderValue(tag, size, code))
    requires Encode(CMD_HEADER, HeaderValue(tag, size, code)) == HeaderBytes(tag, size, code)
    ensures Expected(HeaderBytes(tag, size, code), PayloadMask(CMD_HEADER, HeaderValue(tag, size, code)), room)
         == Expected(HeaderBytes(tag, size, code), Same(HEADER_SIZE, false), room)
  {
    var fields := CMD_HEADER.fields;
    assert Tpm2bFreeField(fields[0]) && Tpm2bFreeField(fields[1]) && Tpm2bFreeField(fields[2]);
    Tpm2bFreeNeverPanics(CMD_HEADER, HeaderValue(tag, size, code), room);
  }

  method WriteHandles(c: Call, buffer: array<byte>, at: nat) returns (r: Outcome)
    requires at <= buffer.Length
    modifies buffer
    ensures Wrote(old(buffer[..]), buffer[..], at,
                  Encode(c.handleType, c.handles), PayloadMask(c.handleType, c.handles), r)
  {
    r := TryMarshal(c.handleType, c.handles, buffer, at);
  }

  method WriteParams(c: Call, buffer: array<byte>, at: nat) returns (r: Outcome)
    requires at <= buffer.Length
    modifies buffer
    ensures Wrote(old(buffer[..]), buffer[..], at, Encode(c.paramType, c.params), PayloadMask(c.paramType, c.params), r)
  {
    r := TryMarshal(c.paramType, c.params, buffer, at);
  }

  lemma {:induction false} FrontStep(c: Call, n: nat, r: Outcome, b0: seq<byte>, b1: seq<byte>, b2: seq<byte>, at: nat)
    requires at <= |b0| && n == |Encode(c.handleType, c.handles)|
    requires Wrote(b0, b1, at, Encode(c.handleType, c.handles), PayloadMask(c.handleType, c.handles), Written(n))
    requires Wrote(b1, b2, at + n, AuthArea(c.sessions), AreaMask(c.sessions), r)
    ensures Wrote(b0, b2, at, Front(c), FrontMask(c), After(n, r))
  {
    Behind(n, r, b0, b1, b2, at, Encode(c.handleType, c.handles), PayloadMask(c.handleType, c.handles),
           AuthArea(c.sessions), AreaMask(c.sessions));
  }

  lemma {:induction false} FrontFails(c: Call, r: Outcome, b0: seq<byte>, b1: seq<byte>, at: nat)
    requires at <= |b0| && !r.Written?
    requires Wrote(b0, b1, at, Encode(c.handleType, c.handles), PayloadMask(c.handleType, c.handles), r)
    ensures Wrote(b0, b1, at, Front(c), FrontMask(c), r)
  {
    FailsEarly(b0, b1, at, Encode(c.handleType, c.handles), PayloadMask(c.handleType, c.handles),
               Front(c), FrontMask(c), r);
  }

  method WriteFront(c: Call, buffer: array<byte>, at: nat) returns (r: Outcome)
    requires at <= buffer.Length
    modifies buffer
    ensures Wrote(old(buffer[..]), buffer[..], at, Front(c), FrontMask(c), r)
  {
    ghost var b0 := buffer[..];
    var first := WriteHandles(c, buffer, at);
    if !first.Written? {
      FrontFails(c, first, b0, buffer[..], at);
      return first;
    }
    r := WriteArea(c, buffer, at, first.n, b0);
  }

  // The authorization area behind the handles.
  method WriteArea(c: Call, buffer: array<byte>, at: nat, n: nat, ghost b0: seq<byte>) returns (r: Outcome)
    requires at <= |b0| && n == |Encode(c.handleType, c.handles)|
    requires Wrote(b0, buffer[..], at, Encode(c.handleType, c.handles), PayloadMask(c.handleType, c.handles),
                   Written(n))
    modifies buffer
    ensures Wrote(b0, buffer[..], at, Front(c), FrontMask(c), r)
  {
    ghost var b1 := buffer[..];
    RoomBehind(b0, b1, at, Encode(c.handleType, c.handles), PayloadMask(c.handleType, c.handles), n);
    r := WriteCommandSessions(c.sessions, buffer, at + n);
    FrontStep(c, n, r, b0, b1, buffer[..], at);
    r := After(n, r);
  }

  lemma {:induction false} BodyStep(c: Call, n: nat, r: Outcome, b0: seq<byte>, b1: seq<byte>, b2: seq<byte>, at: nat)
    requires at <= |b0| && n == |Front(c)|
    requires Wrote(b0, b1, at, Front(c), FrontMask(c), Written(n))
    requires Wrote(b1, b2, at + n, Encode(c.paramType, c.params), PayloadMask(c.paramType, c.params), r)
    ensures Wrote(b0, b2, at, Body(c), BodyMask(c), After(n, r))
  {
    Behind(n, r, b0, b1, b2, at, Front(c), FrontMask(c),
           Encode(c.paramType, c.params), PayloadMask(c.paramType, c.params));
  }

  lemma {:induction false} BodyFails(c: Call, r: Outcome, b0: seq<byte>, b1: seq<byte>, at: nat)
    requires at <= |b0| && !r.Written?
    requires Wrote(b0, b1, at, Front(c), FrontMask(c), r)
    ensures Wrote(b0, b1, at, Body(c), BodyMask(c), r)
  {
    FailsEarly(b0, b1, at, Front(c), FrontMask(c), Body(c), BodyMask(c), r);
  }

  // Handles, authorization area and parameters, one behind the other.
  method WriteBody(c: Call, buffer: array<byte>, at: nat) returns (r: Outcome)
    requires at <= buffer.Length
    modifies buffer
    ensures Wrote(old(buffer[..]), buffer[..], at, Body(c), BodyMask(c), r)
  {
    ghost var b0 := buffer[..];
    var first := WriteFront(c, buffer, at);
    if !first.Written? {
      BodyFails(c, first, b0, buffer[..], at);
      return first;
    }
    r := WriteRest(c, buffer, at, first.n, b0);
  }

  // The parameters behind handles and area.
  method WriteRest(c: Call, buffer: array<byte>, at: nat, n: nat, ghost b0: seq<byte>) returns (r: Outcome)
    requires at <= |b0| && n == |Front(c)|
    requires Wrote(b0, buffer[..], at, Front(c), FrontMask(c), Written(n))
    modifies buffer
    ensures Wrote(b0, buffer[..], at, Body(c), BodyMask(c), r)
  {
    ghost var b1 := buffer[..];
    RoomBehind(b0, b1, at, Front(c), FrontMask(c), n);
    r := WriteParams(c, buffer, at + n);
    BodyStep(c, n, r, b0, b1, buffer[..], at);
    r := After(n, r);
  }

  datatype Built = Frame(bytes: seq<byte>) | BuildFailed(error: Error) | BuildPanicked

  // The frame if there is room for it, and else the outcome that the first byte
  // without a place decides.
  function BuiltFrame(c: Call): Built {
    match Expected(FrameBytes(c), FrameMask(c), CMD_BUFFER_SIZE)
    case Written(_) => Frame(FrameBytes(c))
    case Refused(e) => BuildFailed(e)
    case Panic => BuildPanicked
  }

  // The first half of `run_command_with_handles`: what `transact` is given, or
  // why it is not called.
  method BuildRequest(c: Call) returns (r: Built)
    ensures r == BuiltFrame(c)
  {
    var cmdBuffer := new byte[CMD_BUFFER_SIZE](_ => 0);
    ghost var b0 := cmdBuffer[..];
    var written := WriteUnsized(c, cmdBuffer);
    match written
    case Panic => return BuildPanicked;
    case Refused(e) => return BuildFailed(e);
    case Written(n) =>
      var frame := PatchSize(Tag(c.sessions), c.code, n, cmdBuffer, b0, Unsized(c), Body(c), FrameMask(c));
      return Frame(frame);
  }

  // The body behind a header without size.
  lemma {:induction false} UnsizedStep(c: Call, r: Outcome, b0: seq<byte>, b1: seq<byte>, b2: seq<byte>)
    requires |b0| == CMD_BUFFER_SIZE
    requires Wrote(b0, b1, 0, Unsized(c), Same(HEADER_SIZE, false), Written(HEADER_SIZE))
    requires Wrote(b1, b2, HEADER_SIZE, Body(c), BodyMask(c), r)
    ensures Wrote(b0, b2, 0, Unsized(c) + Body(c), FrameMask(c), After(HEADER_SIZE, r))
  {
    Behind(HEADER_SIZE, r, b0, b1, b2, 0, Unsized(c), Same(HEADER_SIZE, false), Body(c), BodyMask(c));
  }

  // Only the length and the mask of what is written decide the outcome.
  lemma {:induction false} OutcomeOfFrame(code: seq<byte>, code': seq<byte>, mask: seq<bool>, room: nat)
    requires |mask| == |code| == |code'|
    ensures Expected(code, mask, room) == Expected(code', mask, room)
  {
  }

  // The header before the size is known.
  function Unsized(c: Call): (h: seq<byte>)
    ensures |h| == HEADER_SIZE
  {
    HeaderBytes(Tag(c.sessions), 0, c.code)
  }

  // The whole frame with a size of zero in its header.
  method WriteUnsized(c: Call, cmdBuffer: array<byte>) returns (r: Outcome)
    requires cmdBuffer.Length == CMD_BUFFER_SIZE
    modifies cmdBuffer
    ensures Wrote(old(cmdBuffer[..]), cmdBuffer[..], 0, Unsized(c) + Body(c), FrameMask(c), r)
    ensures r == Expected(FrameBytes(c), FrameMask(c), CMD_BUFFER_SIZE)
  {
    ghost var b0 := cmdBuffer[..];
    var first := MarshalHeader(Tag(c.sessions), 0, c.code, cmdBuffer);
    ghost var b1 := cmdBuffer[..];
    r := WriteBody(c, cmdBuffer, first.n);
    UnsizedStep(c, r, b0, b1, cmdBuffer[..]);
    r := After(first.n, r);
    OutcomeOfFrame(Unsized(c) + Body(c), FrameBytes(c), FrameMask(c), CMD_BUFFER_SIZE);
  }

  // Updates the command size and hands out the frame.
  method PatchSize(tag: nat, code: nat, written: nat, buffer: array<byte>, ghost b0: seq<byte>,
                   ghost header0: seq<byte>, ghost body: seq<byte>, ghost mask: seq<bool>) returns (frame: seq<byte>)
    requires tag < 0x1_0000 && code < 0x1_0000_0000 && buffer.Length == CMD_BUFFER_SIZE
    requires |header0| == HEADER_SIZE && |b0| == buffer.Length && |mask| == HEADER_SIZE + |body|
    requires Wrote(b0, buffer[..], 0, header0 + body, mask, Written(written))
    modifies buffer
    ensures frame == HeaderBytes(tag, (HEADER_SIZE + |body|) % 0x1_0000_0000, code) + body
  {
    ghost var b1 := buffer[..];
    var size := written % 0x1_0000_0000;
    assert size == written == HEADER_SIZE + |body|;
    assert b1[..written] == header0 + body;
    var again := MarshalHeader(tag, size, code, buffer);
    Patched(b1, buffer[..], header0, HeaderBytes(tag, size, code), body);
    return buffer[..written];
  }

  // Writing a header of the same length over the first one changes only that.
  lemma {:induction false} Patched(b1: seq<byte>, b2: seq<byte>, header0: seq<byte>, header: seq<byte>, body: seq<byte>)
    requires |header0| == |header| && header0 + body <= b1
    requires b2 == WriteAt(b1, 0, header)
    ensures header + body <= b2
  {
    assert b2[..|header|] == header && b2[|header|..] == b1[|header|..];
    assert b1[|header|..|header| + |body|] == body;
  }
}
