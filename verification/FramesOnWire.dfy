// Request frames of the client byte by byte.
module FramesOnWire {
  import opened ByteOrder
  import opened Schemas
  import opened Codec
  import opened Marshal
  import opened TpmTypes
  import opened ClientRequest
  import opened Password
  import opened WireFormat
  import opened TypesOnWire
  import EndToEnd

  // ---- Any frame ----

  // The authorizations as sent, in the order of the sessions.
  function AuthCodes(sessions: Sessions, k: nat): (codes: seq<seq<byte>>)
    requires k <= |sessions|
    ensures |codes| == k
  {
    seq(k, i requires 0 <= i < k => Encode(TPMS_AUTH_COMMAND, sessions[i].authCommand))
  }

  lemma {:induction false} AuthsInOrder(sessions: Sessions, k: nat)
    requires k <= |sessions|
    ensures AuthBytes(sessions, k) == Concat(AuthCodes(sessions, k))
  {
    if k > 0 {
      AuthsInOrder(sessions, k - 1);
      var last := Encode(TPMS_AUTH_COMMAND, sessions[k - 1].authCommand);
      assert AuthCodes(sessions, k) == AuthCodes(sessions, k - 1) + [last];
      ConcatSnoc(AuthCodes(sessions, k - 1), last);
    }
  }

  // Nothing without sessions, else a size of four bytes and the authorizations.
  lemma {:induction false} AreaOnWire(sessions: Sessions)
    ensures var auths := Concat(AuthCodes(sessions, |sessions|));
            AuthArea(sessions) == if |sessions| == 0 then [] else Long(|auths| % 0x1_0000_0000) + auths
  {
    AuthsInOrder(sessions, |sessions|);
    LongOnWire(|AuthBytes(sessions, |sessions|)| % 0x1_0000_0000);
  }

  // Tag, length of the whole, command code, handles, authorizations, parameters.
  lemma {:induction false} FrameOnWire(c: Call)
    ensures FrameBytes(c)
         == [0x80, if |c.sessions| == 0 then 0x01 else 0x02] + Long(|FrameBytes(c)| % 0x1_0000_0000) + Long(c.code)
            + (Encode(c.handleType, c.handles) + AuthArea(c.sessions) + Encode(c.paramType, c.params))
  {
    FrameHeader(Tag(c.sessions), |FrameBytes(c)| % 0x1_0000_0000, c.code);
  }

  lemma {:induction false} FrameHeader(tag: nat, size: nat, code: nat)
    requires tag == 0x8001 || tag == 0x8002
    requires size < 0x1_0000_0000 && code < 0x1_0000_0000
    ensures HeaderBytes(tag, size, code) == [0x80, if tag == 0x8001 then 0x01 else 0x02] + Long(size) + Long(code)
  {
    WordOnWire(tag);
    LongOnWire(size);
    LongOnWire(code);
  }

  // The buffer of 4096 bytes takes a frame whole or not at all.
  lemma {:induction false} FrameFits(c: Call)
    ensures |FrameBytes(c)| <= 4096 ==> BuiltFrame(c) == Frame(FrameBytes(c))
    ensures |FrameBytes(c)| > 4096 ==> BuiltFrame(c) == BuildFailed(Memory) || BuiltFrame(c) == BuildPanicked
  {
  }

  // Without room it is the part that holds the first byte behind the buffer that
  // decides between Memory and a panic, as its own encoder does of a buffer that
  // ends there.
  lemma {:induction false} NoRoomOutcome(c: Call)
    requires |FrameBytes(c)| > 4096
    ensures var handles, params := PayloadMask(c.handleType, c.handles), PayloadMask(c.paramType, c.params);
            var area, room := AreaMask(c.sessions), 4096 - 10;
            && |handles| + |area| + |params| > room
            && BuiltFrame(c) == if PanicsAt(handles, area, params, room) then BuildPanicked else BuildFailed(Memory)
  {
    MaskDecides(c);
    MaskAt(PayloadMask(c.handleType, c.handles), AreaMask(c.sessions), PayloadMask(c.paramType, c.params), 4096 - 10);
  }

  predicate PanicsAt(handles: seq<bool>, area: seq<bool>, params: seq<bool>, i: nat)
    requires i < |handles| + |area| + |params|
  {
    if i < |handles| then handles[i]
    else if i < |handles| + |area| then area[i - |handles|]
    else params[i - |handles| - |area|]
  }

  // In the authorization area the size panics, behind which the source slices
  // before it writes; the authorizations do as their encoders do.
  lemma {:induction false} AreaPanicsAt(sessions: Sessions, i: nat)
    requires i < |AreaMask(sessions)|
    ensures |sessions| > 0
    ensures AreaMask(sessions)[i] == (i < 4 || AuthMask(sessions, |sessions|)[i - 4])
  {
  }

  lemma {:induction false} MaskDecides(c: Call)
    requires |FrameBytes(c)| > 4096
    ensures BuiltFrame(c) == if BodyMask(c)[4096 - 10] then BuildPanicked else BuildFailed(Memory)
  {
    assert FrameMask(c)[4096] == BodyMask(c)[4096 - 10];
  }

  lemma {:induction false} MaskAt(a: seq<bool>, b: seq<bool>, c: seq<bool>, i: nat)
    requires i < |a| + |b| + |c|
    ensures (a + b + c)[i] == PanicsAt(a, b, c, i)
  {
  }

  // ---- GetRandom ----

  lemma {:induction false} GetRandomFrame(n: nat)
    requires n < 0x1_0000
    ensures FrameBytes(EndToEnd.GetRandomCall(n))
         == [0x80, 0x01, 0x00, 0x00, 0x00, 0x0C, 0x00, 0x00, 0x01, 0x7B] + Word(n)
  {
    var c := EndToEnd.GetRandomCall(n);
    EndToEnd.GetRandomBody(n);
    WordOnWire(n);
    FrameAround(c, Word(n), 12);
    GetRandomLongs();
  }

  lemma {:induction false} FrameAround(c: Call, body: seq<byte>, size: nat)
    requires Body(c) == body && size == 10 + |body| < 0x1_0000_0000
    ensures FrameBytes(c) == [0x80, if |c.sessions| == 0 then 0x01 else 0x02] + Long(size) + Long(c.code) + body
  {
    SmallRemainder(size);
    FrameHeader(Tag(c.sessions), size, c.code);
  }

  lemma {:induction false} SmallRemainder(n: nat)
    requires n < 0x1_0000_0000
    ensures n % 0x1_0000_0000 == n
  {
  }

  lemma {:induction false} GetRandomLongs()
    ensures Long(12) == [0x00, 0x00, 0x00, 0x0C] && Long(0x17B) == [0x00, 0x00, 0x01, 0x7B]
  {
  }

  // ---- One password session ----

  lemma {:induction false} PasswordAuth(s: PasswordSession)
    requires SessionOk(s)
    ensures Matches(TPMS_AUTH_COMMAND, GetAuthCommand(s)) && |GetSecret(s)| < 0x1_0000
    ensures Encode(TPMS_AUTH_COMMAND, GetAuthCommand(s))
         == [0x40, 0x00, 0x00, 0x09, 0x00, 0x00, 0x00] + Word(|GetSecret(s)|) + GetSecret(s)
  {
    AuthCommandBytes(s);
    SizeOnWire(|GetSecret(s)|);
  }

  // A command with one password session: everything but the handles and the
  // parameters is fixed, byte for byte.
  lemma {:induction false} PasswordFrame(c: Call, s: PasswordSession)
    requires SessionOk(s) && c.sessions == [AsSession(s)]
    ensures |GetSecret(s)| <= 64
    ensures FrameBytes(c)
         == [0x80, 0x02] + Long(|FrameBytes(c)| % 0x1_0000_0000) + Long(c.code)
            + (Encode(c.handleType, c.handles)
               + (Long(9 + |GetSecret(s)|)
                  + ([0x40, 0x00, 0x00, 0x09, 0x00, 0x00, 0x00] + Word(|GetSecret(s)|) + GetSecret(s)))
               + Encode(c.paramType, c.params))
  {
    FrameOnWire(c);
    PasswordArea(c.sessions, s);
  }

  lemma {:induction false} PasswordArea(sessions: Sessions, s: PasswordSession)
    requires SessionOk(s) && sessions == [AsSession(s)]
    ensures |GetSecret(s)| <= 64
    ensures AuthArea(sessions)
         == Long(9 + |GetSecret(s)|)
            + ([0x40, 0x00, 0x00, 0x09, 0x00, 0x00, 0x00] + Word(|GetSecret(s)|) + GetSecret(s))
  {
    AreaOnWire(sessions);
    PasswordAuth(s);
    var code := Encode(TPMS_AUTH_COMMAND, GetAuthCommand(s));
    assert AuthCodes(sessions, 1) == [code];
    OnePart(code);
    SmallRemainder(|code|);
  }

  lemma {:induction false} OnePart(code: seq<byte>)
    ensures Concat([code]) == code
  {
    var rest: seq<seq<byte>> := [code][1..];
    assert rest == [];
  }
}
