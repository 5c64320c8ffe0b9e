// The password session: what it sends and what it accepts.
module Password {
  import opened ByteOrder
  import opened Schemas
  import opened Codec
  import opened CodecLaws
  import opened TpmTypes
  import opened Unmarshal
  import opened ClientRequest
  import opened ClientResponse
  import TypesOnWire

  const RS_PW: nat := 0x40000009

  // `auth` holds the password in a TPM2B of capacity 64.
  datatype PasswordSession = PasswordSession(auth: Value)

  // `from_bytes` of a TPM2B.
  function FromBytes(max: nat, bytes: seq<byte>): (r: Fallible<Value>)
    ensures r.Ok? <==> |bytes| <= max && |bytes| < 0x1_0000
    ensures r.Ok? ==> r.value.Buffer? && r.value.size == |bytes| && |r.value.bytes| == max
    ensures r.Err? ==> r.error == Size
  {
    if |bytes| > max || |bytes| > 0xFFFF then Err(Size) else Ok(Buffer(|bytes|, bytes + Zeros(max - |bytes|)))
  }

  function New(password: seq<byte>): Fallible<PasswordSession> {
    var auth :- FromBytes(DIGEST_MAX, password);
    Ok(PasswordSession(auth))
  }

  predicate SessionOk(s: PasswordSession) {
    Matches(TPM2B_DIGEST, s.auth)
  }

  function GetSecret(s: PasswordSession): seq<byte>
    requires SessionOk(s)
  {
    s.auth.bytes[..s.auth.size]
  }

  function GetAuthCommand(s: PasswordSession): Value {
    Record([Int(RS_PW), Buffer(0, Zeros(DIGEST_MAX)), Int(0), s.auth])
  }

  // An empty nonce and hmac, and the attributes ContinueSession.
  function ValidateAuthResponse(auth: Value): Option<nat> {
    if auth.Record? && |auth.vals| == 3
       && auth.vals[0].Buffer? && auth.vals[0].size == 0
       && auth.vals[1] == Int(1)
       && auth.vals[2].Buffer? && auth.vals[2].size == 0
    then None else Some(TCS_BAD_PARAMETER)
  }

  function AsSession(s: PasswordSession): Session {
    Session(GetAuthCommand(s), ValidateAuthResponse)
  }

  // A password that fits is kept as it is; a longer one is refused.
  lemma {:induction false} NewKeepsPassword(password: seq<byte>)
    ensures if |password| > DIGEST_MAX then New(password) == Err(Size)
            else New(password).Ok? && SessionOk(New(password).value)
                 && GetSecret(New(password).value) == password
  {
    if |password| <= DIGEST_MAX {
      assert (password + Zeros(DIGEST_MAX - |password|))[..|password|] == password;
    }
  }

  // The password travels in the clear, behind the handle RS_PW, an empty nonce
  // and no attributes.
  lemma {:induction false} AuthCommandBytes(s: PasswordSession)
    requires SessionOk(s)
    ensures Matches(TPMS_AUTH_COMMAND, GetAuthCommand(s))
    ensures Encode(TPMS_AUTH_COMMAND, GetAuthCommand(s))
         == [0x40, 0x00, 0x00, 0x09, 0x00, 0x00, 0x00] + BeSize(|GetSecret(s)|) + GetSecret(s)
  {
    AuthCommandEncoding(s);
    RsPwBytes();
    assert BeSize(0) + Zeros(DIGEST_MAX)[..0] == [0, 0];
  }

  lemma {:induction false} AuthCommandEncoding(s: PasswordSession)
    requires SessionOk(s)
    ensures Matches(TPMS_AUTH_COMMAND, GetAuthCommand(s)) && RS_PW < Pow256(4) && 0 < Pow256(1)
    ensures Encode(TPMS_AUTH_COMMAND, GetAuthCommand(s))
         == BeBytes(4, RS_PW) + (BeSize(0) + Zeros(DIGEST_MAX)[..0]) + BeBytes(1, 0)
            + (BeSize(|GetSecret(s)|) + GetSecret(s))
  {
    assert Pow256(1) == 0x100 && Pow256(2) == 0x1_0000 && Pow256(3) == 0x100_0000 && Pow256(4) == 0x1_0000_0000;
    var vals := GetAuthCommand(s).vals;
    TypesOnWire.FourFields(U32, TPM2B_DIGEST, U8, TPM2B_DIGEST, vals[0], vals[1], vals[2], vals[3]);
  }

  lemma {:induction false} RsPwBytes()
    ensures Pow256(4) == 0x1_0000_0000 && BeBytes(4, RS_PW) == [0x40, 0x00, 0x00, 0x09]
    ensures BeSize(0) == [0, 0] && BeBytes(1, 0) == [0] && BeBytes(1, 1) == [1]
  {
    var b: seq<byte> := [0x40, 0x00, 0x00, 0x09];
    assert b[..3][..2][..1] == [0x40] && b[..3][..2] == [0x40, 0x00] && b[..3] == [0x40, 0x00, 0x00];
    assert BeValue([0x40]) == 0x40;
    assert BeValue([0x40, 0x00]) == 0x4000;
    assert BeValue(b) == RS_PW;
    BeBytesOfValue(b);
    BeBytesOfValue([0, 0]);
    BeBytesOfValue([0]);
    BeBytesOfValue([1]);
  }

  // ---- The accepted answer ----

  const ACCEPTED: seq<byte> := [0x00, 0x00, 0x01, 0x00, 0x00]
  const ACCEPTED_AUTH := Record([Buffer(0, Zeros(DIGEST_MAX)), Int(1), Buffer(0, Zeros(DIGEST_MAX))])

  lemma {:induction false} AcceptedEncoding()
    ensures ValidField(AUTH_REPLY) && MatchesElem(AUTH_REPLY, ACCEPTED_AUTH)
    ensures EncodeElem(AUTH_REPLY, ACCEPTED_AUTH) == ACCEPTED
    ensures NormalizeElem(AUTH_REPLY, ACCEPTED_AUTH) == ACCEPTED_AUTH
  {
    AuthReplyValid();
    var fields, vals := TPMS_AUTH_RESPONSE.fields, ACCEPTED_AUTH.vals;
    assert Pow256(1) == 0x100;
    assert MatchesElem(fields[0], vals[0]) && MatchesElem(fields[1], vals[1]) && MatchesElem(fields[2], vals[2]);
    assert MatchesFields(fields, vals, 3);
    RsPwBytes();
    EmptyBuffer(DIGEST_MAX, vals[0]);
    assert EncodeFields(fields, vals, 1) == [0, 0];
    assert EncodeFields(fields, vals, 2) == [0, 0, 1];
    assert EncodeFields(fields, vals, 3) == ACCEPTED;
    assert NormalizeFields(fields, vals, 1) == [vals[0]];
    assert NormalizeFields(fields, vals, 2) == [vals[0], vals[1]];
    assert NormalizeFields(fields, vals, 3) == vals;
  }

  // On the wire, a password session accepts five bytes and no others.
  lemma {:induction false} PasswordAccepts(s: PasswordSession, b: seq<byte>, rest: seq<byte>)
    ensures ReadAuth(AsSession(s), b) == Passed(rest) <==> b == ACCEPTED + rest
  {
    AcceptedEncoding();
    RoundTripElem(AUTH_REPLY, ACCEPTED_AUTH, rest);
    if ReadAuth(AsSession(s), b) == Passed(rest) {
      CanonicalElem(AUTH_REPLY, b);
      ValidatedIsAccepted(DecodeElem(AUTH_REPLY, b).value);
    }
  }

  lemma {:induction false} ValidatedIsAccepted(auth: Value)
    requires ValidField(AUTH_REPLY) && MatchesElem(AUTH_REPLY, auth)
    requires NormalizeElem(AUTH_REPLY, auth) == auth
    requires ValidateAuthResponse(auth) == None
    ensures auth == ACCEPTED_AUTH
  {
    var fields, vals := TPMS_AUTH_RESPONSE.fields, auth.vals;
    assert MatchesFields(fields, vals, 3) && NormalizeFields(fields, vals, 3) == vals;
    NormalizeFieldsAt(fields, vals, 3, 0);
    NormalizeFieldsAt(fields, vals, 3, 2);
    EmptyBuffer(DIGEST_MAX, vals[0]);
    EmptyBuffer(DIGEST_MAX, vals[2]);
  }

  lemma {:induction false} EmptyBuffer(max: nat, v: Value)
    requires Valid(Tpm2b(max)) && Matches(Tpm2b(max), v) && v.size == 0
    ensures Normalize(Tpm2b(max), v) == Buffer(0, Zeros(max))
  {
    assert v.bytes[..0] + Zeros(max) == Zeros(max);
  }

  // Anything else that decodes is refused with TcsBadParameter, and what does not
  // with the error of the decoder.
  lemma {:induction false} PasswordRefuses(s: PasswordSession, b: seq<byte>)
    requires !(ACCEPTED <= b)
    ensures ValidField(AUTH_REPLY)
    ensures match Decode(TPMS_AUTH_RESPONSE, b)
            case Failed(e) => ReadAuth(AsSession(s), b).Denied? && CodeOf(e, ReadAuth(AsSession(s), b).code)
            case Parsed(_, _) => ReadAuth(AsSession(s), b) == Denied(0x2003)
  {
    AuthReplyValid();
    AuthOutcome(AsSession(s), b);
    var r := ReadAuth(AsSession(s), b);
    if r.Passed? {
      PasswordAccepts(s, b, r.rest);
    }
  }

  // So the whole session part of a response is fixed, byte for byte.
  lemma {:induction false} PasswordsAccept(
    passwords: seq<PasswordSession>, sessions: Sessions, k: nat, b: seq<byte>, rest: seq<byte>)
    requires |passwords| == |sessions| && k <= |sessions|
    requires forall i | 0 <= i < |sessions| :: sessions[i] == AsSession(passwords[i])
    ensures ReadAuths(sessions, k, b) == Passed(rest) <==> b == Repeated(ACCEPTED, k) + rest
  {
    if k > 0 {
      PasswordAccepts(passwords[k - 1], ACCEPTED + rest, rest);
      PasswordsAccept(passwords, sessions, k - 1, b, ACCEPTED + rest);
      assert Repeated(ACCEPTED, k) + rest == Repeated(ACCEPTED, k - 1) + (ACCEPTED + rest);
      match ReadAuths(sessions, k - 1, b)
      case Denied(_) =>
      case Passed(b') => PasswordAccepts(passwords[k - 1], b', rest);
    }
  }

  function Repeated(b: seq<byte>, n: nat): seq<byte> {
    if n == 0 then [] else Repeated(b, n - 1) + b
  }
}
