// A reference parser for request frames: what the client sends can be taken
// apart in exactly one way.
module FrameParser {
  import opened ByteOrder
  import opened Schemas
  import opened Codec
  import opened CodecLaws
  import opened Marshal
  import opened TpmTypes
  import opened ClientRequest

  type ValidSchema = s: Schema | Valid(s) witness ByteArray(0)

  datatype Request = Request(
    tag: int, size: int, code: int, handles: Value, auths: seq<Value>, params: Value)

  // As many elements as fill the whole of `b`.
  function ParseItems(f: Field, b: seq<byte>): Option<seq<Value>>
    requires ValidField(f)
    decreases |b|
  {
    if b == [] then Some([])
    else
      match DecodeElem(f, b)
      case Failed(_) => None
      case Parsed(v, rest) =>
        if |rest| >= |b| then None
        else
          match ParseItems(f, rest)
          case None => None
          case Some(vs) => Some([v] + vs)
  }

  // What follows the first `k` elements in the encoding of `n` parses into the
  // others.
  lemma {:induction false} ItemsParse(f: Field, items: seq<Value>, k: nat, n: nat, tail: seq<byte>)
    requires ValidField(f) && k <= n <= |items| && NonEmptyItems(f, items, n)
    requires EncodeItems(f, items, k) + tail == EncodeItems(f, items, n)
    ensures ParseItems(f, tail) == Some(NormalizeItems(f, items, n)[k..])
    decreases n - k
  {
    if k < n {
      var tail' := BehindItem(f, items, k, n, tail);
      ItemsParse(f, items, k + 1, n, tail');
      ItemInFront(f, items, k, n, tail, tail');
    } else {
      NothingBehind(EncodeItems(f, items, n), tail);
      assert NormalizeItems(f, items, n)[k..] == [];
    }
  }

  ghost predicate NonEmptyItems(f: Field, items: seq<Value>, n: nat)
    requires n <= |items|
  {
    forall i | 0 <= i < n :: MatchesElem(f, items[i]) && |EncodeElem(f, items[i])| > 0
  }

  lemma {:induction false} NothingBehind(all: seq<byte>, tail: seq<byte>)
    requires all + tail == all
    ensures tail == []
  {
    assert |all + tail| == |all| + |tail|;
  }

  // What follows an item, when `tail` begins with it.
  lemma {:induction false} BehindItem(f: Field, items: seq<Value>, k: nat, n: nat, tail: seq<byte>)
    returns (tail': seq<byte>)
    requires ValidField(f) && k < n <= |items|
    requires forall i | 0 <= i < n :: MatchesElem(f, items[i])
    requires EncodeItems(f, items, k) + tail == EncodeItems(f, items, n)
    ensures tail == EncodeElem(f, items[k]) + tail'
    ensures EncodeItems(f, items, k + 1) + tail' == EncodeItems(f, items, n)
  {
    ItemsPrefix(f, items, k + 1, n);
    var done, code := EncodeItems(f, items, k), EncodeElem(f, items[k]);
    tail' := EncodeItems(f, items, n)[|done + code|..];
    SplitBehind(done, code, tail, tail');
  }

  // An item in front of what parses into the later ones.
  lemma {:induction false} ItemInFront(
    f: Field, items: seq<Value>, k: nat, n: nat, tail: seq<byte>, tail': seq<byte>)
    requires ValidField(f) && k < n <= |items| && NonEmptyItems(f, items, n)
    requires tail == EncodeElem(f, items[k]) + tail'
    requires ParseItems(f, tail') == Some(NormalizeItems(f, items, n)[k + 1..])
    ensures ParseItems(f, tail) == Some(NormalizeItems(f, items, n)[k..])
  {
    var all := NormalizeItems(f, items, n);
    RoundTripElem(f, items[k], tail');
    NormalizeItemsAt(f, items, n, k);
    HeadAndTail(all, k);
    OneMoreItem(f, tail, all[k], tail', all[k + 1..]);
  }

  lemma {:induction false} OneMoreItem(f: Field, b: seq<byte>, v: Value, rest: seq<byte>, vs: seq<Value>)
    requires ValidField(f) && DecodeElem(f, b) == Parsed(v, rest) && |rest| < |b|
    requires ParseItems(f, rest) == Some(vs)
    ensures ParseItems(f, b) == Some([v] + vs)
  {
  }

  lemma {:induction false} HeadAndTail<T>(s: seq<T>, k: nat)
    requires k < |s|
    ensures s[k..] == [s[k]] + s[k + 1..]
  {
  }

  lemma {:induction false} SplitBehind(done: seq<byte>, code: seq<byte>, tail: seq<byte>, tail': seq<byte>)
    requires done + tail == done + code + tail'
    ensures tail == code + tail'
  {
    assert done + code + tail' == done + (code + tail');
    assert tail == (done + tail)[|done|..] == (done + (code + tail'))[|done|..] == code + tail';
  }

  const AUTH_ENTRY := Plain(TPMS_AUTH_COMMAND)

  lemma {:induction false} AuthEntryValid()
    ensures ValidField(AUTH_ENTRY)
  {
    var fields := TPMS_AUTH_COMMAND.fields;
    assert ValidField(fields[0]) && ValidField(fields[1]) && ValidField(fields[2]) && ValidField(fields[3]);
  }

  // The authorization area, if the tag announces one, and what follows it.
  function ParseArea(tag: int, b: seq<byte>): Option<(seq<Value>, seq<byte>)>
  {
    AuthEntryValid();
    if tag != ST_SESSIONS then Some(([], b))
    else if |b| < 4 || |b| - 4 < BeValue(b[..4]) then None
    else
      var end := 4 + BeValue(b[..4]);
      match ParseItems(AUTH_ENTRY, b[4..end])
      case None => None
      case Some(auths) => Some((auths, b[end..]))
  }

  // `handleType` and `paramType` are those of the command that the code names.
  function ParseFrame(handleType: ValidSchema, paramType: ValidSchema, b: seq<byte>): Option<Request>
  {
    if |b| < HEADER_SIZE then None
    else
      match ParseBody(handleType, paramType, BeValue(b[..2]), b[HEADER_SIZE..])
      case None => None
      case Some((handles, auths, params)) =>
        Some(Request(BeValue(b[..2]), BeValue(b[2..6]), BeValue(b[6..10]), handles, auths, params))
  }

  function ParseBody(handleType: ValidSchema, paramType: ValidSchema, tag: int, b: seq<byte>)
    : Option<(Value, seq<Value>, Value)>
  {
    match Decode(handleType, b)
    case Failed(_) => None
    case Parsed(handles, b1) =>
      match ParseArea(tag, b1)
      case None => None
      case Some((auths, b2)) =>
        match Decode(paramType, b2)
        case Failed(_) => None
        case Parsed(params, rest) => if rest == [] then Some((handles, auths, params)) else None
  }

  lemma {:induction false} AuthCommandNotEmpty(v: Value)
    requires Matches(TPMS_AUTH_COMMAND, v)
    ensures |Encode(TPMS_AUTH_COMMAND, v)| >= 4
  {
    var fields := TPMS_AUTH_COMMAND.fields;
    assert MatchesFields(fields, v.vals, |fields|);
    FieldsPrefix(fields, v.vals, 1, |fields|);
    assert MatchesElem(fields[0], v.vals[0]);
    assert |EncodeFields(fields, v.vals, 1)| == 4;
  }

  function AuthCommands(sessions: Sessions): (vs: seq<Value>)
    ensures |vs| == |sessions|
  {
    seq(|sessions|, i requires 0 <= i < |sessions| => sessions[i].authCommand)
  }

  lemma {:induction false} AuthCommandsMatch(sessions: Sessions)
    ensures forall i | 0 <= i < |sessions| ::
              && MatchesElem(AUTH_ENTRY, AuthCommands(sessions)[i])
              && |EncodeElem(AUTH_ENTRY, AuthCommands(sessions)[i])| > 0
  {
    forall i | 0 <= i < |sessions|
      ensures && MatchesElem(AUTH_ENTRY, AuthCommands(sessions)[i])
              && |EncodeElem(AUTH_ENTRY, AuthCommands(sessions)[i])| > 0
    {
      AuthCommandNotEmpty(sessions[i].authCommand);
    }
  }

  // The authorizations in normal form, as a parser sees them.
  function AuthValues(sessions: Sessions): (vs: seq<Value>)
    ensures |vs| == |sessions|
  {
    AuthEntryValid();
    AuthCommandsMatch(sessions);
    NormalizeItems(AUTH_ENTRY, AuthCommands(sessions), |sessions|)
  }

  lemma {:induction false} AuthBytesAreItems(sessions: Sessions, k: nat)
    requires k <= |sessions|
    ensures forall i | 0 <= i < |sessions| :: MatchesElem(AUTH_ENTRY, AuthCommands(sessions)[i])
    ensures AuthBytes(sessions, k) == EncodeItems(AUTH_ENTRY, AuthCommands(sessions), k)
  {
    AuthCommandsMatch(sessions);
    if k > 0 {
      AuthBytesAreItems(sessions, k - 1);
    }
  }

  lemma {:induction false} AreaParses(sessions: Sessions, tail: seq<byte>)
    requires |AuthArea(sessions)| < 0x1_0000_0000
    ensures ParseArea(Tag(sessions), AuthArea(sessions) + tail) == Some((AuthValues(sessions), tail))
  {
    if |sessions| > 0 {
      var auths := AuthBytes(sessions, |sessions|);
      AuthsParse(sessions, auths);
      assert Pow256(4) == 0x1_0000_0000;
      SmallMod(|auths|);
      SizedAreaParses(BeBytes(4, |auths|), auths, tail, AuthValues(sessions));
    } else {
      assert [] + tail == tail;
      assert AuthValues(sessions) == [];
    }
  }

  lemma {:induction false} SizedAreaParses(size: seq<byte>, auths: seq<byte>, tail: seq<byte>, values: seq<Value>)
    requires |size| == 4 && BeValue(size) == |auths|
    requires ValidField(AUTH_ENTRY) && ParseItems(AUTH_ENTRY, auths) == Some(values)
    ensures ParseArea(ST_SESSIONS, size + auths + tail) == Some((values, tail))
  {
    SizedArea(size, auths, tail);
  }

  lemma {:induction false} AuthsParse(sessions: Sessions, auths: seq<byte>)
    requires auths == AuthBytes(sessions, |sessions|)
    ensures ValidField(AUTH_ENTRY)
    ensures ParseItems(AUTH_ENTRY, auths) == Some(AuthValues(sessions))
  {
    AuthEntryValid();
    var items := AuthCommands(sessions);
    AuthBytesAreItems(sessions, |sessions|);
    AuthCommandsMatch(sessions);
    assert EncodeItems(AUTH_ENTRY, items, 0) + auths == auths;
    ItemsParse(AUTH_ENTRY, items, 0, |items|, auths);
  }

  lemma {:induction false} SizedArea(size: seq<byte>, auths: seq<byte>, tail: seq<byte>)
    requires |size| == 4
    ensures var b := size + auths + tail;
            b[..4] == size && b[4..4 + |auths|] == auths && b[4 + |auths|..] == tail
  {
  }

  lemma {:induction false} BodyParses(c: Call)
    requires |Body(c)| < 0x1_0000_0000
    ensures ParseBody(c.handleType, c.paramType, Tag(c.sessions), Body(c))
         == Some((Normalize(c.handleType, c.handles), AuthValues(c.sessions), Normalize(c.paramType, c.params)))
  {
    var eh, area, ep := Encode(c.handleType, c.handles), AuthArea(c.sessions), Encode(c.paramType, c.params);
    assert Body(c) == eh + (area + ep);
    RoundTrip(c.handleType, c.handles, area + ep);
    AreaParses(c.sessions, ep);
    DecodesExactly(c.paramType, c.params);
    ParseBodyOf(c.handleType, c.paramType, Tag(c.sessions), Body(c), Normalize(c.handleType, c.handles), area + ep,
                AuthValues(c.sessions), ep, Normalize(c.paramType, c.params));
  }

  lemma {:induction false} ParseBodyOf(
    handleType: ValidSchema, paramType: ValidSchema, tag: int, b: seq<byte>, handles: Value, b1: seq<byte>,
    auths: seq<Value>, b2: seq<byte>, params: Value)
    requires Decode(handleType, b) == Parsed(handles, b1)
    requires ParseArea(tag, b1) == Some((auths, b2))
    requires Decode(paramType, b2) == Parsed(params, [])
    ensures ParseBody(handleType, paramType, tag, b) == Some((handles, auths, params))
  {
  }

  lemma {:induction false} DecodesExactly(s: Schema, v: Value)
    requires Valid(s) && Matches(s, v)
    ensures Decode(s, Encode(s, v)) == Parsed(Normalize(s, v), [])
  {
    RoundTrip(s, v, []);
    assert Encode(s, v) + [] == Encode(s, v);
  }

  lemma {:induction false} HeaderFields(tag: nat, size: nat, code: nat, body: seq<byte>)
    requires tag < 0x1_0000 && size < 0x1_0000_0000 && code < 0x1_0000_0000
    ensures var b := HeaderBytes(tag, size, code) + body;
            && BeValue(b[..2]) == tag && BeValue(b[2..6]) == size && BeValue(b[6..10]) == code
            && b[HEADER_SIZE..] == body
  {
    assert Pow256(2) == 0x1_0000 && Pow256(4) == 0x1_0000_0000;
    var b := HeaderBytes(tag, size, code) + body;
    assert b[..2] == BeBytes(2, tag);
    assert b[2..6] == BeBytes(4, size);
    assert b[6..10] == BeBytes(4, code);
  }

  // The size in a frame's header is the length of the frame.
  lemma {:induction false} FrameSize(c: Call)
    requires |FrameBytes(c)| < 0x1_0000_0000
    ensures FrameBytes(c) == HeaderBytes(Tag(c.sessions), |FrameBytes(c)|, c.code) + Body(c)
  {
    SmallMod(|FrameBytes(c)|);
  }

  lemma {:induction false} SmallMod(n: nat)
    requires n < 0x1_0000_0000
    ensures n % 0x1_0000_0000 == n
  {
  }

  // Header, handles, authorizations and parameters all come back from a frame,
  // and the patched size is the length of the whole.
  lemma {:induction false} FrameParses(c: Call)
    requires |FrameBytes(c)| < 0x1_0000_0000
    ensures ParseFrame(c.handleType, c.paramType, FrameBytes(c))
         == Some(Request(Tag(c.sessions), |FrameBytes(c)|, c.code, Normalize(c.handleType, c.handles),
                         AuthValues(c.sessions), Normalize(c.paramType, c.params)))
  {
    BodyParses(c);
    var body := Body(c);
    var b := FrameBytes(c);
    FrameSize(c);
    HeaderFields(Tag(c.sessions), |b|, c.code, body);
    ParseFrameOf(c.handleType, c.paramType, b, Tag(c.sessions), |b|, c.code, body);
  }

  lemma {:induction false} ParseFrameOf(
    handleType: ValidSchema, paramType: ValidSchema, b: seq<byte>, tag: nat, size: nat, code: nat, body: seq<byte>)
    requires |b| >= HEADER_SIZE && b[HEADER_SIZE..] == body
    requires BeValue(b[..2]) == tag && BeValue(b[2..6]) == size && BeValue(b[6..10]) == code
    requires ParseBody(handleType, paramType, tag, body).Some?
    ensures ParseFrame(handleType, paramType, b)
         == Some(var (handles, auths, params) := ParseBody(handleType, paramType, tag, body).value;
                 Request(tag, size, code, handles, auths, params))
  {
  }

  // Equal frames of one command carry equal parts.
  lemma {:induction false} FramesAreUnique(c: Call, d: Call)
    requires c.handleType == d.handleType && c.paramType == d.paramType
    requires FrameBytes(c) == FrameBytes(d) && |FrameBytes(c)| < 0x1_0000_0000
    ensures c.code == d.code
    ensures Normalize(c.handleType, c.handles) == Normalize(d.handleType, d.handles)
    ensures AuthValues(c.sessions) == AuthValues(d.sessions)
    ensures Normalize(c.paramType, c.params) == Normalize(d.paramType, d.params)
  {
    FrameParses(c);
    FrameParses(d);
  }
}
