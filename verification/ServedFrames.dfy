// What the command engine reads and leaves behind, byte by byte, and GetRandom from
// request bytes to response bytes.
module ServedFrames {
  import opened ByteOrder
  import opened Codec
  import opened Buffers
  import opened Server
  import opened BufferForms
  import opened GetRandom
  import opened WireFormat
  import opened TypesOnWire

  // ---- Reading and writing, step by step ----

  function Total(widths: seq<nat>, k: nat): nat
    requires k <= |widths|
  {
    if k == 0 then 0 else Total(widths, k - 1) + widths[k - 1]
  }

  ghost predicate ReadsAs(widths: seq<nat>, request: seq<byte>, offset: nat, i: nat, v: nat)
    requires i < |widths|
  {
    ReadAt(request, offset + Total(widths, i), widths[i]) == Some(v)
  }

  ghost predicate ReadsAt(widths: seq<nat>, request: seq<byte>, offset: nat, vals: seq<nat>) {
    |vals| <= |widths| && forall i | 0 <= i < |vals| :: ReadsAs(widths, request, offset, i, vals[i])
  }

  lemma {:induction false} FieldsInRow(widths: seq<nat>, request: seq<byte>, offset: nat, k: nat)
    requires k <= |widths| && offset <= |request|
    ensures match ReadFields(widths, request, offset, k)
            case None => offset + Total(widths, k) > |request|
            case Some((vals, at)) =>
              at == offset + Total(widths, k) <= |request| && |vals| == k && ReadsAt(widths, request, offset, vals)
  {
    if k > 0 {
      FieldsInRow(widths, request, offset, k - 1);
      var front := ReadFields(widths, request, offset, k - 1);
      if front.Some? {
        var v := ReadAt(request, front.value.1, widths[k - 1]);
        if v.Some? {
          OneFieldMore(widths, request, offset, front.value.0, v.value);
        }
      }
    }
  }

  lemma {:induction false} OneFieldMore(widths: seq<nat>, request: seq<byte>, offset: nat, vals: seq<nat>, v: nat)
    requires |vals| < |widths| && ReadsAt(widths, request, offset, vals)
    requires ReadsAs(widths, request, offset, |vals|, v)
    ensures ReadsAt(widths, request, offset, vals + [v])
  {
  }

  // The fields of a request stand one behind the other, and are read when they are
  // all there: field `i` is the big-endian integer behind those before it.
  lemma {:induction false} FieldsRead(widths: seq<nat>, request: seq<byte>, offset: nat, i: nat)
    requires offset <= |request| && i < |widths|
    ensures var read, start := ReadFields(widths, request, offset, |widths|), offset + Total(widths, i);
            && (read.None? <==> offset + Total(widths, |widths|) > |request|)
            && (read.Some? ==>
                  && |read.value.0| == |widths|
                  && start + widths[i] <= |request|
                  && read.value.0[i] == BeValue(request[start..start + widths[i]]))
  {
    FieldsInRow(widths, request, offset, |widths|);
    var read := ReadFields(widths, request, offset, |widths|);
    if read.Some? {
      assert ReadsAs(widths, request, offset, i, read.value.0[i]);
    }
  }

  // A callback is called on the slice behind what has been written, and answers.
  ghost predicate CallGives<T>(op: WriteOp<T>, t: T, response: seq<byte>, at: nat, t': T, data: seq<byte>) {
    at + op.size <= |response| && op.fill(t, response[at..at + op.size]) == Some((t', data))
  }

  ghost predicate CallsGive<T>(
    ops: seq<WriteOp<T>>, response: seq<byte>, states: seq<T>, datas: seq<seq<byte>>)
  {
    && |states| == |datas| + 1 <= |ops| + 1
    && forall i | 0 <= i < |datas| :: CallAt(ops, response, states, datas, i)
  }

  ghost predicate CallAt<T>(
    ops: seq<WriteOp<T>>, response: seq<byte>, states: seq<T>, datas: seq<seq<byte>>, i: nat)
    requires i < |datas| < |states| && |datas| <= |ops|
  {
    CallGives(ops[i], states[i], response, 10 + |Concat(datas[..i])|, states[i + 1], datas[i])
  }

  // The writes of a handler in calls of its callbacks: the data one behind the
  // other, up to the first callback without room or without an answer.
  lemma {:induction false} WritesByCalls<T>(ops: seq<WriteOp<T>>, state: T, response: seq<byte>, k: nat)
    returns (states: seq<T>, datas: seq<seq<byte>>)
    requires k <= |ops|
    ensures CallsGive(ops, response, states, datas) && states[0] == state && |datas| <= k
    ensures EndsBy(ops, response, states, datas, k, RunWrites(ops, state, response, k))
  {
    if k == 0 {
      return [state], [];
    }
    states, datas := WritesByCalls(ops, state, response, k - 1);
    match RunWrites(ops, state, response, k - 1)
    case NoRoom(_, _) =>
    case Crashed =>
    case Wrote(t, bytes) =>
      var op, at := ops[k - 1], 10 + |bytes|;
      if at + op.size <= |response| && op.fill(t, response[at..at + op.size]).Some? {
        var (t', data) := op.fill(t, response[at..at + op.size]).value;
        OneCallMore(ops, response, states, datas, t', data);
        states, datas := states + [t'], datas + [data];
      }
  }

  ghost predicate EndsBy<T>(ops: seq<WriteOp<T>>, response: seq<byte>, states: seq<T>, datas: seq<seq<byte>>, k: nat,
                            w: Writing<T>)
    requires |states| == |datas| + 1 && |datas| <= k <= |ops|
  {
    var last, at := states[|datas|], 10 + |Concat(datas)|;
    match w
    case Wrote(t, bytes) => |datas| == k && t == last && bytes == Concat(datas)
    case NoRoom(t, bytes) =>
      |datas| < k && t == last && bytes == Concat(datas) && at + ops[|datas|].size > |response|
    case Crashed =>
      && |datas| < k && at + ops[|datas|].size <= |response|
      && ops[|datas|].fill(last, response[at..at + ops[|datas|].size]) == None
  }

  lemma {:induction false} OneCallMore<T>(
    ops: seq<WriteOp<T>>, response: seq<byte>, states: seq<T>, datas: seq<seq<byte>>, t': T, data: seq<byte>)
    requires CallsGive(ops, response, states, datas) && |datas| < |ops|
    requires CallGives(ops[|datas|], states[|datas|], response, 10 + |Concat(datas)|, t', data)
    ensures CallsGive(ops, response, states + [t'], datas + [data])
    ensures Concat(datas + [data]) == Concat(datas) + data
  {
    ConcatSnoc(datas, data);
    var all := datas + [data];
    assert all[..|datas|] == datas;
    forall i | 0 <= i < |all|
      ensures CallAt(ops, response, states + [t'], all, i)
    {
      assert i < |datas| ==> CallAt(ops, response, states, datas, i) && all[..i] == datas[..i];
    }
  }

  // ---- All outcomes of the engine ----

  // For any table: what decides is the size field, the command code, the fields of
  // the handler, its verdict, its writes, and room for the header.
  lemma {:induction false} ExecuteOutcome<T>(table: Table<T>, state: T, request: seq<byte>, response: seq<byte>)
    ensures var e := Execute(table, state, request, response);
            if |request| < 10 || BeValue(request[2..6]) != |request| then e == Failure(state, 0x142, [], [])
            else
              match table(BeValue(request[6..10]))
              case None => e == Failure(state, 0x143, [], [])
              case Some(h) =>
                match ReadFields(h.widths, request, 10, |h.widths|)
                case None => e == Failure(state, 0x142, [], [])
                case Some((vals, _)) =>
                  match h.respond(vals, state)
                  case Refuse(t, code) => e == Failure(t, code, [], [])
                  case Answer(t, ops) => AnsweredBy(e, RunWrites(ops, t, response, |ops|), |response|)
  {
    if |request| >= 10 && BeValue(request[2..6]) == |request| {
      var h := table(BeValue(request[6..10]));
      if h.Some? {
        HandleOutcome(h.value, state, request, response);
      }
    }
  }

  lemma {:induction false} HandleOutcome<T>(h: Handler<T>, state: T, request: seq<byte>, response: seq<byte>)
    ensures match ReadFields(h.widths, request, 10, |h.widths|)
            case None => Handle(h, state, request, response) == Failure(state, 0x142, [], [])
            case Some((vals, _)) =>
              match h.respond(vals, state)
              case Refuse(t, code) => Handle(h, state, request, response) == Failure(t, code, [], [])
              case Answer(t, ops) =>
                AnsweredBy(Handle(h, state, request, response), RunWrites(ops, t, response, |ops|), |response|)
  {
    var read := ReadFields(h.widths, request, 10, |h.widths|);
    if read.Some? {
      match h.respond(read.value.0, state)
      case Refuse(_, _) =>
      case Answer(t, ops) => WritesOutcome(ops, t, response);
    }
  }

  lemma {:induction false} WritesOutcome<T>(ops: seq<WriteOp<T>>, t: T, response: seq<byte>)
    ensures AnsweredBy(Answered(ops, t, response), RunWrites(ops, t, response, |ops|), |response|)
  {
    match RunWrites(ops, t, response, |ops|)
    case Crashed =>
    case NoRoom(_, _) =>
    case Wrote(_, bytes) => HeaderOnWire(|bytes|);
  }

  // A short response buffer gets as much of the header as its writes go through.
  ghost predicate AnsweredBy<T>(e: Exec<T>, w: Writing<T>, room: nat) {
    match w
    case Crashed => e == Crash
    case NoRoom(t, bytes) => e == Failure(t, 0x904, [], bytes)
    case Wrote(t, bytes) =>
      if room >= 10 then e == Success(t, bytes)
      else
        && e.Failure? && e.state == t && e.code == 0x904 && e.payload == bytes
        && |e.header| == (if room < 2 then 0 else if room < 6 then 2 else 6)
        && e.header <= SuccessBytes(|bytes|)
  }

  // Tag, size and code of a success.
  function SuccessBytes(payload: nat): (h: seq<byte>)
    ensures |h| == 10
  {
    [0x80, 0x01] + Long((10 + payload) % 0x1_0000_0000) + [0, 0, 0, 0]
  }

  lemma {:induction false} HeaderOnWire(payload: nat)
    ensures SuccessHeader(payload) == SuccessBytes(payload)
  {
    WordOnWire(0x8001);
    LongOnWire((10 + payload) % 0x1_0000_0000);
    LongOnWire(0);
    assert SESSION_TAG == 0x8001;
  }

  // ---- The response buffer ----

  lemma {:induction false} SuccessOnWire<T>(e: Exec<T>, before: seq<byte>, after: seq<byte>, r: Option<nat>)
    requires e.Success? && Responded(e, before, after, r)
    ensures var size := 10 + |e.payload|;
            && r == Some(size) && size <= |before|
            && after == SuccessBytes(|e.payload|) + e.payload + before[size..]
  {
    HeaderOnWire(|e.payload|);
    InFront(before, SuccessHeader(|e.payload|) + e.payload);
  }

  lemma {:induction false} InFront(before: seq<byte>, data: seq<byte>)
    requires |data| <= |before|
    ensures WriteAt(before, 0, data) == data + before[|data|..]
  {
  }

  // The code in bytes 6 to 9, and what had been written of the payload by then.
  lemma {:induction false} FailureOnWire<T>(e: Exec<T>, before: seq<byte>, after: seq<byte>, r: Option<nat>)
    requires e.Failure? && e.code < 0x1_0000_0000 && Responded(e, before, after, r)
    ensures if |before| < 10 then r == Some(0)
            else
              && r == Some(10)
              && (e.header == [] ==>
                    && 10 + |e.payload| <= |before|
                    && after == before[..6] + Long(e.code) + e.payload + before[10 + |e.payload|..])
  {
    if |before| >= 10 && e.header == [] {
      CodeOnWire(e.code);
      FailedAfter(e, before, after);
    }
  }

  lemma {:induction false} CodeOnWire(code: nat)
    requires code < 0x1_0000_0000
    ensures ErrorBytes(code) == Long(code)
  {
    var n := code % 0x1_0000_0000;
    assert n == code;
    LongOnWire(n);
  }

  lemma {:induction false} FailedAfter<T>(e: Exec<T>, before: seq<byte>, after: seq<byte>)
    requires e.Failure? && |before| >= 10 && e.header == []
    requires exists mid :: Left(e, before, mid) && |mid| == |before| && after == WriteAt(mid, 6, ErrorBytes(e.code))
    ensures 10 + |e.payload| <= |before|
    ensures after == before[..6] + ErrorBytes(e.code) + e.payload + before[10 + |e.payload|..]
  {
    var mid :| Left(e, before, mid) && |mid| == |before| && after == WriteAt(mid, 6, ErrorBytes(e.code));
    PayloadKept(before, mid, e.payload);
    CodeBefore(before, mid, e.payload, ErrorBytes(e.code));
  }

  lemma {:induction false} PayloadKept(before: seq<byte>, mid: seq<byte>, payload: seq<byte>)
    requires |before| >= 10 && (payload != [] ==> 10 + |payload| <= |before|)
    requires mid == Overlay(before, 10, payload)
    ensures 10 + |payload| <= |before| && mid == before[..10] + payload + before[10 + |payload|..]
  {
  }

  lemma {:induction false} CodeBefore(before: seq<byte>, mid: seq<byte>, payload: seq<byte>, code: seq<byte>)
    requires |code| == 4 && 10 + |payload| <= |before|
    requires mid == before[..10] + payload + before[10 + |payload|..]
    ensures WriteAt(mid, 6, code) == before[..6] + code + payload + before[10 + |payload|..]
  {
    assert mid[..6] == before[..6] && mid[10..] == payload + before[10 + |payload|..];
  }

  // ---- GetRandom, from bytes to bytes ----

  ghost predicate RefusedWith(code: nat, before: seq<byte>, after: seq<byte>, r: Option<nat>)
    requires |before| >= 10 && code < 0x1_0000_0000
  {
    r == Some(10) && after == before[..6] + Long(code) + before[10..]
  }

  // A request of the right size and code with a byte count is served by one draw,
  // whose bytes the response carries behind its header; every other one is
  // refused with a code, and costs the generator nothing.
  ghost predicate Served<S(!new), E(!new)>(
    m: Drbg<S, E>, c: Crypto<S, E>, request: seq<byte>, before: seq<byte>, after: seq<byte>, r: Option<nat>,
    c': Crypto<S, E>)
    requires |before| >= 10
  {
    if |request| < 10 || BeValue(request[2..6]) != |request| then RefusedWith(0x142, before, after, r) && c' == c
    else if request[6..10] != [0x00, 0x00, 0x01, 0x7B] then RefusedWith(0x143, before, after, r) && c' == c
    else if |request| < 12 then RefusedWith(0x142, before, after, r) && c' == c
    else
      var n := TwoBytes(request[10..12]);
      if 10 + n > |before| then RefusedWith(0x904, before, after, r) && c' == c
      else if DrawFails(m, c, n) then r == None
      else exists bytes ::
             && DrawnBy(m, c, n, c', bytes) && |bytes| == n && r == Some(10 + n)
             && after == [0x80, 0x01] + Long(10 + n) + [0, 0, 0, 0] + bytes + before[10 + n..]
  }

  lemma {:induction false} GetRandomServed<S(!new), E(!new)>(
    m: Drbg<S, E>, c: Crypto<S, E>, request: seq<byte>, before: seq<byte>, after: seq<byte>, r: Option<nat>,
    c': Crypto<S, E>)
    requires FillsExactly(m) && |before| >= 10
    requires CameTo(Run(m, c, request, before), before, after, r, c')
    ensures Served(m, c, request, before, after, r, c')
  {
    if Run(m, c, request, before).Failure? {
      FailureServed(m, c, request, before, after, r, c');
    } else {
      OthersServed(m, c, request, before, after, r, c');
    }
  }

  lemma {:induction false} FailureServed<S(!new), E(!new)>(
    m: Drbg<S, E>, c: Crypto<S, E>, request: seq<byte>, before: seq<byte>, after: seq<byte>, r: Option<nat>,
    c': Crypto<S, E>)
    requires |before| >= 10 && Run(m, c, request, before).Failure?
    requires CameTo(Run(m, c, request, before), before, after, r, c')
    ensures Served(m, c, request, before, after, r, c')
  {
    RunOutcome(m, c, request, before);
    RefusalServed(Run(m, c, request, before), before, after, r);
    if |request| >= 10 {
      CodeBytes(request[6..10]);
    }
    if |request| >= 12 {
      CountBytes(request);
    }
  }

  lemma {:induction false} OthersServed<S(!new), E(!new)>(
    m: Drbg<S, E>, c: Crypto<S, E>, request: seq<byte>, before: seq<byte>, after: seq<byte>, r: Option<nat>,
    c': Crypto<S, E>)
    requires FillsExactly(m) && |before| >= 10 && !Run(m, c, request, before).Failure?
    requires CameTo(Run(m, c, request, before), before, after, r, c')
    ensures Served(m, c, request, before, after, r, c')
  {
    var e := Run(m, c, request, before);
    RunOutcome(m, c, request, before);
    CodeBytes(request[6..10]);
    CountBytes(request);
    var n := TwoBytes(request[10..12]);
    if e.Success? {
      DrawServed(m, c, e, before, after, r, n);
      DrawByCalls(m, c, n);
    }
  }

  lemma {:induction false} RefusalServed<T>(e: Exec<T>, before: seq<byte>, after: seq<byte>, r: Option<nat>)
    requires |before| >= 10 && Responded(e, before, after, r)
    requires e.Failure? && e.code < 0x1_0000_0000 && e.header == [] && e.payload == []
    ensures RefusedWith(e.code, before, after, r)
  {
    FailureOnWire(e, before, after, r);
    NothingBetween(before[..6] + Long(e.code), e.payload, before[10..]);
  }

  lemma {:induction false} NothingBetween(a: seq<byte>, none: seq<byte>, b: seq<byte>)
    requires none == []
    ensures a + none + b == a + b
  {
  }

  lemma {:induction false} CountBytes(request: seq<byte>)
    requires |request| >= 12
    ensures BeValue(request[10..12]) == TwoBytes(request[10..12])
  {
    ShortValues(request[10], request[11], 0, 0);
    assert request[10..12] == [request[10], request[11]];
  }

  lemma {:induction false} DrawServed<S(!new), E>(
    m: Drbg<S, E>, c: Crypto<S, E>, e: Exec<Crypto<S, E>>, before: seq<byte>, after: seq<byte>, r: Option<nat>, n: nat)
    requires FillsExactly(m) && n < 0x1_0000 && Responded(e, before, after, r)
    requires e.Success? && DrawnBy(m, c, n, e.state, e.payload)
    ensures |e.payload| == n && r == Some(10 + n) && 10 + n <= |before|
    ensures after == [0x80, 0x01] + Long(10 + n) + [0, 0, 0, 0] + e.payload + before[10 + n..]
  {
    DrawnLength(m, c, n, e.state, e.payload);
    SuccessOnWire(e, before, after, r);
    SmallSize(10 + n);
  }

  lemma {:induction false} SmallSize(n: nat)
    requires n < 0x1_0000_0000
    ensures Long(n % 0x1_0000_0000) == Long(n)
  {
  }

  lemma {:induction false} DrawnLength<S(!new), E>(
    m: Drbg<S, E>, c: Crypto<S, E>, n: nat, c': Crypto<S, E>, bytes: seq<byte>)
    requires FillsExactly(m) && DrawnBy(m, c, n, c', bytes)
    ensures |bytes| == n
  {
    DrawByCalls(m, c, n);
    DrawsExactly(m, c, n);
  }

  lemma {:induction false} CodeBytes(b: seq<byte>)
    requires |b| == 4
    ensures BeValue(b) == 0x17B <==> b == [0x00, 0x00, 0x01, 0x7B]
  {
    ShortValues(0x00, 0x00, 0x01, 0x7B);
    BeBytesOfValue(b);
    BeBytesOfValue([0x00, 0x00, 0x01, 0x7B]);
  }

  // In one buffer and in two, on a context of the server.
  method GetRandomInPlace<S(!new), E(!new)>(m: Drbg<S, E>, c: Crypto<S, E>, inOut: array<byte>, requestSize: nat)
    returns (r: Option<nat>, c': Crypto<S, E>)
    requires FillsExactly(m) && inOut.Length >= 10
    modifies inOut
    ensures var request := old(inOut[..if requestSize < inOut.Length then requestSize else inOut.Length]);
            Served(m, c, request, old(inOut[..]), inOut[..], r, c')
  {
    CommandsOk(m);
    ghost var request, before := inOut[..if requestSize < inOut.Length then requestSize else inOut.Length], inOut[..];
    r, c' := RunInPlace(Commands(m), c, inOut, requestSize);
    GetRandomServed(m, c, request, before, inOut[..], r, c');
  }

  method GetRandomSeparate<S(!new), E(!new)>(
    m: Drbg<S, E>, c: Crypto<S, E>, request: array<byte>, response: array<byte>)
    returns (r: Option<nat>, c': Crypto<S, E>)
    requires FillsExactly(m) && request != response && response.Length >= 10
    modifies response
    ensures Served(m, c, request[..], old(response[..]), response[..], r, c')
  {
    CommandsOk(m);
    ghost var before := response[..];
    r, c' := RunSeparate(Commands(m), c, request, response);
    GetRandomServed(m, c, request[..], before, response[..], r, c');
  }
}
