// One shared buffer or two: when a command leaves the same behind.
module BufferForms {
  import opened ByteOrder
  import opened Codec
  import opened Buffers
  import opened Server

  // ---- Callbacks and their slices ----

  // What a response held before makes no difference to callbacks that do not
  // look at their slice.
  lemma {:induction false} SameWrites<T(!new)>(
    ops: seq<WriteOp<T>>, state: T, response: seq<byte>, response': seq<byte>, k: nat)
    requires k <= |ops| && |response| == |response'|
    requires forall op | op in ops :: IgnoresSlice(op)
    ensures RunWrites(ops, state, response, k) == RunWrites(ops, state, response', k)
  {
    if k > 0 {
      SameWrites(ops, state, response, response', k - 1);
      var sofar := RunWrites(ops, state, response, k - 1);
      if sofar.Wrote? {
        assert ops[k - 1] in ops;
        SameWrite(ops[k - 1], sofar.state, sofar.bytes, response, response');
      }
    }
  }

  lemma {:induction false} SameWrite<T(!new)>(
    op: WriteOp<T>, t: T, bytes: seq<byte>, response: seq<byte>, response': seq<byte>)
    requires IgnoresSlice(op) && |response| == |response'|
    ensures RunWriteOp(op, t, bytes, response) == RunWriteOp(op, t, bytes, response')
  {
  }

  lemma {:induction false} SameExecution<T(!new)>(
    table: Table<T>, state: T, request: seq<byte>, response: seq<byte>, response': seq<byte>)
    requires TableIgnoresSlices(table) && |response| == |response'|
    ensures Execute(table, state, request, response) == Execute(table, state, request, response')
  {
    var code := ReadAt(request, 6, 4);
    if code.Some? && table(code.value).Some? {
      var h := table(code.value).value;
      var read := ReadFields(h.widths, request, HEADER_SIZE, |h.widths|);
      if read.Some? {
        var reply := h.respond(read.value.0, state);
        assert ReplyIgnores(reply);
        if reply.Answer? {
          SameWrites(reply.ops, reply.state, response, response', |reply.ops|);
        }
      }
    }
  }

  // For one write the condition is exact: it comes to the same in all response
  // buffers just when its callback ignores the slice.
  lemma {:induction false} WriteAgreesIff<T(!new)>(op: WriteOp<T>)
    ensures IgnoresSlice(op) <==>
            forall t, b, b' | |b| == |b'| :: RunWriteOp(op, t, [], b) == RunWriteOp(op, t, [], b')
  {
    if forall t, b, b' | |b| == |b'| :: RunWriteOp(op, t, [], b) == RunWriteOp(op, t, [], b') {
      forall t, slice, slice' | |slice| == |slice'| == op.size
        ensures op.fill(t, slice) == op.fill(t, slice')
      {
        var b, b' := Zeros(HEADER_SIZE) + slice, Zeros(HEADER_SIZE) + slice';
        assert b[HEADER_SIZE..HEADER_SIZE + op.size] == slice && b'[HEADER_SIZE..HEADER_SIZE + op.size] == slice';
        assert RunWriteOp(op, t, [], b) == RunWriteOp(op, t, [], b');
        SameFill(op, t, b, b');
      }
    }
  }

  lemma {:induction false} SameFill<T>(op: WriteOp<T>, t: T, b: seq<byte>, b': seq<byte>)
    requires |b| == |b'| == HEADER_SIZE + op.size
    requires RunWriteOp(op, t, [], b) == RunWriteOp(op, t, [], b')
    ensures op.fill(t, b[HEADER_SIZE..HEADER_SIZE + op.size]) == op.fill(t, b'[HEADER_SIZE..HEADER_SIZE + op.size])
  {
    var f, f' := op.fill(t, b[HEADER_SIZE..HEADER_SIZE + op.size]), op.fill(t, b'[HEADER_SIZE..HEADER_SIZE + op.size]);
    if f.Some? && f'.Some? {
      assert [] + f.value.1 == f.value.1 && [] + f'.value.1 == f'.value.1;
    }
  }

  // A callback that leaves its slice as it is: in place it gives away request
  // bytes.
  function Echo(): Table<()> {
    (code: nat) => Some(Handler([], (vals: seq<nat>, t: ()) =>
      Answer(t, [WriteOp(1, (t: (), slice: seq<byte>) => Some((t, slice)))])))
  }

  const ECHO_REQUEST: seq<byte> := [0x80, 0x01, 0, 0, 0, 11, 0, 0, 0, 0, 7]

  lemma {:induction false} EchoTellsApart()
    ensures TableOk(Echo())
    ensures Execute(Echo(), (), ECHO_REQUEST, ECHO_REQUEST) == Success((), [7])
    ensures Execute(Echo(), (), ECHO_REQUEST, Zeros(11)) == Success((), [0])
  {
    EchoRuns(ECHO_REQUEST);
    EchoRuns(Zeros(11));
  }

  lemma {:induction false} EchoRuns(response: seq<byte>)
    requires |response| == 11
    ensures Execute(Echo(), (), ECHO_REQUEST, response) == Success((), [response[10]])
  {
    var b := ECHO_REQUEST;
    assert b[2..6] == [0, 0, 0, 11] && b[6..10] == [0, 0, 0, 0];
    SmallValue(0, 11);
    SmallValue(0, 0);
    var h := Echo()(0).value;
    assert ReadFields(h.widths, b, HEADER_SIZE, 0) == Some(([], HEADER_SIZE));
    var ops := h.respond([], ()).ops;
    assert RunWrites(ops, (), response, 0) == Wrote((), []);
    assert response[10..11] == [response[10]];
    assert [] + [response[10]] == [response[10]];
    assert RunWrites(ops, (), response, 1) == Wrote((), [response[10]]);
  }

  lemma {:induction false} SmallValue(high: byte, low: byte)
    ensures BeValue([0, 0, high, low]) == 256 * high + low
  {
    var b: seq<byte> := [0, 0, high, low];
    assert b[..3] == [0, 0, high] && b[..3][..2] == [0, 0] && b[..3][..2][..1] == [0];
    assert BeValue([0]) == 0;
    assert BeValue([0, 0]) == 0;
    assert BeValue([0, 0, high]) == high;
  }

  // ---- In place and separate ----

  // For any command table whose callbacks ignore their slices, any request bytes
  // and claimed size: what the two forms leave behind is the same state, size,
  // success bytes and error code.
  lemma {:induction false} InPlaceLikeSeparate<T(!new)>(
    table: Table<T>, state: T, request: seq<byte>, inOut: seq<byte>, inOutAfter: seq<byte>, r: Option<nat>, t: T,
    response: seq<byte>, responseAfter: seq<byte>, r': Option<nat>, t': T)
    requires TableIgnoresSlices(table) && |inOut| == |response|
    requires CameTo(Execute(table, state, request, inOut), inOut, inOutAfter, r, t)
    requires CameTo(Execute(table, state, request, response), response, responseAfter, r', t')
    ensures Alike(Execute(table, state, request, response), inOutAfter, r, t, responseAfter, r', t')
  {
    var e := Execute(table, state, request, response);
    SameExecution(table, state, request, inOut, response);
    match e
    case Crash =>
    case Success(_, _) =>
      FrameInPlace(inOut, inOutAfter, e, r);
      FrameInPlace(response, responseAfter, e, r');
    case Failure(_, _, _, _) =>
      SameLength(inOut, inOutAfter, e, r);
      SameLength(response, responseAfter, e, r');
      if |inOut| >= HEADER_SIZE {
        CodeInPlace(inOut, inOutAfter, e, r);
        CodeInPlace(response, responseAfter, e, r');
      }
  }

  lemma {:induction false} FrameInPlace<T>(before: seq<byte>, after: seq<byte>, e: Exec<T>, r: Option<nat>)
    requires e.Success? && Responded(e, before, after, r)
    ensures r == Some(HEADER_SIZE + |e.payload|) && r.value <= |after| == |before|
    ensures after[..r.value] == SuccessHeader(|e.payload|) + e.payload
  {
  }

  // A run that came to `e`.
  ghost predicate CameTo<T>(e: Exec<T>, before: seq<byte>, after: seq<byte>, r: Option<nat>, t: T) {
    StateAfter(e, t) && Responded(e, before, after, r)
  }

  // Two runs that came to `e`, on buffers of one length.
  ghost predicate Alike<T>(e: Exec<T>, after: seq<byte>, r: Option<nat>, t: T,
                           after': seq<byte>, r': Option<nat>, t': T)
  {
    && r == r'
    && (r.Some? ==> t == t' && r.value <= |after| == |after'|)
    && (e.Success? ==> r.Some? && after[..r.value] == after'[..r.value])
    && (e.Failure? && r == Some(HEADER_SIZE) ==> after[6..10] == after'[6..10] == ErrorBytes(e.code))
  }

  lemma {:induction false} SameLength<T>(before: seq<byte>, after: seq<byte>, e: Exec<T>, r: Option<nat>)
    requires e.Failure? && Responded(e, before, after, r)
    ensures |after| == |before|
  {
  }

  lemma {:induction false} CodeInPlace<T>(before: seq<byte>, after: seq<byte>, e: Exec<T>, r: Option<nat>)
    requires e.Failure? && |before| >= HEADER_SIZE && Responded(e, before, after, r)
    ensures |after| == |before| && after[6..10] == ErrorBytes(e.code)
  {
  }

  method RunInPlace<T(!new)>(table: Table<T>, state: T, inOut: array<byte>, requestSize: nat)
    returns (r: Option<nat>, t: T)
    requires TableOk(table)
    modifies inOut
    ensures var request := old(inOut[..if requestSize < inOut.Length then requestSize else inOut.Length]);
            CameTo(Execute(table, state, request, old(inOut[..])), old(inOut[..]), inOut[..], r, t)
  {
    var context := new TpmContext(table, state);
    r := context.ExecuteCommandInPlace(inOut, requestSize);
    t := context.state;
  }

  method RunSeparate<T(!new)>(table: Table<T>, state: T, request: array<byte>, response: array<byte>)
    returns (r: Option<nat>, t: T)
    requires TableOk(table) && request != response
    modifies response
    ensures CameTo(Execute(table, state, request[..], old(response[..])), old(response[..]), response[..], r, t)
  {
    var context := new TpmContext(table, state);
    r := context.ExecuteCommandSeparate(request, response);
    t := context.state;
  }

  // Both forms, run on the same request: in one buffer that holds it, and in two.
  method RunBothForms<T(!new)>(table: Table<T>, state: T, inOut: array<byte>, requestSize: nat,
                               request: array<byte>, response: array<byte>)
    returns (r: Option<nat>, t: T, r': Option<nat>, t': T)
    requires TableOk(table) && TableIgnoresSlices(table)
    requires inOut != request && inOut != response && request != response
    requires inOut.Length == response.Length
    requires request[..] == inOut[..if requestSize < inOut.Length then requestSize else inOut.Length]
    modifies inOut, response
    ensures Alike(Execute(table, state, old(request[..]), old(response[..])), inOut[..], r, t, response[..], r', t')
  {
    ghost var bytes, before, before' := request[..], inOut[..], response[..];
    r, t := RunInPlace(table, state, inOut, requestSize);
    ghost var after := inOut[..];
    assert request[..] == bytes && response[..] == before';
    r', t' := RunSeparate(table, state, request, response);
    assert inOut[..] == after;
    InPlaceLikeSeparate(table, state, bytes, before, after, r, t, before', response[..], r', t');
  }
}
