// The request and response buffers of the server, in one array or in two, and
// the cursor that moves over them.
module Buffers {
  import opened ByteOrder
  import opened Codec

  // ---- Random access ----

  // A big-endian integer of `width` bytes at `offset`, if all of it is there.
  function ReadAt(request: seq<byte>, offset: nat, width: nat): Option<nat> {
    if offset + width <= |request| then Some(BeValue(request[offset..offset + width])) else None
  }

  // `TpmReadBuffer::read_into` on a byte slice: false is ReadOutOfBounds.
  method ReadInto(buffer: array<byte>, offset: nat, out: array<byte>) returns (ok: bool)
    requires buffer != out
    modifies out
    ensures ok <==> offset + out.Length <= buffer.Length
    ensures ok ==> out[..] == buffer[offset..offset + out.Length]
  {
    if offset + out.Length > buffer.Length {
      return false;
    }
    forall i | 0 <= i < out.Length {
      out[i] := buffer[offset + i];
    }
    return true;
  }

  // `TpmWriteBuffer::write` on a byte slice: false is WriteOutOfBounds.
  method Write(buffer: array<byte>, offset: nat, data: seq<byte>) returns (ok: bool)
    modifies buffer
    ensures ok <==> offset + |data| <= buffer.Length
    ensures buffer[..] == if ok then WriteAt(old(buffer[..]), offset, data) else old(buffer[..])
  {
    if offset + |data| > buffer.Length {
      return false;
    }
    forall i | 0 <= i < |data| {
      buffer[offset + i] := data[i];
    }
    return true;
  }

  // ---- One buffer or two ----

  // SeparateBuffers and InOutBuffer. The borrow checker keeps the two arrays of
  // the former apart; the latter reads and writes the same array, of which only
  // the first `len` bytes are the request.
  datatype TpmBuffers =
    | Separate(reader: array<byte>, writer: array<byte>)
    | InOut(buffer: array<byte>, len: nat)
  {
    predicate Valid() {
      match this
      case Separate(reader, writer) => reader != writer
      case InOut(buffer, len) => len <= buffer.Length
    }

    function GetResponse(): array<byte> {
      match this
      case Separate(_, writer) => writer
      case InOut(buffer, _) => buffer
    }

    // The bytes that can be read as the request.
    function GetRequest(): (request: seq<byte>)
      requires Valid()
      reads if Separate? then reader else buffer
    {
      match this
      case Separate(reader, _) => reader[..]
      case InOut(buffer, len) => buffer[..len]
    }

    method RequestLen() returns (n: nat)
      requires Valid()
      ensures n == |GetRequest()|
    {
      n := match this case Separate(reader, _) => reader.Length case InOut(_, len) => len;
    }

    // Limited to the request portion of an in-place buffer.
    method ReadRequest(offset: nat, out: array<byte>) returns (ok: bool)
      requires Valid() && out != GetResponse() && (Separate? ==> out != reader)
      modifies out
      ensures ok <==> offset + out.Length <= |GetRequest()|
      ensures ok ==> out[..] == GetRequest()[offset..offset + out.Length]
    {
      match this
      case Separate(reader, _) =>
        ok := ReadInto(reader, offset, out);
      case InOut(buffer, len) =>
        if len < offset + out.Length {
          return false;
        }
        ok := ReadInto(buffer, offset, out);
    }
  }

  // `InOutBuffer::new`: the claimed request size is capped by the buffer.
  function NewInOut(buffer: array<byte>, requestSize: nat): (b: TpmBuffers)
    ensures b.Valid()
  {
    InOut(buffer, if requestSize < buffer.Length then requestSize else buffer.Length)
  }

  // ---- The cursor ----

  class RequestResponseCursor {
    const buffers: TpmBuffers
    var requestOffset: nat
    var responseOffset: nat

    constructor (buffers: TpmBuffers, responseOffset: nat)
      ensures this.buffers == buffers
      ensures requestOffset == 0 && this.responseOffset == responseOffset
    {
      this.buffers := buffers;
      this.requestOffset := 0;
      this.responseOffset := responseOffset;
    }

    // `read_be_u16` and `read_be_u32`: move on only past a field that is there.
    method ReadBe(width: nat) returns (r: Option<nat>)
      requires buffers.Valid()
      modifies this`requestOffset
      ensures r == ReadAt(buffers.GetRequest(), old(requestOffset), width)
      ensures requestOffset == if r.Some? then old(requestOffset) + width else old(requestOffset)
    {
      var field := new byte[width](_ => 0);
      var ok := buffers.ReadRequest(requestOffset, field);
      if !ok {
        return None;
      }
      requestOffset := requestOffset + width;
      return Some(BeValue(field[..]));
    }

    predicate HasRoom(size: nat)
      reads this
    {
      responseOffset + size <= buffers.GetResponse().Length
    }

    // `Response::write`: past the data, or nowhere when there is no room for it.
    method Append(data: seq<byte>) returns (ok: bool)
      modifies this`responseOffset, buffers.GetResponse()
      ensures ok <==> old(HasRoom(|data|))
      ensures responseOffset == if ok then old(responseOffset) + |data| else old(responseOffset)
      ensures buffers.GetResponse()[..]
           == if ok then WriteAt(old(buffers.GetResponse()[..]), old(responseOffset), data)
              else old(buffers.GetResponse()[..])
    {
      ok := Write(buffers.GetResponse(), responseOffset, data);
      if ok {
        responseOffset := responseOffset + |data|;
      }
    }

    // `write_callback`: the callback gets the slice as it is, old bytes and all,
    // and is not called when there is no room for it.
    method WriteCallback<T>(size: nat, callback: seq<byte> -> Option<(T, seq<byte>)>) returns (r: Called<T>)
      requires forall slice | |slice| == size && callback(slice).Some? :: |callback(slice).value.1| == size
      modifies this`responseOffset, buffers.GetResponse()
      ensures var before, at := old(buffers.GetResponse()[..]), old(responseOffset);
              if at + size > |before| then
                r == CallbackNoRoom && responseOffset == at && buffers.GetResponse()[..] == before
              else
                match callback(before[at..at + size])
                case None => r == CallbackPanicked
                case Some((state, data)) =>
                  && r == CallbackDone(state)
                  && responseOffset == at + size && buffers.GetResponse()[..] == WriteAt(before, at, data)
    {
      if !HasRoom(size) {
        return CallbackNoRoom;
      }
      var filled := callback(buffers.GetResponse()[responseOffset..responseOffset + size]);
      if filled.None? {
        return CallbackPanicked;
      }
      var ok := Append(filled.value.1);
      return CallbackDone(filled.value.0);
    }
  }

  datatype Called<T> = CallbackDone(state: T) | CallbackNoRoom | CallbackPanicked
}
