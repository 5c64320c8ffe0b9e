// The emitted decoders: code that takes bytes off an UnmarshalBuf step by step.
module Unmarshal {
  import opened ByteOrder
  import opened Schemas
  import opened Codec

  // A window on the bytes that are still to be read: always a suffix of the
  // input it was made from.
  class UnmarshalBuf {
    var buffer: seq<byte>
    ghost const input: seq<byte>

    ghost predicate Valid()
      reads this
    {
      |buffer| <= |input| && input[|input| - |buffer|..] == buffer
    }

    constructor (buffer: seq<byte>)
      ensures Valid() && this.buffer == input == buffer
    {
      this.buffer := buffer;
      this.input := buffer;
    }

    // Hands out the next `len` bytes, or nothing at all.
    method Get(len: nat) returns (r: Option<seq<byte>>)
      requires Valid()
      modifies this
      ensures Valid()
      ensures r.None? <==> len > |old(buffer)|
      ensures r.None? ==> buffer == old(buffer)
      ensures r.Some? ==> r.value == old(buffer)[..len] && buffer == old(buffer)[len..]
    {
      if len > |buffer| {
        return None;
      }
      r := Some(buffer[..len]);
      buffer := buffer[len..];
    }

    predicate IsEmpty()
      reads this
    {
      buffer == []
    }
  }

  // The result of a step that the source ends with `?`.
  datatype Fallible<+T> = Ok(value: T) | Err(error: Error) {
    predicate IsFailure() {
      Err?
    }

    function PropagateFailure<U>(): Fallible<U>
      requires Err?
    {
      Err(error)
    }

    function Extract(): T
      requires Ok?
    {
      value
    }
  }

  // A decoder run gives what the specification says and leaves `after`.
  ghost predicate Agrees<T>(p: Parse<T>, r: Fallible<T>, after: seq<byte>) {
    match p
    case Parsed(v, rest) => r == Ok(v) && after == rest
    case Failed(e) => r == Err(e)
  }

  method ReadBytes(len: nat, buf: UnmarshalBuf) returns (r: Fallible<seq<byte>>)
    requires buf.Valid()
    modifies buf
    ensures buf.Valid()
    ensures var b := old(buf.buffer);
            if |b| < len then r == Err(Memory) && buf.buffer == b
            else r == Ok(b[..len]) && buf.buffer == b[len..]
  {
    var mine := buf.Get(len);
    if mine.None? {
      return Err(Memory);
    }
    return Ok(mine.value);
  }

  method UnmarshalTpm2b(max: nat, buf: UnmarshalBuf) returns (r: Fallible<Value>)
    requires buf.Valid()
    modifies buf
    ensures buf.Valid()
    ensures Agrees(DecodeTpm2b(max, old(buf.buffer)), r, buf.buffer)
  {
    ghost var b := buf.buffer;
    var gotSize :- ReadBytes(2, buf);
    var size := BeValue(gotSize);
    var sized := buf.Get(size);
    if sized.None? {
      return Err(Memory);
    }
    if |sized.value| > max {
      return Err(Memory);
    }
    assert sized.value == b[2..2 + size] && buf.buffer == b[2 + size..];
    return Ok(Buffer(size, sized.value + Zeros(max - size)));
  }

  method TryUnmarshal(s: Schema, buf: UnmarshalBuf) returns (r: Fallible<Value>)
    requires Valid(s) && buf.Valid()
    modifies buf
    ensures buf.Valid()
    ensures Agrees(Decode(s, old(buf.buffer)), r, buf.buffer)
    decreases s, 2
  {
    match s
    case Prim(width, signed) =>
      var x :- ReadBytes(width, buf);
      r := Ok(Int(FromBits(width, signed, BeValue(x))));
    case ByteArray(len) =>
      var x :- ReadBytes(len, buf);
      r := Ok(Raw(x));
    case Tpm2b(max) =>
      r := UnmarshalTpm2b(max, buf);
    case Struct(fields) =>
      var vals :- UnmarshalFields(fields, buf);
      r := Ok(Record(vals));
    case Tagged(_, _, _, _) =>
      r := UnmarshalTagged(s, buf);
  }

  method UnmarshalTagged(s: Schema, buf: UnmarshalBuf) returns (r: Fallible<Value>)
    requires s.Tagged? && Valid(s) && buf.Valid()
    modifies buf
    ensures buf.Valid()
    ensures Agrees(Decode(s, old(buf.buffer)), r, buf.buffer)
    decreases s, 1
  {
    var h :- UnmarshalHead(s, buf);
    var i := SelectVariant(s.variants, h.selector);
    if i.None? {
      return Err(Selector);
    }
    var payload :- UnmarshalPayload(s.variants[i.value], buf);
    return Ok(Chosen(h.before, h.middle, i.value, payload));
  }

  method UnmarshalHead(s: Schema, buf: UnmarshalBuf) returns (r: Fallible<Head>)
    requires s.Tagged? && Valid(s) && buf.Valid()
    modifies buf
    ensures buf.Valid()
    ensures Agrees(DecodeHead(s, old(buf.buffer)), r, buf.buffer)
    decreases s, 0
  {
    var before :- UnmarshalFields(s.before, buf);
    var selector :- ReadBytes(s.tagWidth, buf);
    var middle :- UnmarshalFields(s.middle, buf);
    return Ok(Head(before, BeValue(selector), middle));
  }

  // The chain of `if selector == ...` tests in `try_unmarshal_variant`.
  method SelectVariant(variants: seq<Variant>, selector: nat) returns (r: Option<nat>)
    ensures r == FindVariant(variants, selector, 0)
  {
    for i := 0 to |variants|
      invariant FindVariant(variants, selector, 0) == FindVariant(variants, selector, i)
    {
      if selector == variants[i].selector {
        return Some(i);
      }
    }
    return None;
  }

  method UnmarshalPayload(variant: Variant, buf: UnmarshalBuf) returns (r: Fallible<seq<Value>>)
    requires ValidFields(variant.payload) && buf.Valid()
    modifies buf
    ensures buf.Valid()
    ensures Agrees(DecodePayload(variant, old(buf.buffer)), r, buf.buffer)
    decreases variant, 0
  {
    r := UnmarshalFields(variant.payload, buf);
  }

  method UnmarshalFields(fields: seq<Field>, buf: UnmarshalBuf) returns (r: Fallible<seq<Value>>)
    requires ValidFields(fields) && buf.Valid()
    modifies buf
    ensures buf.Valid()
    ensures Agrees(DecodeFields(fields, old(buf.buffer), |fields|), r, buf.buffer)
    decreases fields, 1
  {
    ghost var b := buf.buffer;
    var vals: seq<Value> := [];
    for k := 0 to |fields|
      invariant buf.Valid()
      invariant DecodeFields(fields, b, k) == Parsed(vals, buf.buffer)
    {
      assert ValidField(fields[k]) && ValidShape(fields, k);
      var v := UnmarshalField(fields[k], vals, buf);
      if v.Err? {
        FieldsFailEarly(fields, b, k + 1, |fields|);
        return Err(v.error);
      }
      vals := vals + [v.value];
    }
    return Ok(vals);
  }

  lemma {:induction false} FieldsFailEarly(fields: seq<Field>, b: seq<byte>, j: nat, k: nat)
    requires ValidFields(fields) && j <= k <= |fields|
    requires DecodeFields(fields, b, j).Failed?
    ensures DecodeFields(fields, b, k) == Failed(DecodeFields(fields, b, j).error)
  {
    if j < k {
      FieldsFailEarly(fields, b, j, k - 1);
    }
  }

  method UnmarshalField(f: Field, vals: seq<Value>, buf: UnmarshalBuf) returns (r: Fallible<Value>)
    requires ValidField(f) && buf.Valid()
    requires f.shape.Counted? ==> f.shape.counter < |vals| && vals[f.shape.counter].Int?
    modifies buf
    ensures buf.Valid()
    ensures Agrees(DecodeField(f, vals, old(buf.buffer)), r, buf.buffer)
    decreases f, 3
  {
    if f.shape.One? {
      r := UnmarshalElem(f, buf);
    } else {
      var n := EntryCount(f.shape, vals);
      if n > ArrayLen(f.shape) {
        return Err(Error.Size);
      }
      var items :- UnmarshalItems(f, n, buf);
      r := Ok(List(items));
    }
  }

  method UnmarshalElem(f: Field, buf: UnmarshalBuf) returns (r: Fallible<Value>)
    requires ValidField(f) && buf.Valid()
    modifies buf
    ensures buf.Valid()
    ensures Agrees(DecodeElem(f, old(buf.buffer)), r, buf.buffer)
    decreases f, 0
  {
    r := TryUnmarshal(f.elem, buf);
  }

  // Starts from an array of defaults and overwrites its first `n` entries:
  // `for i in array.iter_mut().take(n) { *i = T::try_unmarshal(buffer)?; }`
  method UnmarshalItems(f: Field, n: nat, buf: UnmarshalBuf) returns (r: Fallible<seq<Value>>)
    requires ValidField(f) && buf.Valid()
    requires n <= ArrayLen(f.shape)
    modifies buf
    ensures buf.Valid()
    ensures var p := DecodeItems(f, old(buf.buffer), n);
            match p
            case Parsed(items, rest) => r == Ok(PadItems(f, items)) && buf.buffer == rest
            case Failed(e) => r == Err(e)
    decreases f, 2
  {
    ghost var b := buf.buffer;
    var full := PadItems(f, []);
    for i := 0 to n
      invariant buf.Valid()
      invariant DecodeItems(f, b, i).Parsed?
      invariant DecodeItems(f, b, i).rest == buf.buffer
      invariant full == PadItems(f, DecodeItems(f, b, i).value)
    {
      var v := UnmarshalElem(f, buf);
      if v.Err? {
        ItemsFailEarly(f, b, i + 1, n);
        return Err(v.error);
      }
      full := full[i := v.value];
    }
    return Ok(full);
  }

  lemma {:induction false} ItemsFailEarly(f: Field, b: seq<byte>, j: nat, n: nat)
    requires ValidField(f) && j <= n
    requires DecodeItems(f, b, j).Failed?
    ensures DecodeItems(f, b, n) == Failed(DecodeItems(f, b, j).error)
  {
    if j < n {
      ItemsFailEarly(f, b, j, n - 1);
    }
  }
}
