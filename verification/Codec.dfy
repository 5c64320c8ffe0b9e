// The wire format, as pure functions: what an encoder must put on the wire and
// what a decoder must make of a byte string. The imperative forms in Marshal
// and Unmarshal are proved against these.
module Codec {
  import opened ByteOrder
  import opened Schemas

  datatype Error = Size | Selector | Memory

  // A decoding result: the value and the bytes left over.
  datatype Parse<+T> = Parsed(value: T, rest: seq<byte>) | Failed(error: Error)

  // ---- Encoding ----

  function Encode(s: Schema, v: Value): (code: seq<byte>)
    requires Matches(s, v)
    decreases s, 1
  {
    match s
    case Prim(width, signed) => BeBytes(width, ToBits(width, signed, v.n))
    case ByteArray(_) => v.bytes
    case Tpm2b(_) => BeSize(v.size) + v.bytes[..v.size]
    case Struct(fields) => EncodeFields(fields, v.vals, |fields|)
    case Tagged(_, _, _, variants) =>
      EncodeHead(s, HeadOf(s, v)) + EncodePayload(variants[v.index], v.payload)
  }

  // What a tagged type has on the wire before the variant's own data.
  datatype Head = Head(before: seq<Value>, selector: nat, middle: seq<Value>)

  function HeadOf(s: Schema, v: Value): Head
    requires s.Tagged? && v.Chosen? && v.index < |s.variants|
  {
    Head(v.before, s.variants[v.index].selector, v.middle)
  }

  predicate MatchesHead(s: Schema, h: Head)
    requires s.Tagged?
  {
    && |h.before| == |s.before| && MatchesFields(s.before, h.before, |s.before|)
    && h.selector < Pow256(s.tagWidth)
    && |h.middle| == |s.middle| && MatchesFields(s.middle, h.middle, |s.middle|)
  }

  function EncodeHead(s: Schema, h: Head): (code: seq<byte>)
    requires s.Tagged? && MatchesHead(s, h)
    decreases s, 0
  {
    EncodeFields(s.before, h.before, |s.before|)
    + BeBytes(s.tagWidth, h.selector)
    + EncodeFields(s.middle, h.middle, |s.middle|)
  }

  // `try_marshal_variant`.
  function EncodePayload(variant: Variant, vals: seq<Value>): (code: seq<byte>)
    requires |vals| == |variant.payload| && MatchesFields(variant.payload, vals, |vals|)
    decreases variant, 0
  {
    EncodeFields(variant.payload, vals, |vals|)
  }

  // The first `k` fields, in declaration order.
  function EncodeFields(fields: seq<Field>, vals: seq<Value>, k: nat): (code: seq<byte>)
    requires MatchesFields(fields, vals, k)
    decreases fields, 1, k
  {
    if k == 0 then [] else EncodeFields(fields, vals, k - 1) + EncodeField(fields[k - 1], vals, k - 1)
  }

  function EncodeField(f: Field, vals: seq<Value>, k: nat): (code: seq<byte>)
    requires k < |vals| && MatchesField(f, vals, k)
    decreases f, 2
  {
    if f.shape.One? then EncodeElem(f, vals[k])
    else EncodeItems(f, vals[k].items, EntryCount(f.shape, vals))
  }

  function EncodeElem(f: Field, v: Value): (code: seq<byte>)
    requires MatchesElem(f, v)
    decreases f, 0
  {
    Encode(f.elem, v)
  }

  // The first `n` entries of an array.
  function EncodeItems(f: Field, items: seq<Value>, n: nat): (code: seq<byte>)
    requires n <= |items|
    requires forall i | 0 <= i < n :: MatchesElem(f, items[i])
    decreases f, 1, n
  {
    if n == 0 then [] else EncodeItems(f, items, n - 1) + EncodeElem(f, items[n - 1])
  }

  function BeSize(size: nat): (b: seq<byte>)
    requires size < 0x1_0000
    ensures |b| == 2 && BeValue(b) == size
  {
    assert Pow256(2) == 0x1_0000;
    BeBytes(2, size)
  }

  // ---- Decoding ----

  function Decode(s: Schema, b: seq<byte>): (r: Parse<Value>)
    requires Valid(s)
    ensures r.Parsed? && s.Prim? ==> r.value.Int?
    decreases s, 1
  {
    match s
    case Prim(width, signed) =>
      if |b| < width then Failed(Memory)
      else Parsed(Int(FromBits(width, signed, BeValue(b[..width]))), b[width..])
    case ByteArray(len) =>
      if |b| < len then Failed(Memory) else Parsed(Raw(b[..len]), b[len..])
    case Tpm2b(max) => DecodeTpm2b(max, b)
    case Struct(fields) =>
      (match DecodeFields(fields, b, |fields|)
       case Parsed(vals, rest) => Parsed(Record(vals), rest)
       case Failed(e) => Failed(e))
    case Tagged(_, _, _, variants) =>
      match DecodeHead(s, b)
      case Failed(e) => Failed(e)
      case Parsed(h, b1) =>
        match FindVariant(variants, h.selector, 0)
        case None => Failed(Selector)
        case Some(i) =>
          match DecodePayload(variants[i], b1)
          case Failed(e) => Failed(e)
          case Parsed(vals, b2) => Parsed(Chosen(h.before, h.middle, i, vals), b2)
  }

  function DecodeHead(s: Schema, b: seq<byte>): (r: Parse<Head>)
    requires s.Tagged? && Valid(s)
    decreases s, 0
  {
    match DecodeFields(s.before, b, |s.before|)
    case Failed(e) => Failed(e)
    case Parsed(before, b1) =>
      if |b1| < s.tagWidth then Failed(Memory)
      else
        match DecodeFields(s.middle, b1[s.tagWidth..], |s.middle|)
        case Failed(e) => Failed(e)
        case Parsed(middle, b2) => Parsed(Head(before, BeValue(b1[..s.tagWidth]), middle), b2)
  }

  // The size must be covered by the input and then fit the buffer.
  function DecodeTpm2b(max: nat, b: seq<byte>): (r: Parse<Value>)
  {
    if |b| < 2 then Failed(Memory)
    else
      var size := BeValue(b[..2]);
      if |b| < 2 + size || size > max then Failed(Memory)
      else Parsed(Buffer(size, b[2..2 + size] + Zeros(max - size)), b[2 + size..])
  }

  function DecodePayload(v: Variant, b: seq<byte>): (r: Parse<seq<Value>>)
    requires ValidFields(v.payload)
    decreases v, 0
  {
    DecodeFields(v.payload, b, |v.payload|)
  }

  // The first `k` fields. A length field is read before the array it bounds.
  function DecodeFields(fields: seq<Field>, b: seq<byte>, k: nat): (r: Parse<seq<Value>>)
    requires ValidFields(fields)
    requires k <= |fields|
    ensures r.Parsed? ==> |r.value| == k
    ensures r.Parsed? ==> forall j | 0 <= j < k :: IsCount(fields[j]) ==> r.value[j].Int?
    decreases fields, 1, k
  {
    if k == 0 then Parsed([], b)
    else
      match DecodeFields(fields, b, k - 1)
      case Failed(e) => Failed(e)
      case Parsed(vals, rest) =>
        assert ValidField(fields[k - 1]) && ValidShape(fields, k - 1);
        match DecodeField(fields[k - 1], vals, rest)
        case Failed(e) => Failed(e)
        case Parsed(v, rest') => Parsed(vals + [v], rest')
  }

  // One field, given the values of the fields before it.
  function DecodeField(f: Field, vals: seq<Value>, b: seq<byte>): (r: Parse<Value>)
    requires ValidField(f)
    requires f.shape.Counted? ==> f.shape.counter < |vals| && vals[f.shape.counter].Int?
    ensures r.Parsed? && IsCount(f) ==> r.value.Int?
    decreases f, 2
  {
    if f.shape.One? then DecodeElem(f, b)
    else
      var n := EntryCount(f.shape, vals);
      if n > ArrayLen(f.shape) then Failed(Error.Size)
      else
        match DecodeItems(f, b, n)
        case Failed(e) => Failed(e)
        case Parsed(items, rest) => Parsed(List(PadItems(f, items)), rest)
  }

  function DecodeElem(f: Field, b: seq<byte>): (r: Parse<Value>)
    requires ValidField(f)
    ensures r.Parsed? && f.elem.Prim? ==> r.value.Int?
    decreases f, 0
  {
    Decode(f.elem, b)
  }

  function DecodeItems(f: Field, b: seq<byte>, n: nat): (r: Parse<seq<Value>>)
    requires ValidField(f)
    ensures r.Parsed? ==> |r.value| == n
    decreases f, 1, n
  {
    if n == 0 then Parsed([], b)
    else
      match DecodeItems(f, b, n - 1)
      case Failed(e) => Failed(e)
      case Parsed(items, rest) =>
        match DecodeElem(f, rest)
        case Failed(e) => Failed(e)
        case Parsed(v, rest') => Parsed(items + [v], rest')
  }

  // An array starts out filled with defaults; decoded entries overwrite its front.
  function PadItems(f: Field, items: seq<Value>): (full: seq<Value>)
    requires ValidField(f)
    requires |items| <= ArrayLen(f.shape)
    ensures |full| == ArrayLen(f.shape) && full[..|items|] == items
  {
    items + seq(ArrayLen(f.shape) - |items|, _ => DefaultElem(f))
  }

  datatype Option<+T> = None | Some(value: T)

  // The chain of `if selector == ...` tests.
  function FindVariant(variants: seq<Variant>, selector: nat, from: nat): (i: Option<nat>)
    requires from <= |variants|
    ensures i.Some? ==> from <= i.value < |variants| && variants[i.value].selector == selector
    ensures i.None? ==> forall j | from <= j < |variants| :: variants[j].selector != selector
    decreases |variants| - from
  {
    if from == |variants| then None
    else if variants[from].selector == selector then Some(from)
    else FindVariant(variants, selector, from + 1)
  }

  // ---- What a round trip keeps ----

  // The value with array entries past each length field, and buffer bytes past
  // each size, reset to their defaults.
  function Normalize(s: Schema, v: Value): (r: Value)
    requires Valid(s) && Matches(s, v)
    ensures s.Prim? ==> r == v
    decreases s, 1
  {
    match s
    case Prim(_, _) => v
    case ByteArray(_) => v
    case Tpm2b(max) => Buffer(v.size, v.bytes[..v.size] + Zeros(max - v.size))
    case Struct(fields) => Record(NormalizeFields(fields, v.vals, |fields|))
    case Tagged(_, _, _, variants) =>
      var h := NormalizeHead(s, HeadOf(s, v));
      Chosen(h.before, h.middle, v.index, NormalizePayload(variants[v.index], v.payload))
  }

  function NormalizeHead(s: Schema, h: Head): (r: Head)
    requires s.Tagged? && Valid(s) && MatchesHead(s, h)
    decreases s, 0
  {
    Head(NormalizeFields(s.before, h.before, |s.before|),
         h.selector,
         NormalizeFields(s.middle, h.middle, |s.middle|))
  }

  function NormalizePayload(variant: Variant, vals: seq<Value>): (r: seq<Value>)
    requires ValidFields(variant.payload)
    requires |vals| == |variant.payload| && MatchesFields(variant.payload, vals, |vals|)
    decreases variant, 0
  {
    NormalizeFields(variant.payload, vals, |vals|)
  }

  function NormalizeFields(fields: seq<Field>, vals: seq<Value>, k: nat): (r: seq<Value>)
    requires ValidFields(fields) && MatchesFields(fields, vals, k)
    ensures |r| == k
    ensures forall j | 0 <= j < k :: IsCount(fields[j]) ==> r[j] == vals[j]
    decreases fields, 1, k
  {
    if k == 0 then []
    else NormalizeFields(fields, vals, k - 1) + [NormalizeField(fields[k - 1], vals, k - 1)]
  }

  function NormalizeField(f: Field, vals: seq<Value>, k: nat): (r: Value)
    requires ValidField(f)
    requires k < |vals| && MatchesField(f, vals, k)
    ensures IsCount(f) ==> r == vals[k]
    decreases f, 2
  {
    if f.shape.One? then NormalizeElem(f, vals[k])
    else List(PadItems(f, NormalizeItems(f, vals[k].items, EntryCount(f.shape, vals))))
  }

  function NormalizeElem(f: Field, v: Value): (r: Value)
    requires ValidField(f) && MatchesElem(f, v)
    ensures f.elem.Prim? ==> r == v
    decreases f, 0
  {
    Normalize(f.elem, v)
  }

  function NormalizeItems(f: Field, items: seq<Value>, n: nat): (r: seq<Value>)
    requires ValidField(f)
    requires n <= |items|
    requires forall i | 0 <= i < n :: MatchesElem(f, items[i])
    ensures |r| == n
    decreases f, 1, n
  {
    if n == 0 then [] else NormalizeItems(f, items, n - 1) + [NormalizeElem(f, items[n - 1])]
  }
}
