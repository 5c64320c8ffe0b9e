// The universe of types that the Marshalable derive accepts, and their values.
module Schemas {
  import opened ByteOrder

  // Rust types that implement Marshalable.
  //  - Prim: a big-endian integer (also a transparent newtype or open enum);
  //  - ByteArray: `[u8; len]` with the blanket implementation;
  //  - Tpm2b: a `tpm2b_simple` struct, a u16 size and a buffer of `max` bytes;
  //  - Struct: a derived struct;
  //  - Tagged: an enum whose selector follows the fields `before` and precedes
  //    the fields `middle`, with the variant last. A derived enum has both lists
  //    empty; TpmtPublic, TpmtSensitive and TpmsAttest do not.
  datatype Schema =
    | Prim(width: nat, signed: bool)
    | ByteArray(len: nat)
    | Tpm2b(max: nat)
    | Struct(fields: seq<Field>)
    | Tagged(before: seq<Field>, tagWidth: nat, middle: seq<Field>, variants: seq<Variant>)

  datatype Field = Field(elem: Schema, shape: Shape)

  // A plain field, an array without attribute, or an array whose `length`
  // attribute names the field at position `counter`.
  datatype Shape = One | Fixed(len: nat) | Counted(max: nat, counter: nat)

  datatype Variant = Variant(selector: nat, payload: seq<Field>)

  datatype Value =
    | Int(n: int)
    | Raw(bytes: seq<byte>)
    | Buffer(size: nat, bytes: seq<byte>)
    | Record(vals: seq<Value>)
    | List(items: seq<Value>)
    | Chosen(before: seq<Value>, middle: seq<Value>, index: nat, payload: seq<Value>)

  predicate IsPrimWidth(width: nat) {
    width == 1 || width == 2 || width == 4 || width == 8
  }

  predicate IsCount(f: Field) {
    f.shape.One? && f.elem.Prim?
  }

  // What the derive and rustc together accept.
  predicate Valid(s: Schema) {
    match s
    case Prim(width, _) => IsPrimWidth(width)
    case ByteArray(_) => true
    case Tpm2b(_) => true
    case Struct(fields) => ValidFields(fields)
    case Tagged(before, width, middle, variants) =>
      && IsPrimWidth(width)
      && ValidFields(before)
      && ValidFields(middle)
      && |variants| > 0
      && (forall i | 0 <= i < |variants| ::
            variants[i].selector < Pow256(width) && ValidFields(variants[i].payload))
      && (forall i, j | 0 <= i < j < |variants| :: variants[i].selector != variants[j].selector)
  }

  predicate ValidFields(fields: seq<Field>) {
    forall k | 0 <= k < |fields| :: ValidField(fields[k]) && ValidShape(fields, k)
  }

  predicate ValidField(f: Field) {
    Valid(f.elem)
  }

  // A length attribute names an earlier integer field.
  predicate ValidShape(fields: seq<Field>, k: nat)
    requires k < |fields|
  {
    fields[k].shape.Counted? ==> fields[k].shape.counter < k && IsCount(fields[fields[k].shape.counter])
  }

  function ArrayLen(shape: Shape): nat {
    match shape
    case One => 1
    case Fixed(len) => len
    case Counted(max, _) => max
  }

  // The number of array entries a field puts on the wire, given the values of
  // the struct it belongs to.
  function EntryCount(shape: Shape, vals: seq<Value>): (n: nat)
    requires shape.Counted? ==> shape.counter < |vals| && vals[shape.counter].Int?
  {
    match shape
    case One => 1
    case Fixed(len) => len
    case Counted(_, counter) => AsUsize(vals[counter].n)
  }

  // The values of a Rust type for which encoding does not panic: sizes and
  // length fields stay within their arrays.
  predicate Matches(s: Schema, v: Value) {
    match s
    case Prim(width, signed) => v.Int? && InRange(width, signed, v.n)
    case ByteArray(len) => v.Raw? && |v.bytes| == len
    case Tpm2b(max) => v.Buffer? && |v.bytes| == max && v.size <= max && v.size < 0x1_0000
    case Struct(fields) => v.Record? && |v.vals| == |fields| && MatchesFields(fields, v.vals, |fields|)
    case Tagged(before, width, middle, variants) =>
      && v.Chosen?
      && v.index < |variants|
      && variants[v.index].selector < Pow256(width)
      && |v.before| == |before| && MatchesFields(before, v.before, |before|)
      && |v.middle| == |middle| && MatchesFields(middle, v.middle, |middle|)
      && |v.payload| == |variants[v.index].payload|
      && MatchesFields(variants[v.index].payload, v.payload, |variants[v.index].payload|)
  }

  // The first `k` fields match.
  predicate MatchesFields(fields: seq<Field>, vals: seq<Value>, k: nat) {
    && k <= |fields| && k <= |vals|
    && forall j | 0 <= j < k :: MatchesField(fields[j], vals, j)
  }

  predicate MatchesField(f: Field, vals: seq<Value>, k: nat)
    requires k < |vals|
  {
    if f.shape.One? then MatchesElem(f, vals[k])
    else
      && vals[k].List?
      && |vals[k].items| == ArrayLen(f.shape)
      && (forall i | 0 <= i < |vals[k].items| :: MatchesElem(f, vals[k].items[i]))
      && (f.shape.Counted? ==>
            && f.shape.counter < k
            && vals[f.shape.counter].Int?
            && EntryCount(f.shape, vals) <= f.shape.max)
  }

  // One entry of a field: the value of a plain field or an element of an array.
  predicate MatchesElem(f: Field, v: Value) {
    Matches(f.elem, v)
  }

  // The Default trait. For an enum the model takes the first variant, as
  // TpmtHa does.
  function Default(s: Schema): (v: Value)
    requires Valid(s)
    decreases s, 0
  {
    match s
    case Prim(_, _) => Int(0)
    case ByteArray(len) => Raw(Zeros(len))
    case Tpm2b(max) => Buffer(0, Zeros(max))
    case Struct(fields) => Record(DefaultFields(fields))
    case Tagged(before, _, middle, variants) =>
      Chosen(DefaultFields(before), DefaultFields(middle), 0, DefaultFields(variants[0].payload))
  }

  function DefaultFields(fields: seq<Field>): (vals: seq<Value>)
    requires ValidFields(fields)
    ensures |vals| == |fields|
    decreases fields, 0
  {
    seq(|fields|, k requires 0 <= k < |fields| => DefaultField(fields[k]))
  }

  function DefaultField(f: Field): (v: Value)
    requires ValidField(f)
    decreases f, 1
  {
    if f.shape.One? then DefaultElem(f) else List(seq(ArrayLen(f.shape), _ => DefaultElem(f)))
  }

  function DefaultElem(f: Field): (v: Value)
    requires ValidField(f)
    decreases f, 0
  {
    Default(f.elem)
  }

  // ---- What a default is ----

  predicate AllZero(b: seq<byte>) {
    forall i | 0 <= i < |b| :: b[i] == 0
  }

  // An integer is 0, a byte array and a TPM2B buffer are zeros, and a TPM2B has
  // size 0.
  lemma {:induction false} DefaultsOf(width: nat, signed: bool, len: nat)
    requires IsPrimWidth(width)
    ensures Default(Prim(width, signed)) == Int(0)
    ensures Default(ByteArray(len)).Raw?
    ensures |Default(ByteArray(len)).bytes| == len && AllZero(Default(ByteArray(len)).bytes)
    ensures Default(Tpm2b(len)).Buffer? && Default(Tpm2b(len)).size == 0
    ensures |Default(Tpm2b(len)).bytes| == len && AllZero(Default(Tpm2b(len)).bytes)
  {
  }

  // A struct is made field by field, an array entry by entry.
  lemma {:induction false} DefaultOfStruct(fields: seq<Field>)
    requires Valid(Struct(fields))
    ensures Default(Struct(fields)).Record? && |Default(Struct(fields)).vals| == |fields|
    ensures forall k | 0 <= k < |fields| :: IsDefault(fields[k], Default(Struct(fields)).vals[k])
  {
    forall k | 0 <= k < |fields|
      ensures IsDefault(fields[k], Default(Struct(fields)).vals[k])
    {
      assert ValidField(fields[k]);
      assert DefaultFields(fields)[k] == DefaultField(fields[k]);
    }
  }

  predicate IsDefault(f: Field, v: Value) {
    && Valid(f.elem)
    && match f.shape
       case One => v == Default(f.elem)
       case Fixed(len) => IsDefaultArray(f.elem, len, v)
       case Counted(max, _) => IsDefaultArray(f.elem, max, v)
  }

  predicate IsDefaultArray(elem: Schema, len: nat, v: Value)
    requires Valid(elem)
  {
    v.List? && |v.items| == len && forall i | 0 <= i < len :: v.items[i] == Default(elem)
  }
}
