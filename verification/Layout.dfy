// The repr(C) memory layout of the marshalable types, and the TPM2B holders
// whose buffer is as large as the struct they carry.
module Layout {
  import opened ByteOrder
  import opened Schemas
  import opened Codec
  import opened CodecLaws
  import opened Marshal

  function Max(a: nat, b: nat): nat {
    if a < b then b else a
  }

  function RoundUp(n: nat, align: nat): (r: nat)
    requires align > 0
    ensures r >= n
  {
    if n % align == 0 then n else n + (align - n % align)
  }

  // ---- size_of and align_of ----

  function AlignOf(s: Schema): (a: nat)
    ensures a > 0
    decreases s, 0
  {
    match s
    case Prim(width, _) => Max(width, 1)
    case ByteArray(_) => 1
    case Tpm2b(_) => 2
    case Struct(fields) => AlignOfFields(fields, |fields|)
    case Tagged(before, width, middle, variants) =>
      Max(Max(AlignOfFields(before, |before|), AlignOfFields(middle, |middle|)),
          Max(Max(width, 1), UnionAlign(variants, |variants|)))
  }

  function AlignOfFields(fields: seq<Field>, k: nat): (a: nat)
    requires k <= |fields|
    ensures a > 0
    decreases fields, 1, k
  {
    if k == 0 then 1 else Max(AlignOfFields(fields, k - 1), AlignOfField(fields[k - 1]))
  }

  function AlignOfField(f: Field): (a: nat)
    ensures a > 0
    decreases f, 0
  {
    AlignOf(f.elem)
  }

  // The alignment of the union of the first `k` payload structs.
  function UnionAlign(variants: seq<Variant>, k: nat): (a: nat)
    requires k <= |variants|
    ensures a > 0
    decreases variants, 1, k
  {
    if k == 0 then 1 else Max(UnionAlign(variants, k - 1), PayloadAlign(variants[k - 1]))
  }

  function PayloadAlign(v: Variant): (a: nat)
    ensures a > 0
    decreases v, 0
  {
    AlignOfFields(v.payload, |v.payload|)
  }

  function SizeOf(s: Schema): nat
    decreases s, 0
  {
    match s
    case Prim(width, _) => width
    case ByteArray(len) => len
    case Tpm2b(max) => RoundUp(2 + max, 2)
    case Struct(fields) => RoundUp(EndOfFields(fields, |fields|, 0), AlignOf(s))
    case Tagged(before, width, middle, variants) =>
      // A struct of the plain fields and then the enum.
      var unionAlign := UnionAlign(variants, |variants|);
      var offset := EndOfFields(middle, |middle|, EndOfFields(before, |before|, 0));
      RoundUp(RoundUp(offset, EnumAlign(width, unionAlign))
              + EnumSize(width, UnionEnd(variants, |variants|), unionAlign), AlignOf(s))
  }

  function EnumAlign(width: nat, unionAlign: nat): (a: nat)
    ensures a > 0
  {
    Max(Max(width, 1), unionAlign)
  }

  // A tag followed by the union of the payloads.
  function EnumSize(width: nat, unionEnd: nat, unionAlign: nat): (n: nat)
    requires unionAlign > 0
    ensures n >= width + unionEnd
  {
    RoundUp(RoundUp(width, unionAlign) + RoundUp(unionEnd, unionAlign), EnumAlign(width, unionAlign))
  }

  // The offset just past the first `k` fields when the first one is placed at
  // or after `start`.
  function EndOfFields(fields: seq<Field>, k: nat, start: nat): nat
    requires k <= |fields|
    decreases fields, 1, k
  {
    if k == 0 then start
    else
      RoundUp(EndOfFields(fields, k - 1, start), AlignOfField(fields[k - 1])) + SizeOfField(fields[k - 1])
  }

  function SizeOfField(f: Field): nat
    decreases f, 0
  {
    ArrayLen(f.shape) * SizeOf(f.elem)
  }

  function UnionEnd(variants: seq<Variant>, k: nat): nat
    requires k <= |variants|
    decreases variants, 1, k
  {
    if k == 0 then 0 else Max(UnionEnd(variants, k - 1), PayloadSize(variants[k - 1]))
  }

  function PayloadSize(v: Variant): nat
    decreases v, 0
  {
    RoundUp(EndOfFields(v.payload, |v.payload|, 0), AlignOfFields(v.payload, |v.payload|))
  }

  // ---- That this is the repr(C) layout ----

  // The least multiple of `align` at or past `n`.
  lemma {:induction false} RoundUpIsLeast(n: nat, align: nat, m: nat)
    requires align > 0
    ensures RoundUp(n, align) % align == 0 && n <= RoundUp(n, align) < n + align
    ensures m >= n && m % align == 0 ==> RoundUp(n, align) <= m
  {
    var q := n / align;
    assert n == align * q + n % align;
    Multiple(align, q);
    Multiple(align, q + 1);
    assert align * (q + 1) == align * q + align;
    if m >= n && m % align == 0 {
      NoMultipleBetween(align, q, m, n);
    }
  }

  lemma {:induction false} Multiple(align: nat, q: nat)
    requires align > 0
    ensures align * q % align == 0
  {
    QuotientOf(align * q, align, q, 0);
  }

  lemma {:induction false} NoMultipleBetween(align: nat, q: nat, m: nat, n: nat)
    requires align > 0 && m % align == 0 && n == align * q + n % align && m >= n
    ensures m >= if n % align == 0 then n else align * q + align
  {
    assert m == align * (m / align);
    if m / align <= q {
      MulLess(align, m / align, q);
    } else {
      MulLess(align, q + 1, m / align);
      assert align * (q + 1) == align * q + align;
    }
  }

  lemma {:induction false} MulLess(align: nat, a: nat, b: nat)
    requires a <= b
    ensures align * a <= align * b
  {
  }

  // An integer is aligned to its size, a byte array not at all; a TPM2B is a u16
  // and its buffer, rounded up to an even size.
  lemma {:induction false} BasicLayout(width: nat, signed: bool, len: nat)
    requires IsPrimWidth(width)
    ensures SizeOf(Prim(width, signed)) == AlignOf(Prim(width, signed)) == width
    ensures SizeOf(ByteArray(len)) == len && AlignOf(ByteArray(len)) == 1
    ensures SizeOf(Tpm2b(len)) == (if len % 2 == 0 then 2 + len else 3 + len) && AlignOf(Tpm2b(len)) == 2
  {
  }

  // Where a field begins, when the first one is placed at or after `start`.
  function OffsetOf(fields: seq<Field>, k: nat, start: nat): int
    requires k < |fields|
  {
    EndOfFields(fields, k + 1, start) - SizeOfField(fields[k])
  }

  // Each field is at the least offset that its alignment allows behind the field
  // before it, and an array takes the room of its entries.
  lemma {:induction false} FieldPlacement(fields: seq<Field>, k: nat, start: nat)
    requires k < |fields|
    ensures var f, before := fields[k], if k == 0 then start else EndOfFields(fields, k, start);
            && before <= OffsetOf(fields, k, start) < before + AlignOf(f.elem)
            && OffsetOf(fields, k, start) % AlignOf(f.elem) == 0
            && EndOfFields(fields, k + 1, start)
            == OffsetOf(fields, k, start)
               + (match f.shape case One => 1 case Fixed(len) => len case Counted(max, _) => max) * SizeOf(f.elem)
  {
    RoundUpIsLeast(EndOfFields(fields, k, start), AlignOfField(fields[k]), 0);
  }

  ghost predicate IsAlignment(a: nat) {
    a == 1 || a == 2 || a == 4 || a == 8
  }

  lemma {:induction false} AlignmentsOfFields(fields: seq<Field>, k: nat)
    requires ValidFields(fields) && k <= |fields|
    ensures IsAlignment(AlignOfFields(fields, k))
    decreases fields, 1, k
  {
    if k > 0 {
      AlignmentsOfFields(fields, k - 1);
      assert ValidField(fields[k - 1]);
      AlignmentOfField(fields[k - 1]);
    }
  }

  lemma {:induction false} LargestAlignment(fields: seq<Field>, k: nat)
    requires k <= |fields|
    ensures forall j | 0 <= j < k :: AlignOf(fields[j].elem) <= AlignOfFields(fields, k)
    ensures AlignOfFields(fields, k) == 1
         || exists j :: 0 <= j < k && AlignOf(fields[j].elem) == AlignOfFields(fields, k)
  {
    if k > 0 {
      LargestAlignment(fields, k - 1);
      assert AlignOfField(fields[k - 1]) == AlignOf(fields[k - 1].elem);
    }
  }

  lemma {:induction false} Divides(a: nat, b: nat)
    requires IsAlignment(a) && IsAlignment(b) && a <= b
    ensures b % a == 0
  {
  }

  // The alignment of a struct is that of one of its fields, and a multiple of
  // that of each.
  lemma {:induction false} StrictestAlignment(fields: seq<Field>)
    requires ValidFields(fields)
    ensures forall j | 0 <= j < |fields| :: AlignOfFields(fields, |fields|) % AlignOf(fields[j].elem) == 0
    ensures AlignOfFields(fields, |fields|) == 1
         || exists j :: 0 <= j < |fields| && AlignOf(fields[j].elem) == AlignOfFields(fields, |fields|)
  {
    LargestAlignment(fields, |fields|);
    AlignmentsOfFields(fields, |fields|);
    forall j | 0 <= j < |fields|
      ensures AlignOfFields(fields, |fields|) % AlignOf(fields[j].elem) == 0
    {
      assert ValidField(fields[j]);
      Alignments(fields[j].elem);
      Divides(AlignOf(fields[j].elem), AlignOfFields(fields, |fields|));
    }
  }

  lemma {:induction false} AlignmentOfField(f: Field)
    requires ValidField(f)
    ensures IsAlignment(AlignOf(f.elem))
    decreases f, 0
  {
    Alignments(f.elem);
  }

  lemma {:induction false} AlignmentsOfVariants(variants: seq<Variant>, k: nat)
    requires k <= |variants| && forall i | 0 <= i < |variants| :: ValidFields(variants[i].payload)
    ensures IsAlignment(UnionAlign(variants, k))
    decreases variants, 1, k
  {
    if k > 0 {
      AlignmentsOfVariants(variants, k - 1);
      AlignmentOfPayload(variants[k - 1]);
    }
  }

  lemma {:induction false} AlignmentOfPayload(v: Variant)
    requires ValidFields(v.payload)
    ensures IsAlignment(PayloadAlign(v))
    decreases v, 0
  {
    AlignmentsOfFields(v.payload, |v.payload|);
  }

  // Every alignment is 1, 2, 4 or 8.
  lemma {:induction false} Alignments(s: Schema)
    requires Valid(s)
    ensures IsAlignment(AlignOf(s))
    decreases s, 0
  {
    match s
    case Prim(_, _) =>
    case ByteArray(_) =>
    case Tpm2b(_) =>
    case Struct(fields) => AlignmentsOfFields(fields, |fields|);
    case Tagged(before, _, middle, variants) =>
      AlignmentsOfFields(before, |before|);
      AlignmentsOfFields(middle, |middle|);
      AlignmentsOfVariants(variants, |variants|);
  }

  // A struct has the strictest alignment of its fields, which those of all of
  // them divide, and the least multiple of it as its size that reaches past the
  // last field.
  lemma {:induction false} StructLayout(fields: seq<Field>)
    requires Valid(Struct(fields))
    ensures var a, end := AlignOf(Struct(fields)), EndOfFields(fields, |fields|, 0);
            && (forall j | 0 <= j < |fields| :: a % AlignOf(fields[j].elem) == 0)
            && (a == 1 || exists j :: 0 <= j < |fields| && AlignOf(fields[j].elem) == a)
            && SizeOf(Struct(fields)) % a == 0
            && end <= SizeOf(Struct(fields)) < end + a
  {
    StrictestAlignment(fields);
    RoundUpIsLeast(EndOfFields(fields, |fields|, 0), AlignOf(Struct(fields)), 0);
  }

  // The size of every type is a multiple of its alignment, so that the entries of
  // an array are aligned as well.
  lemma {:induction false} SizeIsMultiple(s: Schema)
    requires Valid(s)
    ensures SizeOf(s) % AlignOf(s) == 0
  {
    match s
    case Prim(_, _) =>
    case ByteArray(_) =>
    case Tpm2b(max) => RoundUpIsLeast(2 + max, 2, 0);
    case Struct(fields) => RoundUpIsLeast(EndOfFields(fields, |fields|, 0), AlignOf(s), 0);
    case Tagged(_, _, _, _) =>
      var n := TaggedIsRounded(s);
      RoundUpIsLeast(n, AlignOf(s), 0);
  }

  lemma {:induction false} TaggedIsRounded(s: Schema) returns (n: nat)
    requires s.Tagged?
    ensures SizeOf(s) == RoundUp(n, AlignOf(s))
  {
    var unionAlign := UnionAlign(s.variants, |s.variants|);
    var offset := EndOfFields(s.middle, |s.middle|, EndOfFields(s.before, |s.before|, 0));
    n := RoundUp(offset, EnumAlign(s.tagWidth, unionAlign))
         + EnumSize(s.tagWidth, UnionEnd(s.variants, |s.variants|), unionAlign);
  }

  // A union holds each payload, as a struct of its own, and is no bigger than the
  // biggest.
  lemma {:induction false} UnionLayout(variants: seq<Variant>, k: nat)
    requires k <= |variants|
    ensures forall i | 0 <= i < k :: SizeOf(Struct(variants[i].payload)) <= UnionEnd(variants, k)
    ensures UnionEnd(variants, k) == 0
         || exists i :: 0 <= i < k && SizeOf(Struct(variants[i].payload)) == UnionEnd(variants, k)
  {
    if k > 0 {
      UnionLayout(variants, k - 1);
      assert PayloadSize(variants[k - 1]) == SizeOf(Struct(variants[k - 1].payload));
    }
  }

  // ---- An encoding never needs more room than the value does in memory ----

  lemma {:induction false} EncodingFits(s: Schema, v: Value)
    requires Matches(s, v)
    ensures |Encode(s, v)| <= SizeOf(s)
    decreases s, 0
  {
    match s
    case Prim(_, _) =>
    case ByteArray(_) =>
    case Tpm2b(_) =>
    case Struct(fields) => FieldsFit(fields, v.vals, |fields|, 0);
    case Tagged(before, _, middle, variants) =>
      FieldsFit(before, v.before, |before|, 0);
      FieldsFit(middle, v.middle, |middle|, EndOfFields(before, |before|, 0));
      PayloadFits(variants, v.index, v.payload, |variants|);
  }

  lemma {:induction false} FieldsFit(fields: seq<Field>, vals: seq<Value>, k: nat, start: nat)
    requires MatchesFields(fields, vals, k)
    ensures start + |EncodeFields(fields, vals, k)| <= EndOfFields(fields, k, start)
    decreases fields, 1, k
  {
    if k > 0 {
      FieldsFit(fields, vals, k - 1, start);
      FieldFits(fields[k - 1], vals, k - 1);
    }
  }

  lemma {:induction false} FieldFits(f: Field, vals: seq<Value>, k: nat)
    requires k < |vals| && MatchesField(f, vals, k)
    ensures |EncodeField(f, vals, k)| <= SizeOfField(f)
    decreases f, 2
  {
    if f.shape.One? {
      ElemFits(f, vals[k]);
    } else {
      var n := EntryCount(f.shape, vals);
      ItemsFit(f, vals[k].items, n);
      MulMonotone(n, ArrayLen(f.shape), SizeOf(f.elem));
    }
  }

  lemma {:induction false} ElemFits(f: Field, v: Value)
    requires MatchesElem(f, v)
    ensures |EncodeElem(f, v)| <= SizeOf(f.elem)
    decreases f, 0
  {
    EncodingFits(f.elem, v);
  }

  lemma {:induction false} ItemsFit(f: Field, items: seq<Value>, n: nat)
    requires n <= |items|
    requires forall i | 0 <= i < n :: MatchesElem(f, items[i])
    ensures |EncodeItems(f, items, n)| <= n * SizeOf(f.elem)
    decreases f, 1, n
  {
    if n > 0 {
      ItemsFit(f, items, n - 1);
      ElemFits(f, items[n - 1]);
      MulStep(n, SizeOf(f.elem));
    }
  }

  lemma {:induction false} PayloadFits(variants: seq<Variant>, index: nat, vals: seq<Value>, k: nat)
    requires index < k <= |variants|
    requires |vals| == |variants[index].payload|
    requires MatchesFields(variants[index].payload, vals, |vals|)
    ensures |EncodePayload(variants[index], vals)| <= UnionEnd(variants, k)
    decreases variants, 1, k
  {
    if index == k - 1 {
      OnePayloadFits(variants[index], vals);
    } else {
      PayloadFits(variants, index, vals, k - 1);
    }
  }

  lemma {:induction false} OnePayloadFits(variant: Variant, vals: seq<Value>)
    requires |vals| == |variant.payload| && MatchesFields(variant.payload, vals, |vals|)
    ensures |EncodePayload(variant, vals)| <= PayloadSize(variant)
    decreases variant, 0
  {
    FieldsFit(variant.payload, vals, |vals|, 0);
  }

  lemma {:induction false} MulMonotone(a: nat, b: nat, c: nat)
    requires a <= b
    ensures a * c <= b * c
  {
  }

  lemma {:induction false} MulStep(n: nat, c: nat)
    requires n > 0
    ensures n * c == (n - 1) * c + c
  {
  }

  // ---- Tpm2bStruct ----

  // The result of `from_struct`, with a panic of the encoder made explicit.
  datatype Holding = Held(holder: Value) | NotHeld(error: Error) | HolderPanicked

  // What it comes to: the encoder's outcome on `size_of` the struct many zero
  // bytes. The cast of the written length to u16 is explicit.
  function FromStruct(s: Schema, v: Value): (r: Holding)
    requires Matches(s, v)
  {
    var code := Encode(s, v);
    match Expected(code, PayloadMask(s, v), SizeOf(s))
    case Written(n) => Held(Buffer(n % 0x1_0000, code + Zeros(SizeOf(s) - n)))
    case Refused(e) => NotHeld(e)
    case Panic => HolderPanicked
  }

  // `from_struct`: the default holder, its buffer filled by `try_marshal`.
  method MarshalIntoHolder(s: Schema, v: Value) returns (r: Holding)
    requires Matches(s, v)
    ensures r == FromStruct(s, v)
  {
    var buffer := new byte[SizeOf(s)](_ => 0);
    assert buffer[..] == Zeros(SizeOf(s));
    var written := TryMarshal(s, v, buffer, 0);
    if written.Written? {
      WrittenOverZeros(SizeOf(s), Encode(s, v));
    }
    match written
    case Panic => r := HolderPanicked;
    case Refused(e) => r := NotHeld(e);
    case Written(n) => r := Held(Buffer(n % 0x1_0000, buffer[..]));
  }

  lemma {:induction false} WrittenOverZeros(size: nat, code: seq<byte>)
    requires |code| <= size
    ensures WriteAt(Zeros(size), 0, code) == code + Zeros(size - |code|)
  {
  }

  // `to_struct`: decodes the part of the buffer that `size` covers.
  function ToStruct(s: Schema, holder: Value): (r: Parse<Value>)
    requires Valid(s)
    requires holder.Buffer? && holder.size <= |holder.bytes|
  {
    Decode(s, holder.bytes[..holder.size])
  }

  // A struct of at most 65535 bytes is always held: the encoder has room, the
  // cast loses nothing, and the struct comes back in normal form with no byte
  // left.
  lemma {:induction false} HolderRoundTrip(s: Schema, v: Value)
    requires Valid(s) && Matches(s, v)
    requires SizeOf(s) < 0x1_0000
    ensures FromStruct(s, v).Held?
    ensures var holder := FromStruct(s, v).holder;
            && Matches(Tpm2b(SizeOf(s)), holder)
            && holder.size == |Encode(s, v)|
            && ToStruct(s, holder) == Parsed(Normalize(s, v), [])
  {
    EncodingFits(s, v);
    var code := Encode(s, v);
    HolderOf(SizeOf(s), code);
    RoundTrip(s, v, []);
    assert code + [] == code;
  }

  lemma {:induction false} HolderOf(max: nat, code: seq<byte>)
    requires |code| <= max < 0x1_0000
    ensures var holder := Buffer(|code| % 0x1_0000, code + Zeros(max - |code|));
            && holder.size == |code|
            && Matches(Tpm2b(max), holder)
            && holder.bytes[..holder.size] == code
  {
  }
}
