// The wire format byte by byte: what each kind of type looks like on the wire, and
// what a decoder makes of bytes, in terms of the bytes alone.
module WireFormat {
  import opened ByteOrder
  import opened Schemas
  import opened Codec
  import opened CodecLaws

  // ---- Integers ----

  // The digits of `n` to base 256, most significant first; those of a negative
  // integer are its two's complement.
  ghost predicate Digits(b: seq<byte>, n: int) {
    forall i | 0 <= i < |b| :: b[i] == n / Pow256(|b| - 1 - i) % 256
  }

  lemma {:induction false} IntegerOnWire(width: nat, signed: bool, n: int)
    requires Matches(Prim(width, signed), Int(n))
    ensures |Encode(Prim(width, signed), Int(n))| == width && Digits(Encode(Prim(width, signed), Int(n)), n)
  {
    forall i | 0 <= i < width
      ensures Encode(Prim(width, signed), Int(n))[i] == n / Pow256(width - 1 - i) % 256
    {
      TwosComplementAt(width, signed, n, i);
    }
  }

  // The decoder returns the integer of the type's range that has these digits.
  lemma {:induction false} IntegerFromWire(width: nat, signed: bool, b: seq<byte>)
    requires IsPrimWidth(width)
    ensures match Decode(Prim(width, signed), b)
            case Failed(e) => |b| < width && e == Memory
            case Parsed(v, rest) =>
              && width <= |b| && rest == b[width..]
              && v.Int? && InRange(width, signed, v.n) && Digits(b[..width], v.n)
  {
    var s := Prim(width, signed);
    if width <= |b| {
      Canonical(s, b);
      var v := Decode(s, b).value;
      IntegerOnWire(width, signed, v.n);
      assert b[..width] == Encode(s, v);
    }
  }

  lemma {:induction false} SizeOnWire(n: nat)
    requires n < 0x1_0000
    ensures n / 256 < 256 && BeSize(n) == [n / 256, n % 256]
  {
    assert Pow256(2) == 0x1_0000;
    BeBytesAt(2, n, 0);
    BeBytesAt(2, n, 1);
    assert n / Pow256(0) == n;
  }

  // ---- TPM2B ----

  lemma {:induction false} Tpm2bOnWire(max: nat, v: Value)
    requires Matches(Tpm2b(max), v)
    ensures v.size / 256 < 256
    ensures Encode(Tpm2b(max), v) == [v.size / 256, v.size % 256] + v.bytes[..v.size]
  {
    SizeOnWire(v.size);
  }

  // The big-endian integer in the first two bytes.
  function TwoBytes(b: seq<byte>): (n: nat)
    requires |b| >= 2
  {
    var high: int, low: int := b[0], b[1];
    256 * high + low
  }

  // A size of two bytes, which the input must cover and the capacity hold; the
  // buffer is zero behind it.
  lemma {:induction false} Tpm2bFromWire(max: nat, b: seq<byte>)
    ensures match Decode(Tpm2b(max), b)
            case Failed(e) =>
              e == Memory && (|b| < 2 || |b| < 2 + TwoBytes(b) || TwoBytes(b) > max)
            case Parsed(v, rest) =>
              && |b| >= 2 && v.Buffer?
              && v.size == TwoBytes(b) <= max && 2 + v.size <= |b| && |v.bytes| == max
              && (forall i | 0 <= i < v.size :: v.bytes[i] == b[2 + i])
              && (forall i | v.size <= i < max :: v.bytes[i] == 0)
              && rest == b[2 + v.size..]
  {
    if |b| >= 2 {
      ShortValues(b[0], b[1], 0, 0);
      assert b[..2] == [b[0], b[1]];
    }
  }

  // ---- Structs and arrays ----

  // The parts one behind the other, from the front.
  function Concat(parts: seq<seq<byte>>): seq<byte> {
    if parts == [] then [] else parts[0] + Concat(parts[1..])
  }

  lemma {:induction false} ConcatSnoc(parts: seq<seq<byte>>, last: seq<byte>)
    ensures Concat(parts + [last]) == Concat(parts) + last
  {
    if parts == [] {
      assert [last][1..] == [] && parts + [last] == [last];
    } else {
      ConcatSnoc(parts[1..], last);
      assert (parts + [last])[1..] == parts[1..] + [last];
    }
  }

  // `code` is the values of `items`, the first `n` of them, in order.
  ghost predicate InOrder(elem: Schema, items: seq<Value>, n: nat, code: seq<byte>) {
    && n <= |items|
    && (forall i | 0 <= i < n :: Matches(elem, items[i]))
    && code == Concat(seq(n, i requires 0 <= i < n && Matches(elem, items[i]) => Encode(elem, items[i])))
  }

  // `count` is the integer `n` as a 64-bit `usize`.
  predicate CountsAs(n: int, count: nat) {
    count == if n >= 0 then n else 0x1_0000_0000_0000_0000 + n
  }

  // An array without attribute goes whole, one with a length as far as the field
  // that the length names says.
  ghost predicate FieldCode(f: Field, vals: seq<Value>, k: nat, code: seq<byte>)
    requires k < |vals|
  {
    match f.shape
    case One => Matches(f.elem, vals[k]) && code == Encode(f.elem, vals[k])
    case Fixed(len) => vals[k].List? && InOrder(f.elem, vals[k].items, len, code)
    case Counted(_, counter) =>
      && counter < k && vals[counter].Int? && vals[k].List?
      && exists count: nat | CountsAs(vals[counter].n, count) :: InOrder(f.elem, vals[k].items, count, code)
  }

  lemma {:induction false} ItemsInOrder(f: Field, items: seq<Value>, n: nat)
    requires n <= |items|
    requires forall i | 0 <= i < n :: MatchesElem(f, items[i])
    ensures InOrder(f.elem, items, n, EncodeItems(f, items, n))
  {
    assert forall i | 0 <= i < n :: MatchesElem(f, items[i]) ==> Matches(f.elem, items[i]);
    var codes := seq(n, i requires 0 <= i < n && Matches(f.elem, items[i]) => Encode(f.elem, items[i]));
    if n > 0 {
      ItemsInOrder(f, items, n - 1);
      var front :=
        seq(n - 1, i requires 0 <= i < n - 1 && Matches(f.elem, items[i]) => Encode(f.elem, items[i]));
      assert codes == front + [EncodeElem(f, items[n - 1])];
      ConcatSnoc(front, EncodeElem(f, items[n - 1]));
    }
  }

  // A counter is an integer of at most 64 bits, so that the cast to `usize` is
  // that of CountsAs.
  lemma {:induction false} CounterCounts(fields: seq<Field>, vals: seq<Value>, k: nat)
    requires ValidFields(fields) && k < |fields| == |vals| && MatchesFields(fields, vals, |fields|)
    requires fields[k].shape.Counted?
    ensures var c := fields[k].shape.counter;
            c < k && vals[c].Int? && CountsAs(vals[c].n, EntryCount(fields[k].shape, vals))
  {
    assert ValidField(fields[k]) && ValidShape(fields, k) && MatchesField(fields[k], vals, k);
    var c := fields[k].shape.counter;
    assert ValidField(fields[c]) && MatchesField(fields[c], vals, c) && MatchesElem(fields[c], vals[c]);
    IntegerInRange(fields[c].elem, vals[c]);
    AsUsizeOf(fields[c].elem.width, fields[c].elem.signed, vals[c].n);
  }

  lemma {:induction false} IntegerInRange(s: Schema, v: Value)
    requires s.Prim? && Valid(s) && Matches(s, v)
    ensures IsPrimWidth(s.width) && v.Int? && InRange(s.width, s.signed, v.n)
  {
  }

  lemma {:induction false} FieldHasCode(fields: seq<Field>, vals: seq<Value>, k: nat)
    requires ValidFields(fields) && k < |fields| == |vals| && MatchesFields(fields, vals, |fields|)
    requires MatchesField(fields[k], vals, k)
    ensures FieldCode(fields[k], vals, k, EncodeField(fields[k], vals, k))
  {
    var f := fields[k];
    if f.shape.One? {
      assert MatchesElem(f, vals[k]);
    } else {
      var n := EntryCount(f.shape, vals);
      ItemsInOrder(f, vals[k].items, n);
      if f.shape.Counted? {
        CounterCounts(fields, vals, k);
      }
    }
  }

  // `codes` are those of the first fields.
  ghost predicate FirstCodes(fields: seq<Field>, vals: seq<Value>, codes: seq<seq<byte>>) {
    && |codes| <= |fields| == |vals|
    && forall k | 0 <= k < |codes| :: FieldCode(fields[k], vals, k, codes[k])
  }

  // A struct is its fields in declaration order.
  lemma {:induction false} StructOnWire(fields: seq<Field>, vals: seq<Value>) returns (codes: seq<seq<byte>>)
    requires Valid(Struct(fields)) && Matches(Struct(fields), Record(vals))
    ensures |codes| == |fields| && FirstCodes(fields, vals, codes)
    ensures Encode(Struct(fields), Record(vals)) == Concat(codes)
  {
    codes := FieldCodes(fields, vals, |fields|);
  }

  lemma {:induction false} FieldCodes(fields: seq<Field>, vals: seq<Value>, n: nat) returns (codes: seq<seq<byte>>)
    requires ValidFields(fields) && n <= |fields| == |vals| && MatchesFields(fields, vals, |fields|)
    ensures MatchesFields(fields, vals, n) && |codes| == n && FirstCodes(fields, vals, codes)
    ensures EncodeFields(fields, vals, n) == Concat(codes)
  {
    if n == 0 {
      return [];
    }
    var front := FieldCodes(fields, vals, n - 1);
    assert MatchesField(fields[n - 1], vals, n - 1);
    var last := EncodeField(fields[n - 1], vals, n - 1);
    FieldHasCode(fields, vals, n - 1);
    OneCodeMore(fields, vals, front, last);
    codes := front + [last];
    ConcatSnoc(front, last);
  }

  lemma {:induction false} OneCodeMore(fields: seq<Field>, vals: seq<Value>, codes: seq<seq<byte>>, last: seq<byte>)
    requires FirstCodes(fields, vals, codes) && |codes| < |fields|
    requires FieldCode(fields[|codes|], vals, |codes|, last)
    ensures FirstCodes(fields, vals, codes + [last])
  {
  }

  // What the decoder makes of an array: Size for a count above its length,
  // whatever follows; else as many entries as counted, and defaults behind them.
  lemma {:induction false} ArrayFromWire(f: Field, known: seq<Value>, b: seq<byte>, n: nat)
    requires ValidField(f) && !f.shape.One?
    requires match f.shape
             case Fixed(len) => n == len
             case Counted(_, c) =>
               c < |known| && known[c].Int? && known[c].n < 0x1_0000_0000_0000_0000 && CountsAs(known[c].n, n)
    ensures var len := if f.shape.Fixed? then f.shape.len else f.shape.max;
            if n > len then DecodeField(f, known, b) == Failed(Error.Size)
            else
              match DecodeField(f, known, b)
              case Failed(e) => DecodeItems(f, b, n) == Failed(e)
              case Parsed(v, rest) =>
                && v.List? && |v.items| == len && DecodeItems(f, b, n) == Parsed(v.items[..n], rest)
                && forall i | n <= i < len :: v.items[i] == Default(f.elem)
  {
    var count := EntryCount(f.shape, known);
    assert count == n;
    if n <= ArrayLen(f.shape) {
      var items := DecodeItems(f, b, n);
      if items.Parsed? {
        assert PadItems(f, items.value)[..n] == items.value;
      }
    }
  }

  // ---- Enums ----

  // Leading fields, selector, middle fields and the data of the variant.
  lemma {:induction false} TaggedOnWire(s: Schema, v: Value)
    requires s.Tagged? && Matches(s, v)
    ensures Matches(Struct(s.before), Record(v.before)) && Matches(Struct(s.middle), Record(v.middle))
    ensures var variant := s.variants[v.index];
            && Matches(Struct(variant.payload), Record(v.payload))
            && Encode(s, v) == Encode(Struct(s.before), Record(v.before)) + BeBytes(s.tagWidth, variant.selector)
                               + Encode(Struct(s.middle), Record(v.middle))
                               + Encode(Struct(variant.payload), Record(v.payload))
  {
  }

  // ---- What decides when decoding fails ----

  // The leading fields, the selector, the middle fields, then whether the selector
  // is that of a variant, then its data: the first that fails gives the error.
  lemma {:induction false} TaggedFromWire(s: Schema, b: seq<byte>)
    requires s.Tagged? && Valid(s)
    ensures Valid(Struct(s.before)) && Valid(Struct(s.middle))
    ensures match Decode(Struct(s.before), b)
            case Failed(e) => Decode(s, b) == Failed(e)
            case Parsed(before, b1) =>
              if |b1| < s.tagWidth then Decode(s, b) == Failed(Memory)
              else
                match Decode(Struct(s.middle), b1[s.tagWidth..])
                case Failed(e) => Decode(s, b) == Failed(e)
                case Parsed(middle, b2) =>
                  before.Record? && middle.Record?
                  && VariantFromWire(s.variants, BeValue(b1[..s.tagWidth]), b2, before.vals, middle.vals, Decode(s, b))
  {
    var head := DecodeHead(s, b);
    if head.Parsed? {
      forall i | 0 <= i < |s.variants| && s.variants[i].selector == head.value.selector
        ensures FindVariant(s.variants, head.value.selector, 0) == Some(i)
        ensures ValidFields(s.variants[i].payload)
      {
        FindsVariant(s.variants, i, 0);
      }
    }
  }

  ghost predicate VariantFromWire(variants: seq<Variant>, selector: nat, b: seq<byte>, before: seq<Value>,
                                  middle: seq<Value>, r: Parse<Value>)
  {
    if forall i | 0 <= i < |variants| :: variants[i].selector != selector then r == Failed(Selector)
    else
      forall i | 0 <= i < |variants| && variants[i].selector == selector ::
        PayloadFromWire(variants[i].payload, i, b, before, middle, r)
  }

  ghost predicate PayloadFromWire(payload: seq<Field>, index: nat, b: seq<byte>, before: seq<Value>,
                                  middle: seq<Value>, r: Parse<Value>)
  {
    Valid(Struct(payload)) &&
    match Decode(Struct(payload), b)
    case Failed(e) => r == Failed(e)
    case Parsed(v, rest) => v.Record? && r == Parsed(Chosen(before, middle, index, v.vals), rest)
  }

  // A struct fails where the first of its fields does.
  lemma {:induction false} StructFails(fields: seq<Field>, b: seq<byte>, n: nat) returns (k: nat)
    requires ValidFields(fields) && n <= |fields| && DecodeFields(fields, b, n).Failed?
    ensures k < n && DecodeFields(fields, b, k).Parsed?
    ensures var known := DecodeFields(fields, b, k);
            && ValidField(fields[k]) && ValidShape(fields, k)
            && DecodeField(fields[k], known.value, known.rest) == Failed(DecodeFields(fields, b, n).error)
  {
    assert ValidField(fields[n - 1]) && ValidShape(fields, n - 1);
    if DecodeFields(fields, b, n - 1).Parsed? {
      k := n - 1;
    } else {
      k := StructFails(fields, b, n - 1);
    }
  }

  // An array fails where the first of its entries does.
  lemma {:induction false} ItemsFail(f: Field, b: seq<byte>, n: nat) returns (i: nat)
    requires ValidField(f) && DecodeItems(f, b, n).Failed?
    ensures i < n && DecodeItems(f, b, i).Parsed?
    ensures Decode(f.elem, DecodeItems(f, b, i).rest) == Failed(DecodeItems(f, b, n).error)
  {
    if DecodeItems(f, b, n - 1).Parsed? {
      i := n - 1;
      assert DecodeElem(f, DecodeItems(f, b, i).rest) == Decode(f.elem, DecodeItems(f, b, i).rest);
    } else {
      i := ItemsFail(f, b, n - 1);
    }
  }
}
