// The laws of the codec, for every valid schema.
module CodecLaws {
  import opened ByteOrder
  import opened Schemas
  import opened Codec

  // ---- Round trip ----

  // Decoding an encoding followed by anything gives back the value, up to the
  // parts a length field or size excludes, and leaves exactly what followed.
  lemma {:induction false} RoundTrip(s: Schema, v: Value, tail: seq<byte>)
    requires Valid(s) && Matches(s, v)
    ensures Decode(s, Encode(s, v) + tail) == Parsed(Normalize(s, v), tail)
    decreases s, 2
  {
    match s
    case Prim(width, signed) =>
      var code := Encode(s, v);
      assert (code + tail)[..width] == code && (code + tail)[width..] == tail;
    case ByteArray(len) =>
      assert (v.bytes + tail)[..len] == v.bytes && (v.bytes + tail)[len..] == tail;
    case Tpm2b(max) => RoundTripTpm2b(max, v, tail);
    case Struct(fields) => RoundTripFields(fields, v.vals, |fields|, tail);
    case Tagged(_, _, _, _) => RoundTripTagged(s, v, tail);
  }

  lemma {:induction false} RoundTripTpm2b(max: nat, v: Value, tail: seq<byte>)
    requires Matches(Tpm2b(max), v)
    ensures DecodeTpm2b(max, BeSize(v.size) + v.bytes[..v.size] + tail)
         == Parsed(Buffer(v.size, v.bytes[..v.size] + Zeros(max - v.size)), tail)
  {
    var b := BeSize(v.size) + v.bytes[..v.size] + tail;
    assert b[..2] == BeSize(v.size);
    assert b[2..2 + v.size] == v.bytes[..v.size] && b[2 + v.size..] == tail;
  }

  lemma {:induction false} RoundTripTagged(s: Schema, v: Value, tail: seq<byte>)
    requires s.Tagged? && Valid(s) && Matches(s, v)
    ensures Decode(s, Encode(s, v) + tail) == Parsed(Normalize(s, v), tail)
    decreases s, 1
  {
    var variant := s.variants[v.index];
    var head, payload := EncodeHead(s, HeadOf(s, v)), EncodePayload(variant, v.payload);
    assert Encode(s, v) + tail == head + (payload + tail);
    RoundTripHead(s, HeadOf(s, v), payload + tail);
    FindsVariant(s.variants, v.index, 0);
    RoundTripPayload(variant, v.payload, tail);
  }

  lemma {:induction false} RoundTripHead(s: Schema, h: Head, tail: seq<byte>)
    requires s.Tagged? && Valid(s) && MatchesHead(s, h)
    ensures DecodeHead(s, EncodeHead(s, h) + tail) == Parsed(NormalizeHead(s, h), tail)
    decreases s, 0
  {
    var tag := BeBytes(s.tagWidth, h.selector);
    var before := EncodeFields(s.before, h.before, |s.before|);
    var middle := EncodeFields(s.middle, h.middle, |s.middle|);
    assert EncodeHead(s, h) + tail == before + (tag + (middle + tail));
    RoundTripFields(s.before, h.before, |s.before|, tag + (middle + tail));
    assert (tag + (middle + tail))[..s.tagWidth] == tag;
    assert (tag + (middle + tail))[s.tagWidth..] == middle + tail;
    RoundTripFields(s.middle, h.middle, |s.middle|, tail);
  }

  lemma {:induction false} RoundTripPayload(variant: Variant, vals: seq<Value>, tail: seq<byte>)
    requires ValidFields(variant.payload)
    requires |vals| == |variant.payload| && MatchesFields(variant.payload, vals, |vals|)
    ensures DecodePayload(variant, EncodePayload(variant, vals) + tail)
         == Parsed(NormalizePayload(variant, vals), tail)
    decreases variant, 0
  {
    RoundTripFields(variant.payload, vals, |vals|, tail);
  }

  lemma {:induction false} RoundTripFields(fields: seq<Field>, vals: seq<Value>, k: nat, tail: seq<byte>)
    requires ValidFields(fields) && MatchesFields(fields, vals, k)
    ensures DecodeFields(fields, EncodeFields(fields, vals, k) + tail, k)
         == Parsed(NormalizeFields(fields, vals, k), tail)
    decreases fields, 1, k
  {
    if k == 0 {
      assert EncodeFields(fields, vals, k) + tail == tail;
    } else {
      var f := fields[k - 1];
      assert ValidField(f) && ValidShape(fields, k - 1) && MatchesField(f, vals, k - 1);
      var last := EncodeField(f, vals, k - 1);
      assert EncodeFields(fields, vals, k) + tail == EncodeFields(fields, vals, k - 1) + (last + tail);
      RoundTripFields(fields, vals, k - 1, last + tail);
      RoundTripField(f, vals, NormalizeFields(fields, vals, k - 1), k - 1, tail);
    }
  }

  // `known` is what the decoder has read so far; only the length field matters.
  lemma {:induction false} RoundTripField(f: Field, vals: seq<Value>, known: seq<Value>, k: nat, tail: seq<byte>)
    requires ValidField(f)
    requires k < |vals| && MatchesField(f, vals, k)
    requires f.shape.Counted? ==>
               f.shape.counter < |known| && known[f.shape.counter] == vals[f.shape.counter]
    ensures DecodeField(f, known, EncodeField(f, vals, k) + tail)
         == Parsed(NormalizeField(f, vals, k), tail)
    decreases f, 2
  {
    if f.shape.One? {
      RoundTripElem(f, vals[k], tail);
    } else {
      RoundTripItems(f, vals[k].items, EntryCount(f.shape, vals), tail);
    }
  }

  lemma {:induction false} RoundTripElem(f: Field, v: Value, tail: seq<byte>)
    requires ValidField(f) && MatchesElem(f, v)
    ensures DecodeElem(f, EncodeElem(f, v) + tail) == Parsed(NormalizeElem(f, v), tail)
    decreases f, 0
  {
    RoundTrip(f.elem, v, tail);
  }

  lemma {:induction false} RoundTripItems(f: Field, items: seq<Value>, n: nat, tail: seq<byte>)
    requires ValidField(f)
    requires n <= |items|
    requires forall i | 0 <= i < n :: MatchesElem(f, items[i])
    ensures DecodeItems(f, EncodeItems(f, items, n) + tail, n)
         == Parsed(NormalizeItems(f, items, n), tail)
    decreases f, 1, n
  {
    if n == 0 {
      assert EncodeItems(f, items, n) + tail == tail;
    } else {
      var last := EncodeElem(f, items[n - 1]);
      assert EncodeItems(f, items, n) + tail == EncodeItems(f, items, n - 1) + (last + tail);
      RoundTripItems(f, items, n - 1, last + tail);
      RoundTripElem(f, items[n - 1], tail);
    }
  }

  lemma {:induction false} NormalizeItemsAt(f: Field, items: seq<Value>, n: nat, k: nat)
    requires ValidField(f) && k < n <= |items|
    requires forall i | 0 <= i < n :: MatchesElem(f, items[i])
    ensures NormalizeItems(f, items, n)[k] == NormalizeElem(f, items[k])
  {
    if k < n - 1 {
      NormalizeItemsAt(f, items, n - 1, k);
    }
  }

  lemma {:induction false} NormalizeFieldsAt(fields: seq<Field>, vals: seq<Value>, k: nat, j: nat)
    requires ValidFields(fields) && MatchesFields(fields, vals, k) && j < k
    requires fields[j].shape.One?
    ensures MatchesElem(fields[j], vals[j]) && ValidField(fields[j])
    ensures NormalizeFields(fields, vals, k)[j] == NormalizeElem(fields[j], vals[j])
    decreases k
  {
    assert MatchesField(fields[j], vals, j) && ValidField(fields[j]);
    if j < k - 1 {
      NormalizeFieldsAt(fields, vals, k - 1, j);
    }
  }

  lemma {:induction false} FindsVariant(variants: seq<Variant>, index: nat, from: nat)
    requires from <= index < |variants|
    requires forall i, j | 0 <= i < j < |variants| :: variants[i].selector != variants[j].selector
    ensures FindVariant(variants, variants[index].selector, from) == Some(index)
    decreases index - from
  {
    if from < index {
      FindsVariant(variants, index, from + 1);
    }
  }

  // ---- Canonical form ----

  // Whatever the decoder accepts is the encoding of the value it returns, and
  // that value is already in normal form: no value has two encodings.
  lemma {:induction false} Canonical(s: Schema, b: seq<byte>)
    requires Valid(s) && Decode(s, b).Parsed?
    ensures var v := Decode(s, b).value;
            && Matches(s, v)
            && Normalize(s, v) == v
            && Encode(s, v) + Decode(s, b).rest == b
    decreases s, 2
  {
    var v := Decode(s, b).value;
    match s
    case Prim(_, _) => CanonicalPrim(s, b);
    case ByteArray(_) =>
    case Tpm2b(_) => CanonicalTpm2b(s, b);
    case Struct(fields) =>
      CanonicalFields(fields, b, |fields|, v.vals);
    case Tagged(_, _, _, _) => CanonicalTagged(s, b);
  }

  lemma {:induction false} CanonicalPrim(s: Schema, b: seq<byte>)
    requires s.Prim? && Valid(s) && Decode(s, b).Parsed?
    ensures Matches(s, Decode(s, b).value)
    ensures Encode(s, Decode(s, b).value) + Decode(s, b).rest == b
  {
    ToBitsOfBits(s.width, s.signed, BeValue(b[..s.width]));
    BeBytesOfValue(b[..s.width]);
  }

  lemma {:induction false} BeSizeOfValue(b: seq<byte>)
    requires |b| == 2
    ensures BeValue(b) < 0x1_0000 && BeSize(BeValue(b)) == b
  {
    assert Pow256(2) == 0x1_0000;
    BeBytesOfValue(b);
  }

  lemma {:induction false} CanonicalTpm2b(s: Schema, b: seq<byte>)
    requires s.Tpm2b? && Valid(s) && Decode(s, b).Parsed?
    ensures var v := Decode(s, b).value;
            && Matches(s, v)
            && Normalize(s, v) == v
            && Encode(s, v) + Decode(s, b).rest == b
  {
    var v := Decode(s, b).value;
    BeSizeOfValue(b[..2]);
    var size := v.size;
    assert v == Buffer(size, b[2..2 + size] + Zeros(s.max - size));
    assert v.bytes[..size] == b[2..2 + size];
    assert b == b[..2] + b[2..2 + size] + b[2 + size..];
  }

  lemma {:induction false} CanonicalTagged(s: Schema, b: seq<byte>)
    requires s.Tagged? && Valid(s) && Decode(s, b).Parsed?
    ensures var v := Decode(s, b).value;
            && Matches(s, v)
            && Normalize(s, v) == v
            && Encode(s, v) + Decode(s, b).rest == b
    decreases s, 1
  {
    var v := Decode(s, b).value;
    CanonicalHead(s, b);
    CanonicalPayload(s.variants[v.index], DecodeHead(s, b).rest);
  }

  lemma {:induction false} CanonicalHead(s: Schema, b: seq<byte>)
    requires s.Tagged? && Valid(s) && DecodeHead(s, b).Parsed?
    ensures var h := DecodeHead(s, b).value;
            && MatchesHead(s, h)
            && NormalizeHead(s, h) == h
            && EncodeHead(s, h) + DecodeHead(s, b).rest == b
    decreases s, 0
  {
    var h, rest := DecodeHead(s, b).value, DecodeHead(s, b).rest;
    CanonicalFields(s.before, b, |s.before|, h.before);
    var b1 := DecodeFields(s.before, b, |s.before|).rest;
    BeBytesOfValue(b1[..s.tagWidth]);
    CanonicalFields(s.middle, b1[s.tagWidth..], |s.middle|, h.middle);
    ThreeParts(EncodeFields(s.before, h.before, |s.before|), b1, s.tagWidth,
               EncodeFields(s.middle, h.middle, |s.middle|), rest);
  }

  lemma {:induction false} ThreeParts(before: seq<byte>, b1: seq<byte>, width: nat, middle: seq<byte>, rest: seq<byte>)
    requires width <= |b1| && middle + rest == b1[width..]
    ensures before + b1[..width] + middle + rest == before + b1
  {
    assert b1 == b1[..width] + (middle + rest);
  }

  lemma {:induction false} CanonicalPayload(variant: Variant, b: seq<byte>)
    requires ValidFields(variant.payload) && DecodePayload(variant, b).Parsed?
    ensures var vals := DecodePayload(variant, b).value;
            && |vals| == |variant.payload| && MatchesFields(variant.payload, vals, |vals|)
            && NormalizePayload(variant, vals) == vals
            && EncodePayload(variant, vals) + DecodePayload(variant, b).rest == b
    decreases variant, 0
  {
    CanonicalFields(variant.payload, b, |variant.payload|, DecodePayload(variant, b).value);
  }

  // `vals` is the whole struct; its first `k` values are the decoded ones.
  lemma {:induction false} CanonicalFields(fields: seq<Field>, b: seq<byte>, k: nat, vals: seq<Value>)
    requires ValidFields(fields) && k <= |fields|
    requires DecodeFields(fields, b, k).Parsed?
    requires DecodeFields(fields, b, k).value <= vals
    ensures MatchesFields(fields, vals, k)
    ensures NormalizeFields(fields, vals, k) == DecodeFields(fields, b, k).value
    ensures EncodeFields(fields, vals, k) + DecodeFields(fields, b, k).rest == b
    decreases fields, 1, k
  {
    if k > 0 {
      var f := fields[k - 1];
      assert ValidField(f) && ValidShape(fields, k - 1);
      var known := DecodeFields(fields, b, k - 1);
      CanonicalFields(fields, b, k - 1, vals);
      CanonicalField(f, known.value, known.rest, vals);
    }
  }

  lemma {:induction false} CanonicalField(f: Field, known: seq<Value>, b: seq<byte>, vals: seq<Value>)
    requires ValidField(f)
    requires f.shape.Counted? ==> f.shape.counter < |known| && known[f.shape.counter].Int?
    requires DecodeField(f, known, b).Parsed?
    requires known + [DecodeField(f, known, b).value] <= vals
    ensures var k := |known|;
            && MatchesField(f, vals, k)
            && NormalizeField(f, vals, k) == vals[k]
            && EncodeField(f, vals, k) + DecodeField(f, known, b).rest == b
    decreases f, 2
  {
    assert vals[|known|] == DecodeField(f, known, b).value;
    if f.shape.One? {
      CanonicalElem(f, b);
    } else {
      var n := EntryCount(f.shape, known);
      assert EntryCount(f.shape, vals) == n;
      CanonicalItems(f, b, n, vals[|known|].items);
      DefaultElemMatches(f);
    }
  }

  lemma {:induction false} CanonicalElem(f: Field, b: seq<byte>)
    requires ValidField(f) && DecodeElem(f, b).Parsed?
    ensures var v := DecodeElem(f, b).value;
            && MatchesElem(f, v)
            && NormalizeElem(f, v) == v
            && EncodeElem(f, v) + DecodeElem(f, b).rest == b
    decreases f, 0
  {
    Canonical(f.elem, b);
  }

  lemma {:induction false} CanonicalItems(f: Field, b: seq<byte>, n: nat, items: seq<Value>)
    requires ValidField(f) && DecodeItems(f, b, n).Parsed?
    requires DecodeItems(f, b, n).value <= items
    ensures forall i | 0 <= i < n :: MatchesElem(f, items[i])
    ensures NormalizeItems(f, items, n) == DecodeItems(f, b, n).value
    ensures EncodeItems(f, items, n) + DecodeItems(f, b, n).rest == b
    decreases f, 1, n
  {
    if n > 0 {
      var known := DecodeItems(f, b, n - 1);
      CanonicalItems(f, b, n - 1, items);
      CanonicalElem(f, known.rest);
      var v := DecodeElem(f, known.rest).value;
      assert items[n - 1] == v;
    }
  }

  // Defaults are values that encode without panicking.
  lemma {:induction false} DefaultMatches(s: Schema)
    requires Valid(s)
    ensures Matches(s, Default(s))
    decreases s, 0
  {
    match s
    case Prim(_, _) =>
    case ByteArray(_) =>
    case Tpm2b(_) =>
    case Struct(fields) => DefaultFieldsMatch(fields);
    case Tagged(before, _, middle, variants) =>
      DefaultFieldsMatch(before);
      DefaultFieldsMatch(middle);
      DefaultPayloadMatches(variants[0]);
  }

  lemma {:induction false} DefaultPayloadMatches(variant: Variant)
    requires ValidFields(variant.payload)
    ensures MatchesFields(variant.payload, DefaultFields(variant.payload), |variant.payload|)
    decreases variant, 0
  {
    DefaultFieldsMatch(variant.payload);
  }

  lemma {:induction false} DefaultFieldsMatch(fields: seq<Field>)
    requires ValidFields(fields)
    ensures MatchesFields(fields, DefaultFields(fields), |fields|)
    decreases fields, 0
  {
    var vals := DefaultFields(fields);
    forall k | 0 <= k < |fields|
      ensures MatchesField(fields[k], vals, k)
    {
      assert ValidField(fields[k]) && ValidShape(fields, k);
      DefaultFieldMatches(fields, k);
    }
  }

  lemma {:induction false} DefaultElemMatches(f: Field)
    requires ValidField(f)
    ensures MatchesElem(f, DefaultElem(f))
    decreases f, 0
  {
    DefaultMatches(f.elem);
  }

  lemma {:induction false} DefaultFieldMatches(fields: seq<Field>, k: nat)
    requires ValidFields(fields) && k < |fields|
    ensures MatchesField(fields[k], DefaultFields(fields), k)
    decreases fields[k], 1
  {
    var f := fields[k];
    assert ValidField(f) && ValidShape(fields, k);
    DefaultElemMatches(f);
    if f.shape.Counted? {
      var c := f.shape.counter;
      assert DefaultField(fields[c]) == DefaultElem(fields[c]) == Default(fields[c].elem) == Int(0);
    }
  }
}
