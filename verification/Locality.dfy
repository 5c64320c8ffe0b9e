// Decoding is local: it looks only at the bytes it consumes, and encodings are
// prefix-free.
module Locality {
  import opened ByteOrder
  import opened Schemas
  import opened Codec
  import opened CodecLaws

  // How a result may change when `tail` is appended to the input: a success
  // hands the tail back, and only a shortage of bytes can be cured by more.
  ghost predicate SameWithTail<T>(r: Parse<T>, longer: Parse<T>, tail: seq<byte>) {
    match r
    case Parsed(v, rest) => longer == Parsed(v, rest + tail)
    case Failed(e) => e != Memory ==> longer == Failed(e)
  }

  lemma {:induction false} DecodeIsLocal(s: Schema, b: seq<byte>, tail: seq<byte>)
    requires Valid(s)
    ensures SameWithTail(Decode(s, b), Decode(s, b + tail), tail)
    decreases s, 2
  {
    match s
    case Prim(width, _) =>
      if |b| >= width {
        assert (b + tail)[..width] == b[..width];
      }
    case ByteArray(len) =>
      if |b| >= len {
        assert (b + tail)[..len] == b[..len];
      }
    case Tpm2b(max) => LocalTpm2b(max, b, tail);
    case Struct(fields) => LocalFields(fields, b, |fields|, tail);
    case Tagged(_, _, _, _) => LocalTagged(s, b, tail);
  }

  lemma {:induction false} LocalTpm2b(max: nat, b: seq<byte>, tail: seq<byte>)
    ensures SameWithTail(DecodeTpm2b(max, b), DecodeTpm2b(max, b + tail), tail)
  {
    if |b| >= 2 {
      assert (b + tail)[..2] == b[..2];
      var size := BeValue(b[..2]);
      if |b| >= 2 + size {
        assert (b + tail)[2..2 + size] == b[2..2 + size];
        assert (b + tail)[2 + size..] == b[2 + size..] + tail;
      }
    }
  }

  lemma {:induction false} LocalTagged(s: Schema, b: seq<byte>, tail: seq<byte>)
    requires s.Tagged? && Valid(s)
    ensures SameWithTail(Decode(s, b), Decode(s, b + tail), tail)
    decreases s, 1
  {
    LocalHead(s, b, tail);
    var head := DecodeHead(s, b);
    if head.Parsed? {
      var found := FindVariant(s.variants, head.value.selector, 0);
      if found.Some? {
        LocalPayload(s.variants[found.value], head.rest, tail);
      }
    }
  }

  lemma {:induction false} LocalHead(s: Schema, b: seq<byte>, tail: seq<byte>)
    requires s.Tagged? && Valid(s)
    ensures SameWithTail(DecodeHead(s, b), DecodeHead(s, b + tail), tail)
    decreases s, 0
  {
    LocalFields(s.before, b, |s.before|, tail);
    var before := DecodeFields(s.before, b, |s.before|);
    if before.Parsed? && |before.rest| >= s.tagWidth {
      assert (before.rest + tail)[..s.tagWidth] == before.rest[..s.tagWidth];
      assert (before.rest + tail)[s.tagWidth..] == before.rest[s.tagWidth..] + tail;
      LocalFields(s.middle, before.rest[s.tagWidth..], |s.middle|, tail);
    }
  }

  lemma {:induction false} LocalPayload(variant: Variant, b: seq<byte>, tail: seq<byte>)
    requires ValidFields(variant.payload)
    ensures SameWithTail(DecodePayload(variant, b), DecodePayload(variant, b + tail), tail)
    decreases variant, 0
  {
    LocalFields(variant.payload, b, |variant.payload|, tail);
  }

  lemma {:induction false} LocalFields(fields: seq<Field>, b: seq<byte>, k: nat, tail: seq<byte>)
    requires ValidFields(fields) && k <= |fields|
    ensures SameWithTail(DecodeFields(fields, b, k), DecodeFields(fields, b + tail, k), tail)
    decreases fields, 1, k
  {
    if k > 0 {
      var f := fields[k - 1];
      assert ValidField(f) && ValidShape(fields, k - 1);
      LocalFields(fields, b, k - 1, tail);
      var known := DecodeFields(fields, b, k - 1);
      if known.Parsed? {
        if f.shape.One? {
          LocalElem(f, known.rest, tail);
        } else {
          LocalItems(f, known.rest, EntryCount(f.shape, known.value), tail);
        }
      }
    }
  }

  lemma {:induction false} LocalElem(f: Field, b: seq<byte>, tail: seq<byte>)
    requires ValidField(f)
    ensures SameWithTail(DecodeElem(f, b), DecodeElem(f, b + tail), tail)
    decreases f, 0
  {
    DecodeIsLocal(f.elem, b, tail);
  }

  lemma {:induction false} LocalItems(f: Field, b: seq<byte>, n: nat, tail: seq<byte>)
    requires ValidField(f)
    ensures SameWithTail(DecodeItems(f, b, n), DecodeItems(f, b + tail, n), tail)
    decreases f, 1, n
  {
    if n > 0 {
      LocalItems(f, b, n - 1, tail);
      var known := DecodeItems(f, b, n - 1);
      if known.Parsed? {
        LocalElem(f, known.rest, tail);
      }
    }
  }

  // Every strict prefix of an encoding is reported as too short.
  lemma {:induction false} StrictPrefixFails(s: Schema, v: Value, n: nat)
    requires Valid(s) && Matches(s, v)
    requires n < |Encode(s, v)|
    ensures Decode(s, Encode(s, v)[..n]) == Failed(Memory)
  {
    var code := Encode(s, v);
    DecodeIsLocal(s, code[..n], code[n..]);
    assert code[..n] + code[n..] == code == code + [];
    RoundTrip(s, v, []);
  }

  // No encoding is a prefix of another one: equal prefixes mean equal values.
  lemma {:induction false} PrefixFree(s: Schema, v: Value, w: Value)
    requires Valid(s) && Matches(s, v) && Matches(s, w)
    requires Encode(s, v) <= Encode(s, w)
    ensures Encode(s, v) == Encode(s, w) && Normalize(s, v) == Normalize(s, w)
  {
    var tail := Encode(s, w)[|Encode(s, v)|..];
    RoundTrip(s, v, tail);
    RoundTrip(s, w, []);
    assert Encode(s, v) + tail == Encode(s, w) == Encode(s, w) + [];
  }

  // What is left after decoding is a suffix of the input.
  lemma {:induction false} RestIsSuffix(s: Schema, b: seq<byte>)
    requires Valid(s) && Decode(s, b).Parsed?
    ensures var rest := Decode(s, b).rest; |rest| <= |b| && b[|b| - |rest|..] == rest
  {
    Canonical(s, b);
  }

  // A selector outside the variant set is refused once decoding reaches the
  // variant, whatever follows.
  lemma {:induction false} UnknownSelectorFails(s: Schema, h: Head, tail: seq<byte>)
    requires s.Tagged? && Valid(s) && MatchesHead(s, h)
    requires forall i | 0 <= i < |s.variants| :: s.variants[i].selector != h.selector
    ensures Decode(s, EncodeHead(s, h) + tail) == Failed(Selector)
  {
    RoundTripHead(s, h, tail);
  }
}
