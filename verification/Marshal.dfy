// The emitted encoders: code that writes into `&mut buffer[written..]`, field by
// field, with the panics that Rust's slice indexing raises made explicit.
module Marshal {
  import opened ByteOrder
  import opened Schemas
  import opened Codec

  datatype Outcome = Written(n: nat) | Refused(error: Error) | Panic

  // ---- Specification ----

  // Which bytes of an encoding are TPM2B payload.
  function PayloadMask(s: Schema, v: Value): (mask: seq<bool>)
    requires Matches(s, v)
    ensures |mask| == |Encode(s, v)|
    decreases s, 1
  {
    match s
    case Prim(width, _) => Same(width, false)
    case ByteArray(len) => Same(len, false)
    case Tpm2b(_) => Same(2, false) + Same(v.size, true)
    case Struct(fields) => MaskFields(fields, v.vals, |fields|)
    case Tagged(_, _, _, variants) =>
      MaskHead(s, HeadOf(s, v)) + MaskPayload(variants[v.index], v.payload)
  }

  function MaskHead(s: Schema, h: Head): (mask: seq<bool>)
    requires s.Tagged? && MatchesHead(s, h)
    ensures |mask| == |EncodeHead(s, h)|
    decreases s, 0
  {
    MaskFields(s.before, h.before, |s.before|)
    + Same(s.tagWidth, false)
    + MaskFields(s.middle, h.middle, |s.middle|)
  }

  function MaskPayload(variant: Variant, vals: seq<Value>): (mask: seq<bool>)
    requires |vals| == |variant.payload| && MatchesFields(variant.payload, vals, |vals|)
    ensures |mask| == |EncodePayload(variant, vals)|
    decreases variant, 0
  {
    MaskFields(variant.payload, vals, |vals|)
  }

  function MaskFields(fields: seq<Field>, vals: seq<Value>, k: nat): (mask: seq<bool>)
    requires MatchesFields(fields, vals, k)
    ensures |mask| == |EncodeFields(fields, vals, k)|
    decreases fields, 1, k
  {
    if k == 0 then [] else MaskFields(fields, vals, k - 1) + MaskField(fields[k - 1], vals, k - 1)
  }

  function MaskField(f: Field, vals: seq<Value>, k: nat): (mask: seq<bool>)
    requires k < |vals| && MatchesField(f, vals, k)
    ensures |mask| == |EncodeField(f, vals, k)|
    decreases f, 2
  {
    if f.shape.One? then MaskElem(f, vals[k])
    else MaskItems(f, vals[k].items, EntryCount(f.shape, vals))
  }

  function MaskElem(f: Field, v: Value): (mask: seq<bool>)
    requires MatchesElem(f, v)
    ensures |mask| == |EncodeElem(f, v)|
    decreases f, 0
  {
    PayloadMask(f.elem, v)
  }

  function MaskItems(f: Field, items: seq<Value>, n: nat): (mask: seq<bool>)
    requires n <= |items|
    requires forall i | 0 <= i < n :: MatchesElem(f, items[i])
    ensures |mask| == |EncodeItems(f, items, n)|
    decreases f, 1, n
  {
    if n == 0 then [] else MaskItems(f, items, n - 1) + MaskElem(f, items[n - 1])
  }

  function Same(n: nat, b: bool): (mask: seq<bool>)
    ensures |mask| == n
  {
    seq(n, _ => b)
  }

  // What writing `code` into `room` bytes comes to. When it does not fit, the
  // first byte without a place decides: the guard of a TPM2B payload compares
  // with `max` and lets the slice operation behind it panic.
  function Expected(code: seq<byte>, mask: seq<bool>, room: nat): Outcome
    requires |mask| == |code|
  {
    if |code| <= room then Written(|code|) else if mask[room] then Panic else Refused(Memory)
  }

  // Writing at `at` turned `before` into `after` with outcome `r`.
  ghost predicate Wrote(
    before: seq<byte>, after: seq<byte>, at: nat, code: seq<byte>, mask: seq<bool>, r: Outcome)
    requires |mask| == |code| && at <= |before|
  {
    && r == Expected(code, mask, |before| - at)
    && |after| == |before|
    && after[..at] == before[..at]
    && (r.Written? ==> after == WriteAt(before, at, code))
  }

  // After `code`, writing `code'` either extends what is written or, when it
  // fails, settles the outcome of the whole encoding.
  lemma {:induction false} WriteStep(
    b0: seq<byte>, b1: seq<byte>, b2: seq<byte>, at: nat, code: seq<byte>, mask: seq<bool>, code': seq<byte>,
    mask': seq<bool>, all: seq<byte>, allMask: seq<bool>, r: Outcome)
    requires |mask| == |code| && |mask'| == |code'| && |allMask| == |all| && at <= |b0|
    requires code + code' <= all && mask + mask' <= allMask
    requires Wrote(b0, b1, at, code, mask, Written(|code|))
    requires Wrote(b1, b2, at + |code|, code', mask', r)
    ensures r.Written? ==> Wrote(b0, b2, at, code + code', mask + mask', Written(|code| + r.n))
    ensures !r.Written? ==> Wrote(b0, b2, at, all, allMask, r)
  {
    assert b2[..at] == b2[..at + |code|][..at];
    if r.Written? {
      assert b1[..at + |code|] == b0[..at] + code;
      assert b1[at + |code| + |code'|..] == b0[at + |code| + |code'|..];
    } else {
      var i := |b0| - at;
      assert allMask[i] == (mask + mask')[i] == mask'[i - |code|];
    }
  }

  // `written += …?`: the outcome of a second part behind a first one of `n` bytes.
  function After(n: nat, r: Outcome): Outcome {
    if r.Written? then Written(n + r.n) else r
  }

  // Two parts, one behind the other.
  lemma {:induction false} Behind(
    n: nat, r: Outcome, b0: seq<byte>, b1: seq<byte>, b2: seq<byte>, at: nat, code: seq<byte>, mask: seq<bool>,
    code': seq<byte>, mask': seq<bool>)
    requires |mask| == |code| == n && |mask'| == |code'| && at <= |b0|
    requires Wrote(b0, b1, at, code, mask, Written(n)) && Wrote(b1, b2, at + n, code', mask', r)
    ensures Wrote(b0, b2, at, code + code', mask + mask', After(n, r))
  {
    WriteStep(b0, b1, b2, at, code, mask, code', mask', code + code', mask + mask', r);
  }

  lemma {:induction false} RoomBehind(
    b0: seq<byte>, b1: seq<byte>, at: nat, code: seq<byte>, mask: seq<bool>, n: nat)
    requires |mask| == |code| && at <= |b0| && Wrote(b0, b1, at, code, mask, Written(n))
    ensures n == |code| && at + n <= |b1| == |b0|
  {
  }

  lemma {:induction false} NothingYet(b: seq<byte>, at: nat)
    requires at <= |b|
    ensures Wrote(b, b, at, [], [], Written(0))
  {
  }

  // A write that failed would have failed with more to write behind it.
  lemma {:induction false} FailsEarly(
    b0: seq<byte>, b1: seq<byte>, at: nat, code: seq<byte>, mask: seq<bool>, all: seq<byte>, allMask: seq<bool>,
    r: Outcome)
    requires |mask| == |code| && |allMask| == |all| && at <= |b0|
    requires code <= all && mask <= allMask
    requires !r.Written? && Wrote(b0, b1, at, code, mask, r)
    ensures Wrote(b0, b1, at, all, allMask, r)
  {
  }

  lemma {:induction false} FieldsPrefix(fields: seq<Field>, vals: seq<Value>, j: nat, k: nat)
    requires MatchesFields(fields, vals, k) && j <= k
    ensures MatchesFields(fields, vals, j)
    ensures EncodeFields(fields, vals, j) <= EncodeFields(fields, vals, k)
    ensures MaskFields(fields, vals, j) <= MaskFields(fields, vals, k)
    decreases k
  {
    if j < k {
      FieldsPrefix(fields, vals, j, k - 1);
    }
  }

  lemma {:induction false} ItemsPrefix(f: Field, items: seq<Value>, j: nat, n: nat)
    requires j <= n <= |items|
    requires forall i | 0 <= i < n :: MatchesElem(f, items[i])
    ensures EncodeItems(f, items, j) <= EncodeItems(f, items, n)
    ensures MaskItems(f, items, j) <= MaskItems(f, items, n)
    decreases n
  {
    if j < n {
      ItemsPrefix(f, items, j, n - 1);
      assert EncodeItems(f, items, n - 1) <= EncodeItems(f, items, n);
      assert MaskItems(f, items, n - 1) <= MaskItems(f, items, n);
    }
  }

  lemma {:induction false} NoFieldYet(fields: seq<Field>, vals: seq<Value>, b: seq<byte>, at: nat)
    requires at <= |b|
    ensures MatchesFields(fields, vals, 0)
    ensures Wrote(b, b, at, EncodeFields(fields, vals, 0), MaskFields(fields, vals, 0), Written(0))
  {
  }

  lemma {:induction false} FieldsStep(
    fields: seq<Field>, vals: seq<Value>, k: nat, b0: seq<byte>, b1: seq<byte>, b2: seq<byte>, at: nat, r: Outcome)
    requires MatchesFields(fields, vals, |fields|) && k < |fields| && at <= |b0|
    requires MatchesFields(fields, vals, k) && MatchesField(fields[k], vals, k)
    requires Wrote(b0, b1, at, EncodeFields(fields, vals, k), MaskFields(fields, vals, k),
                   Written(|EncodeFields(fields, vals, k)|))
    requires Wrote(b1, b2, at + |EncodeFields(fields, vals, k)|,
                   EncodeField(fields[k], vals, k), MaskField(fields[k], vals, k), r)
    ensures MatchesFields(fields, vals, k + 1)
    ensures r.Written? ==>
              Wrote(b0, b2, at, EncodeFields(fields, vals, k + 1), MaskFields(fields, vals, k + 1),
                    Written(|EncodeFields(fields, vals, k)| + r.n))
    ensures !r.Written? ==>
              Wrote(b0, b2, at, EncodeFields(fields, vals, |fields|), MaskFields(fields, vals, |fields|), r)
  {
    FieldsPrefix(fields, vals, k + 1, |fields|);
    WriteStep(b0, b1, b2, at, EncodeFields(fields, vals, k), MaskFields(fields, vals, k),
              EncodeField(fields[k], vals, k), MaskField(fields[k], vals, k),
              EncodeFields(fields, vals, |fields|), MaskFields(fields, vals, |fields|), r);
  }

  lemma {:induction false} ItemsStep(
    f: Field, items: seq<Value>, n: nat, i: nat, b0: seq<byte>, b1: seq<byte>, b2: seq<byte>, at: nat, r: Outcome)
    requires i < n <= |items| && at <= |b0|
    requires forall j | 0 <= j < n :: MatchesElem(f, items[j])
    requires Wrote(b0, b1, at, EncodeItems(f, items, i), MaskItems(f, items, i),
                   Written(|EncodeItems(f, items, i)|))
    requires Wrote(b1, b2, at + |EncodeItems(f, items, i)|,
                   EncodeElem(f, items[i]), MaskElem(f, items[i]), r)
    ensures r.Written? ==>
              Wrote(b0, b2, at, EncodeItems(f, items, i + 1), MaskItems(f, items, i + 1),
                    Written(|EncodeItems(f, items, i)| + r.n))
    ensures !r.Written? ==>
              Wrote(b0, b2, at, EncodeItems(f, items, n), MaskItems(f, items, n), r)
  {
    ItemsPrefix(f, items, i + 1, n);
    WriteStep(b0, b1, b2, at, EncodeItems(f, items, i), MaskItems(f, items, i),
              EncodeElem(f, items[i]), MaskElem(f, items[i]),
              EncodeItems(f, items, n), MaskItems(f, items, n), r);
  }

  // ---- The writers ----

  // `[u8; M]::try_marshal`, through which integers are written as well.
  method WriteBytes(data: seq<byte>, buffer: array<byte>, at: nat) returns (r: Outcome)
    requires at <= buffer.Length
    modifies buffer
    ensures Wrote(old(buffer[..]), buffer[..], at, data, Same(|data|, false), r)
  {
    if buffer.Length - at < |data| {
      return Refused(Memory);
    }
    forall i | 0 <= i < |data| {
      buffer[at + i] := data[i];
    }
    return Written(|data|);
  }

  method MarshalTpm2b(max: nat, v: Value, buffer: array<byte>, at: nat) returns (r: Outcome)
    requires Matches(Tpm2b(max), v)
    requires at <= buffer.Length
    modifies buffer
    ensures Wrote(old(buffer[..]), buffer[..], at,
                  Encode(Tpm2b(max), v), PayloadMask(Tpm2b(max), v), r)
  {
    ghost var b0 := buffer[..];
    var payload := v.bytes[..v.size];
    var used := WriteBytes(BeSize(v.size), buffer, at);
    if !used.Written? {
      return used;
    }
    assert v.size <= max;  // so the guard on max(MAX_BUFFER_SIZE, rest.len()) lets it pass
    ghost var b1 := buffer[..];
    r := CopyFromSlice(payload, buffer, at + 2);
    WriteStep(b0, b1, buffer[..], at, BeSize(v.size), Same(2, false), payload, Same(v.size, true),
              Encode(Tpm2b(max), v), PayloadMask(Tpm2b(max), v), r);
    if r.Written? {
      r := Written(2 + v.size);
    }
  }

  // `rest[..data.len()].copy_from_slice(data)`, which panics on a short slice.
  method CopyFromSlice(data: seq<byte>, buffer: array<byte>, at: nat) returns (r: Outcome)
    requires at <= buffer.Length
    modifies buffer
    ensures Wrote(old(buffer[..]), buffer[..], at, data, Same(|data|, true), r)
  {
    if buffer.Length - at < |data| {
      return Panic;
    }
    forall i | 0 <= i < |data| {
      buffer[at + i] := data[i];
    }
    return Written(|data|);
  }

  method TryMarshal(s: Schema, v: Value, buffer: array<byte>, at: nat) returns (r: Outcome)
    requires Matches(s, v)
    requires at <= buffer.Length
    modifies buffer
    ensures Wrote(old(buffer[..]), buffer[..], at, Encode(s, v), PayloadMask(s, v), r)
    decreases s, 3
  {
    match s
    case Prim(width, signed) =>
      r := WriteBytes(BeBytes(width, ToBits(width, signed, v.n)), buffer, at);
    case ByteArray(_) =>
      r := WriteBytes(v.bytes, buffer, at);
    case Tpm2b(max) =>
      r := MarshalTpm2b(max, v, buffer, at);
    case Struct(fields) =>
      r := MarshalFields(fields, v.vals, buffer, at);
    case Tagged(_, _, _, _) =>
      r := MarshalTagged(s, v, buffer, at);
  }

  // The plain fields and the selector between them, then the variant's own data.
  method MarshalTagged(s: Schema, v: Value, buffer: array<byte>, at: nat) returns (r: Outcome)
    requires s.Tagged? && Matches(s, v)
    requires at <= buffer.Length
    modifies buffer
    ensures Wrote(old(buffer[..]), buffer[..], at, Encode(s, v), PayloadMask(s, v), r)
    decreases s, 2
  {
    ghost var b0 := buffer[..];
    var head := MarshalHead(s, HeadOf(s, v), buffer, at);
    if !head.Written? {
      HeadFails(s, v, b0, buffer[..], at, head);
      return head;
    }
    ghost var b1 := buffer[..];
    r := MarshalVariant(s.variants[v.index], v.payload, buffer, at + head.n);
    VariantStep(s, v, b0, b1, buffer[..], at, head.n, r);
    r := After(head.n, r);
  }

  lemma {:induction false} HeadFails(s: Schema, v: Value, b0: seq<byte>, b1: seq<byte>, at: nat, r: Outcome)
    requires s.Tagged? && Matches(s, v) && at <= |b0| && !r.Written?
    requires Wrote(b0, b1, at, EncodeHead(s, HeadOf(s, v)), MaskHead(s, HeadOf(s, v)), r)
    ensures Wrote(b0, b1, at, Encode(s, v), PayloadMask(s, v), r)
  {
    var variant := s.variants[v.index];
    FailsEarly(b0, b1, at, EncodeHead(s, HeadOf(s, v)), MaskHead(s, HeadOf(s, v)),
               EncodeHead(s, HeadOf(s, v)) + EncodePayload(variant, v.payload),
               MaskHead(s, HeadOf(s, v)) + MaskPayload(variant, v.payload), r);
  }

  lemma {:induction false} VariantStep(
    s: Schema, v: Value, b0: seq<byte>, b1: seq<byte>, b2: seq<byte>, at: nat, n: nat, r: Outcome)
    requires s.Tagged? && Matches(s, v) && at <= |b0| && n == |EncodeHead(s, HeadOf(s, v))|
    requires Wrote(b0, b1, at, EncodeHead(s, HeadOf(s, v)), MaskHead(s, HeadOf(s, v)), Written(n))
    requires var variant := s.variants[v.index];
             Wrote(b1, b2, at + n, EncodePayload(variant, v.payload), MaskPayload(variant, v.payload), r)
    ensures Wrote(b0, b2, at, Encode(s, v), PayloadMask(s, v), After(n, r))
  {
    var variant := s.variants[v.index];
    Behind(n, r, b0, b1, b2, at, EncodeHead(s, HeadOf(s, v)), MaskHead(s, HeadOf(s, v)),
           EncodePayload(variant, v.payload), MaskPayload(variant, v.payload));
  }

  method MarshalHead(s: Schema, h: Head, buffer: array<byte>, at: nat) returns (r: Outcome)
    requires s.Tagged? && MatchesHead(s, h)
    requires at <= buffer.Length
    modifies buffer
    ensures Wrote(old(buffer[..]), buffer[..], at, EncodeHead(s, h), MaskHead(s, h), r)
    decreases s, 1
  {
    ghost var b0 := buffer[..];
    ghost var front := EncodeFields(s.before, h.before, |s.before|) + BeBytes(s.tagWidth, h.selector);
    ghost var frontMask := MaskFields(s.before, h.before, |s.before|) + Same(s.tagWidth, false);
    ghost var middle, mask := EncodeFields(s.middle, h.middle, |s.middle|), MaskFields(s.middle, h.middle, |s.middle|);
    var r1 := MarshalSelector(s, h, buffer, at);
    if !r1.Written? {
      FailsEarly(b0, buffer[..], at, front, frontMask, front + middle, frontMask + mask, r1);
      return r1;
    }
    ghost var b1 := buffer[..];
    var r2 := MarshalFields(s.middle, h.middle, buffer, at + r1.n);
    Behind(r1.n, r2, b0, b1, buffer[..], at, front, frontMask, middle, mask);
    r := After(r1.n, r2);
  }

  // The fields in front of the selector, and the selector.
  method MarshalSelector(s: Schema, h: Head, buffer: array<byte>, at: nat) returns (r: Outcome)
    requires s.Tagged? && MatchesHead(s, h)
    requires at <= buffer.Length
    modifies buffer
    ensures Wrote(old(buffer[..]), buffer[..], at,
                  EncodeFields(s.before, h.before, |s.before|) + BeBytes(s.tagWidth, h.selector),
                  MaskFields(s.before, h.before, |s.before|) + Same(s.tagWidth, false), r)
    decreases s, 0
  {
    ghost var b0 := buffer[..];
    var tag := BeBytes(s.tagWidth, h.selector);
    ghost var tagMask := Same(s.tagWidth, false);
    ghost var before, mask := EncodeFields(s.before, h.before, |s.before|), MaskFields(s.before, h.before, |s.before|);
    var r1 := MarshalFields(s.before, h.before, buffer, at);
    if !r1.Written? {
      FailsEarly(b0, buffer[..], at, before, mask, before + tag, mask + tagMask, r1);
      return r1;
    }
    ghost var b1 := buffer[..];
    var r2 := WriteBytes(tag, buffer, at + r1.n);
    Behind(r1.n, r2, b0, b1, buffer[..], at, before, mask, tag, tagMask);
    r := After(r1.n, r2);
  }

  // `try_marshal_variant`.
  method MarshalVariant(variant: Variant, vals: seq<Value>, buffer: array<byte>, at: nat) returns (r: Outcome)
    requires |vals| == |variant.payload| && MatchesFields(variant.payload, vals, |vals|)
    requires at <= buffer.Length
    modifies buffer
    ensures Wrote(old(buffer[..]), buffer[..], at, EncodePayload(variant, vals), MaskPayload(variant, vals), r)
    decreases variant, 0
  {
    r := MarshalFields(variant.payload, vals, buffer, at);
  }

  method MarshalFields(fields: seq<Field>, vals: seq<Value>, buffer: array<byte>, at: nat) returns (r: Outcome)
    requires |vals| == |fields| && MatchesFields(fields, vals, |fields|)
    requires at <= buffer.Length
    modifies buffer
    ensures Wrote(old(buffer[..]), buffer[..], at,
                  EncodeFields(fields, vals, |fields|), MaskFields(fields, vals, |fields|), r)
    decreases fields, 1
  {
    ghost var b0 := buffer[..];
    var written: nat := 0;
    NoFieldYet(fields, vals, b0, at);
    for k := 0 to |fields|
      invariant MatchesFields(fields, vals, k)
      invariant Wrote(b0, buffer[..], at, EncodeFields(fields, vals, k), MaskFields(fields, vals, k), Written(written))
    {
      var rk := MarshalField(fields, vals, k, buffer, at, written, b0);
      if !rk.Written? {
        return rk;
      }
      written := written + rk.n;
    }
    return Written(written);
  }

  // The code emitted for one field, which adds to what the fields before it
  // have `written` since the buffer was `b0`.
  method MarshalField(fields: seq<Field>, vals: seq<Value>, k: nat,
                      buffer: array<byte>, at: nat, written: nat, ghost b0: seq<byte>) returns (r: Outcome)
    requires k < |fields| == |vals| && MatchesFields(fields, vals, |fields|) && MatchesFields(fields, vals, k)
    requires at <= |b0|
    requires Wrote(b0, buffer[..], at, EncodeFields(fields, vals, k), MaskFields(fields, vals, k), Written(written))
    modifies buffer
    ensures MatchesFields(fields, vals, k + 1)
    ensures r.Written? ==>
              Wrote(b0, buffer[..], at, EncodeFields(fields, vals, k + 1), MaskFields(fields, vals, k + 1),
                    Written(written + r.n))
    ensures !r.Written? ==>
              Wrote(b0, buffer[..], at, EncodeFields(fields, vals, |fields|), MaskFields(fields, vals, |fields|), r)
    decreases fields, 0
  {
    ghost var b1 := buffer[..];
    r := MarshalEntries(fields[k], vals, k, buffer, at + written);
    FieldsStep(fields, vals, k, b0, b1, buffer[..], at, r);
  }

  // One call, or the loop over an array.
  method MarshalEntries(f: Field, vals: seq<Value>, k: nat, buffer: array<byte>, at: nat) returns (r: Outcome)
    requires k < |vals| && MatchesField(f, vals, k)
    requires at <= buffer.Length
    modifies buffer
    ensures Wrote(old(buffer[..]), buffer[..], at, EncodeField(f, vals, k), MaskField(f, vals, k), r)
    decreases f, 3
  {
    if f.shape.One? {
      r := MarshalElem(f, vals[k], buffer, at);
    } else {
      r := MarshalItems(f, vals[k].items, EntryCount(f.shape, vals), buffer, at);
    }
  }

  method MarshalElem(f: Field, v: Value, buffer: array<byte>, at: nat) returns (r: Outcome)
    requires MatchesElem(f, v)
    requires at <= buffer.Length
    modifies buffer
    ensures Wrote(old(buffer[..]), buffer[..], at, EncodeElem(f, v), MaskElem(f, v), r)
    decreases f, 0
  {
    r := TryMarshal(f.elem, v, buffer, at);
  }

  // `for i in 0..count { written += self.array[i].try_marshal(...)?; }`
  method MarshalItems(f: Field, items: seq<Value>, n: nat, buffer: array<byte>, at: nat) returns (r: Outcome)
    requires n <= |items|
    requires forall i | 0 <= i < n :: MatchesElem(f, items[i])
    requires at <= buffer.Length
    modifies buffer
    ensures Wrote(old(buffer[..]), buffer[..], at, EncodeItems(f, items, n), MaskItems(f, items, n), r)
    decreases f, 2
  {
    ghost var b0 := buffer[..];
    var written: nat := 0;
    NothingYet(b0, at);
    for i := 0 to n
      invariant Wrote(b0, buffer[..], at, EncodeItems(f, items, i), MaskItems(f, items, i), Written(written))
    {
      var ri := MarshalNext(f, items, n, i, buffer, at, written, b0);
      if !ri.Written? {
        return ri;
      }
      written := written + ri.n;
    }
    return Written(written);
  }

  // The entry at `i`, behind those that are `written` since the buffer was `b0`.
  method MarshalNext(f: Field, items: seq<Value>, ghost n: nat, i: nat, buffer: array<byte>, at: nat, written: nat,
                     ghost b0: seq<byte>) returns (r: Outcome)
    requires i < n <= |items| && at <= |b0|
    requires forall j | 0 <= j < n :: MatchesElem(f, items[j])
    requires Wrote(b0, buffer[..], at, EncodeItems(f, items, i), MaskItems(f, items, i), Written(written))
    modifies buffer
    ensures r.Written? ==>
              Wrote(b0, buffer[..], at, EncodeItems(f, items, i + 1), MaskItems(f, items, i + 1),
                    Written(written + r.n))
    ensures !r.Written? ==> Wrote(b0, buffer[..], at, EncodeItems(f, items, n), MaskItems(f, items, n), r)
    decreases f, 1
  {
    ghost var b1 := buffer[..];
    RoomBehind(b0, b1, at, EncodeItems(f, items, i), MaskItems(f, items, i), written);
    r := MarshalElem(f, items[i], buffer, at + written);
    ItemsStep(f, items, n, i, b0, b1, buffer[..], at, r);
  }

  // ---- When the encoder cannot panic ----

  predicate Tpm2bFree(s: Schema) {
    match s
    case Prim(_, _) => true
    case ByteArray(_) => true
    case Tpm2b(_) => false
    case Struct(fields) => Tpm2bFreeFields(fields)
    case Tagged(before, _, middle, variants) =>
      && Tpm2bFreeFields(before)
      && Tpm2bFreeFields(middle)
      && forall i | 0 <= i < |variants| :: Tpm2bFreeVariant(variants[i])
  }

  predicate Tpm2bFreeVariant(v: Variant) {
    Tpm2bFreeFields(v.payload)
  }

  predicate Tpm2bFreeFields(fields: seq<Field>) {
    forall k | 0 <= k < |fields| :: Tpm2bFreeField(fields[k])
  }

  predicate Tpm2bFreeField(f: Field) {
    Tpm2bFree(f.elem)
  }

  // Without a TPM2B inside, a buffer of any length gives either the encoding or
  // `Memory`; TryMarshal's outcome is the one stated here.
  lemma {:induction false} Tpm2bFreeNeverPanics(s: Schema, v: Value, room: nat)
    requires Matches(s, v) && Tpm2bFree(s)
    ensures Expected(Encode(s, v), PayloadMask(s, v), room)
         == if |Encode(s, v)| <= room then Written(|Encode(s, v)|) else Refused(Memory)
  {
    ClearMask(s, v);
  }

  // With enough room there is no failure at all; and a TPM2B does panic in a
  // buffer that ends within its payload.
  lemma {:induction false} Tpm2bPanicsWithin(max: nat, v: Value, room: nat)
    requires Matches(Tpm2b(max), v)
    ensures Expected(Encode(Tpm2b(max), v), PayloadMask(Tpm2b(max), v), room).Panic?
       <==> 2 <= room < 2 + v.size
  {
  }

  lemma {:induction false} ClearMask(s: Schema, v: Value)
    requires Matches(s, v) && Tpm2bFree(s)
    ensures true !in PayloadMask(s, v)
    decreases s, 0
  {
    match s
    case Prim(_, _) =>
    case ByteArray(_) =>
    case Struct(fields) => ClearFields(fields, v.vals, |fields|);
    case Tagged(before, _, middle, variants) =>
      ClearFields(before, v.before, |before|);
      ClearFields(middle, v.middle, |middle|);
      assert Tpm2bFreeVariant(variants[v.index]);
      ClearPayload(variants[v.index], v.payload);
  }

  lemma {:induction false} ClearPayload(variant: Variant, vals: seq<Value>)
    requires Tpm2bFreeVariant(variant)
    requires |vals| == |variant.payload| && MatchesFields(variant.payload, vals, |vals|)
    ensures true !in MaskPayload(variant, vals)
    decreases variant, 0
  {
    ClearFields(variant.payload, vals, |vals|);
  }

  lemma {:induction false} ClearFields(fields: seq<Field>, vals: seq<Value>, k: nat)
    requires MatchesFields(fields, vals, k) && Tpm2bFreeFields(fields)
    ensures true !in MaskFields(fields, vals, k)
    decreases fields, 1, k
  {
    if k > 0 {
      ClearFields(fields, vals, k - 1);
      ClearField(fields[k - 1], vals, k - 1);
    }
  }

  lemma {:induction false} ClearField(f: Field, vals: seq<Value>, k: nat)
    requires k < |vals| && MatchesField(f, vals, k) && Tpm2bFreeField(f)
    ensures true !in MaskField(f, vals, k)
    decreases f, 2
  {
    if f.shape.One? {
      ClearElem(f, vals[k]);
    } else {
      ClearItems(f, vals[k].items, EntryCount(f.shape, vals));
    }
  }

  lemma {:induction false} ClearElem(f: Field, v: Value)
    requires MatchesElem(f, v) && Tpm2bFreeField(f)
    ensures true !in MaskElem(f, v)
    decreases f, 0
  {
    ClearMask(f.elem, v);
  }

  lemma {:induction false} ClearItems(f: Field, items: seq<Value>, n: nat)
    requires n <= |items| && Tpm2bFreeField(f)
    requires forall i | 0 <= i < n :: MatchesElem(f, items[i])
    ensures true !in MaskItems(f, items, n)
    decreases f, 1, n
  {
    if n > 0 {
      ClearItems(f, items, n - 1);
      ClearElem(f, items[n - 1]);
    }
  }
}
