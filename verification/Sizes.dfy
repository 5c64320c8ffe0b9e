// The size and alignment of the structs that the TPM2B holders carry, as numbers.
module Sizes {
  import opened Schemas
  import opened Codec
  import opened Layout
  import opened TpmTypes
  import opened TypesOnWire

  ghost predicate Takes(s: Schema, size: nat, align: nat) {
    SizeOf(s) == size && AlignOf(s) == align
  }

  // The first `k` fields end at `end`, with alignment `align`.
  ghost predicate EndsAt(fields: seq<Field>, k: nat, start: nat, end: nat, align: nat)
    requires k <= |fields|
  {
    EndOfFields(fields, k, start) == end && AlignOfFields(fields, k) == align
  }

  lemma {:induction false} Next(
    fields: seq<Field>, k: nat, start: nat, end: nat, align: nat, size: nat, fieldAlign: nat, next: nat)
    requires k < |fields| && EndsAt(fields, k, start, end, align)
    requires fields[k].shape.One? && Takes(fields[k].elem, size, fieldAlign) && fieldAlign > 0
    requires next == RoundUp(end, fieldAlign) + size
    ensures EndsAt(fields, k + 1, start, next, Max(align, fieldAlign))
  {
    assert SizeOfField(fields[k]) == 1 * SizeOf(fields[k].elem);
  }

  // The same for an array of `count` entries.
  lemma {:induction false} NextArray(
    fields: seq<Field>, k: nat, start: nat, end: nat, align: nat, size: nat, fieldAlign: nat, count: nat, next: nat)
    requires k < |fields| && EndsAt(fields, k, start, end, align)
    requires fields[k].shape.Counted? && fields[k].shape.max == count
    requires Takes(fields[k].elem, size, fieldAlign) && fieldAlign > 0
    requires next == RoundUp(end, fieldAlign) + count * size
    ensures EndsAt(fields, k + 1, start, next, Max(align, fieldAlign))
  {
    assert SizeOfField(fields[k]) == count * SizeOf(fields[k].elem);
  }

  lemma {:induction false} StructTakes(fields: seq<Field>, end: nat, align: nat)
    requires EndsAt(fields, |fields|, 0, end, align) && align > 0
    ensures Takes(Struct(fields), RoundUp(end, align), align)
  {
  }

  lemma {:induction false} ScalarSizes()
    ensures Takes(U8, 1, 1) && Takes(U16, 2, 2) && Takes(U32, 4, 4) && Takes(EMPTY, 0, 1)
    ensures Takes(Tpm2b(64), 66, 2) && Takes(Tpm2b(68), 70, 2) && Takes(Tpm2b(128), 130, 2)
    ensures Takes(Tpm2b(256), 258, 2) && Takes(Tpm2b(512), 514, 2)
  {
  }

  lemma {:induction false} PairSizes(a: Schema, b: Schema, size: nat, align: nat, size': nat, align': nat)
    requires Takes(a, size, align) && Takes(b, size', align') && align > 0 && align' > 0
    ensures EndsAt(Pair(a, b), 2, 0, RoundUp(size, align') + size', Max(Max(1, align), align'))
  {
    var fields := Pair(a, b);
    assert EndsAt(fields, 0, 0, 0, 1);
    assert RoundUp(0, align) == 0;
    Next(fields, 0, 0, 0, 1, size, align, size);
    Next(fields, 1, 0, size, Max(1, align), size', align', RoundUp(size, align') + size');
  }

  // ---- Schemes ----

  lemma {:induction false} WordsEnd(fields: seq<Field>, words: nat, k: nat)
    requires Carries(fields, words) && k <= |fields|
    ensures EndsAt(fields, k, 0, 2 * (if k < words then k else words), if k > 0 && words > 0 then 2 else 1)
  {
    if k > 0 {
      WordsEnd(fields, words, k - 1);
      ScalarSizes();
      var end := 2 * (if k - 1 < words then k - 1 else words);
      var align := if k - 1 > 0 && words > 0 then 2 else 1;
      if k - 1 < words {
        Next(fields, k - 1, 0, end, align, 2, 2, 2 * k);
      } else {
        Next(fields, k - 1, 0, end, align, 0, 1, end);
      }
    }
  }

  // The union of a scheme is as long as the variant `top` that carries most.
  lemma {:induction false} SchemeUnion(
    variants: seq<Variant>, selectors: seq<nat>, words: seq<nat>, top: nat, k: nat)
    requires Table(variants, selectors, words) && k <= |variants|
    requires top < |words| && words[top] > 0 && forall i | 0 <= i < |words| :: words[i] <= words[top]
    ensures UnionEnd(variants, k) <= 2 * words[top] && (UnionAlign(variants, k) == 1 || UnionAlign(variants, k) == 2)
    ensures top < k ==> UnionEnd(variants, k) == 2 * words[top] && UnionAlign(variants, k) == 2
  {
    if k > 0 {
      SchemeUnion(variants, selectors, words, top, k - 1);
      VariantTakes(variants[k - 1], words[k - 1]);
    }
  }

  lemma {:induction false} VariantTakes(v: Variant, words: nat)
    requires Carries(v.payload, words)
    ensures PayloadSize(v) == 2 * words && PayloadAlign(v) == if words > 0 then 2 else 1
  {
    WordsEnd(v.payload, words, |v.payload|);
  }

  lemma {:induction false} SchemeTakes(variants: seq<Variant>, selectors: seq<nat>, words: seq<nat>, top: nat)
    requires Table(variants, selectors, words)
    requires top < |words| && words[top] > 0 && forall i | 0 <= i < |words| :: words[i] <= words[top]
    ensures Takes(Enum(variants), 2 + 2 * words[top], 2)
  {
    SchemeUnion(variants, selectors, words, top, |variants|);
    EnumOnly(variants, 2 * words[top]);
  }

  // A derived enum with an even union behind its two-byte selector.
  lemma {:induction false} EnumOnly(variants: seq<Variant>, end: nat)
    requires UnionEnd(variants, |variants|) == end && UnionAlign(variants, |variants|) == 2 && end % 2 == 0
    ensures Takes(Enum(variants), 2 + end, 2)
  {
    var fields: seq<Field> := [];
    assert EndOfFields(fields, 0, 0) == 0 && AlignOfFields(fields, 0) == 1;
    assert EnumSize(2, end, 2) == 2 + end;
  }

  lemma {:induction false} SchemeSizes()
    ensures Takes(TPMT_SYM_DEF_OBJECT, 6, 2) && Takes(TPMT_KEYEDHASH_SCHEME, 6, 2) && Takes(TPMT_KDF_SCHEME, 4, 2)
  {
    SymDefObjectTable();
    KeyedHashSchemeTable();
    KdfSchemeTable();
    SchemeTakes(TPMT_SYM_DEF_OBJECT.variants, [0x0006, 0x0013, 0x0026, 0x000A, 0x0010], [2, 2, 2, 1, 0], 0);
    SchemeTakes(TPMT_KEYEDHASH_SCHEME.variants, [0x0005, 0x000A, 0x0010], [1, 2, 0], 1);
    SchemeTakes(TPMT_KDF_SCHEME.variants, [0x0007, 0x0020, 0x0021, 0x0022, 0x0010], [1, 1, 1, 1, 0], 0);
  }

  lemma {:induction false} AsymSchemeSizes()
    ensures Takes(TPMT_RSA_SCHEME, 6, 2) && Takes(TPMT_ECC_SCHEME, 6, 2)
  {
    RsaSchemeTable();
    EccSchemeTable();
    SchemeTakes(
      TPMT_RSA_SCHEME.variants, [0x0016, 0x0014, 0x0018, 0x001A, 0x001B, 0x001C, 0x0015, 0x0017, 0x0010],
      [1, 1, 1, 2, 1, 1, 0, 1, 0], 3);
    SchemeTakes(
      TPMT_ECC_SCHEME.variants, [0x0016, 0x0014, 0x0018, 0x001A, 0x001B, 0x001C, 0x0019, 0x001D, 0x0010],
      [1, 1, 1, 2, 1, 1, 1, 1, 0], 3);
  }

  // ---- The parts of TpmtPublic ----

  lemma {:induction false} RsaParmsTake()
    ensures Takes(TPMS_RSA_PARMS, 20, 4)
  {
    ScalarSizes();
    SchemeSizes();
    AsymSchemeSizes();
    var fields := TPMS_RSA_PARMS.fields;
    assert EndsAt(fields, 0, 0, 0, 1);
    Next(fields, 0, 0, 0, 1, 6, 2, 6);
    Next(fields, 1, 0, 6, 2, 6, 2, 12);
    Next(fields, 2, 0, 12, 2, 2, 2, 14);
    Next(fields, 3, 0, 14, 2, 4, 4, 20);
    StructTakes(fields, 20, 4);
  }

  lemma {:induction false} EccParmsTake()
    ensures Takes(TPMS_ECC_PARMS, 18, 2)
  {
    ScalarSizes();
    SchemeSizes();
    AsymSchemeSizes();
    var fields := TPMS_ECC_PARMS.fields;
    assert EndsAt(fields, 0, 0, 0, 1);
    Next(fields, 0, 0, 0, 1, 6, 2, 6);
    Next(fields, 1, 0, 6, 2, 6, 2, 12);
    Next(fields, 2, 0, 12, 2, 2, 2, 14);
    Next(fields, 3, 0, 14, 2, 4, 2, 18);
    StructTakes(fields, 18, 2);
  }

  lemma {:induction false} OtherParmsTake()
    ensures Takes(TPMS_KEYEDHASH_PARMS, 6, 2) && Takes(TPMS_SYMCIPHER_PARMS, 6, 2) && Takes(TPMS_ECC_POINT, 260, 2)
  {
    ScalarSizes();
    SchemeSizes();
    assert EndsAt(TPMS_KEYEDHASH_PARMS.fields, 0, 0, 0, 1) && EndsAt(TPMS_SYMCIPHER_PARMS.fields, 0, 0, 0, 1);
    Next(TPMS_KEYEDHASH_PARMS.fields, 0, 0, 0, 1, 6, 2, 6);
    Next(TPMS_SYMCIPHER_PARMS.fields, 0, 0, 0, 1, 6, 2, 6);
    StructTakes(TPMS_KEYEDHASH_PARMS.fields, 6, 2);
    StructTakes(TPMS_SYMCIPHER_PARMS.fields, 6, 2);
    PairSizes(Tpm2b(128), Tpm2b(128), 130, 2, 130, 2);
    StructTakes(TPMS_ECC_POINT.fields, 260, 2);
  }

  // ---- The structs of the holders ----

  lemma {:induction false} PublicOverTakes(
    keyedHash: Schema, sym: Schema, rsa: Schema, ecc: Schema, digest: Schema, modulus: Schema, point: Schema)
    requires Takes(keyedHash, 6, 2) && Takes(sym, 6, 2) && Takes(rsa, 20, 4) && Takes(ecc, 18, 2)
    requires Takes(digest, 66, 2) && Takes(modulus, 514, 2) && Takes(point, 260, 2)
    ensures Takes(PublicOver(keyedHash, sym, rsa, ecc, digest, modulus, point), 616, 4)
  {
    var s := PublicOver(keyedHash, sym, rsa, ecc, digest, modulus, point);
    ScalarSizes();
    PublicUnion(keyedHash, sym, rsa, ecc, digest, modulus, point);
    assert EndsAt(s.middle, 0, 0, 0, 1);
    Next(s.middle, 0, 0, 0, 1, 2, 2, 2);
    Next(s.middle, 1, 0, 2, 2, 4, 4, 8);
    Next(s.middle, 2, 0, 8, 4, 66, 2, 74);
    PublicTakes(s);
  }

  // The selector at 76, the union behind it at 80.
  lemma {:induction false} PublicTakes(s: Schema)
    requires s.Tagged? && s.before == [] && s.tagWidth == 2 && EndsAt(s.middle, |s.middle|, 0, 74, 4)
    requires UnionEnd(s.variants, |s.variants|) == 536 && UnionAlign(s.variants, |s.variants|) == 4
    ensures Takes(s, 616, 4)
  {
    assert EndOfFields(s.before, |s.before|, 0) == 0 && AlignOfFields(s.before, |s.before|) == 1;
    assert EnumSize(2, 536, 4) == 540;
  }

  lemma {:induction false} PublicUnion(
    keyedHash: Schema, sym: Schema, rsa: Schema, ecc: Schema, digest: Schema, modulus: Schema, point: Schema)
    requires Takes(keyedHash, 6, 2) && Takes(sym, 6, 2) && Takes(rsa, 20, 4) && Takes(ecc, 18, 2)
    requires Takes(digest, 66, 2) && Takes(modulus, 514, 2) && Takes(point, 260, 2)
    ensures var variants := PublicOver(keyedHash, sym, rsa, ecc, digest, modulus, point).variants;
            UnionEnd(variants, |variants|) == 536 && UnionAlign(variants, |variants|) == 4
  {
    var variants := PublicOver(keyedHash, sym, rsa, ecc, digest, modulus, point).variants;
    PairSizes(keyedHash, digest, 6, 2, 66, 2);
    PairSizes(sym, digest, 6, 2, 66, 2);
    PairSizes(rsa, modulus, 20, 4, 514, 2);
    PairSizes(ecc, point, 18, 2, 260, 2);
    assert UnionAt(variants, 0, 0, 1);
    NextVariant(variants, 0, 0, 1, 72, 2);
    NextVariant(variants, 1, 72, 2, 72, 2);
    NextVariant(variants, 2, 72, 2, 534, 4);
    NextVariant(variants, 3, 536, 4, 278, 2);
  }

  ghost predicate UnionAt(variants: seq<Variant>, k: nat, end: nat, align: nat)
    requires k <= |variants|
  {
    UnionEnd(variants, k) == end && UnionAlign(variants, k) == align
  }

  lemma {:induction false} NextVariant(
    variants: seq<Variant>, k: nat, end: nat, align: nat, payloadEnd: nat, payloadAlign: nat)
    requires k < |variants| && UnionAt(variants, k, end, align) && payloadAlign > 0
    requires EndsAt(variants[k].payload, |variants[k].payload|, 0, payloadEnd, payloadAlign)
    ensures UnionAt(variants, k + 1, Max(end, RoundUp(payloadEnd, payloadAlign)), Max(align, payloadAlign))
  {
  }

  // `size_of::<TpmtPublic>()`.
  lemma {:induction false} PublicSize()
    ensures SizeOf(TPMT_PUBLIC) == 616 && AlignOf(TPMT_PUBLIC) == 4
  {
    ScalarSizes();
    RsaParmsTake();
    EccParmsTake();
    OtherParmsTake();
    PublicOverTakes(TPMS_KEYEDHASH_PARMS, TPMS_SYMCIPHER_PARMS, TPMS_RSA_PARMS, TPMS_ECC_PARMS,
                    TPM2B_DIGEST, Tpm2b(RSA_KEY_MAX), TPMS_ECC_POINT);
  }

  // `size_of::<TpmsSensitiveCreate>()`.
  lemma {:induction false} SensitiveCreateSize()
    ensures SizeOf(TPMS_SENSITIVE_CREATE) == 324 && AlignOf(TPMS_SENSITIVE_CREATE) == 2
  {
    ScalarSizes();
    PairSizes(Tpm2b(64), Tpm2b(256), 66, 2, 258, 2);
    StructTakes(TPMS_SENSITIVE_CREATE.fields, 324, 2);
  }

  lemma {:induction false} PcrListTakes()
    ensures Takes(TPML_PCR_SELECTION, 132, 4)
  {
    ScalarSizes();
    var fields := TPMS_PCR_SELECTION.fields;
    assert EndsAt(fields, 0, 0, 0, 1);
    Next(fields, 0, 0, 0, 1, 2, 2, 2);
    Next(fields, 1, 0, 2, 2, 1, 1, 3);
    NextArray(fields, 2, 0, 3, 2, 1, 1, 4, 7);
    StructTakes(fields, 7, 2);
    PcrListOf(TPMS_PCR_SELECTION);
  }

  lemma {:induction false} PcrListOf(selection: Schema)
    requires Takes(selection, 8, 2)
    ensures Takes(Tpml(selection, 16), 132, 4)
  {
    ScalarSizes();
    var fields := Tpml(selection, 16).fields;
    assert EndsAt(fields, 0, 0, 0, 1);
    Next(fields, 0, 0, 0, 1, 4, 4, 4);
    NextArray(fields, 1, 0, 4, 4, 8, 2, 16, 132);
    StructTakes(fields, 132, 4);
  }

  // `size_of::<TpmsCreationData>()`.
  lemma {:induction false} CreationDataSize()
    ensures SizeOf(TPMS_CREATION_DATA) == 408 && AlignOf(TPMS_CREATION_DATA) == 4
  {
    ScalarSizes();
    PcrListTakes();
    var fields := TPMS_CREATION_DATA.fields;
    assert EndsAt(fields, 0, 0, 0, 1);
    Next(fields, 0, 0, 0, 1, 132, 4, 132);
    Next(fields, 1, 0, 132, 4, 66, 2, 198);
    Next(fields, 2, 0, 198, 4, 1, 1, 199);
    Next(fields, 3, 0, 199, 4, 2, 2, 202);
    Next(fields, 4, 0, 202, 4, 70, 2, 272);
    Next(fields, 5, 0, 272, 4, 70, 2, 342);
    Next(fields, 6, 0, 342, 4, 66, 2, 408);
    StructTakes(fields, 408, 4);
  }

  // The holders of the three: as many bytes as their struct has in memory, its
  // encoding first, then zeros.
  lemma {:induction false} HolderBytes(s: Schema, v: Value)
    requires s == TPMT_PUBLIC || s == TPMS_SENSITIVE_CREATE || s == TPMS_CREATION_DATA
    requires Matches(s, v)
    ensures FromStruct(s, v).Held?
    ensures var holder, code := FromStruct(s, v).holder, Encode(s, v);
            && holder.Buffer? && holder.size == |code| <= |holder.bytes|
            && |holder.bytes| == (if s == TPMT_PUBLIC then 616 else if s == TPMS_SENSITIVE_CREATE then 324 else 408)
            && holder.bytes[..|code|] == code
            && AllZero(holder.bytes[|code|..])
  {
    StructHolders(s, v);
    PublicSize();
    SensitiveCreateSize();
    CreationDataSize();
    HeldBytes(s, v);
  }

  lemma {:induction false} HeldBytes(s: Schema, v: Value)
    requires Matches(s, v) && FromStruct(s, v).Held?
    ensures var holder, code := FromStruct(s, v).holder, Encode(s, v);
            && holder.Buffer? && |code| <= |holder.bytes| == SizeOf(s)
            && holder.bytes[..|code|] == code
            && AllZero(holder.bytes[|code|..])
  {
  }
}
