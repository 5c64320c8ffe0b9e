// The wire types of the base crate that the commands and the TPM2B holders use,
// as schemas.
module TpmTypes {
  import opened ByteOrder
  import opened Schemas
  import opened Codec
  import opened Layout

  const U8 := Prim(1, false)
  const U16 := Prim(2, false)
  const U32 := Prim(4, false)
  const U64 := Prim(8, false)
  const EMPTY := Struct([])

  function Plain(s: Schema): Field {
    Field(s, One)
  }

  // Buffer capacities.
  const DIGEST_MAX := 64
  const NAME_MAX := 68
  const RSA_KEY_MAX := 512
  const ECC_KEY_MAX := 128
  const SENSITIVE_DATA_MAX := 256

  // TPM_ALG_ID values used as selectors.
  const ALG_RSA := 0x0001
  const ALG_HMAC := 0x0005
  const ALG_AES := 0x0006
  const ALG_MGF1 := 0x0007
  const ALG_KEYEDHASH := 0x0008
  const ALG_XOR := 0x000A
  const ALG_NULL := 0x0010
  const ALG_SM4 := 0x0013
  const ALG_RSASSA := 0x0014
  const ALG_RSAES := 0x0015
  const ALG_RSAPSS := 0x0016
  const ALG_OAEP := 0x0017
  const ALG_ECDSA := 0x0018
  const ALG_ECDH := 0x0019
  const ALG_ECDAA := 0x001A
  const ALG_SM2 := 0x001B
  const ALG_ECSCHNORR := 0x001C
  const ALG_ECMQV := 0x001D
  const ALG_KDF1_SP800_56A := 0x0020
  const ALG_KDF2 := 0x0021
  const ALG_KDF1_SP800_108 := 0x0022
  const ALG_ECC := 0x0023
  const ALG_SYMCIPHER := 0x0025
  const ALG_CAMELLIA := 0x0026

  const TPM2B_DIGEST := Tpm2b(DIGEST_MAX)

  function Pair(a: Schema, b: Schema): seq<Field> {
    [Plain(a), Plain(b)]
  }

  function Enum(variants: seq<Variant>): Schema {
    Tagged([], 2, [], variants)
  }

  function HashScheme(selector: nat): Variant {
    Variant(selector, [Plain(U16)])
  }

  function NullScheme(selector: nat): Variant {
    Variant(selector, [Plain(EMPTY)])
  }

  const TPMT_KEYEDHASH_SCHEME := Enum([
    HashScheme(ALG_HMAC), Variant(ALG_XOR, Pair(U16, U16)), NullScheme(ALG_NULL)])

  const TPMT_SYM_DEF_OBJECT := Enum([
    Variant(ALG_AES, Pair(U16, U16)), Variant(ALG_SM4, Pair(U16, U16)),
    Variant(ALG_CAMELLIA, Pair(U16, U16)), Variant(ALG_XOR, Pair(U16, EMPTY)),
    Variant(ALG_NULL, Pair(EMPTY, EMPTY))])

  const TPMT_RSA_SCHEME := Enum([
    HashScheme(ALG_RSAPSS), HashScheme(ALG_RSASSA), HashScheme(ALG_ECDSA),
    Variant(ALG_ECDAA, Pair(U16, U16)), HashScheme(ALG_SM2), HashScheme(ALG_ECSCHNORR),
    NullScheme(ALG_RSAES), HashScheme(ALG_OAEP), NullScheme(ALG_NULL)])

  const TPMT_ECC_SCHEME := Enum([
    HashScheme(ALG_RSAPSS), HashScheme(ALG_RSASSA), HashScheme(ALG_ECDSA),
    Variant(ALG_ECDAA, Pair(U16, U16)), HashScheme(ALG_SM2), HashScheme(ALG_ECSCHNORR),
    HashScheme(ALG_ECDH), HashScheme(ALG_ECMQV), NullScheme(ALG_NULL)])

  const TPMT_KDF_SCHEME := Enum([
    HashScheme(ALG_MGF1), HashScheme(ALG_KDF1_SP800_56A), HashScheme(ALG_KDF2),
    HashScheme(ALG_KDF1_SP800_108), NullScheme(ALG_NULL)])

  const TPMS_RSA_PARMS := Struct([Plain(TPMT_SYM_DEF_OBJECT), Plain(TPMT_RSA_SCHEME), Plain(U16), Plain(U32)])
  const TPMS_ECC_PARMS := Struct([
    Plain(TPMT_SYM_DEF_OBJECT), Plain(TPMT_ECC_SCHEME), Plain(U16), Plain(TPMT_KDF_SCHEME)])
  const TPMS_KEYEDHASH_PARMS := Struct([Plain(TPMT_KEYEDHASH_SCHEME)])
  const TPMS_SYMCIPHER_PARMS := Struct([Plain(TPMT_SYM_DEF_OBJECT)])
  const TPMS_ECC_POINT := Struct(Pair(Tpm2b(ECC_KEY_MAX), Tpm2b(ECC_KEY_MAX)))

  // The selector of `parms_and_id` comes first, the variant last.
  function PublicOver(keyedHash: Schema, sym: Schema, rsa: Schema, ecc: Schema,
                      digest: Schema, modulus: Schema, point: Schema): Schema {
    Tagged([], 2, [Plain(U16), Plain(U32), Plain(digest)],
           [Variant(ALG_KEYEDHASH, Pair(keyedHash, digest)),
            Variant(ALG_SYMCIPHER, Pair(sym, digest)),
            Variant(ALG_RSA, Pair(rsa, modulus)),
            Variant(ALG_ECC, Pair(ecc, point))])
  }

  const TPMT_PUBLIC := PublicOver(
    TPMS_KEYEDHASH_PARMS, TPMS_SYMCIPHER_PARMS, TPMS_RSA_PARMS, TPMS_ECC_PARMS,
    TPM2B_DIGEST, Tpm2b(RSA_KEY_MAX), TPMS_ECC_POINT)

  const TPMS_SENSITIVE_CREATE := Struct(Pair(TPM2B_DIGEST, Tpm2b(SENSITIVE_DATA_MAX)))

  const TPMS_PCR_SELECTION := Struct([Plain(U16), Plain(U8), Field(U8, Counted(4, 1))])

  // A TPML list: a u32 count and the array it bounds.
  function Tpml(elem: Schema, max: nat): Schema {
    Struct([Plain(U32), Field(elem, Counted(max, 0))])
  }

  const TPML_PCR_SELECTION := Tpml(TPMS_PCR_SELECTION, 16)
  const TPMS_CREATION_DATA := Struct([
    Plain(TPML_PCR_SELECTION), Plain(TPM2B_DIGEST), Plain(U8), Plain(U16),
    Plain(Tpm2b(NAME_MAX)), Plain(Tpm2b(NAME_MAX)), Plain(Tpm2b(DIGEST_MAX))])

  // ---- Validity and size bounds ----

  ghost predicate Bounded(s: Schema, m: nat) {
    Valid(s) && SizeOf(s) <= m && AlignOf(s) <= 8
  }

  ghost predicate PlainBounded(fields: seq<Field>, m: nat) {
    forall f | f in fields :: f.shape.One? && Bounded(f.elem, m)
  }

  lemma {:induction false} FieldsBounded(fields: seq<Field>, m: nat, k: nat, start: nat)
    requires PlainBounded(fields, m) && k <= |fields|
    ensures ValidFields(fields)
    ensures AlignOfFields(fields, k) <= 8
    ensures EndOfFields(fields, k, start) <= start + k * (m + 8)
  {
    forall j | 0 <= j < |fields|
      ensures ValidField(fields[j]) && ValidShape(fields, j)
    {
      assert fields[j] in fields;
    }
    if k > 0 {
      FieldsBounded(fields, m, k - 1, start);
      assert fields[k - 1] in fields;
      assert SizeOfField(fields[k - 1]) <= m;
      MulStep(k, m + 8);
    }
  }

  lemma {:induction false} StructBounded(fields: seq<Field>, m: nat)
    requires PlainBounded(fields, m)
    ensures Bounded(Struct(fields), |fields| * (m + 8) + 8)
  {
    FieldsBounded(fields, m, |fields|, 0);
  }

  // Variants with at most `n` payload fields each.
  ghost predicate VariantsBounded(variants: seq<Variant>, n: nat, m: nat) {
    forall v | v in variants ::
      |v.payload| <= n && PlainBounded(v.payload, m) && v.selector < 0x1_0000
  }

  ghost predicate DistinctSelectors(variants: seq<Variant>) {
    forall i, j | 0 <= i < j < |variants| :: variants[i].selector != variants[j].selector
  }

  lemma {:induction false} UnionBounded(variants: seq<Variant>, n: nat, m: nat, k: nat)
    requires VariantsBounded(variants, n, m) && k <= |variants|
    ensures UnionAlign(variants, k) <= 8
    ensures UnionEnd(variants, k) <= n * (m + 8) + 8
  {
    if k > 0 {
      UnionBounded(variants, n, m, k - 1);
      var v := variants[k - 1];
      assert v in variants;
      FieldsBounded(v.payload, m, |v.payload|, 0);
      MulMonotone(|v.payload|, n, m + 8);
    }
  }

  lemma {:induction false} VariantsValid(variants: seq<Variant>, n: nat, m: nat)
    requires VariantsBounded(variants, n, m)
    ensures forall i | 0 <= i < |variants| ::
              variants[i].selector < Pow256(2) && ValidFields(variants[i].payload)
  {
    forall i | 0 <= i < |variants|
      ensures variants[i].selector < Pow256(2) && ValidFields(variants[i].payload)
    {
      assert variants[i] in variants;
      FieldsBounded(variants[i].payload, m, 0, 0);
      assert Pow256(2) == 0x1_0000;
    }
  }

  lemma {:induction false} TaggedBounded(before: seq<Field>, middle: seq<Field>, variants: seq<Variant>, n: nat, m: nat)
    requires PlainBounded(before, m) && PlainBounded(middle, m)
    requires |variants| > 0 && VariantsBounded(variants, n, m) && DistinctSelectors(variants)
    ensures Bounded(Tagged(before, 2, middle, variants),
                    |before| * (m + 8) + |middle| * (m + 8) + n * (m + 8) + 64)
  {
    FieldsBounded(before, m, |before|, 0);
    FieldsBounded(middle, m, |middle|, EndOfFields(before, |before|, 0));
    VariantsValid(variants, n, m);
    TaggedSize(before, middle, variants, n, m);
  }

  lemma {:induction false} TaggedSize(
    before: seq<Field>, middle: seq<Field>, variants: seq<Variant>, n: nat, m: nat)
    requires PlainBounded(before, m) && PlainBounded(middle, m) && VariantsBounded(variants, n, m)
    ensures var s := Tagged(before, 2, middle, variants);
            && AlignOf(s) <= 8
            && SizeOf(s) <= |before| * (m + 8) + |middle| * (m + 8) + n * (m + 8) + 64
  {
    FieldsBounded(before, m, |before|, 0);
    FieldsBounded(middle, m, |middle|, EndOfFields(before, |before|, 0));
    UnionBounded(variants, n, m, |variants|);
  }

  lemma {:induction false} ScalarsBounded()
    ensures Bounded(U8, 8) && Bounded(U16, 8) && Bounded(U32, 8) && Bounded(EMPTY, 8)
  {
    StructBounded([], 0);
  }

  // Every scheme has scalar payloads of at most two fields.
  lemma {:induction false} SchemeBounded(variants: seq<Variant>)
    requires |variants| > 0 && DistinctSelectors(variants)
    requires forall v | v in variants :: ScalarPayload(v)
    ensures Bounded(Enum(variants), 96)
  {
    ScalarsBounded();
    TaggedBounded([], [], variants, 2, 8);
  }

  ghost predicate ScalarPayload(v: Variant) {
    && v.selector < 0x1_0000
    && |v.payload| <= 2
    && forall f | f in v.payload :: f == Plain(U16) || f == Plain(EMPTY)
  }

  lemma {:induction false} SymDefObjectBounded()
    ensures Bounded(TPMT_SYM_DEF_OBJECT, 96)
  {
    SchemeBounded(TPMT_SYM_DEF_OBJECT.variants);
  }

  lemma {:induction false} RsaSchemeBounded()
    ensures Bounded(TPMT_RSA_SCHEME, 96)
  {
    SchemeBounded(TPMT_RSA_SCHEME.variants);
  }

  lemma {:induction false} EccSchemeBounded()
    ensures Bounded(TPMT_ECC_SCHEME, 96)
  {
    SchemeBounded(TPMT_ECC_SCHEME.variants);
  }

  lemma {:induction false} KdfSchemeBounded()
    ensures Bounded(TPMT_KDF_SCHEME, 96)
  {
    SchemeBounded(TPMT_KDF_SCHEME.variants);
  }

  lemma {:induction false} KeyedHashSchemeBounded()
    ensures Bounded(TPMT_KEYEDHASH_SCHEME, 96)
  {
    SchemeBounded(TPMT_KEYEDHASH_SCHEME.variants);
  }

  lemma {:induction false} BufferBounded(max: nat)
    ensures Bounded(Tpm2b(max), max + 3)
  {
  }

  lemma {:induction false} RsaParmsBounded()
    ensures Bounded(TPMS_RSA_PARMS, 424)
  {
    ScalarsBounded();
    SymDefObjectBounded();
    RsaSchemeBounded();
    StructBounded(TPMS_RSA_PARMS.fields, 96);
  }

  lemma {:induction false} EccParmsBounded()
    ensures Bounded(TPMS_ECC_PARMS, 424)
  {
    ScalarsBounded();
    SymDefObjectBounded();
    EccSchemeBounded();
    KdfSchemeBounded();
    StructBounded(TPMS_ECC_PARMS.fields, 96);
  }

  lemma {:induction false} OtherParmsBounded()
    ensures Bounded(TPMS_KEYEDHASH_PARMS, 112)
    ensures Bounded(TPMS_SYMCIPHER_PARMS, 112)
    ensures Bounded(TPMS_ECC_POINT, 286)
  {
    SymDefObjectBounded();
    KeyedHashSchemeBounded();
    BufferBounded(ECC_KEY_MAX);
    StructBounded(TPMS_KEYEDHASH_PARMS.fields, 96);
    StructBounded(TPMS_SYMCIPHER_PARMS.fields, 96);
    StructBounded(TPMS_ECC_POINT.fields, 131);
  }

  lemma {:induction false} PublicOverBounded(
    keyedHash: Schema, sym: Schema, rsa: Schema, ecc: Schema, digest: Schema, modulus: Schema, point: Schema, m: nat)
    requires Bounded(keyedHash, m) && Bounded(sym, m) && Bounded(rsa, m) && Bounded(ecc, m)
    requires Bounded(digest, m) && Bounded(modulus, m) && Bounded(point, m)
    requires 8 <= m
    ensures Bounded(PublicOver(keyedHash, sym, rsa, ecc, digest, modulus, point), 5 * (m + 8) + 64)
  {
    var public := PublicOver(keyedHash, sym, rsa, ecc, digest, modulus, point);
    ScalarsBounded();
    PairBounded(keyedHash, digest, m);
    PairBounded(sym, digest, m);
    PairBounded(rsa, modulus, m);
    PairBounded(ecc, point, m);
    FourVariants(Pair(keyedHash, digest), Pair(sym, digest), Pair(rsa, modulus), Pair(ecc, point), m);
    TaggedBounded([], public.middle, public.variants, 2, m);
  }

  lemma {:induction false} FourVariants(p0: seq<Field>, p1: seq<Field>, p2: seq<Field>, p3: seq<Field>, m: nat)
    requires |p0| == |p1| == |p2| == |p3| == 2
    requires PlainBounded(p0, m) && PlainBounded(p1, m) && PlainBounded(p2, m) && PlainBounded(p3, m)
    ensures var variants := [Variant(ALG_KEYEDHASH, p0), Variant(ALG_SYMCIPHER, p1),
                             Variant(ALG_RSA, p2), Variant(ALG_ECC, p3)];
            VariantsBounded(variants, 2, m) && DistinctSelectors(variants)
  {
  }

  lemma {:induction false} PairBounded(a: Schema, b: Schema, m: nat)
    requires Bounded(a, m) && Bounded(b, m)
    ensures |Pair(a, b)| == 2 && PlainBounded(Pair(a, b), m)
  {
  }

  lemma {:induction false} PublicBounded()
    ensures Bounded(TPMT_PUBLIC, 2679)
  {
    RsaParmsBounded();
    EccParmsBounded();
    OtherParmsBounded();
    BufferBounded(DIGEST_MAX);
    BufferBounded(RSA_KEY_MAX);
    PublicOverBounded(
      TPMS_KEYEDHASH_PARMS, TPMS_SYMCIPHER_PARMS, TPMS_RSA_PARMS, TPMS_ECC_PARMS,
      TPM2B_DIGEST, Tpm2b(RSA_KEY_MAX), TPMS_ECC_POINT, 515);
  }

  lemma {:induction false} SensitiveCreateBounded()
    ensures Bounded(TPMS_SENSITIVE_CREATE, 542)
  {
    BufferBounded(DIGEST_MAX);
    BufferBounded(SENSITIVE_DATA_MAX);
    StructBounded(TPMS_SENSITIVE_CREATE.fields, 259);
  }

  lemma {:induction false} PcrSelectionBounded()
    ensures Bounded(TPMS_PCR_SELECTION, 8)
  {
    var fields := TPMS_PCR_SELECTION.fields;
    assert ValidField(fields[0]) && ValidField(fields[1]) && ValidField(fields[2]);
    assert EndOfFields(fields, 1, 0) == 2;
    assert EndOfFields(fields, 2, 0) == 3;
    assert EndOfFields(fields, 3, 0) == 7;
    assert AlignOfFields(fields, 1) == 2;
    assert AlignOfFields(fields, 2) == 2;
    assert AlignOfFields(fields, 3) == 2;
  }

  lemma {:induction false} TpmlBounded(elem: Schema, max: nat, m: nat, total: nat)
    requires Bounded(elem, m) && max * m + 19 <= total
    ensures Bounded(Tpml(elem, max), total)
  {
    var fields := Tpml(elem, max).fields;
    ScalarsBounded();
    assert ValidField(fields[0]) && ValidField(fields[1]) && ValidShape(fields, 1);
    assert EndOfFields(fields, 1, 0) == 4;
    assert AlignOfFields(fields, 1) == 4;
    assert max * SizeOf(elem) <= max * m by {
      MulMonotone(SizeOf(elem), m, max);
    }
    assert EndOfFields(fields, 2, 0) <= 12 + max * m;
    assert SizeOf(Tpml(elem, max)) == RoundUp(EndOfFields(fields, 2, 0), AlignOfFields(fields, 2));
  }

  lemma {:induction false} CreationDataBounded()
    ensures Bounded(TPMS_CREATION_DATA, 1093)
  {
    ScalarsBounded();
    PcrSelectionBounded();
    TpmlBounded(TPMS_PCR_SELECTION, 16, 8, 147);
    BufferBounded(DIGEST_MAX);
    BufferBounded(NAME_MAX);
    StructBounded(TPMS_CREATION_DATA.fields, 147);
  }

  // Tpm2bPublic, Tpm2bSensitiveCreate and Tpm2bCreationData hold any value of
  // their struct: from_struct succeeds, its cast to u16 is exact, and to_struct
  // recovers the value.
  lemma {:induction false} StructHolders(s: Schema, v: Value)
    requires s == TPMT_PUBLIC || s == TPMS_SENSITIVE_CREATE || s == TPMS_CREATION_DATA
    requires Matches(s, v)
    ensures Valid(s) && FromStruct(s, v).Held?
    ensures var holder := FromStruct(s, v).holder;
            && Matches(Tpm2b(SizeOf(s)), holder)
            && holder.size == |Encode(s, v)|
            && ToStruct(s, holder) == Parsed(Normalize(s, v), [])
  {
    PublicBounded();
    SensitiveCreateBounded();
    CreationDataBounded();
    HolderRoundTrip(s, v);
  }
}
