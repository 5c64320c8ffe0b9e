// The three types whose selector stands apart from the variant it selects.
module SeparateSelectors {
  import opened ByteOrder
  import opened Schemas
  import opened Codec
  import opened CodecLaws
  import opened Locality
  import opened TpmTypes

  const ST_ATTEST_NV := 0x8014
  const ST_ATTEST_COMMAND_AUDIT := 0x8015
  const ST_ATTEST_SESSION_AUDIT := 0x8016
  const ST_ATTEST_CERTIFY := 0x8017
  const ST_ATTEST_QUOTE := 0x8018
  const ST_ATTEST_TIME := 0x8019
  const ST_ATTEST_CREATION := 0x801A

  const TPM2B_NAME := Tpm2b(NAME_MAX)
  const TPMS_CLOCK_INFO := Struct([Plain(U64), Plain(U32), Plain(U32), Plain(U8)])
  const TPMS_CERTIFY_INFO := Struct(Pair(TPM2B_NAME, TPM2B_NAME))
  const TPMS_CREATION_INFO := Struct(Pair(TPM2B_NAME, TPM2B_DIGEST))
  const TPMS_QUOTE_INFO := Struct(Pair(TPML_PCR_SELECTION, TPM2B_DIGEST))
  const TPMS_COMMAND_AUDIT_INFO := Struct([Plain(U64), Plain(U16), Plain(TPM2B_DIGEST), Plain(TPM2B_DIGEST)])
  const TPMS_SESSION_AUDIT_INFO := Struct(Pair(U8, TPM2B_DIGEST))
  const TPMS_TIME_INFO := Struct(Pair(U64, TPMS_CLOCK_INFO))
  const TPMS_TIME_ATTEST_INFO := Struct(Pair(TPMS_TIME_INFO, U64))
  const TPMS_NV_CERTIFY_INFO := Struct([Plain(TPM2B_NAME), Plain(U16), Plain(Tpm2b(2048))])

  function Single(selector: nat, s: Schema): Variant {
    Variant(selector, [Plain(s)])
  }

  function AttestVariants(certify: Schema, creation: Schema, quote: Schema, commandAudit: Schema,
                          sessionAudit: Schema, time: Schema, nv: Schema): seq<Variant> {
    [Single(ST_ATTEST_CERTIFY, certify), Single(ST_ATTEST_CREATION, creation), Single(ST_ATTEST_QUOTE, quote),
     Single(ST_ATTEST_COMMAND_AUDIT, commandAudit), Single(ST_ATTEST_SESSION_AUDIT, sessionAudit),
     Single(ST_ATTEST_TIME, time), Single(ST_ATTEST_NV, nv)]
  }

  // Magic, selector, signer, extra data, clock, firmware version, variant.
  function AttestOver(clock: Schema, variants: seq<Variant>): Schema {
    Tagged([Plain(U32)], 2, [Plain(TPM2B_NAME), Plain(TPM2B_DIGEST), Plain(clock), Plain(U64)], variants)
  }

  const TPMS_ATTEST := AttestOver(TPMS_CLOCK_INFO, AttestVariants(
    TPMS_CERTIFY_INFO, TPMS_CREATION_INFO, TPMS_QUOTE_INFO, TPMS_COMMAND_AUDIT_INFO,
    TPMS_SESSION_AUDIT_INFO, TPMS_TIME_ATTEST_INFO, TPMS_NV_CERTIFY_INFO))

  // Selector, authorization, seed, variant.
  const TPMT_SENSITIVE := Tagged([], 2, Pair(TPM2B_DIGEST, TPM2B_DIGEST), SensitiveVariants(
    Tpm2b(256), Tpm2b(ECC_KEY_MAX), Tpm2b(SENSITIVE_DATA_MAX), Tpm2b(32), Tpm2b(1280)))

  function SensitiveVariants(rsa: Schema, ecc: Schema, bits: Schema, sym: Schema, any: Schema): seq<Variant> {
    [Single(ALG_RSA, rsa), Single(ALG_ECC, ecc), Single(ALG_KEYEDHASH, bits), Single(ALG_SYMCIPHER, sym),
     Single(ALG_NULL, any)]
  }

  // ---- They are schemas ----

  ghost predicate AllValid(variants: seq<Variant>) {
    forall v | v in variants ::
      v.selector < 0x1_0000 && |v.payload| == 1 && v.payload[0].shape.One? && Valid(v.payload[0].elem)
  }

  lemma {:induction false} PlainFieldsValid(fields: seq<Field>)
    requires forall f | f in fields :: f.shape.One? && Valid(f.elem)
    ensures ValidFields(fields)
  {
    forall k | 0 <= k < |fields|
      ensures ValidField(fields[k]) && ValidShape(fields, k)
    {
      assert fields[k] in fields;
    }
  }

  lemma {:induction false} TaggedValid(before: seq<Field>, middle: seq<Field>, variants: seq<Variant>)
    requires ValidFields(before) && ValidFields(middle)
    requires |variants| > 0 && AllValid(variants) && DistinctSelectors(variants)
    ensures Valid(Tagged(before, 2, middle, variants))
  {
    forall i | 0 <= i < |variants|
      ensures variants[i].selector < Pow256(2) && ValidFields(variants[i].payload)
    {
      assert variants[i] in variants;
      assert Pow256(2) == 0x1_0000;
      PlainFieldsValid(variants[i].payload);
    }
  }

  lemma {:induction false} SensitiveValid()
    ensures Valid(TPMT_SENSITIVE)
  {
    SensitiveVariantsValid(Tpm2b(256), Tpm2b(ECC_KEY_MAX), Tpm2b(SENSITIVE_DATA_MAX), Tpm2b(32), Tpm2b(1280));
    PlainFieldsValid(TPMT_SENSITIVE.middle);
    TaggedValid([], TPMT_SENSITIVE.middle, TPMT_SENSITIVE.variants);
  }

  lemma {:induction false} SensitiveVariantsValid(rsa: Schema, ecc: Schema, bits: Schema, sym: Schema, any: Schema)
    requires Valid(rsa) && Valid(ecc) && Valid(bits) && Valid(sym) && Valid(any)
    ensures var variants := SensitiveVariants(rsa, ecc, bits, sym, any);
            |variants| > 0 && AllValid(variants) && DistinctSelectors(variants)
  {
  }

  lemma {:induction false} AttestInfosValid()
    ensures Valid(TPMS_CLOCK_INFO) && Valid(TPMS_CERTIFY_INFO) && Valid(TPMS_CREATION_INFO)
    ensures Valid(TPMS_COMMAND_AUDIT_INFO) && Valid(TPMS_SESSION_AUDIT_INFO) && Valid(TPMS_NV_CERTIFY_INFO)
  {
    PlainFieldsValid(TPMS_CLOCK_INFO.fields);
    PlainFieldsValid(TPMS_CERTIFY_INFO.fields);
    PlainFieldsValid(TPMS_CREATION_INFO.fields);
    PlainFieldsValid(TPMS_COMMAND_AUDIT_INFO.fields);
    PlainFieldsValid(TPMS_SESSION_AUDIT_INFO.fields);
    PlainFieldsValid(TPMS_NV_CERTIFY_INFO.fields);
  }

  lemma {:induction false} NestedInfosValid()
    ensures Valid(TPMS_QUOTE_INFO) && Valid(TPMS_TIME_ATTEST_INFO)
  {
    PcrSelectionBounded();
    TpmlBounded(TPMS_PCR_SELECTION, 16, 8, 147);
    AttestInfosValid();
    PlainFieldsValid(TPMS_QUOTE_INFO.fields);
    PlainFieldsValid(TPMS_TIME_INFO.fields);
    PlainFieldsValid(TPMS_TIME_ATTEST_INFO.fields);
  }

  lemma {:induction false} AttestVariantsValid(
    certify: Schema, creation: Schema, quote: Schema, commandAudit: Schema, sessionAudit: Schema, time: Schema,
    nv: Schema)
    requires Valid(certify) && Valid(creation) && Valid(quote) && Valid(commandAudit)
    requires Valid(sessionAudit) && Valid(time) && Valid(nv)
    ensures var variants := AttestVariants(certify, creation, quote, commandAudit, sessionAudit, time, nv);
            |variants| > 0 && AllValid(variants) && DistinctSelectors(variants)
  {
    var variants := AttestVariants(certify, creation, quote, commandAudit, sessionAudit, time, nv);
    forall v | v in variants
      ensures v.selector < 0x1_0000 && |v.payload| == 1 && v.payload[0].shape.One? && Valid(v.payload[0].elem)
    {
      var i :| 0 <= i < |variants| && v == variants[i];
      assert v.payload[0].elem == [certify, creation, quote, commandAudit, sessionAudit, time, nv][i];
    }
    AttestSelectors(certify, creation, quote, commandAudit, sessionAudit, time, nv);
  }

  lemma {:induction false} AttestSelectors(
    certify: Schema, creation: Schema, quote: Schema, commandAudit: Schema, sessionAudit: Schema, time: Schema,
    nv: Schema)
    ensures DistinctSelectors(AttestVariants(certify, creation, quote, commandAudit, sessionAudit, time, nv))
  {
    var variants := AttestVariants(certify, creation, quote, commandAudit, sessionAudit, time, nv);
    var selectors := [ST_ATTEST_CERTIFY, ST_ATTEST_CREATION, ST_ATTEST_QUOTE, ST_ATTEST_COMMAND_AUDIT,
                      ST_ATTEST_SESSION_AUDIT, ST_ATTEST_TIME, ST_ATTEST_NV];
    assert forall i | 0 <= i < 7 :: variants[i].selector == selectors[i];
  }

  lemma {:induction false} AttestOverValid(clock: Schema, variants: seq<Variant>)
    requires Valid(clock) && |variants| > 0 && AllValid(variants) && DistinctSelectors(variants)
    ensures Valid(AttestOver(clock, variants))
  {
    var s := AttestOver(clock, variants);
    PlainFieldsValid(s.before);
    PlainFieldsValid(s.middle);
    TaggedValid(s.before, s.middle, variants);
  }

  lemma {:induction false} AttestValid()
    ensures Valid(TPMS_ATTEST)
  {
    AttestInfosValid();
    NestedInfosValid();
    AttestVariantsValid(
      TPMS_CERTIFY_INFO, TPMS_CREATION_INFO, TPMS_QUOTE_INFO, TPMS_COMMAND_AUDIT_INFO,
      TPMS_SESSION_AUDIT_INFO, TPMS_TIME_ATTEST_INFO, TPMS_NV_CERTIFY_INFO);
    AttestOverValid(TPMS_CLOCK_INFO, TPMS_ATTEST.variants);
  }

  predicate IsSeparate(s: Schema) {
    s == TPMT_PUBLIC || s == TPMT_SENSITIVE || s == TPMS_ATTEST
  }

  lemma {:induction false} SeparateValid(s: Schema)
    requires IsSeparate(s)
    ensures Valid(s) && s.Tagged?
  {
    PublicBounded();
    SensitiveValid();
    AttestValid();
  }

  // The wire order: the selector in front of the plain fields it precedes, the
  // variant's own data last, and the value comes back from it.
  lemma {:induction false} SeparateRoundTrip(s: Schema, v: Value, tail: seq<byte>)
    requires IsSeparate(s) && Matches(s, v)
    ensures Valid(s) && s.Tagged? && v.Chosen?
    ensures var variant := s.variants[v.index];
            var code := EncodeFields(s.before, v.before, |s.before|) + BeBytes(2, variant.selector)
                        + EncodeFields(s.middle, v.middle, |s.middle|)
                        + EncodeFields(variant.payload, v.payload, |variant.payload|);
            Decode(s, code + tail) == Parsed(Normalize(s, v), tail)
  {
    SeparateValid(s);
    RoundTrip(s, v, tail);
  }

  // One encoding per value.
  lemma {:induction false} SeparateCanonical(s: Schema, b: seq<byte>)
    requires IsSeparate(s)
    ensures Valid(s)
    ensures Decode(s, b).Parsed? ==>
              && Matches(s, Decode(s, b).value)
              && Encode(s, Decode(s, b).value) + Decode(s, b).rest == b
  {
    SeparateValid(s);
    if Decode(s, b).Parsed? {
      Canonical(s, b);
    }
  }

  // A selector of none of the variants fails with Selector, after the fields in
  // front of the variant have been read and whatever follows them.
  lemma {:induction false} SeparateUnknown(s: Schema, h: Head, tail: seq<byte>)
    requires IsSeparate(s) && s.Tagged? && MatchesHead(s, h)
    requires forall i | 0 <= i < |s.variants| :: s.variants[i].selector != h.selector
    ensures Valid(s) && Decode(s, EncodeHead(s, h) + tail) == Failed(Selector)
  {
    SeparateValid(s);
    UnknownSelectorFails(s, h, tail);
  }
}
