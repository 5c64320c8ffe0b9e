// TPM structures byte by byte: the three types whose selector stands apart, and
// the structs that they and the TPM2B holders are made of.
module TypesOnWire {
  import opened ByteOrder
  import opened Schemas
  import opened Codec
  import opened TpmTypes
  import opened SeparateSelectors
  import opened WireFormat

  // ---- Pieces ----

  function Word(n: int): (b: seq<byte>)
    requires 0 <= n < 0x1_0000
  {
    [n / 0x100, n % 0x100]
  }

  function Long(n: int): (b: seq<byte>)
    requires 0 <= n < 0x1_0000_0000
  {
    Word(n / 0x1_0000) + Word(n % 0x1_0000)
  }

  function Quad(n: int): (b: seq<byte>)
    requires 0 <= n < 0x1_0000_0000_0000_0000
  {
    Long(n / 0x1_0000_0000) + Long(n % 0x1_0000_0000)
  }

  // A TPM2B: its size and as many bytes.
  function Sized(v: Value): (b: seq<byte>)
    requires v.Buffer? && v.size < 0x1_0000 && v.size <= |v.bytes|
  {
    Word(v.size) + v.bytes[..v.size]
  }

  lemma {:induction false} ByteOnWire(n: int)
    requires 0 <= n < 0x100
    ensures Matches(U8, Int(n)) && Encode(U8, Int(n)) == [n]
  {
    Widths();
    IntegerOnWire(1, false, n);
    assert n / Pow256(0) == n;
  }

  lemma {:induction false} WordOnWire(n: int)
    requires 0 <= n < 0x1_0000
    ensures Matches(U16, Int(n)) && Encode(U16, Int(n)) == Word(n) && n < Pow256(2) && BeBytes(2, n) == Word(n)
  {
    Widths();
    SizeOnWire(n);
  }

  lemma {:induction false} LongOnWire(n: int)
    requires 0 <= n < 0x1_0000_0000
    ensures Matches(U32, Int(n)) && Encode(U32, Int(n)) == Long(n) && n < Pow256(4) && BeBytes(4, n) == Long(n)
  {
    Widths();
    WordOnWire(n / 0x1_0000);
    WordOnWire(n % 0x1_0000);
    Halves(2, Word(n / 0x1_0000), Word(n % 0x1_0000), n);
  }

  lemma {:induction false} QuadOnWire(n: int)
    requires 0 <= n < 0x1_0000_0000_0000_0000
    ensures Matches(U64, Int(n)) && Encode(U64, Int(n)) == Quad(n)
  {
    Widths();
    LongOnWire(n / 0x1_0000_0000);
    LongOnWire(n % 0x1_0000_0000);
    Halves(4, Long(n / 0x1_0000_0000), Long(n % 0x1_0000_0000), n);
  }

  // The high half in front of the low half.
  lemma {:induction false} Halves(width: nat, high: seq<byte>, low: seq<byte>, n: nat)
    requires |high| == |low| == width && BeValue(high) * Pow256(width) + BeValue(low) == n
    ensures n < Pow256(2 * width) && BeBytes(2 * width, n) == high + low
  {
    BeValueOfConcat(high, low);
    BytesOfValue(high + low, n);
  }

  lemma {:induction false} BytesOfValue(b: seq<byte>, n: nat)
    requires BeValue(b) == n
    ensures n < Pow256(|b|) && BeBytes(|b|, n) == b
  {
    BeBytesOfValue(b);
  }

  lemma {:induction false} BufferOnWire(max: nat, v: Value)
    requires Matches(Tpm2b(max), v)
    ensures v.Buffer? && v.size < 0x1_0000 && v.size <= |v.bytes| && Encode(Tpm2b(max), v) == Sized(v)
  {
    Tpm2bOnWire(max, v);
  }

  // ---- Structs of a few plain fields ----

  lemma {:induction false} OneMoreField(schemas: seq<Schema>, vals: seq<Value>, k: nat)
    requires k < |schemas| == |vals| && MatchesFields(Plains(schemas), vals, k)
    requires Matches(schemas[k], vals[k])
    ensures MatchesFields(Plains(schemas), vals, k + 1)
    ensures EncodeFields(Plains(schemas), vals, k + 1)
         == EncodeFields(Plains(schemas), vals, k) + Encode(schemas[k], vals[k])
  {
    PlainFieldOnWire(Plains(schemas), vals, k);
  }

  function Plains(schemas: seq<Schema>): (fields: seq<Field>)
    ensures |fields| == |schemas|
  {
    seq(|schemas|, k requires 0 <= k < |schemas| => Plain(schemas[k]))
  }

  ghost predicate AllMatch(schemas: seq<Schema>, vals: seq<Value>) {
    |schemas| == |vals| && forall k | 0 <= k < |schemas| :: Matches(schemas[k], vals[k])
  }

  // The first `k` values in order.
  ghost function Joined(schemas: seq<Schema>, vals: seq<Value>, k: nat): seq<byte>
    requires AllMatch(schemas, vals) && k <= |schemas|
  {
    if k == 0 then [] else Joined(schemas, vals, k - 1) + Encode(schemas[k - 1], vals[k - 1])
  }

  lemma {:induction false} StructIsJoined(schemas: seq<Schema>, vals: seq<Value>)
    requires AllMatch(schemas, vals)
    ensures Matches(Struct(Plains(schemas)), Record(vals))
    ensures Encode(Struct(Plains(schemas)), Record(vals)) == Joined(schemas, vals, |schemas|)
  {
    FieldsAreJoined(schemas, vals, |schemas|);
  }

  lemma {:induction false} FieldsAreJoined(schemas: seq<Schema>, vals: seq<Value>, k: nat)
    requires AllMatch(schemas, vals) && k <= |schemas|
    ensures MatchesFields(Plains(schemas), vals, k)
    ensures EncodeFields(Plains(schemas), vals, k) == Joined(schemas, vals, k)
  {
    if k > 0 {
      FieldsAreJoined(schemas, vals, k - 1);
      OneMoreField(schemas, vals, k - 1);
    }
  }

  lemma {:induction false} OneField(s0: Schema, v0: Value)
    requires Matches(s0, v0)
    ensures Matches(Struct([Plain(s0)]), Record([v0]))
    ensures Encode(Struct([Plain(s0)]), Record([v0])) == Encode(s0, v0)
  {
    StructIsJoined([s0], [v0]);
    assert Plains([s0]) == [Plain(s0)];
    assert Joined([s0], [v0], 1) == Encode(s0, v0);
  }

  lemma {:induction false} TwoFields(s0: Schema, s1: Schema, v0: Value, v1: Value)
    requires Matches(s0, v0) && Matches(s1, v1)
    ensures Matches(Struct(Pair(s0, s1)), Record([v0, v1]))
    ensures Encode(Struct(Pair(s0, s1)), Record([v0, v1])) == Encode(s0, v0) + Encode(s1, v1)
  {
    var schemas, vals := [s0, s1], [v0, v1];
    StructIsJoined(schemas, vals);
    assert Plains(schemas) == Pair(s0, s1);
    assert Joined(schemas, vals, 1) == Encode(s0, v0);
  }

  lemma {:induction false} ThreeFields(s0: Schema, s1: Schema, s2: Schema, v0: Value, v1: Value, v2: Value)
    requires Matches(s0, v0) && Matches(s1, v1) && Matches(s2, v2)
    ensures Matches(Struct([Plain(s0), Plain(s1), Plain(s2)]), Record([v0, v1, v2]))
    ensures Encode(Struct([Plain(s0), Plain(s1), Plain(s2)]), Record([v0, v1, v2]))
         == Encode(s0, v0) + Encode(s1, v1) + Encode(s2, v2)
  {
    var schemas, vals := [s0, s1, s2], [v0, v1, v2];
    StructIsJoined(schemas, vals);
    assert Plains(schemas) == [Plain(s0), Plain(s1), Plain(s2)];
    assert Joined(schemas, vals, 1) == Encode(s0, v0);
    assert Joined(schemas, vals, 2) == Encode(s0, v0) + Encode(s1, v1);
  }

  lemma {:induction false} FourFields(
    s0: Schema, s1: Schema, s2: Schema, s3: Schema, v0: Value, v1: Value, v2: Value, v3: Value)
    requires Matches(s0, v0) && Matches(s1, v1) && Matches(s2, v2) && Matches(s3, v3)
    ensures Matches(Struct([Plain(s0), Plain(s1), Plain(s2), Plain(s3)]), Record([v0, v1, v2, v3]))
    ensures Encode(Struct([Plain(s0), Plain(s1), Plain(s2), Plain(s3)]), Record([v0, v1, v2, v3]))
         == Encode(s0, v0) + Encode(s1, v1) + Encode(s2, v2) + Encode(s3, v3)
  {
    var schemas, vals := [s0, s1, s2, s3], [v0, v1, v2, v3];
    StructIsJoined(schemas, vals);
    assert Plains(schemas) == [Plain(s0), Plain(s1), Plain(s2), Plain(s3)];
    FirstFour(schemas, vals);
  }

  lemma {:induction false} FirstFour(schemas: seq<Schema>, vals: seq<Value>)
    requires AllMatch(schemas, vals) && |schemas| >= 4
    ensures Joined(schemas, vals, 4)
         == Encode(schemas[0], vals[0]) + Encode(schemas[1], vals[1]) + Encode(schemas[2], vals[2])
            + Encode(schemas[3], vals[3])
  {
    assert Joined(schemas, vals, 1) == Encode(schemas[0], vals[0]);
    assert Joined(schemas, vals, 2) == Encode(schemas[0], vals[0]) + Encode(schemas[1], vals[1]);
  }

  // ---- TpmtPublic ----

  // Selector, name algorithm, attributes, policy, and the two parts of the variant.
  lemma {:induction false} PublicOnWire(
    nameAlg: int, attributes: int, policy: Value, index: nat, parms: Value, id: Value)
    requires 0 <= nameAlg < 0x1_0000 && 0 <= attributes < 0x1_0000_0000 && Matches(Tpm2b(64), policy) && index < 4
    requires Matches(PublicParms()[index], parms) && Matches(PublicIds()[index], id)
    ensures policy.Buffer? && policy.size < 0x1_0000 && policy.size <= |policy.bytes|
    ensures var v := Chosen([], [Int(nameAlg), Int(attributes), policy], index, [parms, id]);
            && Matches(TPMT_PUBLIC, v)
            && Encode(TPMT_PUBLIC, v)
            == Word([0x0008, 0x0025, 0x0001, 0x0023][index]) + (Word(nameAlg) + Long(attributes) + Sized(policy))
               + (Encode(PublicParms()[index], parms) + Encode(PublicIds()[index], id))
  {
    PublicOverOnWire(
      TPMS_KEYEDHASH_PARMS, TPMS_SYMCIPHER_PARMS, TPMS_RSA_PARMS, TPMS_ECC_PARMS,
      TPM2B_DIGEST, Tpm2b(512), TPMS_ECC_POINT, nameAlg, attributes, policy, index, parms, id);
    BufferOnWire(64, policy);
  }

  // The types that the variants KeyedHash, Sym, Rsa and Ecc carry.
  function PublicParms(): (s: seq<Schema>)
    ensures |s| == 4
  {
    [TPMS_KEYEDHASH_PARMS, TPMS_SYMCIPHER_PARMS, TPMS_RSA_PARMS, TPMS_ECC_PARMS]
  }

  function PublicIds(): (s: seq<Schema>)
    ensures |s| == 4
  {
    [Tpm2b(64), Tpm2b(64), Tpm2b(512), TPMS_ECC_POINT]
  }

  lemma {:induction false} PublicOverOnWire(
    keyedHash: Schema, sym: Schema, rsa: Schema, ecc: Schema, digest: Schema, modulus: Schema, point: Schema,
    nameAlg: int, attributes: int, policy: Value, index: nat, parms: Value, id: Value)
    requires 0 <= nameAlg < 0x1_0000 && 0 <= attributes < 0x1_0000_0000 && Matches(digest, policy) && index < 4
    requires Matches([keyedHash, sym, rsa, ecc][index], parms)
    requires Matches([digest, digest, modulus, point][index], id)
    ensures var s := PublicOver(keyedHash, sym, rsa, ecc, digest, modulus, point);
            var v := Chosen([], [Int(nameAlg), Int(attributes), policy], index, [parms, id]);
            && Matches(s, v)
            && Encode(s, v)
            == Word([0x0008, 0x0025, 0x0001, 0x0023][index])
               + (Word(nameAlg) + Long(attributes) + Encode(digest, policy))
               + (Encode([keyedHash, sym, rsa, ecc][index], parms)
                  + Encode([digest, digest, modulus, point][index], id))
  {
    var s := PublicOver(keyedHash, sym, rsa, ecc, digest, modulus, point);
    WordOnWire(nameAlg);
    LongOnWire(attributes);
    ThreeFields(U16, U32, digest, Int(nameAlg), Int(attributes), policy);
    TwoFields([keyedHash, sym, rsa, ecc][index], [digest, digest, modulus, point][index], parms, id);
    HeadlessOnWire(s.middle, s.variants, [Int(nameAlg), Int(attributes), policy], index, [parms, id]);
  }

  // A tagged type with nothing in front of its selector.
  lemma {:induction false} HeadlessOnWire(
    middle: seq<Field>, variants: seq<Variant>, vals: seq<Value>, index: nat, payload: seq<Value>)
    requires index < |variants| && variants[index].selector < 0x1_0000
    requires Matches(Struct(middle), Record(vals)) && Matches(Struct(variants[index].payload), Record(payload))
    ensures var s, v := Tagged([], 2, middle, variants), Chosen([], vals, index, payload);
            && Matches(s, v)
            && Encode(s, v) == Word(variants[index].selector) + Encode(Struct(middle), Record(vals))
                               + Encode(Struct(variants[index].payload), Record(payload))
  {
    var s, v := Tagged([], 2, middle, variants), Chosen([], vals, index, payload);
    WordOnWire(variants[index].selector);
    assert MatchesFields([], [], 0);
    TaggedOnWire(s, v);
    assert Encode(Struct([]), Record([])) == [];
    assert [] + Word(variants[index].selector) == Word(variants[index].selector);
  }

  // ---- TpmtSensitive ----

  // Selector, authorization, seed and the sensitive part.
  lemma {:induction false} SensitiveOnWire(auth: Value, seed: Value, index: nat, part: Value)
    requires Matches(Tpm2b(64), auth) && Matches(Tpm2b(64), seed) && index < 5
    requires Matches(Tpm2b([256, 128, 256, 32, 1280][index]), part)
    ensures auth.Buffer? && auth.size < 0x1_0000 && auth.size <= |auth.bytes|
    ensures seed.Buffer? && seed.size < 0x1_0000 && seed.size <= |seed.bytes|
    ensures part.Buffer? && part.size < 0x1_0000 && part.size <= |part.bytes|
    ensures var v := Chosen([], [auth, seed], index, [part]);
            && Matches(TPMT_SENSITIVE, v)
            && Encode(TPMT_SENSITIVE, v)
            == Word([0x0001, 0x0023, 0x0008, 0x0025, 0x0010][index]) + (Sized(auth) + Sized(seed)) + Sized(part)
  {
    var s := TPMT_SENSITIVE;
    BufferOnWire(64, auth);
    BufferOnWire(64, seed);
    BufferOnWire([256, 128, 256, 32, 1280][index], part);
    TwoFields(TPM2B_DIGEST, TPM2B_DIGEST, auth, seed);
    OneField(Tpm2b([256, 128, 256, 32, 1280][index]), part);
    HeadlessOnWire(s.middle, s.variants, [auth, seed], index, [part]);
  }

  // ---- TpmsAttest ----

  // Magic, selector, signer, extra data, clock, firmware version and the attested
  // structure.
  lemma {:induction false} AttestOnWire(
    magic: int, signer: Value, extra: Value, clock: int, resets: int, restarts: int, safe: int, firmware: int,
    index: nat, attested: Value)
    requires 0 <= magic < 0x1_0000_0000 && Matches(Tpm2b(68), signer) && Matches(Tpm2b(64), extra)
    requires ClockOk(clock, resets, restarts, safe) && 0 <= firmware < 0x1_0000_0000_0000_0000
    requires index < 7 && Matches(AttestedTypes()[index], attested)
    ensures signer.Buffer? && signer.size < 0x1_0000 && signer.size <= |signer.bytes|
    ensures extra.Buffer? && extra.size < 0x1_0000 && extra.size <= |extra.bytes|
    ensures var clockInfo := Record([Int(clock), Int(resets), Int(restarts), Int(safe)]);
            var v := Chosen([Int(magic)], [signer, extra, clockInfo, Int(firmware)], index, [attested]);
            && Matches(TPMS_ATTEST, v)
            && Encode(TPMS_ATTEST, v)
            == Long(magic) + Word([0x8017, 0x801A, 0x8018, 0x8015, 0x8016, 0x8019, 0x8014][index])
               + (Sized(signer) + Sized(extra) + (Quad(clock) + Long(resets) + Long(restarts) + [safe])
                  + Quad(firmware))
               + Encode(AttestedTypes()[index], attested)
  {
    var clockInfo := Record([Int(clock), Int(resets), Int(restarts), Int(safe)]);
    ClockOnWire(clock, resets, restarts, safe);
    BufferOnWire(68, signer);
    BufferOnWire(64, extra);
    QuadOnWire(firmware);
    FourFields(TPM2B_NAME, TPM2B_DIGEST, TPMS_CLOCK_INFO, U64, signer, extra, clockInfo, Int(firmware));
    var vals := [signer, extra, clockInfo, Int(firmware)];
    AttestOverOnWire(
      TPMS_CLOCK_INFO, TPMS_CERTIFY_INFO, TPMS_CREATION_INFO, TPMS_QUOTE_INFO, TPMS_COMMAND_AUDIT_INFO,
      TPMS_SESSION_AUDIT_INFO, TPMS_TIME_ATTEST_INFO, TPMS_NV_CERTIFY_INFO, magic, vals, index, attested);
  }

  // The types that the variants Certify, Creation, Quote, CommandAudit,
  // SessionAudit, Time and Nv carry.
  function AttestedTypes(): (s: seq<Schema>)
    ensures |s| == 7
  {
    [TPMS_CERTIFY_INFO, TPMS_CREATION_INFO, TPMS_QUOTE_INFO, TPMS_COMMAND_AUDIT_INFO,
     TPMS_SESSION_AUDIT_INFO, TPMS_TIME_ATTEST_INFO, TPMS_NV_CERTIFY_INFO]
  }

  predicate ClockOk(clock: int, resets: int, restarts: int, safe: int) {
    && 0 <= clock < 0x1_0000_0000_0000_0000
    && 0 <= resets < 0x1_0000_0000 && 0 <= restarts < 0x1_0000_0000
    && 0 <= safe < 0x100
  }

  lemma {:induction false} ClockOnWire(clock: int, resets: int, restarts: int, safe: int)
    requires ClockOk(clock, resets, restarts, safe)
    ensures var v := Record([Int(clock), Int(resets), Int(restarts), Int(safe)]);
            && Matches(TPMS_CLOCK_INFO, v)
            && Encode(TPMS_CLOCK_INFO, v) == Quad(clock) + Long(resets) + Long(restarts) + [safe]
  {
    QuadOnWire(clock);
    LongOnWire(resets);
    LongOnWire(restarts);
    ByteOnWire(safe);
    FourFields(U64, U32, U32, U8, Int(clock), Int(resets), Int(restarts), Int(safe));
  }

  lemma {:induction false} AttestOverOnWire(
    clock: Schema, certify: Schema, creation: Schema, quote: Schema, commandAudit: Schema, sessionAudit: Schema,
    time: Schema, nv: Schema, magic: int, vals: seq<Value>, index: nat, attested: Value)
    requires 0 <= magic < 0x1_0000_0000 && index < 7
    requires Matches(Struct([Plain(TPM2B_NAME), Plain(TPM2B_DIGEST), Plain(clock), Plain(U64)]), Record(vals))
    requires Matches([certify, creation, quote, commandAudit, sessionAudit, time, nv][index], attested)
    ensures var s := AttestOver(
                       clock, AttestVariants(certify, creation, quote, commandAudit, sessionAudit, time, nv));
            var v := Chosen([Int(magic)], vals, index, [attested]);
            && Matches(s, v)
            && Encode(s, v)
            == Long(magic) + Word([0x8017, 0x801A, 0x8018, 0x8015, 0x8016, 0x8019, 0x8014][index])
               + Encode(Struct([Plain(TPM2B_NAME), Plain(TPM2B_DIGEST), Plain(clock), Plain(U64)]), Record(vals))
               + Encode([certify, creation, quote, commandAudit, sessionAudit, time, nv][index], attested)
  {
    var variants := AttestVariants(certify, creation, quote, commandAudit, sessionAudit, time, nv);
    assert variants[index]
        == Single([0x8017, 0x801A, 0x8018, 0x8015, 0x8016, 0x8019, 0x8014][index],
                  [certify, creation, quote, commandAudit, sessionAudit, time, nv][index]);
    AttestedOnWire(clock, variants, magic, vals, index, attested);
  }

  lemma {:induction false} AttestedOnWire(
    clock: Schema, variants: seq<Variant>, magic: int, vals: seq<Value>, index: nat, attested: Value)
    requires 0 <= magic < 0x1_0000_0000 && index < |variants|
    requires Matches(Struct([Plain(TPM2B_NAME), Plain(TPM2B_DIGEST), Plain(clock), Plain(U64)]), Record(vals))
    requires variants[index].selector < 0x1_0000 && |variants[index].payload| == 1
    requires variants[index].payload[0].shape.One? && Matches(variants[index].payload[0].elem, attested)
    ensures var s, v := AttestOver(clock, variants), Chosen([Int(magic)], vals, index, [attested]);
            && Matches(s, v)
            && Encode(s, v)
            == Long(magic) + Word(variants[index].selector)
               + Encode(Struct([Plain(TPM2B_NAME), Plain(TPM2B_DIGEST), Plain(clock), Plain(U64)]), Record(vals))
               + Encode(variants[index].payload[0].elem, attested)
  {
    var s, v := AttestOver(clock, variants), Chosen([Int(magic)], vals, index, [attested]);
    LongOnWire(magic);
    OneField(U32, Int(magic));
    OneField(variants[index].payload[0].elem, attested);
    assert variants[index].payload == [Plain(variants[index].payload[0].elem)];
    WordOnWire(variants[index].selector);
    TaggedOnWire(s, v);
  }

  // ---- What TpmsAttest attests ----

  lemma {:induction false} NamesOnWire(name: Value, qualified: Value, hash: Value)
    requires Matches(Tpm2b(68), name) && Matches(Tpm2b(68), qualified) && Matches(Tpm2b(64), hash)
    ensures Matches(TPMS_CERTIFY_INFO, Record([name, qualified]))
    ensures Encode(TPMS_CERTIFY_INFO, Record([name, qualified]))
         == Encode(Tpm2b(68), name) + Encode(Tpm2b(68), qualified)
    ensures Matches(TPMS_CREATION_INFO, Record([name, hash]))
    ensures Encode(TPMS_CREATION_INFO, Record([name, hash])) == Encode(Tpm2b(68), name) + Encode(Tpm2b(64), hash)
  {
    TwoFields(Tpm2b(68), Tpm2b(68), name, qualified);
    TwoFields(Tpm2b(68), Tpm2b(64), name, hash);
  }

  lemma {:induction false} QuoteOnWire(pcrs: Value, digest: Value)
    requires Matches(TPML_PCR_SELECTION, pcrs) && Matches(Tpm2b(64), digest)
    ensures Matches(TPMS_QUOTE_INFO, Record([pcrs, digest]))
    ensures Encode(TPMS_QUOTE_INFO, Record([pcrs, digest]))
         == Encode(TPML_PCR_SELECTION, pcrs) + Encode(Tpm2b(64), digest)
  {
    TwoFields(TPML_PCR_SELECTION, Tpm2b(64), pcrs, digest);
  }

  lemma {:induction false} AuditsOnWire(counter: int, alg: int, audit: Value, command: Value, exclusive: int)
    requires 0 <= counter < 0x1_0000_0000_0000_0000 && 0 <= alg < 0x1_0000 && 0 <= exclusive < 0x100
    requires Matches(Tpm2b(64), audit) && Matches(Tpm2b(64), command)
    ensures var v := Record([Int(counter), Int(alg), audit, command]);
            && Matches(TPMS_COMMAND_AUDIT_INFO, v)
            && Encode(TPMS_COMMAND_AUDIT_INFO, v)
            == Quad(counter) + Word(alg) + Encode(Tpm2b(64), audit) + Encode(Tpm2b(64), command)
    ensures Matches(TPMS_SESSION_AUDIT_INFO, Record([Int(exclusive), audit]))
    ensures Encode(TPMS_SESSION_AUDIT_INFO, Record([Int(exclusive), audit])) == [exclusive] + Encode(Tpm2b(64), audit)
  {
    QuadOnWire(counter);
    WordOnWire(alg);
    ByteOnWire(exclusive);
    FourFields(U64, U16, Tpm2b(64), Tpm2b(64), Int(counter), Int(alg), audit, command);
    TwoFields(U8, Tpm2b(64), Int(exclusive), audit);
  }

  lemma {:induction false} TimeOnWire(time: int, clock: int, resets: int, restarts: int, safe: int, firmware: int)
    requires 0 <= time < 0x1_0000_0000_0000_0000 && ClockOk(clock, resets, restarts, safe)
    requires 0 <= firmware < 0x1_0000_0000_0000_0000
    ensures var clockInfo := Record([Int(clock), Int(resets), Int(restarts), Int(safe)]);
            var v := Record([Record([Int(time), clockInfo]), Int(firmware)]);
            && Matches(TPMS_TIME_ATTEST_INFO, v)
            && Encode(TPMS_TIME_ATTEST_INFO, v)
            == Quad(time) + (Quad(clock) + Long(resets) + Long(restarts) + [safe]) + Quad(firmware)
  {
    var clockInfo := Record([Int(clock), Int(resets), Int(restarts), Int(safe)]);
    ClockOnWire(clock, resets, restarts, safe);
    QuadOnWire(time);
    QuadOnWire(firmware);
    TwoFields(U64, TPMS_CLOCK_INFO, Int(time), clockInfo);
    TwoFields(TPMS_TIME_INFO, U64, Record([Int(time), clockInfo]), Int(firmware));
  }

  lemma {:induction false} NvOnWire(name: Value, offset: int, contents: Value)
    requires Matches(Tpm2b(68), name) && 0 <= offset < 0x1_0000 && Matches(Tpm2b(2048), contents)
    ensures Matches(TPMS_NV_CERTIFY_INFO, Record([name, Int(offset), contents]))
    ensures Encode(TPMS_NV_CERTIFY_INFO, Record([name, Int(offset), contents]))
         == Encode(Tpm2b(68), name) + Word(offset) + Encode(Tpm2b(2048), contents)
  {
    WordOnWire(offset);
    ThreeFields(Tpm2b(68), U16, Tpm2b(2048), name, Int(offset), contents);
  }

  // ---- Schemes: an algorithm and at most two words ----

  // The words that a scheme carries; an empty struct among them is nothing.
  function WordsOf(payload: seq<Value>): seq<byte> {
    FirstWords(payload, |payload|)
  }

  function FirstWords(payload: seq<Value>, k: nat): seq<byte>
    requires k <= |payload|
  {
    if k == 0 then [] else FirstWords(payload, k - 1) + WordOf(payload[k - 1])
  }

  function WordOf(v: Value): seq<byte> {
    if v.Int? && 0 <= v.n < 0x1_0000 then Word(v.n) else []
  }

  ghost predicate ScalarOk(f: Field, v: Value) {
    && f.shape.One? && Matches(f.elem, v)
    && Encode(f.elem, v) == WordOf(v)
    && if f == Plain(U16) then v.Int? && 0 <= v.n < 0x1_0000 else v == Record([])
  }

  ghost predicate ScalarAt(fields: seq<Field>, vals: seq<Value>, k: nat)
    requires k < |fields| == |vals|
  {
    ScalarOk(fields[k], vals[k])
  }

  lemma {:induction false} PayloadOnWire(fields: seq<Field>, vals: seq<Value>, k: nat)
    requires k <= |fields| == |vals|
    requires forall j | 0 <= j < |fields| :: ScalarAt(fields, vals, j)
    ensures MatchesFields(fields, vals, k) && EncodeFields(fields, vals, k) == FirstWords(vals, k)
  {
    if k > 0 {
      PayloadOnWire(fields, vals, k - 1);
      assert ScalarAt(fields, vals, k - 1);
      PlainFieldOnWire(fields, vals, k - 1);
    }
  }

  lemma {:induction false} ScalarsOk(fields: seq<Field>, vals: seq<Value>)
    requires forall j | 0 <= j < |fields| :: fields[j] == Plain(U16) || fields[j] == Plain(EMPTY)
    requires |fields| == |vals| && MatchesFields(fields, vals, |fields|)
    ensures forall j | 0 <= j < |fields| :: ScalarAt(fields, vals, j)
  {
    forall j | 0 <= j < |fields|
      ensures ScalarAt(fields, vals, j)
    {
      assert MatchesField(fields[j], vals, j);
      ScalarOnWire(fields[j], vals[j]);
    }
  }

  lemma {:induction false} ScalarOnWire(f: Field, v: Value)
    requires f == Plain(U16) || f == Plain(EMPTY)
    requires MatchesElem(f, v)
    ensures ScalarOk(f, v)
  {
    if f == Plain(U16) {
      Widths();
      IntegerInRange(U16, v);
      WordOnWire(v.n);
    } else {
      NothingInEmpty(v);
    }
  }

  lemma {:induction false} NothingInEmpty(v: Value)
    requires Matches(EMPTY, v)
    ensures v == Record([]) && Encode(EMPTY, v) == []
  {
    assert v.vals == [];
  }

  // The selectors of an enum, and how many words each variant carries, in front
  // of empty structs.
  ghost predicate Table(variants: seq<Variant>, selectors: seq<nat>, words: seq<nat>) {
    && |variants| == |selectors| == |words|
    && forall i | 0 <= i < |variants| ::
         variants[i].selector == selectors[i] < 0x1_0000 && Carries(variants[i].payload, words[i])
  }

  ghost predicate Carries(fields: seq<Field>, words: nat) {
    && words <= |fields|
    && forall j | 0 <= j < |fields| :: fields[j] == if j < words then Plain(U16) else Plain(EMPTY)
  }

  predicate WordsThenEmpty(payload: seq<Value>, words: nat) {
    && words <= |payload|
    && (forall j | 0 <= j < words :: payload[j].Int? && 0 <= payload[j].n < 0x1_0000)
    && forall j | words <= j < |payload| :: payload[j] == Record([])
  }

  lemma {:induction false} SchemeOnWire(
    variants: seq<Variant>, selectors: seq<nat>, words: seq<nat>, index: nat, payload: seq<Value>)
    requires Table(variants, selectors, words)
    requires index < |variants| && Matches(Enum(variants), Chosen([], [], index, payload))
    ensures WordsThenEmpty(payload, words[index])
    ensures Encode(Enum(variants), Chosen([], [], index, payload)) == Word(selectors[index]) + WordsOf(payload)
  {
    var variant := variants[index];
    assert Carries(variant.payload, words[index]);
    ScalarsOk(variant.payload, payload);
    PayloadOnWire(variant.payload, payload, |payload|);
    CarriedWords(variant.payload, payload, words[index]);
    NothingInFront(variants, index, payload);
  }

  lemma {:induction false} CarriedWords(fields: seq<Field>, payload: seq<Value>, words: nat)
    requires Carries(fields, words) && |fields| == |payload|
    requires forall j | 0 <= j < |fields| :: ScalarAt(fields, payload, j)
    ensures WordsThenEmpty(payload, words)
  {
    forall j | 0 <= j < |payload|
      ensures if j < words then payload[j].Int? && 0 <= payload[j].n < 0x1_0000 else payload[j] == Record([])
    {
      assert ScalarAt(fields, payload, j);
    }
  }

  lemma {:induction false} NothingInFront(variants: seq<Variant>, index: nat, payload: seq<Value>)
    requires index < |variants| && variants[index].selector < 0x1_0000
    requires Matches(Struct(variants[index].payload), Record(payload))
    ensures Encode(Enum(variants), Chosen([], [], index, payload))
         == Word(variants[index].selector) + Encode(Struct(variants[index].payload), Record(payload))
  {
    assert MatchesFields([], [], 0) && Encode(Struct([]), Record([])) == [];
    HeadlessOnWire([], variants, [], index, payload);
    assert Word(variants[index].selector) + [] == Word(variants[index].selector);
  }

  // AES, SM4 and Camellia carry key bits and a mode, XOR a hash, Null nothing.
  lemma {:induction false} SymDefObjectOnWire(index: nat, payload: seq<Value>)
    requires index < 5 && Matches(TPMT_SYM_DEF_OBJECT, Chosen([], [], index, payload))
    ensures WordsThenEmpty(payload, [2, 2, 2, 1, 0][index])
    ensures Encode(TPMT_SYM_DEF_OBJECT, Chosen([], [], index, payload))
         == Word([0x0006, 0x0013, 0x0026, 0x000A, 0x0010][index]) + WordsOf(payload)
  {
    SymDefObjectTable();
    SchemeOnWire(TPMT_SYM_DEF_OBJECT.variants, [0x0006, 0x0013, 0x0026, 0x000A, 0x0010], [2, 2, 2, 1, 0],
                 index, payload);
  }

  lemma {:induction false} SymDefObjectTable()
    ensures Table(TPMT_SYM_DEF_OBJECT.variants, [0x0006, 0x0013, 0x0026, 0x000A, 0x0010], [2, 2, 2, 1, 0])
  {
  }

  // ECDAA carries a hash and a count, RSAES and Null nothing, the others a hash.
  lemma {:induction false} RsaSchemeOnWire(index: nat, payload: seq<Value>)
    requires index < 9 && Matches(TPMT_RSA_SCHEME, Chosen([], [], index, payload))
    ensures WordsThenEmpty(payload, [1, 1, 1, 2, 1, 1, 0, 1, 0][index])
    ensures Encode(TPMT_RSA_SCHEME, Chosen([], [], index, payload))
         == Word([0x0016, 0x0014, 0x0018, 0x001A, 0x001B, 0x001C, 0x0015, 0x0017, 0x0010][index]) + WordsOf(payload)
  {
    RsaSchemeTable();
    SchemeOnWire(
      TPMT_RSA_SCHEME.variants, [0x0016, 0x0014, 0x0018, 0x001A, 0x001B, 0x001C, 0x0015, 0x0017, 0x0010],
      [1, 1, 1, 2, 1, 1, 0, 1, 0], index, payload);
  }

  lemma {:induction false} RsaSchemeTable()
    ensures Table(TPMT_RSA_SCHEME.variants,
                  [0x0016, 0x0014, 0x0018, 0x001A, 0x001B, 0x001C, 0x0015, 0x0017, 0x0010],
                  [1, 1, 1, 2, 1, 1, 0, 1, 0])
  {
  }

  // ECDAA carries a hash and a count, Null nothing, the others a hash.
  lemma {:induction false} EccSchemeOnWire(index: nat, payload: seq<Value>)
    requires index < 9 && Matches(TPMT_ECC_SCHEME, Chosen([], [], index, payload))
    ensures WordsThenEmpty(payload, [1, 1, 1, 2, 1, 1, 1, 1, 0][index])
    ensures Encode(TPMT_ECC_SCHEME, Chosen([], [], index, payload))
         == Word([0x0016, 0x0014, 0x0018, 0x001A, 0x001B, 0x001C, 0x0019, 0x001D, 0x0010][index]) + WordsOf(payload)
  {
    EccSchemeTable();
    SchemeOnWire(
      TPMT_ECC_SCHEME.variants, [0x0016, 0x0014, 0x0018, 0x001A, 0x001B, 0x001C, 0x0019, 0x001D, 0x0010],
      [1, 1, 1, 2, 1, 1, 1, 1, 0], index, payload);
  }

  lemma {:induction false} EccSchemeTable()
    ensures Table(TPMT_ECC_SCHEME.variants,
                  [0x0016, 0x0014, 0x0018, 0x001A, 0x001B, 0x001C, 0x0019, 0x001D, 0x0010],
                  [1, 1, 1, 2, 1, 1, 1, 1, 0])
  {
  }

  lemma {:induction false} KdfSchemeOnWire(index: nat, payload: seq<Value>)
    requires index < 5 && Matches(TPMT_KDF_SCHEME, Chosen([], [], index, payload))
    ensures WordsThenEmpty(payload, [1, 1, 1, 1, 0][index])
    ensures Encode(TPMT_KDF_SCHEME, Chosen([], [], index, payload))
         == Word([0x0007, 0x0020, 0x0021, 0x0022, 0x0010][index]) + WordsOf(payload)
  {
    KdfSchemeTable();
    SchemeOnWire(TPMT_KDF_SCHEME.variants, [0x0007, 0x0020, 0x0021, 0x0022, 0x0010], [1, 1, 1, 1, 0],
                 index, payload);
  }

  lemma {:induction false} KdfSchemeTable()
    ensures Table(TPMT_KDF_SCHEME.variants, [0x0007, 0x0020, 0x0021, 0x0022, 0x0010], [1, 1, 1, 1, 0])
  {
  }

  lemma {:induction false} KeyedHashSchemeOnWire(index: nat, payload: seq<Value>)
    requires index < 3 && Matches(TPMT_KEYEDHASH_SCHEME, Chosen([], [], index, payload))
    ensures WordsThenEmpty(payload, [1, 2, 0][index])
    ensures Encode(TPMT_KEYEDHASH_SCHEME, Chosen([], [], index, payload))
         == Word([0x0005, 0x000A, 0x0010][index]) + WordsOf(payload)
  {
    KeyedHashSchemeTable();
    SchemeOnWire(TPMT_KEYEDHASH_SCHEME.variants, [0x0005, 0x000A, 0x0010], [1, 2, 0], index, payload);
  }

  lemma {:induction false} KeyedHashSchemeTable()
    ensures Table(TPMT_KEYEDHASH_SCHEME.variants, [0x0005, 0x000A, 0x0010], [1, 2, 0])
  {
  }

  // ---- What the variants of TpmtPublic carry ----

  lemma {:induction false} RsaParmsOnWire(symmetric: Value, scheme: Value, keyBits: int, exponent: int)
    requires Matches(TPMT_SYM_DEF_OBJECT, symmetric) && Matches(TPMT_RSA_SCHEME, scheme)
    requires 0 <= keyBits < 0x1_0000 && 0 <= exponent < 0x1_0000_0000
    ensures var v := Record([symmetric, scheme, Int(keyBits), Int(exponent)]);
            && Matches(TPMS_RSA_PARMS, v)
            && Encode(TPMS_RSA_PARMS, v)
            == Encode(TPMT_SYM_DEF_OBJECT, symmetric) + Encode(TPMT_RSA_SCHEME, scheme)
               + Word(keyBits) + Long(exponent)
  {
    WordOnWire(keyBits);
    LongOnWire(exponent);
    FourFields(TPMT_SYM_DEF_OBJECT, TPMT_RSA_SCHEME, U16, U32, symmetric, scheme, Int(keyBits), Int(exponent));
  }

  lemma {:induction false} EccParmsOnWire(symmetric: Value, scheme: Value, curve: int, kdf: Value)
    requires Matches(TPMT_SYM_DEF_OBJECT, symmetric) && Matches(TPMT_ECC_SCHEME, scheme)
    requires 0 <= curve < 0x1_0000 && Matches(TPMT_KDF_SCHEME, kdf)
    ensures var v := Record([symmetric, scheme, Int(curve), kdf]);
            && Matches(TPMS_ECC_PARMS, v)
            && Encode(TPMS_ECC_PARMS, v)
            == Encode(TPMT_SYM_DEF_OBJECT, symmetric) + Encode(TPMT_ECC_SCHEME, scheme)
               + Word(curve) + Encode(TPMT_KDF_SCHEME, kdf)
  {
    WordOnWire(curve);
    FourFields(TPMT_SYM_DEF_OBJECT, TPMT_ECC_SCHEME, U16, TPMT_KDF_SCHEME, symmetric, scheme, Int(curve), kdf);
  }

  lemma {:induction false} OtherParmsOnWire(scheme: Value, symmetric: Value, x: Value, y: Value)
    requires Matches(TPMT_KEYEDHASH_SCHEME, scheme) && Matches(TPMT_SYM_DEF_OBJECT, symmetric)
    requires Matches(Tpm2b(128), x) && Matches(Tpm2b(128), y)
    ensures Matches(TPMS_KEYEDHASH_PARMS, Record([scheme])) && Matches(TPMS_SYMCIPHER_PARMS, Record([symmetric]))
    ensures Encode(TPMS_KEYEDHASH_PARMS, Record([scheme])) == Encode(TPMT_KEYEDHASH_SCHEME, scheme)
    ensures Encode(TPMS_SYMCIPHER_PARMS, Record([symmetric])) == Encode(TPMT_SYM_DEF_OBJECT, symmetric)
    ensures Matches(TPMS_ECC_POINT, Record([x, y]))
    ensures Encode(TPMS_ECC_POINT, Record([x, y])) == Encode(Tpm2b(128), x) + Encode(Tpm2b(128), y)
  {
    OneField(TPMT_KEYEDHASH_SCHEME, scheme);
    OneField(TPMT_SYM_DEF_OBJECT, symmetric);
    TwoFields(Tpm2b(128), Tpm2b(128), x, y);
  }

  // ---- PCR selections, creation data ----

  // As many selection bytes as announced.
  lemma {:induction false} PcrSelectionOnWire(hash: int, n: nat, select: seq<byte>)
    requires 0 <= hash < 0x1_0000 && |select| == 4 && n <= 4
    ensures Matches(TPMS_PCR_SELECTION, PcrSelection(hash, n, select))
    ensures Encode(TPMS_PCR_SELECTION, PcrSelection(hash, n, select)) == Word(hash) + [n] + select[..n]
  {
    var fields, vals := TPMS_PCR_SELECTION.fields, PcrSelection(hash, n, select).vals;
    WordOnWire(hash);
    ByteOnWire(n);
    PlainFieldOnWire(fields, vals, 0);
    PlainFieldOnWire(fields, vals, 1);
    SelectOnWire(fields[2], vals, select, n);
    assert EncodeFields(fields, vals, 2) == [] + Word(hash) + [n];
  }

  lemma {:induction false} PlainFieldOnWire(fields: seq<Field>, vals: seq<Value>, k: nat)
    requires k < |fields| == |vals| && MatchesFields(fields, vals, k)
    requires fields[k].shape.One? && Matches(fields[k].elem, vals[k])
    ensures MatchesFields(fields, vals, k + 1)
    ensures EncodeFields(fields, vals, k + 1) == EncodeFields(fields, vals, k) + Encode(fields[k].elem, vals[k])
  {
    assert MatchesElem(fields[k], vals[k]);
    assert EncodeField(fields[k], vals, k) == EncodeElem(fields[k], vals[k]);
  }

  lemma {:induction false} SelectOnWire(f: Field, vals: seq<Value>, select: seq<byte>, n: nat)
    requires f == Field(U8, Counted(4, 1)) && |select| == 4 && n <= 4
    requires |vals| == 3 && vals[1] == Int(n) && vals[2] == List(Ints(select))
    ensures MatchesField(f, vals, 2) && EncodeField(f, vals, 2) == select[..n]
  {
    var items := vals[2].items;
    SelectedBytes(f, items, select, n);
    CountedOnWire(f, vals, items, n);
  }

  // An array whose counter says `n`.
  lemma {:induction false} CountedOnWire(f: Field, vals: seq<Value>, items: seq<Value>, n: nat)
    requires f.shape == Counted(4, 1) && n <= 4 == |items|
    requires |vals| == 3 && vals[1] == Int(n) && vals[2] == List(items)
    requires forall i | 0 <= i < |items| :: MatchesElem(f, items[i])
    ensures MatchesField(f, vals, 2) && EncodeField(f, vals, 2) == EncodeItems(f, items, n)
  {
    assert EntryCount(f.shape, vals) == n;
  }

  function PcrSelection(hash: int, n: nat, select: seq<byte>): (v: Value) {
    Record([Int(hash), Int(n), List(Ints(select))])
  }

  function Ints(b: seq<byte>): (items: seq<Value>)
    ensures |items| == |b|
  {
    seq(|b|, i requires 0 <= i < |b| => Int(b[i]))
  }

  lemma {:induction false} SelectedBytes(f: Field, items: seq<Value>, select: seq<byte>, n: nat)
    requires f.elem == U8 && n <= |select| && items == Ints(select)
    ensures forall i | 0 <= i < |items| :: MatchesElem(f, items[i])
    ensures EncodeItems(f, items, n) == select[..n]
  {
    forall i | 0 <= i < |items|
      ensures MatchesElem(f, items[i])
    {
      ByteOnWire(select[i]);
    }
    if n > 0 {
      SelectedBytes(f, items, select, n - 1);
      ByteOnWire(select[n - 1]);
      assert select[..n] == select[..n - 1] + [select[n - 1]];
    }
  }

  lemma {:induction false} CreationDataOnWire(
    pcrs: Value, digest: Value, locality: int, alg: int, name: Value, qualified: Value, outside: Value)
    requires Matches(TPML_PCR_SELECTION, pcrs) && Matches(Tpm2b(64), digest)
    requires 0 <= locality < 0x100 && 0 <= alg < 0x1_0000
    requires Matches(Tpm2b(68), name) && Matches(Tpm2b(68), qualified) && Matches(Tpm2b(64), outside)
    ensures var v := Record([pcrs, digest, Int(locality), Int(alg), name, qualified, outside]);
            && Matches(TPMS_CREATION_DATA, v)
            && Encode(TPMS_CREATION_DATA, v)
            == Encode(TPML_PCR_SELECTION, pcrs) + Encode(Tpm2b(64), digest) + [locality] + Word(alg)
               + Encode(Tpm2b(68), name) + Encode(Tpm2b(68), qualified) + Encode(Tpm2b(64), outside)
  {
    ByteOnWire(locality);
    WordOnWire(alg);
    SevenFields(TPML_PCR_SELECTION, Tpm2b(64), U8, U16, Tpm2b(68), Tpm2b(68), Tpm2b(64),
                [pcrs, digest, Int(locality), Int(alg), name, qualified, outside]);
  }

  lemma {:induction false} SensitiveCreateOnWire(auth: Value, data: Value)
    requires Matches(Tpm2b(64), auth) && Matches(Tpm2b(256), data)
    ensures Matches(TPMS_SENSITIVE_CREATE, Record([auth, data]))
    ensures Encode(TPMS_SENSITIVE_CREATE, Record([auth, data])) == Encode(Tpm2b(64), auth) + Encode(Tpm2b(256), data)
  {
    TwoFields(Tpm2b(64), Tpm2b(256), auth, data);
  }

  lemma {:induction false} SevenFields(
    s0: Schema, s1: Schema, s2: Schema, s3: Schema, s4: Schema, s5: Schema, s6: Schema, vals: seq<Value>)
    requires AllMatch([s0, s1, s2, s3, s4, s5, s6], vals)
    ensures var s := Struct([Plain(s0), Plain(s1), Plain(s2), Plain(s3), Plain(s4), Plain(s5), Plain(s6)]);
            && Matches(s, Record(vals))
            && Encode(s, Record(vals))
            == Encode(s0, vals[0]) + Encode(s1, vals[1]) + Encode(s2, vals[2]) + Encode(s3, vals[3])
               + Encode(s4, vals[4]) + Encode(s5, vals[5]) + Encode(s6, vals[6])
  {
    var schemas := [s0, s1, s2, s3, s4, s5, s6];
    StructIsJoined(schemas, vals);
    assert Plains(schemas)
        == [Plain(s0), Plain(s1), Plain(s2), Plain(s3), Plain(s4), Plain(s5), Plain(s6)];
    FirstFour(schemas, vals);
    assert Joined(schemas, vals, 5) == Joined(schemas, vals, 4) + Encode(s4, vals[4]);
    assert Joined(schemas, vals, 6) == Joined(schemas, vals, 5) + Encode(s5, vals[5]);
  }

  // ---- A whole public area ----

  // An RSA key with an XOR object and an ECDSA scheme, as the source's own test
  // of TpmtPublic has it, for any values.
  lemma {:induction false} RsaKeyOnWire(
    nameAlg: int, attributes: int, policy: Value, hash: int, schemeHash: int, keyBits: int, exponent: int, key: Value)
    requires 0 <= nameAlg < 0x1_0000 && 0 <= attributes < 0x1_0000_0000 && Matches(Tpm2b(64), policy)
    requires 0 <= hash < 0x1_0000 && 0 <= schemeHash < 0x1_0000
    requires 0 <= keyBits < 0x1_0000 && 0 <= exponent < 0x1_0000_0000 && Matches(Tpm2b(512), key)
    ensures policy.Buffer? && policy.size < 0x1_0000 && policy.size <= |policy.bytes|
    ensures key.Buffer? && key.size < 0x1_0000 && key.size <= |key.bytes|
    ensures var symmetric := Chosen([], [], 3, [Int(hash), Record([])]);
            var scheme := Chosen([], [], 2, [Int(schemeHash)]);
            var parms := Record([symmetric, scheme, Int(keyBits), Int(exponent)]);
            var v := Chosen([], [Int(nameAlg), Int(attributes), policy], 2, [parms, key]);
            && Matches(TPMT_PUBLIC, v)
            && Encode(TPMT_PUBLIC, v)
            == [0, 1] + (Word(nameAlg) + Long(attributes) + Sized(policy))
               + (([0, 10] + Word(hash)) + ([0, 24] + Word(schemeHash)) + Word(keyBits) + Long(exponent) + Sized(key))
  {
    var symmetric := Chosen([], [], 3, [Int(hash), Record([])]);
    var scheme := Chosen([], [], 2, [Int(schemeHash)]);
    var parms := Record([symmetric, scheme, Int(keyBits), Int(exponent)]);
    XorOnWire(hash);
    EcdsaOnWire(schemeHash);
    RsaParmsOnWire(symmetric, scheme, keyBits, exponent);
    RsaPublicOnWire(nameAlg, attributes, policy, parms, key);
  }

  lemma {:induction false} RsaPublicOnWire(nameAlg: int, attributes: int, policy: Value, parms: Value, key: Value)
    requires 0 <= nameAlg < 0x1_0000 && 0 <= attributes < 0x1_0000_0000 && Matches(Tpm2b(64), policy)
    requires Matches(TPMS_RSA_PARMS, parms) && Matches(Tpm2b(512), key)
    ensures policy.Buffer? && policy.size < 0x1_0000 && policy.size <= |policy.bytes|
    ensures key.Buffer? && key.size < 0x1_0000 && key.size <= |key.bytes|
    ensures var v := Chosen([], [Int(nameAlg), Int(attributes), policy], 2, [parms, key]);
            && Matches(TPMT_PUBLIC, v)
            && Encode(TPMT_PUBLIC, v)
            == [0, 1] + (Word(nameAlg) + Long(attributes) + Sized(policy))
               + (Encode(TPMS_RSA_PARMS, parms) + Sized(key))
  {
    BufferOnWire(512, key);
    PublicOnWire(nameAlg, attributes, policy, 2, parms, key);
  }

  lemma {:induction false} XorOnWire(hash: int)
    requires 0 <= hash < 0x1_0000
    ensures var v := Chosen([], [], 3, [Int(hash), Record([])]);
            Matches(TPMT_SYM_DEF_OBJECT, v) && Encode(TPMT_SYM_DEF_OBJECT, v) == [0, 10] + Word(hash)
  {
    var variants := TPMT_SYM_DEF_OBJECT.variants;
    WordOnWire(hash);
    assert MatchesFields([], [], 0) && Matches(EMPTY, Record([])) && Encode(EMPTY, Record([])) == [];
    TwoFields(U16, EMPTY, Int(hash), Record([]));
    assert Word(hash) + [] == Word(hash);
    SymDefObjectTable();
    assert variants[3].payload == Pair(U16, EMPTY);
    HeadlessOnWire([], variants, [], 3, [Int(hash), Record([])]);
  }

  lemma {:induction false} EcdsaOnWire(hash: int)
    requires 0 <= hash < 0x1_0000
    ensures var v := Chosen([], [], 2, [Int(hash)]);
            Matches(TPMT_RSA_SCHEME, v) && Encode(TPMT_RSA_SCHEME, v) == [0, 24] + Word(hash)
  {
    var variants := TPMT_RSA_SCHEME.variants;
    WordOnWire(hash);
    OneField(U16, Int(hash));
    assert MatchesFields([], [], 0) && Encode(Struct([]), Record([])) == [];
    RsaSchemeTable();
    assert variants[2].payload == [Plain(U16)];
    HeadlessOnWire([], variants, [], 2, [Int(hash)]);
  }
}
