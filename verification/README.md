# tpm-rs, verified

A Dafny model of the parts of tpm-rs that put TPM 2.0 structures on the wire and take them off again, with proofs.

1. **The marshalling generator.** `Schemas` is the universe of types that the `Marshalable` derive accepts: big-endian
   integers, byte arrays, TPM2B buffers, structs with plain, fixed and counted fields, and tagged enums whose selector
   may stand apart from the variant. `Codec` is the wire format as pure functions; `CodecLaws` and `Locality` prove that
   it round-trips, is canonical and prefix-free, for every schema. `Marshal` and `Unmarshal` are the emitted bodies in
   their own imperative form, proved against `Codec`. `Derive` is the macro as a small compiler from field lists to
   statements; its output is proved to mean the codec of the struct it was given, and `EmittedEncoder` and
   `EmittedDecoder` run its statements on buffers. `Layout` is the repr(C) layout, which bounds every encoding, and
   `TpmTypes`, `SeparateSelectors` and `Lists` apply all this to real types. `WireFormat` says of every kind of type, and
   `TypesOnWire` of the real ones, which bytes they are on the wire, and `Sizes` how many bytes the holders have.
2. **The server's command engine.** `Buffers` and `Server` run a request on one shared buffer or on two, for any command
   table whose handlers read, then only write. `GetRandom` instantiates it with TPM2_GetRandom over an abstract DRBG and
   proves atomicity on error and properties of whole runs. `BufferForms` is the agreement of the two buffer forms with its
   exact condition, `ServerRuns` runs sequences of commands on one context, `ServedFrames` says what the engine reads and
   leaves behind byte by byte, and `DrbgHelpers` is the chunked byte filling, refined to a stream of words.
3. **The client.** `ClientRequest` builds frames with back-patched sizes in a 4096-byte buffer, `FrameParser` is an
   independent reader of such frames, `ClientResponse` reads responses and characterises exactly those that are
   accepted, and with what the others are refused, `Password` is the password session. `FramesOnWire` says which bytes
   frames are. `EndToEnd` joins the client to the server and runs client commands on
   its engine.

Wire formats are those of TPM 2.0 Library Part 2 (sized buffers in section 10.4), TPM2_GetRandom that of Part 3 section
16.1, framing that of Part 1 section 18.

Conventions. A Rust panic is an explicit outcome (`Panic`, `BuildPanicked`, `Crashed`, `Crash`), never a precondition.
Integer widths are written out: `as u32` and `as u16` are remainders, `as usize` is `AsUsize`. The panicking case of an
encoder whose length field exceeds its array, or whose TPM2B size exceeds its buffer, is excluded by `Matches`, the
well-formedness of values. Automatic induction is off for every lemma; inductive proofs call themselves.

Run `dafny verify dfyconfig.toml`.

## Where code and documentation differ

The model follows the code.

- `marshalable-derive/src/lib.rs:281` guards a TPM2B payload with the larger of the capacity and the room left, so a
  short destination is a slice panic and not the `Memory` error that every other short write gives.
- `marshalable/src/lib.rs:33-34` says that decoding also returns the number of bytes used; it returns the value alone
  and moves the buffer.
- `client/src/lib.rs:35-42` names a parameter `has_sessions` and is called with `is_empty()` at line 162; the two
  inversions cancel, and `Tag` is the tag that results.
- `base/src/commands/random.rs:24-26` declares the answer to GetRandom as a TPM2B; `server/src/handler/random.rs:36-41`
  writes the bytes without a size. `GetRandomAnswer` says exactly when the client can still read such an answer, and
  `ZerosAreRefused` gives an answer that it cannot.
- `server/src/tpmctx.rs:50-56` fills in only the code of an error response, as its own comment says.

## Model

| member | source | states |
|---|---|---|
| `ByteOrder.BeBytes` | marshalable/src/lib.rs:101-114 | an integer's encoding has its width and reads back as the integer |
| `ByteOrder.BeBytesAt` | marshalable/src/lib.rs:101-114 | for every width, byte i is the digit of weight 256^(width - 1 - i): big-endian |
| `ByteOrder.BeValueOfConcat` | marshalable/src/lib.rs:101-114 | a byte string reads as its front, shifted by the length of its back, plus the back |
| `ByteOrder.TwosComplementAt` | marshalable/src/lib.rs:119-122 | the bytes of a signed integer are the digits of the integer itself, rounded down: two's complement |
| `ByteOrder.LeBytesAt` | server/src/platform/crypto/drbg/helpers.rs:17 | for every width, byte i of the little-endian form is the digit of weight 256^i |
| `ByteOrder.AsUsizeOf` | marshalable-derive/src/lib.rs:415 | the cast of a length field keeps an unsigned integer and wraps a negative one round at 64 bits |
| `ByteOrder.BeBytesOfValue` | marshalable/src/lib.rs:101-114 | every byte string is the encoding of the value it reads as, so that reading is what BeBytesAt makes of it |
| `CodecLaws.RoundTrip` | marshalable-derive/src/lib.rs:405-434 | for every schema, value and tail, decoding the encoding plus the tail gives the value with entries past each length reset to default, and leaves the tail |
| `CodecLaws.RoundTripFields` | marshalable-derive/src/lib.rs:597-634 | the same for any leading part of a struct, where a length field is read before the array it bounds |
| `CodecLaws.RoundTripTagged` | marshalable-derive/src/lib.rs:686-727 | the same for enums, wherever the selector stands |
| `CodecLaws.FindsVariant` | marshalable-derive/src/lib.rs:695-727 | with distinct selectors, the chain of selector tests ends at the variant that was encoded |
| `CodecLaws.Canonical` | marshalable-derive/src/lib.rs:597-634 | whatever a decoder accepts is the encoding of the value it returns, which is in normal form: one encoding per value |
| `CodecLaws.CanonicalTpm2b` | marshalable-derive/src/lib.rs:254-287 | the same for a TPM2B |
| `CodecLaws.DefaultMatches` | marshalable-derive/src/lib.rs:239-246 | default values can be encoded |
| `Schemas.DefaultsOf` | marshalable-derive/src/lib.rs:239-246 | the default of a TPM2B is size 0 over zeros, of an integer 0, of a byte array zeros |
| `Schemas.DefaultOfStruct` | base/src/lib.rs:1564-1571 | a struct defaults field by field, an array entry by entry |
| `WireFormat.IntegerOnWire` | marshalable/src/lib.rs:101-114 | an integer of any width and sign is its base-256 digits on the wire, most significant first |
| `WireFormat.IntegerFromWire` | marshalable/src/lib.rs:101-114 | from enough bytes the decoder returns the integer in range with those digits, from fewer Memory |
| `WireFormat.Tpm2bOnWire` | marshalable-derive/src/lib.rs:277-286 | a TPM2B is two size bytes, high byte first, and as many bytes of its buffer |
| `WireFormat.Tpm2bFromWire` | marshalable-derive/src/lib.rs:255-275 | read from two bytes the size must be covered by the input and hold in the buffer, else Memory; the buffer is zero behind it |
| `WireFormat.StructOnWire` | marshalable-derive/src/lib.rs:405-434 | a struct is its fields in declaration order, an array its first entries in order: all of them without attribute, as many as the named field says with one |
| `WireFormat.ArrayFromWire` | marshalable-derive/src/lib.rs:605-628 | a count above the array gives Size before any entry is read; else that many entries and defaults behind them |
| `WireFormat.TaggedOnWire` | marshalable-derive/src/lib.rs:473-478 | an enum is its leading fields, selector, middle fields and variant data, in this order |
| `WireFormat.TaggedFromWire` | marshalable-derive/src/lib.rs:686-727 | the same order decides which error a decoder gives; an unknown selector gives Selector where the variant would begin |
| `WireFormat.StructFails` | marshalable-derive/src/lib.rs:597-634 | a struct fails with the error of its first field that does |
| `Locality.DecodeIsLocal` | marshalable/src/lib.rs:80-88 | bytes behind a value change neither success, nor the value, nor an error other than running out of input |
| `Locality.RestIsSuffix` | marshalable/src/lib.rs:80-88 | what a decoder leaves is a suffix of what it was given |
| `Locality.StrictPrefixFails` | marshalable/src/lib.rs:133-142 | every strict prefix of an encoding fails with Memory |
| `Locality.PrefixFree` | marshalable-derive/src/lib.rs:597-634 | no encoding is a strict prefix of another of the same type, and equal encodings mean equal normal forms |
| `Locality.UnknownSelectorFails` | marshalable-derive/src/lib.rs:719-726 | a selector of no variant fails with Selector once the variant is reached, whatever follows |
| `SeparateSelectors.SeparateRoundTrip` | base/src/lib.rs:823-851 | TpmtPublic, TpmtSensitive and TpmsAttest come back from their encodings; PublicOnWire, SensitiveOnWire and AttestOnWire say which bytes these are |
| `SeparateSelectors.SeparateCanonical` | base/src/lib.rs:1199-1223 | the three types have one encoding per value |
| `SeparateSelectors.SeparateUnknown` | base/src/lib.rs:1269-1290 | with a selector of none of their variants the three types fail with Selector |
| `TypesOnWire.PublicOnWire` | base/src/lib.rs:1199-1223 | TpmtPublic: selector (8, 0x25, 1 or 0x23), name algorithm, attributes, policy, parameters and id of the variant, for any values |
| `TypesOnWire.SensitiveOnWire` | base/src/lib.rs:1269-1290 | TpmtSensitive: selector (1, 0x23, 8, 0x25 or 0x10), authorization, seed, sensitive part |
| `TypesOnWire.AttestOnWire` | base/src/lib.rs:823-851 | TpmsAttest: magic, selector (0x8014 to 0x801A), signer, extra data, clock info, firmware version, attested structure |
| `TypesOnWire.SymDefObjectOnWire` | base/src/lib.rs:1002-1008 | a symmetric definition: its selector by variant and the words that the variant carries |
| `TypesOnWire.RsaSchemeOnWire` | base/src/lib.rs:1090-1100 | an RSA scheme: the same for its nine variants |
| `TypesOnWire.EccSchemeOnWire` | base/src/lib.rs:1113-1123 | an ECC scheme: the same for its nine variants |
| `TypesOnWire.KdfSchemeOnWire` | base/src/lib.rs:1132-1138 | a KDF scheme: the same for its five variants |
| `TypesOnWire.RsaParmsOnWire` | base/src/lib.rs:1104-1109 | RSA parameters: symmetric definition, scheme, key bits, exponent |
| `TypesOnWire.EccParmsOnWire` | base/src/lib.rs:1142-1147 | ECC parameters: symmetric definition, scheme, curve, KDF |
| `TypesOnWire.RsaKeyOnWire` | base/src/tests.rs:257-292 | the public area of the source's own test of TpmtPublic, byte by byte, for any values in place of the test's |
| `TypesOnWire.CreationDataOnWire` | base/src/lib.rs:1504-1514 | TpmsCreationData: PCR list, digest, locality, algorithm, the two names, outside info |
| `TypesOnWire.PcrSelectionOnWire` | base/src/lib.rs:726-731 | a PCR selection: hash, a count, and as many of its four selection bytes |
| `Marshal.TryMarshal` | marshalable-derive/src/lib.rs:405-478 | for every schema the emitted encoder writes exactly the encoding at its place, returns its length and changes nothing else; without room it fails with Memory, or panics just when the first byte without a place is TPM2B payload |
| `Marshal.MarshalTpm2b` | marshalable-derive/src/lib.rs:277-286 | the same for a TPM2B, with the panic of the slice behind its guard |
| `Marshal.MarshalTagged` | marshalable-derive/src/lib.rs:473-478 | the same for enums and for the hand-written types with a separate selector |
| `Marshal.MarshalItems` | marshalable-derive/src/lib.rs:414-425 | the loop over array entries writes the first n of them, one behind the other |
| `Marshal.WriteBytes` | marshalable/src/lib.rs:144-151 | a byte array is written whole or refused with Memory |
| `Marshal.Tpm2bFreeNeverPanics` | marshalable/src/lib.rs:144-151 | a schema without TPM2B never panics: a short buffer gives Memory |
| `Marshal.Tpm2bPanicsWithin` | marshalable-derive/src/lib.rs:281-284 | a TPM2B whose size fits and whose payload does not panics |
| `Unmarshal.UnmarshalBuf.Get` | marshalable/src/lib.rs:80-88 | hands out the next bytes and moves past them, or does nothing; the buffer stays a suffix of the input |
| `Unmarshal.TryUnmarshal` | marshalable-derive/src/lib.rs:597-634 | for every schema the emitted decoder returns what the codec specifies, value or error, and leaves the same rest |
| `Unmarshal.UnmarshalTpm2b` | marshalable-derive/src/lib.rs:255-275 | the same for a TPM2B: the size must be covered by the input and then fit the buffer |
| `Unmarshal.UnmarshalItems` | marshalable-derive/src/lib.rs:609-615 | overwriting the first n entries of an array of defaults gives the decoded entries and a default rest |
| `Unmarshal.SelectVariant` | marshalable-derive/src/lib.rs:710-722 | the emitted tests find the first variant with the selector |
| `Derive.GenerateMarshal` | marshalable-derive/src/lib.rs:436-452 | code comes out just when every field is accepted, one statement a field, each for the names known there; else the errors of all refused fields in order |
| `Derive.GenerateUnmarshal` | marshalable-derive/src/lib.rs:636-652 | the same for the decoder |
| `Derive.DeriveMarshalable` | marshalable-derive/src/lib.rs:436-452 | the two generators for named fields accept a struct just when each field has no attribute, or exactly one `length = name` on an array where `name` is an earlier plain field; then both bodies are emitted, and else the errors of the encoder side, or if there are none of the decoder side |
| `Derive.AcceptsIffWellAttributed` | marshalable-derive/src/lib.rs:523-595 | the checks of the two generators together say exactly that, in terms of the attributes themselves |
| `Derive.Refusals` | marshalable-derive/src/lib.rs:523-560 | two attributes, an unknown key, a value that is no identifier, a name not known and a length on a field that is no array: each gives its own error, in this order |
| `Derive.EmittedFor` | marshalable-derive/src/lib.rs:405-434 | the statements emitted for a field, by its type and attributes: one call, a loop over the whole array, or a loop up to the named field, guarded in the decoder |
| `Derive.ElaboratesTo` | marshalable-derive/src/lib.rs:597-634 | what a field is to the codec, by its type and attributes: an attribute counts by the field it names |
| `Derive.ElaborationIsValid` | marshalable-derive/src/lib.rs:581-595 | an accepted struct that also compiles is a schema in which each count is an earlier integer field |
| `Derive.WritersMean` | marshalable-derive/src/lib.rs:405-434 | the bytes that the emitted encoder statements put one behind the other are the encoding of the elaborated struct, and no statement is stuck on a missing name |
| `Derive.ReadersMean` | marshalable-derive/src/lib.rs:597-634 | running the emitted decoder statements binds each name to the decoded value, with the loop bound of the encoder |
| `Derive.DerivePreservesMeaning` | marshalable-derive/src/lib.rs:405-434 | for every accepted struct the bytes of the emitted encoder, and the result of the emitted decoder, are those of the codec of its schema |
| `EmittedEncoder.ExecWrites` | marshalable-derive/src/lib.rs:193-197 | the emitted encoder, run statement by statement on a buffer of any room, writes that encoding at its place and nothing else, or fails with Memory or a panic just when the codec's outcome says so |
| `EmittedEncoder.ExecLoop` | marshalable-derive/src/lib.rs:414-425 | the same for an emitted loop over an array |
| `EmittedEncoder.StatementReads` | marshalable-derive/src/lib.rs:405-434 | an emitted statement finds its own field in `self`, and its loop bound is the integer that the length attribute names |
| `EmittedDecoder.ExecDecoder` | marshalable-derive/src/lib.rs:153-157 | the emitted decoder, run statement by statement on an UnmarshalBuf, returns what the codec makes of the buffer, value or error, and leaves the same rest |
| `EmittedDecoder.ExecRead` | marshalable-derive/src/lib.rs:597-634 | the same for one emitted statement, given the locals bound before it |
| `Layout.EncodingFits` | marshalable-derive/src/lib.rs:95-99 | no encoding is longer than the repr(C) size of its type, by induction on schemas |
| `Layout.BasicLayout` | marshalable-derive/src/lib.rs:95-99 | size and alignment of integers, byte arrays and TPM2B buffers as numbers |
| `Layout.FieldPlacement` | base/src/lib.rs:1190-1197 | repr(C): each field is at the least offset past the one before it that its alignment divides, and an array takes the room of its entries |
| `Layout.StructLayout` | base/src/lib.rs:1190-1197 | a struct has the strictest alignment of its fields, which all of theirs divide, and the least multiple of it past its last field as its size |
| `Layout.UnionLayout` | base/src/lib.rs:1181-1188 | the data of an enum takes the room of its biggest variant |
| `Layout.MarshalIntoHolder` | marshalable-derive/src/lib.rs:95-99 | from_struct as it is: the encoder on a zeroed buffer of the type's size, its error or panic passed on, its length cast to u16 |
| `Layout.HolderRoundTrip` | marshalable-derive/src/lib.rs:95-104 | it holds any value of a type below 65536 bytes: the encoder has room, the cast to u16 is exact, and to_struct gives the value back |
| `TpmTypes.StructHolders` | base/src/lib.rs:1225-1232 | so Tpm2bPublic, Tpm2bSensitiveCreate and Tpm2bCreationData hold every value of their struct |
| `TpmTypes.PublicBounded` | base/src/lib.rs:1187-1197 | TpmtPublic is a schema, of at most 2679 bytes whatever the sizes of its parts come to |
| `TpmTypes.SensitiveCreateBounded` | base/src/lib.rs:907-920 | TpmsSensitiveCreate is a schema, of at most 542 bytes |
| `TpmTypes.CreationDataBounded` | base/src/lib.rs:1527-1534 | TpmsCreationData is a schema, of at most 1093 bytes |
| `Sizes.PublicSize` | base/src/lib.rs:1225-1232 | `size_of::<TpmtPublic>()` is 616, aligned to 4 |
| `Sizes.SensitiveCreateSize` | base/src/lib.rs:914-920 | `size_of::<TpmsSensitiveCreate>()` is 324, aligned to 2 |
| `Sizes.CreationDataSize` | base/src/lib.rs:1527-1534 | `size_of::<TpmsCreationData>()` is 408, aligned to 4 |
| `Sizes.HolderBytes` | marshalable-derive/src/lib.rs:95-99 | so the three holders have 616, 324 and 408 bytes: the encoding of their struct, then zeros |
| `Lists.TpmList.New` | base/src/lib.rs:1574-1583 | a list of the given elements, or Size when there are more than the capacity |
| `Lists.TpmList.Add` | base/src/lib.rs:1585-1593 | appends one element while there is room, and otherwise changes nothing |
| `Lists.ListRoundTrip` | base/src/lib.rs:1561-1604 | a list of normal-form elements comes back from the wire exactly |
| `Lists.ListEncoding` | base/src/lib.rs:1561-1604 | a list is its u32 count followed by its elements |
| `Lists.CountDecides` | marshalable-derive/src/lib.rs:605-628 | a list whose first four bytes count more than its capacity is refused with Size; else the count comes back, with defaults behind that many entries |
| `Buffers.ReadInto` | server/src/platform/buffer.rs:62-68 | copies the bytes at an offset, or refuses just when they are not all there |
| `Buffers.Write` | server/src/platform/buffer.rs:72-79 | overwrites the bytes at an offset, or changes nothing just when they do not fit |
| `Buffers.TpmBuffers.ReadRequest` | server/src/buffers/inout.rs:34-40 | reads from a request of one buffer or two; in place only its request portion |
| `Buffers.RequestResponseCursor.ReadBe` | server/src/req_resp.rs:13-36 | reads a big-endian field and moves past it, or stays |
| `Buffers.RequestResponseCursor.Append` | server/src/req_resp.rs:59-66 | writes at the last written place and moves past it, or changes nothing just when there is no room |
| `Buffers.RequestResponseCursor.WriteCallback` | server/src/req_resp.rs:71-83 | the callback gets the slice with its old bytes, what it leaves there is the write, and it is not called without room |
| `Server.TpmContext.ExecuteCommand` | server/src/tpmctx.rs:58-95 | for any command table and both buffer forms: the state, the result and the response are those of the pure Execute |
| `Server.TpmContext.ExecuteCommandInPlace` | server/src/tpmctx.rs:37-48 | on one shared buffer, whatever the claimed size: as Execute on the request as it was before any write |
| `Server.TpmContext.ExecuteCommandSeparate` | server/src/tpmctx.rs:24-35 | on two buffers: as Execute on the request |
| `Server.TpmContext.Finish` | server/src/tpmctx.rs:50-56 | an error writes its code into bytes 6 to 9 and returns 10, or returns 0 without room |
| `BufferForms.InPlaceLikeSeparate` | server/src/buffers/inout.rs:10-41 | for any command table whose callbacks ignore the old contents of their slice, any request bytes and claimed size: the shared buffer and two buffers give the same final state, the same returned size, the same response bytes of a success and the same bytes 6 to 9 of an error |
| `BufferForms.RunBothForms` | server/src/tpmctx.rs:24-48 | both forms run on real arrays, and agree so |
| `BufferForms.SameExecution` | server/src/req_resp.rs:71-83 | with such a table, what the response buffer held before makes no difference to a command |
| `BufferForms.WriteAgreesIff` | server/src/req_resp.rs:71-83 | for one write that condition is exact: it comes to the same in all response buffers if and only if its callback ignores the slice |
| `BufferForms.EchoTellsApart` | server/src/buffers/inout.rs:10-41 | a callback that leaves its slice as it is gives a request byte away in place, and not in a separate buffer |
| `GetRandom.RunOutcome` | server/src/handler/random.rs:14-43 | every outcome of a command, with the condition for it, in calls of the generator: asked, reseeded from the entropy source if it needs that, filled from; a success carries the bytes of that fill, and once they are written no header write can fail |
| `GetRandom.RunByCalls` | server/src/handler/random.rs:14-21 | a run command by command, in the same calls: a command that asks and has room adds the bytes that the generator gives, or crashes with it; any other one leaves no trace |
| `ServedFrames.GetRandomInPlace` | server/src/tpmctx.rs:37-48 | GetRandom from request bytes to response bytes on a context with one buffer: header, size and the drawn bytes, or the error code in bytes 6 to 9, for every request |
| `ServedFrames.GetRandomSeparate` | server/src/tpmctx.rs:24-35 | the same with two buffers |
| `ServedFrames.ExecuteOutcome` | server/src/tpmctx.rs:58-95 | for any command table, every outcome of a command with its condition on the request bytes, the handler and the room |
| `ServedFrames.FieldsRead` | server/src/req_resp.rs:13-36 | the fields a handler reads stand one behind the other from byte 10 on, big-endian, and are read when all are there |
| `ServedFrames.WritesByCalls` | server/src/req_resp.rs:71-83 | the writes of a handler are the answers of its callbacks one behind the other, up to the first without room or without an answer |
| `ServedFrames.SuccessOnWire` | server/src/tpmctx.rs:79-94 | the response of a success byte by byte: 0x8001, its length, four zeros, the payload, and behind it what was there |
| `ServedFrames.FailureOnWire` | server/src/tpmctx.rs:50-56 | the response of an error byte by byte |
| `GetRandom.ErrorsAreAtomic` | server/src/handler/random.rs:29-43 | on every error the generator and the entropy source are untouched and at most bytes 6 to 9 of the response differ |
| `GetRandom.CommandsOk` | server/src/tpmctx.rs:74-77 | the server's command table keeps what the engine asks of its handlers, and its callback ignores the old contents of its slice |
| `GetRandom.RunsAreDraws` | server/src/handler/random.rs:14-21 | over any run of commands the payloads, the final state and a crash are those of the generator asked, in turn, for just the byte counts of the commands that ask and have room |
| `GetRandom.RunLengths` | server/src/handler/random.rs:29-43 | each payload is as long as its command asked, and a run without a crash has one for each such command |
| `ServerRuns.RunCommands` | server/src/tpmctx.rs:24-35 | a sequence of commands run on one context, with each payload read back from its response buffer, is the run that the lemmas speak of, for buffers of at least ten bytes |
| `GetRandom.NoCrash` | server/src/platform/crypto/drbg/mod.rs:134-150 | when the generator fails only as documented, no run within its limit reaches the failure branch |
| `GetRandom.NeverFilledUnready` | server/src/handler/random.rs:14-21 | when reseeding takes effect as documented, fill_bytes is never called while it is required: generators that differ only there give the same runs, even if asking changes their state |
| `DrbgHelpers.Generator.FillBytesViaNext` | server/src/platform/crypto/drbg/helpers.rs:9-30 | for any generator: fills the slice with whole u64 chunks and one tail of a u64 or a u32, passes the additional input to the first draw only, and stops at a fault |
| `DrbgHelpers.FillByDraws` | server/src/platform/crypto/drbg/helpers.rs:14-28 | what it fills, draw by draw: byte i is byte i % 8 of draw i / 8, low byte first; only the first draw is given the additional input, and the first that faults ends it |
| `DrbgHelpers.ChunkedIsWords` | server/src/platform/crypto/drbg/helpers.rs:9-30 | if a u64 is two u32 draws, that is the front of the little-endian word stream, with no word more drawn than needed |
| `DrbgHelpers.U64IsTwoWords` | server/src/platform/crypto/drbg/helpers.rs:47-52 | the bytes of a u64 made of two words are the bytes of the words in order |
| `DrbgHelpers.TwoMoreWords` | server/src/platform/crypto/drbg/helpers.rs:47-52 | one u64 draw is two more words of the stream, in bytes, state and faults |
| `DrbgHelpers.FillInTwoParts` | server/src/platform/crypto/drbg/helpers.rs:9-30 | filling 4a bytes and then b is filling 4a + b, in output and in state |
| `DrbgHelpers.StreamHasTwoWords` | server/src/platform/crypto/drbg/helpers.rs:33-44 | over a byte stream, which may fault and may take additional input, the two helpers that draw integers agree with each other |
| `DrbgHelpers.ViaFillIsFill` | server/src/platform/crypto/drbg/helpers.rs:9-44 | so filling through them gives the bytes of filling directly with the same additional input, moves the stream by n rounded up to a multiple of four, and faults where the stream does up to there; only an empty slice drops the additional input |
| `ClientRequest.HeaderEncoding` | client/src/lib.rs:27-33 | the derived encoding of a header is tag, size and code, ten bytes |
| `ClientRequest.WriteCommandSessions` | client/src/lib.rs:75-108 | puts the size and the authorizations of up to three sessions, or nothing without sessions; without room it fails as its first byte without a place decides, and leaves alone what is in front |
| `ClientRequest.MarshalAuthSize` | client/src/lib.rs:68-72 | the size put in front is the length of the authorizations behind it |
| `ClientRequest.BuildRequest` | client/src/lib.rs:161-174 | hands out exactly header, handles, authorization area and parameters, with sizes patched in, when they fit 4096 bytes; else Memory or a panic, decided by the first byte without a place |
| `ClientRequest.Patched` | client/src/lib.rs:169-170 | writing the header a second time changes the header alone |
| `FramesOnWire.FrameOnWire` | client/src/lib.rs:161-174 | a frame byte by byte: 0x8001 or 0x8002, its length, the code, handles, authorization area, parameters |
| `FramesOnWire.AreaOnWire` | client/src/lib.rs:75-108 | the area is nothing without sessions, else its length and the authorizations in the order of the sessions |
| `FramesOnWire.FrameFits` | client/src/lib.rs:13 | up to 4096 bytes it is handed out, beyond that never |
| `FramesOnWire.NoRoomOutcome` | client/src/lib.rs:161-174 | beyond, the part that holds the first byte without a place decides between Memory and a panic |
| `FramesOnWire.AreaPanicsAt` | client/src/lib.rs:86-107 | in the authorization area a missing size panics, and the authorizations do as their encoders do |
| `FramesOnWire.GetRandomFrame` | base/src/commands/random.rs:10-18 | the twelve bytes of a GetRandom frame |
| `FramesOnWire.PasswordFrame` | client/src/sessions/password.rs:55-62 | the frame of any command with a password session, fixed up to its handles and parameters |
| `FrameParser.FrameSize` | client/src/lib.rs:169-170 | the size in a frame's header is the length of the whole frame |
| `FrameParser.FrameParses` | client/src/lib.rs:161-174 | an independent reader recovers tag, size, code, handles, each authorization and parameters of any frame |
| `FrameParser.FramesAreUnique` | client/src/lib.rs:161-174 | equal frames of a command carry equal parts |
| `FrameParser.AreaParses` | client/src/lib.rs:75-108 | the authorization area, present just with the tag Sessions, is read back as its authorizations |
| `ClientResponse.ReadHeader` | client/src/lib.rs:111-118 | on any buffer: Memory below ten bytes, the response code as the error when it is not 0, else tag, size and the ten bytes read |
| `ClientResponse.CheckAuths` | client/src/lib.rs:121-141 | reads and judges one authorization a session, in order, and stops at the first that fails |
| `ClientResponse.ParseResponse` | client/src/lib.rs:176-193 | the second half of a command run is the pure ReadResponse on any buffer, its panic for a size below ten included |
| `ClientResponse.AcceptsReply` | client/src/lib.rs:181-193 | any body of handles, size field, parameters and agreed authorizations is accepted and its values come back |
| `ClientResponse.AcceptsOnlyReplies` | client/src/lib.rs:181-193 | an accepted body is built so from the very values returned, with nothing left over |
| `ClientResponse.AnsweredIff` | client/src/lib.rs:176-193 | for any response buffer: Ok with given values if and only if the code is 0, the size is 10 to 4096, and the body is well built from them |
| `ClientResponse.HeaderDecides` | client/src/lib.rs:176-193 | any response buffer, by its bytes: a code other than 0 comes back, a size above 4096 gives TcsOutOfMemory, one below 10 panics, else the body decides |
| `ClientResponse.BodyOutcome` | client/src/lib.rs:181-193 | how the body decides: the first part that does not decode gives its error (0x95, 0x98 or 0x904), a missing size field 0x904, the first session that refuses its own code, bytes left over TcsTpmUnexpected |
| `ClientResponse.RunCommand` | client/src/lib.rs:144-193 | the TPM is asked once, with the frame, and the answer is read from its buffer; a frame that does not fit leaves it alone and gives the error or panic of BuildRequest |
| `Password.NewKeepsPassword` | client/src/sessions/password.rs:43-51 | a password of up to 64 bytes is kept as it is, a longer one refused with Size |
| `Password.AuthCommandBytes` | client/src/sessions/password.rs:55-62 | the authorization sent: handle RS_PW, empty nonce, no attributes, the password |
| `Password.PasswordAccepts` | client/src/sessions/password.rs:63-73 | on the wire, five bytes and no others are accepted in answer |
| `Password.PasswordRefuses` | client/src/sessions/password.rs:63-73 | any other authorization that decodes is refused with TcsBadParameter |
| `Password.PasswordsAccept` | client/src/lib.rs:121-141 | so with password sessions the session part of a response is fixed byte for byte |
| `EndToEnd.FrameReachesMatch` | server/src/tpmctx.rs:58-77 | every frame of the client passes the server's size check and reaches the command match with the client's code |
| `EndToEnd.GetRandomReaches` | base/src/commands/random.rs:10-18 | a GetRandom frame asks the server for the caller's byte count |
| `EndToEnd.ServerHeaderIsRead` | client/src/lib.rs:111-118 | for any command table, request and response buffer of at least ten bytes, the client's header reader returns the server's error code on failure and the server's returned size, as a u32, on success, with the payload behind it |
| `EndToEnd.ResponseIsRead` | client/src/lib.rs:176-193 | so on its own 4096-byte buffer the client returns that error, or reads exactly the server's payload |
| `EndToEnd.RunOnServer` | client/src/lib.rs:144-193 | a client command run by the server's engine, for any call and command table: the client's answer and the server's final state |
| `EndToEnd.GetRandomAnswer` | server/src/handler/random.rs:29-43 | the client reads the server's random bytes just when their first two are the size of the rest and at most 64 follow; bytes left over give TcsTpmUnexpected, a size that does not fit Memory |
| `EndToEnd.ZerosAreRefused` | server/src/handler/random.rs:36-41 | sixteen zero bytes are an answer that the client refuses |
| `EndToEnd.GetRandomExchange` | server/src/handler/random.rs:14-43 | a request for n bytes with room comes to one draw, in calls of the generator, the state behind it, and an answer that is what the client makes of just those bytes; without room, to Memory and no draw |
| `EndToEnd.GetRandomOnServer` | base/src/commands/random.rs:10-18 | the same from the client's call to the client's answer, run on the server's engine with its own command table |
| `EndToEnd.NoAnswerOutside` | server/src/handler/random.rs:29-43 | so no answer gets through for fewer than 2 or more than 66 bytes |

## Left out

- InPlaceLikeSeparate: the two forms differ for callbacks that look at the old contents of their slice; EchoTellsApart is one.
- CommandsOk: that `fill_bytes` overwrites its slice without looking at it is an assumption, made by giving `Drbg.fill` a length only.
- NoCrash: assumes the documented failure cases of the trait and no hardware fault; cryptographic strength is not modelled.
- FramesAreUnique: compares two calls of one command; frames of different commands differ in their code, which FrameParses recovers.
- WritersMean: says which bytes the statements give, not where they go; ExecWrites runs the same statements on a buffer.
- DerivePreservesMeaning: says the same on byte strings; ExecWrites and ExecDecoder run both bodies on buffers.
- DeriveMarshalable: covers structs with named fields; enums enter as schemas directly, tuple and unit structs add no rule, and the named-variant and missing-selector errors of the enum derive are not modelled.
- Parsing of Rust syntax, spans and error texts in the macro: the model starts from field lists and ends at emitted statements.
- `unionify-derive`: a union is the largest variant, rounded to its alignment.
- Failure mode of the server after a DRBG error: the source has a `todo!()`, which is the outcome Crash here.
- RunOnServer: the engine is called directly, where the repository has a `Tpm` trait and transports.
- `Crypto::new` and the instantiation of a DRBG: the model starts from an instantiated one.
- `usize` overflow of `offset + len`: buffers are assumed far below the machine limit.
- Attribute bit fields, handle ranges, constant tables and the format-1 response code helpers: fixed-width facts that one reading settles.
- HMAC and policy sessions, server-side session parsing and the TCP simulator transport.
- Command structs other than GetRandom's: CreatePrimary, StartAuthSession and GetCapability are covered as schemas in general, not one by one.
