// The statements that the derive emits for a decoder, run on an UnmarshalBuf:
// `let f = <T>::try_unmarshal(buffer)?;`, its loops, and the struct literal.
module EmittedDecoder {
  import opened ByteOrder
  import opened Schemas
  import opened Codec
  import opened Unmarshal
  import opened Derive

  // `let mut f = [T::default(); MAX]` and the loop over its first `n` entries.
  method ExecReadLoop(elem: Schema, max: nat, n: nat, buf: UnmarshalBuf) returns (r: Fallible<Value>)
    requires Schemas.Valid(elem) && n <= max && buf.Valid()
    modifies buf
    ensures buf.Valid()
    ensures Done(DecodeLoop(elem, max, n, old(buf.buffer))) == RunReadLoop(elem, max, n, old(buf.buffer))
    ensures Agrees(DecodeLoop(elem, max, n, old(buf.buffer)), r, buf.buffer)
  {
    ghost var b := buf.buffer;
    ghost var f := Field(elem, Fixed(max));
    var full := seq(max, _ => Default(elem));
    assert full == PadItems(f, []);
    for i := 0 to n
      invariant buf.Valid()
      invariant DecodeItems(f, b, i).Parsed?
      invariant DecodeItems(f, b, i).rest == buf.buffer
      invariant full == PadItems(f, DecodeItems(f, b, i).value)
    {
      var v := ExecEntry(elem, f, buf);
      if v.Err? {
        ItemsFailEarly(f, b, i + 1, n);
        return Err(v.error);
      }
      full := full[i := v.value];
    }
    return Ok(List(full));
  }

  // `*i = T::try_unmarshal(buffer)?`
  method ExecEntry(elem: Schema, ghost f: Field, buf: UnmarshalBuf) returns (r: Fallible<Value>)
    requires ValidField(f) && f.elem == elem && buf.Valid()
    modifies buf
    ensures buf.Valid()
    ensures Agrees(DecodeElem(f, old(buf.buffer)), r, buf.buffer)
  {
    r := TryUnmarshal(elem, buf);
  }

  function DecodeLoop(elem: Schema, max: nat, n: nat, b: seq<byte>): Parse<Value>
    requires Schemas.Valid(elem) && n <= max
  {
    var f := Field(elem, Fixed(max));
    match DecodeItems(f, b, n)
    case Failed(e) => Failed(e)
    case Parsed(items, rest) => Parsed(List(PadItems(f, items)), rest)
  }

  // One statement, with the locals that those before it have bound.
  method ExecRead(stmt: ReadStmt, locals: Locals, buf: UnmarshalBuf) returns (r: Fallible<Value>)
    requires RunRead(stmt, locals, buf.buffer).Done? && buf.Valid()
    modifies buf
    ensures buf.Valid()
    ensures Agrees(RunRead(stmt, locals, old(buf.buffer)).result, r, buf.buffer)
  {
    match stmt
    case ReadOne(_, elem) =>
      r := TryUnmarshal(elem, buf);
    case ReadAll(_, elem, max) =>
      r := ExecReadLoop(elem, max, max, buf);
    case ReadGuarded(_, elem, max, length) =>
      var n := AsUsize(locals[length].n);
      if n > max {
        return Err(Error.Size);
      }
      r := ExecReadLoop(elem, max, n, buf);
  }

  // All statements in order, each ended by `?`.
  method ExecReads(stmts: seq<ReadStmt>, buf: UnmarshalBuf) returns (r: Fallible<Locals>)
    requires forall k | 0 <= k <= |stmts| :: RunReads(stmts, buf.buffer, k).Done?
    requires buf.Valid()
    modifies buf
    ensures buf.Valid()
    ensures Agrees(RunReads(stmts, old(buf.buffer), |stmts|).result, r, buf.buffer)
  {
    ghost var b := buf.buffer;
    var locals: Locals := map[];
    for k := 0 to |stmts|
      invariant buf.Valid()
      invariant RunReads(stmts, b, k) == Done(Parsed(locals, buf.buffer))
    {
      assert RunReads(stmts, b, k + 1).Done?;
      var v := ExecRead(stmts[k], locals, buf);
      if v.Err? {
        ReadsFailEarly(stmts, b, k + 1, |stmts|);
        return Err(v.error);
      }
      locals := locals[stmts[k].name := v.value];
    }
    return Ok(locals);
  }

  lemma {:induction false} ReadsFailEarly(stmts: seq<ReadStmt>, b: seq<byte>, j: nat, k: nat)
    requires j <= k <= |stmts|
    requires RunReads(stmts, b, j).Done? && RunReads(stmts, b, j).result.Failed?
    ensures RunReads(stmts, b, k) == RunReads(stmts, b, j)
  {
    if j < k {
      ReadsFailEarly(stmts, b, j, k - 1);
    }
  }

  // The whole emitted `try_unmarshal` of a struct: what the codec makes of the
  // buffer, value or error, with the same rest, and no name missing anywhere.
  method ExecDecoder(decls: seq<FieldDecl>, ghost writers: seq<WriteStmt>, readers: seq<ReadStmt>, buf: UnmarshalBuf)
    returns (r: Fallible<seq<Value>>)
    requires WellAttributed(decls) && Compiles(decls) && Emitted(decls, writers, readers) && buf.Valid()
    modifies buf
    ensures buf.Valid() && ValidFields(Elaborate(decls))
    ensures Agrees(DecodeFields(Elaborate(decls), old(buf.buffer), |decls|), r, buf.buffer)
  {
    ghost var b := buf.buffer;
    NeverStuck(decls, writers, readers, b);
    var locals := ExecReads(readers, buf);
    if locals.Err? {
      return Err(locals.error);
    }
    BoundNames(decls, locals.value, DecodeFields(Elaborate(decls), b, |decls|).value);
    return Ok(seq(|decls|, i requires 0 <= i < |decls| && decls[i].name in locals.value =>
                             locals.value[decls[i].name]));
  }

  // What ReadersMean says of the statements, for every number of them.
  lemma {:induction false} NeverStuck(
    decls: seq<FieldDecl>, writers: seq<WriteStmt>, readers: seq<ReadStmt>, b: seq<byte>)
    requires WellAttributed(decls) && Compiles(decls) && Emitted(decls, writers, readers)
    ensures ValidFields(Elaborate(decls))
    ensures forall k | 0 <= k <= |readers| :: RunReads(readers, b, k).Done?
    ensures match DecodeFields(Elaborate(decls), b, |decls|)
            case Failed(e) => RunReads(readers, b, |decls|).result == Failed(e)
            case Parsed(vals, rest) =>
              && RunReads(readers, b, |decls|).result.Parsed?
              && RunReads(readers, b, |decls|).result.rest == rest
              && Binds(decls, RunReads(readers, b, |decls|).result.value, vals, |decls|)
  {
    ElaborationIsValid(decls);
    forall k | 0 <= k <= |readers|
      ensures RunReads(readers, b, k).Done?
    {
      ReadersMean(decls, writers, readers, b, k);
    }
    ReadersMean(decls, writers, readers, b, |decls|);
  }

  lemma {:induction false} BoundNames(decls: seq<FieldDecl>, locals: Locals, vals: seq<Value>)
    requires Binds(decls, locals, vals, |decls|)
    ensures forall i | 0 <= i < |decls| :: decls[i].name in locals
    ensures vals == seq(|decls|, i requires 0 <= i < |decls| && decls[i].name in locals => locals[decls[i].name])
  {
  }
}
