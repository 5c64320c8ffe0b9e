// The statements that the derive emits for an encoder, run on the destination
// buffer: `written += self.f.try_marshal(&mut buffer[written..])?` and its loops.
module EmittedEncoder {
  import opened ByteOrder
  import opened Schemas
  import opened Codec
  import opened Marshal
  import opened Derive

  // `written += self.f[i].try_marshal(&mut buffer[written..])?`
  method ExecEntry(elem: Schema, ghost f: Field, items: seq<Value>, ghost n: nat, i: nat,
                   buffer: array<byte>, at: nat, written: nat, ghost b0: seq<byte>) returns (r: Outcome)
    requires f.elem == elem && i < n <= |items| && at <= |b0| == buffer.Length
    requires forall j | 0 <= j < n :: MatchesElem(f, items[j])
    requires Wrote(b0, buffer[..], at, EncodeItems(f, items, i), MaskItems(f, items, i), Written(written))
    modifies buffer
    ensures r.Written? ==>
              Wrote(b0, buffer[..], at, EncodeItems(f, items, i + 1), MaskItems(f, items, i + 1), r)
    ensures !r.Written? ==> Wrote(b0, buffer[..], at, EncodeItems(f, items, n), MaskItems(f, items, n), r)
  {
    ghost var b1 := buffer[..];
    assert MatchesElem(f, items[i]);
    r := TryMarshal(elem, items[i], buffer, at + written);
    ItemsStep(f, items, n, i, b0, b1, buffer[..], at, r);
    r := if r.Written? then Written(written + r.n) else r;
  }

  // The loop `for i in 0..n` around it.
  method ExecLoop(elem: Schema, ghost f: Field, items: seq<Value>, n: nat, buffer: array<byte>, at: nat)
    returns (r: Outcome)
    requires f.elem == elem && n <= |items| && at <= buffer.Length
    requires forall i | 0 <= i < n :: MatchesElem(f, items[i])
    modifies buffer
    ensures Wrote(old(buffer[..]), buffer[..], at, EncodeItems(f, items, n), MaskItems(f, items, n), r)
  {
    ghost var b0 := buffer[..];
    r := Written(0);
    NothingYet(b0, at);
    for i := 0 to n
      invariant r.Written?
      invariant Wrote(b0, buffer[..], at, EncodeItems(f, items, i), MaskItems(f, items, i), r)
    {
      r := ExecEntry(elem, f, items, n, i, buffer, at, r.n, b0);
      if !r.Written? {
        return;
      }
    }
  }

  // The value of `self.name`.
  method SelfValue(decls: seq<FieldDecl>, vals: seq<Value>, name: string) returns (v: Value)
    requires SelfField(decls, vals, name).Done?
    ensures v == SelfField(decls, vals, name).result
  {
    v := vals[IndexOf(decls, name, 0)];
  }

  // One statement, emitted for the field at position `k`.
  method ExecWrite(stmt: WriteStmt, decls: seq<FieldDecl>, vals: seq<Value>, ghost k: nat,
                   ghost f: Field, buffer: array<byte>, at: nat) returns (r: Outcome)
    requires DistinctNames(decls) && k < |decls| <= |vals| && at <= buffer.Length
    requires MarshalStmt(Known(decls, k), decls[k]) == Good(stmt)
    requires f == Elaborate(decls)[k] && MatchesField(f, vals, k)
    modifies buffer
    ensures Wrote(old(buffer[..]), buffer[..], at, EncodeField(f, vals, k), MaskField(f, vals, k), r)
  {
    StatementReads(decls, stmt, vals, k);
    var v := SelfValue(decls, vals, stmt.name);
    if stmt.WriteOne? {
      r := TryMarshal(stmt.elem, v, buffer, at);
    } else if stmt.bound.Constant? {
      r := ExecLoop(stmt.elem, f, v.items, stmt.bound.n, buffer, at);
    } else {
      var count := SelfValue(decls, vals, stmt.bound.length);
      r := ExecLoop(stmt.elem, f, v.items, AsUsize(count.n), buffer, at);
    }
  }

  // What a statement finds in `self`: its own field, and an integer to count by.
  lemma {:induction false} StatementReads(decls: seq<FieldDecl>, stmt: WriteStmt, vals: seq<Value>, k: nat)
    requires DistinctNames(decls) && k < |decls| <= |vals|
    requires MarshalStmt(Known(decls, k), decls[k]) == Good(stmt)
    requires MatchesField(Elaborate(decls)[k], vals, k)
    ensures SelfField(decls, vals, stmt.name) == Done(vals[k])
    ensures var f := Elaborate(decls)[k];
            && f.elem == stmt.elem
            && if stmt.WriteOne? then f.shape.One?
               else if stmt.bound.Constant? then f.shape == Fixed(stmt.bound.n)
               else f.shape.Counted? && SelfField(decls, vals, stmt.bound.length) == Done(vals[f.shape.counter])
  {
    assert Elaborate(decls)[k] == ElaborateField(decls, decls[k]);
    assert IndexOf(decls, decls[k].name, 0) == k;
  }

  // The whole emitted `try_marshal` of a struct, into a buffer of any room: the
  // encoding of the elaborated struct, or Memory, or a panic, each just when
  // the codec's outcome says so.
  method ExecWrites(decls: seq<FieldDecl>, writers: seq<WriteStmt>, ghost readers: seq<ReadStmt>,
                    vals: seq<Value>, buffer: array<byte>, at: nat) returns (r: Outcome)
    requires Emitted(decls, writers, readers) && DistinctNames(decls)
    requires Matches(Struct(Elaborate(decls)), Record(vals)) && at <= buffer.Length
    modifies buffer
    ensures var s := Struct(Elaborate(decls));
            Wrote(old(buffer[..]), buffer[..], at, Encode(s, Record(vals)), PayloadMask(s, Record(vals)), r)
  {
    r := ExecFields(decls, Elaborate(decls), writers, readers, vals, buffer, at);
  }

  method ExecFields(decls: seq<FieldDecl>, ghost fields: seq<Field>, writers: seq<WriteStmt>,
                    ghost readers: seq<ReadStmt>, vals: seq<Value>, buffer: array<byte>, at: nat) returns (r: Outcome)
    requires Emitted(decls, writers, readers) && DistinctNames(decls) && fields == Elaborate(decls)
    requires |vals| == |fields| && MatchesFields(fields, vals, |fields|) && at <= buffer.Length
    modifies buffer
    ensures Wrote(old(buffer[..]), buffer[..], at,
                  EncodeFields(fields, vals, |fields|), MaskFields(fields, vals, |fields|), r)
  {
    ghost var b0 := buffer[..];
    r := Written(0);
    NoFieldYet(fields, vals, b0, at);
    for k := 0 to |writers|
      invariant r.Written? && MatchesFields(fields, vals, k)
      invariant Wrote(b0, buffer[..], at, EncodeFields(fields, vals, k), MaskFields(fields, vals, k), r)
    {
      r := ExecNext(decls, fields, writers, readers, vals, k, buffer, at, r.n, b0);
      if !r.Written? {
        return;
      }
    }
  }

  // The statement at `k`.
  method ExecNext(decls: seq<FieldDecl>, ghost fields: seq<Field>, writers: seq<WriteStmt>,
                  ghost readers: seq<ReadStmt>, vals: seq<Value>, k: nat, buffer: array<byte>, at: nat, written: nat,
                  ghost b0: seq<byte>) returns (r: Outcome)
    requires Emitted(decls, writers, readers) && DistinctNames(decls) && fields == Elaborate(decls)
    requires |vals| == |fields| && k < |writers| && at <= |b0| == buffer.Length
    requires MatchesFields(fields, vals, |fields|) && MatchesFields(fields, vals, k)
    requires Wrote(b0, buffer[..], at, EncodeFields(fields, vals, k), MaskFields(fields, vals, k), Written(written))
    modifies buffer
    ensures MatchesFields(fields, vals, k + 1)
    ensures r.Written? ==>
              Wrote(b0, buffer[..], at, EncodeFields(fields, vals, k + 1), MaskFields(fields, vals, k + 1), r)
    ensures !r.Written? ==>
              Wrote(b0, buffer[..], at, EncodeFields(fields, vals, |fields|), MaskFields(fields, vals, |fields|), r)
  {
    StatementAt(decls, fields, writers, readers, vals, k);
    r := ExecField(decls, fields, writers[k], vals, k, buffer, at, written, b0);
  }

  lemma {:induction false} StatementAt(
    decls: seq<FieldDecl>, fields: seq<Field>, writers: seq<WriteStmt>, readers: seq<ReadStmt>, vals: seq<Value>,
    k: nat)
    requires Emitted(decls, writers, readers) && |vals| == |fields| == |decls| && k < |fields|
    requires MatchesFields(fields, vals, |fields|)
    ensures MatchesField(fields[k], vals, k) && MarshalStmt(Known(decls, k), decls[k]) == Good(writers[k])
  {
    assert EmittedAt(decls, writers[k], readers[k], k);
  }

  // One statement behind those that have written `written` bytes.
  method ExecField(decls: seq<FieldDecl>, ghost fields: seq<Field>, stmt: WriteStmt, vals: seq<Value>, ghost k: nat,
                   buffer: array<byte>, at: nat, written: nat, ghost b0: seq<byte>) returns (r: Outcome)
    requires DistinctNames(decls) && fields == Elaborate(decls) && |vals| == |fields| && k < |decls|
    requires MarshalStmt(Known(decls, k), decls[k]) == Good(stmt)
    requires MatchesFields(fields, vals, |fields|) && MatchesFields(fields, vals, k) && MatchesField(fields[k], vals, k)
    requires at <= |b0| == buffer.Length
    requires Wrote(b0, buffer[..], at, EncodeFields(fields, vals, k), MaskFields(fields, vals, k), Written(written))
    modifies buffer
    ensures MatchesFields(fields, vals, k + 1)
    ensures r.Written? ==>
              Wrote(b0, buffer[..], at, EncodeFields(fields, vals, k + 1), MaskFields(fields, vals, k + 1), r)
    ensures !r.Written? ==>
              Wrote(b0, buffer[..], at, EncodeFields(fields, vals, |fields|), MaskFields(fields, vals, |fields|), r)
  {
    ghost var b1 := buffer[..];
    r := ExecWrite(stmt, decls, vals, k, fields[k], buffer, at + written);
    FieldsStep(fields, vals, k, b0, b1, buffer[..], at, r);
    r := if r.Written? then Written(written + r.n) else r;
  }
}
