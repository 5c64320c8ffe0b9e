// The derive macro for structs with named fields as a small compiler: it checks
// the length attributes, emits one statement per field for each direction, and
// the emitted code means what the codec says.
module Derive {
  import opened ByteOrder
  import opened Schemas
  import opened Codec

  // ---- Source: field declarations ----

  // `#[marshalable(key = ident)]`; no identifier when the value is something else.
  datatype Attr = Attr(key: string, ident: Option<string>)

  datatype Type = Plain(elem: Schema) | Array(elem: Schema, len: nat)

  datatype FieldDecl = FieldDecl(name: string, ty: Type, attrs: seq<Attr>)

  datatype DeriveError =
    | OnlyOneAttribute
    | UnknownAttribute
    | NotAnIdentifier
    | NotAnArray
    | LengthNotBefore

  datatype Checked<+T> = Good(value: T) | Bad(error: DeriveError)

  // ---- Target: emitted statements ----

  datatype WriteStmt =
    | WriteOne(name: string, elem: Schema)
    | WriteLoop(name: string, elem: Schema, bound: Bound)

  datatype ReadStmt =
    | ReadOne(name: string, elem: Schema)
    | ReadGuarded(name: string, elem: Schema, max: nat, length: string)
    | ReadAll(name: string, elem: Schema, max: nat)

  datatype Bound = Constant(n: nat) | LengthField(length: string)

  // ---- The generator ----

  function GetLength(attrs: seq<Attr>): Checked<Option<string>> {
    if attrs == [] then Good(None)
    else if |attrs| > 1 then Bad(OnlyOneAttribute)
    else if attrs[0].key != "length" then Bad(UnknownAttribute)
    else if attrs[0].ident.None? then Bad(NotAnIdentifier)
    else Good(attrs[0].ident)
  }

  // Fields that a later length attribute may name.
  predicate IsBasic(d: FieldDecl) {
    GetLength(d.attrs) == Good(None) && d.ty.Plain?
  }

  // `get_named_field_marshal`: does not look at the type of a counted field.
  function MarshalStmt(known: set<string>, d: FieldDecl): Checked<WriteStmt> {
    match GetLength(d.attrs)
    case Bad(e) => Bad(e)
    case Good(Some(length)) =>
      if length !in known then Bad(LengthNotBefore)
      else Good(WriteLoop(d.name, d.ty.elem, LengthField(length)))
    case Good(None) =>
      if d.ty.Array? then Good(WriteLoop(d.name, d.ty.elem, Constant(d.ty.len)))
      else Good(WriteOne(d.name, d.ty.elem))
  }

  // `get_named_field_unmarshal`.
  function UnmarshalStmt(known: set<string>, d: FieldDecl): Checked<ReadStmt> {
    match GetLength(d.attrs)
    case Bad(e) => Bad(e)
    case Good(Some(length)) =>
      if !d.ty.Array? then Bad(NotAnArray)
      else if length !in known then Bad(LengthNotBefore)
      else Good(ReadGuarded(d.name, d.ty.elem, d.ty.len, length))
    case Good(None) =>
      if d.ty.Array? then Good(ReadAll(d.name, d.ty.elem, d.ty.len))
      else Good(ReadOne(d.name, d.ty.elem))
  }

  // The keys of `basic_field_types` after the first `k` fields.
  ghost function Known(decls: seq<FieldDecl>, k: nat): set<string>
    requires k <= |decls|
  {
    set j | 0 <= j < k && IsBasic(decls[j]) :: decls[j].name
  }

  // The code for all fields, or every error that was found.
  datatype Generated<+T> = Code(stmts: seq<T>) | Errors(errors: seq<DeriveError>)

  ghost predicate MarshalAccepts(decls: seq<FieldDecl>, k: nat)
    requires k <= |decls|
  {
    forall j | 0 <= j < k :: MarshalGood(decls, j)
  }

  ghost predicate MarshalGood(decls: seq<FieldDecl>, k: nat)
    requires k < |decls|
  {
    MarshalStmt(Known(decls, k), decls[k]).Good?
  }

  ghost predicate UnmarshalAccepts(decls: seq<FieldDecl>, k: nat)
    requires k <= |decls|
  {
    forall j | 0 <= j < k :: UnmarshalGood(decls, j)
  }

  ghost predicate UnmarshalGood(decls: seq<FieldDecl>, k: nat)
    requires k < |decls|
  {
    UnmarshalStmt(Known(decls, k), decls[k]).Good?
  }

  lemma {:induction false} MarshalErrorsNone(decls: seq<FieldDecl>, k: nat)
    requires k <= |decls|
    ensures MarshalErrors(decls, k) == [] <==> MarshalAccepts(decls, k)
  {
    if k > 0 {
      MarshalErrorsNone(decls, k - 1);
      assert MarshalAccepts(decls, k) <==> MarshalAccepts(decls, k - 1) && MarshalGood(decls, k - 1);
    }
  }

  // The errors of the refused fields, in order.
  ghost function MarshalErrors(decls: seq<FieldDecl>, k: nat): seq<DeriveError>
    requires k <= |decls|
  {
    if k == 0 then []
    else
      var stmt := MarshalStmt(Known(decls, k - 1), decls[k - 1]);
      MarshalErrors(decls, k - 1) + if stmt.Bad? then [stmt.error] else []
  }

  // The statements of the first fields, each for the names known there.
  ghost predicate WritersFor(decls: seq<FieldDecl>, stmts: seq<WriteStmt>) {
    |stmts| <= |decls| && forall j | 0 <= j < |stmts| :: WriterFor(decls, j, stmts[j])
  }

  ghost predicate WriterFor(decls: seq<FieldDecl>, k: nat, stmt: WriteStmt)
    requires k < |decls|
  {
    MarshalStmt(Known(decls, k), decls[k]) == Good(stmt)
  }

  lemma {:induction false} WritersNext(
    decls: seq<FieldDecl>, k: nat, errors: seq<DeriveError>, stmts: seq<WriteStmt>)
    requires k < |decls| && errors == MarshalErrors(decls, k)
    requires errors == [] ==> |stmts| == k && WritersFor(decls, stmts)
    ensures match MarshalStmt(Known(decls, k), decls[k])
            case Bad(e) => MarshalErrors(decls, k + 1) == errors + [e]
            case Good(stmt) =>
              && MarshalErrors(decls, k + 1) == errors
              && (errors == [] ==> WritersFor(decls, stmts + [stmt]))
  {
    var stmt := MarshalStmt(Known(decls, k), decls[k]);
    if stmt.Good? && errors == [] {
      assert WriterFor(decls, k, stmt.value);
    }
  }

  method GenerateMarshal(decls: seq<FieldDecl>) returns (r: Generated<WriteStmt>)
    ensures r.Code? <==> MarshalAccepts(decls, |decls|)
    ensures r.Code? ==>
              |r.stmts| == |decls| && WritersFor(decls, r.stmts)
    ensures r.Code? ==> MarshalErrors(decls, |decls|) == []
    ensures r.Errors? ==> r.errors == MarshalErrors(decls, |decls|) != []
  {
    var basicFieldTypes: map<string, Type> := map[];
    var errors: seq<DeriveError> := [];
    var recurse: seq<WriteStmt> := [];
    for k := 0 to |decls|
      invariant basicFieldTypes.Keys == Known(decls, k)
      invariant errors == MarshalErrors(decls, k)
      invariant errors == [] ==>
                  |recurse| == k && WritersFor(decls, recurse)
    {
      var d := decls[k];
      var stmt := MarshalStmt(basicFieldTypes.Keys, d);
      WritersNext(decls, k, errors, recurse);
      match stmt {
        case Good(stmt) => recurse := recurse + [stmt];
        case Bad(e) => errors := errors + [e];
      }
      if IsBasic(d) {
        basicFieldTypes := basicFieldTypes[d.name := d.ty];
      }
      KnownNext(decls, k);
    }
    MarshalErrorsNone(decls, |decls|);
    return if errors == [] then Code(recurse) else Errors(errors);
  }

  lemma {:induction false} UnmarshalErrorsNone(decls: seq<FieldDecl>, k: nat)
    requires k <= |decls|
    ensures UnmarshalErrors(decls, k) == [] <==> UnmarshalAccepts(decls, k)
  {
    if k > 0 {
      UnmarshalErrorsNone(decls, k - 1);
      assert UnmarshalAccepts(decls, k) <==> UnmarshalAccepts(decls, k - 1) && UnmarshalGood(decls, k - 1);
    }
  }

  // The errors of the refused fields, in order.
  ghost function UnmarshalErrors(decls: seq<FieldDecl>, k: nat): seq<DeriveError>
    requires k <= |decls|
  {
    if k == 0 then []
    else
      var stmt := UnmarshalStmt(Known(decls, k - 1), decls[k - 1]);
      UnmarshalErrors(decls, k - 1) + if stmt.Bad? then [stmt.error] else []
  }

  // The statements of the first fields, each for the names known there.
  ghost predicate ReadersFor(decls: seq<FieldDecl>, stmts: seq<ReadStmt>) {
    |stmts| <= |decls| && forall j | 0 <= j < |stmts| :: ReaderFor(decls, j, stmts[j])
  }

  ghost predicate ReaderFor(decls: seq<FieldDecl>, k: nat, stmt: ReadStmt)
    requires k < |decls|
  {
    UnmarshalStmt(Known(decls, k), decls[k]) == Good(stmt)
  }

  lemma {:induction false} ReadersNext(
    decls: seq<FieldDecl>, k: nat, errors: seq<DeriveError>, stmts: seq<ReadStmt>)
    requires k < |decls| && errors == UnmarshalErrors(decls, k)
    requires errors == [] ==> |stmts| == k && ReadersFor(decls, stmts)
    ensures match UnmarshalStmt(Known(decls, k), decls[k])
            case Bad(e) => UnmarshalErrors(decls, k + 1) == errors + [e]
            case Good(stmt) =>
              && UnmarshalErrors(decls, k + 1) == errors
              && (errors == [] ==> ReadersFor(decls, stmts + [stmt]))
  {
    var stmt := UnmarshalStmt(Known(decls, k), decls[k]);
    if stmt.Good? && errors == [] {
      assert ReaderFor(decls, k, stmt.value);
    }
  }

  method GenerateUnmarshal(decls: seq<FieldDecl>) returns (r: Generated<ReadStmt>)
    ensures r.Code? <==> UnmarshalAccepts(decls, |decls|)
    ensures r.Code? ==>
              |r.stmts| == |decls| && ReadersFor(decls, r.stmts)
    ensures r.Code? ==> UnmarshalErrors(decls, |decls|) == []
    ensures r.Errors? ==> r.errors == UnmarshalErrors(decls, |decls|) != []
  {
    var basicFieldTypes: map<string, Type> := map[];
    var errors: seq<DeriveError> := [];
    var recurse: seq<ReadStmt> := [];
    for k := 0 to |decls|
      invariant basicFieldTypes.Keys == Known(decls, k)
      invariant errors == UnmarshalErrors(decls, k)
      invariant errors == [] ==>
                  |recurse| == k && ReadersFor(decls, recurse)
    {
      var d := decls[k];
      var stmt := UnmarshalStmt(basicFieldTypes.Keys, d);
      ReadersNext(decls, k, errors, recurse);
      match stmt {
        case Good(stmt) => recurse := recurse + [stmt];
        case Bad(e) => errors := errors + [e];
      }
      if IsBasic(d) {
        basicFieldTypes := basicFieldTypes[d.name := d.ty];
      }
      KnownNext(decls, k);
    }
    UnmarshalErrorsNone(decls, |decls|);
    return if errors == [] then Code(recurse) else Errors(errors);
  }

  lemma {:induction false} KnownNext(decls: seq<FieldDecl>, k: nat)
    requires k < |decls|
    ensures Known(decls, k + 1)
         == Known(decls, k) + if IsBasic(decls[k]) then {decls[k].name} else {}
  {
  }

  // ---- What the derive accepts ----

  // Each field has no attribute, or exactly one `length = name` on an array, where
  // `name` is that of an earlier field that is neither an array nor attributed.
  ghost predicate WellAttributed(decls: seq<FieldDecl>) {
    forall k | 0 <= k < |decls| :: FieldWellAttributed(decls, k)
  }

  ghost predicate FieldWellAttributed(decls: seq<FieldDecl>, k: nat)
    requires k < |decls|
  {
    || decls[k].attrs == []
    || (decls[k].ty.Array? && exists j :: 0 <= j < k && HasLength(decls[k], decls[j].name) && IsPlain(decls[j]))
  }

  ghost predicate HasLength(d: FieldDecl, name: string) {
    d.attrs == [Attr("length", Some(name))]
  }

  ghost predicate IsPlain(d: FieldDecl) {
    d.ty.Plain? && d.attrs == []
  }

  lemma {:induction false} FieldAccepted(decls: seq<FieldDecl>, k: nat)
    requires k < |decls|
    ensures FieldWellAttributed(decls, k) <==> MarshalGood(decls, k) && UnmarshalGood(decls, k)
  {
    var attrs := decls[k].attrs;
    if |attrs| == 1 && attrs[0].key == "length" && attrs[0].ident.Some? {
      var name := attrs[0].ident.value;
      assert attrs == [Attr("length", Some(name))];
      assert name in Known(decls, k) <==> exists j :: 0 <= j < k && decls[j].name == name && IsPlain(decls[j]);
    }
  }

  lemma {:induction false} AcceptsIffWellAttributed(decls: seq<FieldDecl>)
    ensures MarshalAccepts(decls, |decls|) && UnmarshalAccepts(decls, |decls|) <==> WellAttributed(decls)
  {
    forall k | 0 <= k < |decls|
      ensures FieldWellAttributed(decls, k) <==> MarshalGood(decls, k) && UnmarshalGood(decls, k)
    {
      FieldAccepted(decls, k);
    }
  }

  // The whole derive: both directions must be free of errors, and those of the
  // encoder are reported first.
  method DeriveMarshalable(decls: seq<FieldDecl>)
    returns (errors: seq<DeriveError>, writers: seq<WriteStmt>, readers: seq<ReadStmt>)
    ensures errors == [] <==> WellAttributed(decls)
    ensures errors == [] ==> Emitted(decls, writers, readers)
    ensures errors == if MarshalErrors(decls, |decls|) != [] then MarshalErrors(decls, |decls|)
                      else UnmarshalErrors(decls, |decls|)
  {
    AcceptsIffWellAttributed(decls);
    var w := GenerateMarshal(decls);
    if w.Errors? {
      return w.errors, [], [];
    }
    var r := GenerateUnmarshal(decls);
    if r.Errors? {
      return r.errors, [], [];
    }
    EmittedBy(decls, w.stmts, r.stmts);
    return [], w.stmts, r.stmts;
  }

  lemma {:induction false} EmittedBy(decls: seq<FieldDecl>, writers: seq<WriteStmt>, readers: seq<ReadStmt>)
    requires |writers| == |readers| == |decls|
    requires WritersFor(decls, writers)
    requires ReadersFor(decls, readers)
    ensures Emitted(decls, writers, readers)
  {
    forall j | 0 <= j < |decls|
      ensures EmittedAt(decls, writers[j], readers[j], j)
    {
      assert WriterFor(decls, j, writers[j]) && ReaderFor(decls, j, readers[j]);
    }
  }

  ghost predicate Emitted(decls: seq<FieldDecl>, writers: seq<WriteStmt>, readers: seq<ReadStmt>) {
    && |writers| == |readers| == |decls|
    && forall j | 0 <= j < |decls| :: EmittedAt(decls, writers[j], readers[j], j)
  }

  ghost predicate EmittedAt(decls: seq<FieldDecl>, writer: WriteStmt, reader: ReadStmt, j: nat)
    requires j < |decls|
  {
    && MarshalStmt(Known(decls, j), decls[j]) == Good(writer)
    && UnmarshalStmt(Known(decls, j), decls[j]) == Good(reader)
  }

  // ---- What the emitted code means ----

  // The struct as a schema: a length attribute becomes the position of the
  // field it names.
  function Elaborate(decls: seq<FieldDecl>): (fields: seq<Field>)
    ensures |fields| == |decls|
  {
    seq(|decls|, k requires 0 <= k < |decls| => ElaborateField(decls, decls[k]))
  }

  function ElaborateField(decls: seq<FieldDecl>, d: FieldDecl): Field {
    match GetLength(d.attrs)
    case Good(Some(length)) => Field(d.ty.elem, Counted(if d.ty.Array? then d.ty.len else 0, IndexOf(decls, length, 0)))
    case _ => Field(d.ty.elem, if d.ty.Array? then Fixed(d.ty.len) else One)
  }

  // The position of the field called `name`.
  function IndexOf(decls: seq<FieldDecl>, name: string, from: nat): (i: nat)
    requires from <= |decls|
    ensures from <= i <= |decls|
    ensures i < |decls| ==> decls[i].name == name
    ensures forall j | from <= j < i :: decls[j].name != name
    decreases |decls| - from
  {
    if from == |decls| then from
    else if decls[from].name == name then from
    else IndexOf(decls, name, from + 1)
  }

  // Two fields of one name do not compile.
  ghost predicate DistinctNames(decls: seq<FieldDecl>) {
    forall i, j | 0 <= i < j < |decls| :: decls[i].name != decls[j].name
  }

  // What rustc still asks of an accepted struct: marshalable element types, and
  // `as usize` only on integers.
  ghost predicate Compiles(decls: seq<FieldDecl>) {
    && DistinctNames(decls)
    && (forall d | d in decls :: Schemas.Valid(d.ty.elem))
    && forall d, e | d in decls && e in decls && HasLength(d, e.name) :: e.ty.elem.Prim?
  }

  // The position a length attribute elaborates to is that of an earlier integer
  // field, so the decoder's loop bound is the count the encoder used.
  lemma {:induction false} ElaborationIsValid(decls: seq<FieldDecl>)
    requires WellAttributed(decls) && Compiles(decls)
    ensures Schemas.Valid(Struct(Elaborate(decls)))
  {
    var fields := Elaborate(decls);
    forall k | 0 <= k < |fields|
      ensures ValidField(fields[k]) && ValidShape(fields, k)
    {
      assert fields[k] == ElaborateField(decls, decls[k]);
      assert decls[k] in decls && FieldWellAttributed(decls, k);
      if fields[k].shape.Counted? {
        var j :| 0 <= j < k && HasLength(decls[k], decls[j].name) && IsPlain(decls[j]);
        assert IndexOf(decls, decls[j].name, 0) == j;
        assert decls[j] in decls;
        assert fields[j] == ElaborateField(decls, decls[j]);
      }
    }
  }

  // What a field is to the codec, by its attributes: a plain field or a whole
  // array without one, and else an array whose counter is the field named.
  lemma {:induction false} ElaboratesTo(decls: seq<FieldDecl>, k: nat)
    requires WellAttributed(decls) && DistinctNames(decls) && k < |decls|
    ensures var d, f := decls[k], Elaborate(decls)[k];
            && f.elem == d.ty.elem
            && (d.ty.Plain? ==> d.attrs == [] && f.shape == One)
            && (d.ty.Array? && d.attrs == [] ==> f.shape == Fixed(d.ty.len))
            && (d.ty.Array? && d.attrs != [] ==>
                  && f.shape.Counted? && f.shape.max == d.ty.len
                  && f.shape.counter < k && HasLength(d, decls[f.shape.counter].name)
                  && IsPlain(decls[f.shape.counter]))
  {
    assert Elaborate(decls)[k] == ElaborateField(decls, decls[k]);
    assert FieldWellAttributed(decls, k);
    if decls[k].attrs != [] {
      var j :| 0 <= j < k && HasLength(decls[k], decls[j].name) && IsPlain(decls[j]);
      assert IndexOf(decls, decls[j].name, 0) == j;
    }
  }

  // The statements of an accepted struct, by the attributes: one for each field,
  // under its own name, and a loop up to the field named for an array with one.
  lemma {:induction false} EmittedFor(
    decls: seq<FieldDecl>, writers: seq<WriteStmt>, readers: seq<ReadStmt>, k: nat)
    requires WellAttributed(decls) && Emitted(decls, writers, readers) && k < |decls|
    ensures var d, w, r := decls[k], writers[k], readers[k];
            if d.ty.Plain? then w == WriteOne(d.name, d.ty.elem) && r == ReadOne(d.name, d.ty.elem)
            else if d.attrs == [] then
              && w == WriteLoop(d.name, d.ty.elem, Constant(d.ty.len))
              && r == ReadAll(d.name, d.ty.elem, d.ty.len)
            else
              exists length :: HasLength(d, length)
                && w == WriteLoop(d.name, d.ty.elem, LengthField(length))
                && r == ReadGuarded(d.name, d.ty.elem, d.ty.len, length)
  {
    assert EmittedAt(decls, writers[k], readers[k], k) && FieldWellAttributed(decls, k);
    if decls[k].attrs != [] {
      var j :| 0 <= j < k && HasLength(decls[k], decls[j].name) && IsPlain(decls[j]);
    }
  }

  // What a generator says of a field that it refuses, by the attributes. Only the
  // decoder side looks at the type.
  lemma {:induction false} Refusals(known: set<string>, d: FieldDecl)
    ensures |d.attrs| > 1 ==>
              MarshalStmt(known, d) == Bad(OnlyOneAttribute) && UnmarshalStmt(known, d) == Bad(OnlyOneAttribute)
    ensures |d.attrs| == 1 && d.attrs[0].key != "length" ==>
              MarshalStmt(known, d) == Bad(UnknownAttribute) && UnmarshalStmt(known, d) == Bad(UnknownAttribute)
    ensures |d.attrs| == 1 && d.attrs[0].key == "length" && d.attrs[0].ident.None? ==>
              MarshalStmt(known, d) == Bad(NotAnIdentifier) && UnmarshalStmt(known, d) == Bad(NotAnIdentifier)
    ensures forall name | HasLength(d, name) ::
              && MarshalStmt(known, d)
              == (if name !in known then Bad(LengthNotBefore)
                  else Good(WriteLoop(d.name, d.ty.elem, LengthField(name))))
              && UnmarshalStmt(known, d)
              == if d.ty.Plain? then Bad(NotAnArray)
                 else if name !in known then Bad(LengthNotBefore)
                 else Good(ReadGuarded(d.name, d.ty.elem, d.ty.len, name))
  {
  }

  // Running emitted code ends in a result or gets stuck on something that
  // rustc would have refused: an unknown name or a value of another type.
  datatype Run<+T> = Done(result: T) | Stuck

  // `self.name`.
  function SelfField(decls: seq<FieldDecl>, vals: seq<Value>, name: string): Run<Value> {
    var i := IndexOf(decls, name, 0);
    if i < |decls| && i < |vals| then Done(vals[i]) else Stuck
  }

  function RunWrite(stmt: WriteStmt, decls: seq<FieldDecl>, vals: seq<Value>): Run<seq<byte>> {
    var v := SelfField(decls, vals, stmt.name);
    if v.Stuck? then Stuck
    else
      match stmt
      case WriteOne(_, elem) => if Matches(elem, v.result) then Done(Encode(elem, v.result)) else Stuck
      case WriteLoop(_, elem, Constant(n)) => RunWriteLoop(elem, v.result, n)
      case WriteLoop(_, elem, LengthField(length)) =>
        var n := SelfField(decls, vals, length);
        if n.Done? && n.result.Int? then RunWriteLoop(elem, v.result, AsUsize(n.result.n)) else Stuck
  }

  // An index past the array, or an entry that cannot be encoded, panics.
  function RunWriteLoop(elem: Schema, v: Value, n: nat): Run<seq<byte>> {
    if v.List? && n <= |v.items| && forall i | 0 <= i < n :: MatchesElem(Field(elem, Fixed(n)), v.items[i])
    then Done(EncodeItems(Field(elem, Fixed(n)), v.items, n))
    else Stuck
  }

  function RunWrites(stmts: seq<WriteStmt>, decls: seq<FieldDecl>, vals: seq<Value>, k: nat): Run<seq<byte>>
    requires k <= |stmts|
  {
    if k == 0 then Done([])
    else
      match RunWrites(stmts, decls, vals, k - 1)
      case Stuck => Stuck
      case Done(code) =>
        match RunWrite(stmts[k - 1], decls, vals)
        case Stuck => Stuck
        case Done(more) => Done(code + more)
  }

  // The locals that the emitted decoder binds, by name.
  type Locals = map<string, Value>

  function RunRead(stmt: ReadStmt, locals: Locals, b: seq<byte>): Run<Parse<Value>> {
    match stmt
    case ReadOne(_, elem) => if Schemas.Valid(elem) then Done(Decode(elem, b)) else Stuck
    case ReadAll(_, elem, max) => RunReadLoop(elem, max, max, b)
    case ReadGuarded(_, elem, max, length) =>
      if length !in locals || !locals[length].Int? then Stuck
      else
        var n := AsUsize(locals[length].n);
        if n > max then Done(Failed(Error.Size)) else RunReadLoop(elem, max, n, b)
  }

  function RunReadLoop(elem: Schema, max: nat, n: nat, b: seq<byte>): Run<Parse<Value>>
    requires n <= max
  {
    if !Schemas.Valid(elem) then Stuck
    else
      var f := Field(elem, Fixed(max));
      match DecodeItems(f, b, n)
      case Failed(e) => Done(Failed(e))
      case Parsed(items, rest) => Done(Parsed(List(PadItems(f, items)), rest))
  }

  function RunReads(stmts: seq<ReadStmt>, b: seq<byte>, k: nat): Run<Parse<Locals>>
    requires k <= |stmts|
  {
    if k == 0 then Done(Parsed(map[], b))
    else
      match RunReads(stmts, b, k - 1)
      case Stuck => Stuck
      case Done(Failed(e)) => Done(Failed(e))
      case Done(Parsed(locals, rest)) =>
        match RunRead(stmts[k - 1], locals, rest)
        case Stuck => Stuck
        case Done(Failed(e)) => Done(Failed(e))
        case Done(Parsed(v, rest')) => Done(Parsed(locals[stmts[k - 1].name := v], rest'))
  }

  // The struct literal at the end of the emitted decoder.
  function Instantiate(decls: seq<FieldDecl>, r: Run<Parse<Locals>>): Run<Parse<seq<Value>>> {
    match r
    case Stuck => Stuck
    case Done(Failed(e)) => Done(Failed(e))
    case Done(Parsed(locals, rest)) =>
      if forall d | d in decls :: d.name in locals
      then Done(Parsed(seq(|decls|, i requires 0 <= i < |decls| => locals[decls[i].name]), rest))
      else Stuck
  }

  // The emitted encoder never gets stuck and writes what the codec specifies.
  lemma {:induction false} WritersMean(
    decls: seq<FieldDecl>, writers: seq<WriteStmt>, readers: seq<ReadStmt>, vals: seq<Value>, k: nat)
    requires Emitted(decls, writers, readers) && DistinctNames(decls)
    requires MatchesFields(Elaborate(decls), vals, |decls|) && MatchesFields(Elaborate(decls), vals, k)
    ensures RunWrites(writers, decls, vals, k) == Done(EncodeFields(Elaborate(decls), vals, k))
  {
    if k > 0 {
      WritersMean(decls, writers, readers, vals, k - 1);
      assert EmittedAt(decls, writers[k - 1], readers[k - 1], k - 1);
      assert MatchesField(Elaborate(decls)[k - 1], vals, k - 1);
      WriterMeans(decls, writers[k - 1], vals, k - 1);
    }
  }

  lemma {:induction false} WriterMeans(decls: seq<FieldDecl>, stmt: WriteStmt, vals: seq<Value>, k: nat)
    requires DistinctNames(decls)
    requires k < |decls| <= |vals| && MarshalStmt(Known(decls, k), decls[k]) == Good(stmt)
    requires MatchesField(Elaborate(decls)[k], vals, k)
    ensures RunWrite(stmt, decls, vals) == Done(EncodeField(Elaborate(decls)[k], vals, k))
  {
    var f := Elaborate(decls)[k];
    assert f == ElaborateField(decls, decls[k]);
    assert IndexOf(decls, decls[k].name, 0) == k;
    if f.shape.One? {
      assert MatchesElem(f, vals[k]);
    } else {
      var n := EntryCount(f.shape, vals);
      assert forall i | 0 <= i < n :: MatchesElem(f, vals[k].items[i]);
      SameElemWrites(f, Field(f.elem, Fixed(n)), vals[k].items, n);
    }
  }

  // The shape of a field does not matter to how its entries are encoded.
  lemma {:induction false} SameElemWrites(f: Field, g: Field, items: seq<Value>, n: nat)
    requires f.elem == g.elem && n <= |items|
    requires forall i | 0 <= i < n :: MatchesElem(f, items[i])
    ensures forall i | 0 <= i < n :: MatchesElem(g, items[i])
    ensures EncodeItems(f, items, n) == EncodeItems(g, items, n)
  {
    assert forall i | 0 <= i < n :: MatchesElem(f, items[i]) ==> MatchesElem(g, items[i]);
    if n > 0 {
      SameElemWrites(f, g, items, n - 1);
    }
  }

  // The locals of the emitted decoder are the decoded values under their names.
  ghost predicate Binds(decls: seq<FieldDecl>, locals: Locals, vals: seq<Value>, k: nat)
    requires k <= |decls|
  {
    |vals| == k && forall j | 0 <= j < k :: decls[j].name in locals && locals[decls[j].name] == vals[j]
  }

  lemma {:induction false} ReadersMean(
    decls: seq<FieldDecl>, writers: seq<WriteStmt>, readers: seq<ReadStmt>, b: seq<byte>, k: nat)
    requires Emitted(decls, writers, readers) && DistinctNames(decls)
    requires ValidFields(Elaborate(decls)) && k <= |decls|
    ensures ReadAlike(decls, RunReads(readers, b, k), DecodeFields(Elaborate(decls), b, k), k)
  {
    if k > 0 {
      ReadersMean(decls, writers, readers, b, k - 1);
      assert EmittedAt(decls, writers[k - 1], readers[k - 1], k - 1);
      OneReadMore(decls, readers, b, k - 1);
    }
  }

  // A run of the statements that goes like the decoding of the fields.
  ghost predicate ReadAlike(decls: seq<FieldDecl>, run: Run<Parse<Locals>>, decoded: Parse<seq<Value>>, k: nat)
    requires k <= |decls|
  {
    match decoded
    case Failed(e) => run == Done(Failed(e))
    case Parsed(vals, rest) =>
      run.Done? && run.result.Parsed? && run.result.rest == rest && Binds(decls, run.result.value, vals, k)
  }

  lemma {:induction false} OneReadMore(decls: seq<FieldDecl>, readers: seq<ReadStmt>, b: seq<byte>, k: nat)
    requires DistinctNames(decls) && ValidFields(Elaborate(decls)) && k < |decls| == |readers|
    requires UnmarshalStmt(Known(decls, k), decls[k]) == Good(readers[k])
    requires ReadAlike(decls, RunReads(readers, b, k), DecodeFields(Elaborate(decls), b, k), k)
    ensures ReadAlike(decls, RunReads(readers, b, k + 1), DecodeFields(Elaborate(decls), b, k + 1), k + 1)
  {
    var known := DecodeFields(Elaborate(decls), b, k);
    if known.Parsed? {
      ReaderStep(decls, readers[k], RunReads(readers, b, k).result.value, known.value, known.rest, k);
    }
  }

  // One more field read is one more field decoded, and its local is bound.
  lemma {:induction false} ReaderStep(
    decls: seq<FieldDecl>, stmt: ReadStmt, locals: Locals, vals: seq<Value>, b: seq<byte>, k: nat)
    requires DistinctNames(decls) && ValidFields(Elaborate(decls))
    requires k < |decls| && UnmarshalStmt(Known(decls, k), decls[k]) == Good(stmt)
    requires Binds(decls, locals, vals, k)
    requires forall j | 0 <= j < k :: IsCount(Elaborate(decls)[j]) ==> vals[j].Int?
    ensures ValidField(Elaborate(decls)[k]) && ValidShape(Elaborate(decls), k)
    ensures var r := DecodeField(Elaborate(decls)[k], vals, b);
            && RunRead(stmt, locals, b) == Done(r)
            && (r.Parsed? ==> Binds(decls, locals[stmt.name := r.value], vals + [r.value], k + 1))
  {
    var fields := Elaborate(decls);
    assert ValidField(fields[k]) && ValidShape(fields, k);
    ReaderMeans(decls, stmt, locals, vals, b, k);
    var r := DecodeField(fields[k], vals, b);
    if r.Parsed? {
      BindsNext(decls, locals, vals, k, r.value);
    }
  }

  lemma {:induction false} BindsNext(decls: seq<FieldDecl>, locals: Locals, vals: seq<Value>, k: nat, v: Value)
    requires DistinctNames(decls) && k < |decls| && Binds(decls, locals, vals, k)
    ensures Binds(decls, locals[decls[k].name := v], vals + [v], k + 1)
  {
  }

  lemma {:induction false} BoundStruct(decls: seq<FieldDecl>, locals: Locals, vals: seq<Value>, rest: seq<byte>)
    requires Binds(decls, locals, vals, |decls|)
    ensures Instantiate(decls, Done(Parsed(locals, rest))) == Done(Parsed(vals, rest))
  {
    forall d | d in decls
      ensures d.name in locals
    {
      var i :| 0 <= i < |decls| && decls[i] == d;
    }
    assert seq(|decls|, i requires 0 <= i < |decls| => locals[decls[i].name]) == vals;
  }

  lemma {:induction false} ReaderMeans(
    decls: seq<FieldDecl>, stmt: ReadStmt, locals: Locals, vals: seq<Value>, b: seq<byte>, k: nat)
    requires DistinctNames(decls)
    requires k < |decls| && UnmarshalStmt(Known(decls, k), decls[k]) == Good(stmt)
    requires ValidField(Elaborate(decls)[k]) && ValidShape(Elaborate(decls), k)
    requires Binds(decls, locals, vals, k)
    requires var shape := Elaborate(decls)[k].shape; shape.Counted? ==> vals[shape.counter].Int?
    ensures RunRead(stmt, locals, b) == Done(DecodeField(Elaborate(decls)[k], vals, b))
  {
    var f := Elaborate(decls)[k];
    assert f == ElaborateField(decls, decls[k]);
    if !f.shape.One? {
      SameElemReads(f, Field(f.elem, Fixed(ArrayLen(f.shape))), b, EntryCount(f.shape, vals));
    }
  }

  lemma {:induction false} SameElemReads(f: Field, g: Field, b: seq<byte>, n: nat)
    requires f.elem == g.elem && ValidField(f) && ValidField(g)
    ensures DecodeItems(f, b, n) == DecodeItems(g, b, n)
  {
    if n > 0 {
      SameElemReads(f, g, b, n - 1);
    }
  }

  // The derive preserves meaning: for every struct it accepts, running the
  // emitted encoder and decoder gives the codec of the elaborated schema.
  lemma {:induction false} DerivePreservesMeaning(
    decls: seq<FieldDecl>, writers: seq<WriteStmt>, readers: seq<ReadStmt>)
    requires WellAttributed(decls) && Compiles(decls) && Emitted(decls, writers, readers)
    ensures ValidFields(Elaborate(decls))
    ensures forall vals | |vals| == |decls| && Matches(Struct(Elaborate(decls)), Record(vals)) ::
              RunWrites(writers, decls, vals, |decls|) == Done(Encode(Struct(Elaborate(decls)), Record(vals)))
    ensures forall b ::
              Instantiate(decls, RunReads(readers, b, |decls|))
              == Done(DecodeFields(Elaborate(decls), b, |decls|))
  {
    ElaborationIsValid(decls);
    var s := Struct(Elaborate(decls));
    forall vals | |vals| == |decls| && Matches(s, Record(vals))
      ensures RunWrites(writers, decls, vals, |decls|) == Done(Encode(s, Record(vals)))
    {
      WritersMean(decls, writers, readers, vals, |decls|);
    }
    forall b
      ensures Instantiate(decls, RunReads(readers, b, |decls|))
           == Done(DecodeFields(Elaborate(decls), b, |decls|))
    {
      ReadersMean(decls, writers, readers, b, |decls|);
      var decoded := DecodeFields(Elaborate(decls), b, |decls|);
      if decoded.Parsed? {
        var run := RunReads(readers, b, |decls|).result;
        BoundStruct(decls, run.value, decoded.value, run.rest);
      }
    }
  }
}
