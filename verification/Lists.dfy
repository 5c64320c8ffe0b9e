// The TPML lists: a count and a fixed-capacity array that `new` and `add` fill.
module Lists {
  import opened ByteOrder
  import opened Schemas
  import opened Codec
  import opened CodecLaws
  import opened TpmTypes
  import opened Unmarshal
  import opened WireFormat

  function EntryField(elem: Schema, capacity: nat): Field {
    Field(elem, Counted(capacity, 0))
  }

  // The Rust value of a list that holds `elements`: the count, and an array
  // with defaults behind the elements.
  function ListValue(elem: Schema, capacity: nat, elements: seq<Value>): Value
    requires Valid(elem) && |elements| <= capacity
  {
    Record([Int(|elements|), List(PadItems(EntryField(elem, capacity), elements))])
  }

  class TpmList {
    const elem: Schema
    const capacity: nat
    var count: nat
    var entries: array<Value>

    ghost predicate Valid()
      reads this, entries
    {
      && Schemas.Valid(elem)
      && entries.Length == capacity
      && count <= capacity < 0x1_0000_0000
      && forall i | count <= i < capacity :: entries[i] == Default(elem)
    }

    // The elements accepted so far.
    ghost function Contents(): seq<Value>
      requires Valid()
      reads this, entries
    {
      entries[..count]
    }

    // The list as the marshaller sees it.
    function ToValue(): (v: Value)
      requires Valid()
      reads this, entries
      ensures v == ListValue(elem, capacity, Contents())
    {
      assert entries[..] == PadItems(EntryField(elem, capacity), entries[..count]);
      Record([Int(count), List(entries[..])])
    }

    // `default()`.
    constructor (elem: Schema, capacity: nat)
      requires Schemas.Valid(elem) && capacity < 0x1_0000_0000
      ensures Valid() && fresh(entries)
      ensures this.elem == elem && this.capacity == capacity
      ensures Contents() == []
    {
      this.elem := elem;
      this.capacity := capacity;
      this.count := 0;
      var zero := Default(elem);
      this.entries := new Value[capacity](_ => zero);
    }

    // `new(elements)`.
    static method New(elem: Schema, capacity: nat, elements: seq<Value>) returns (r: Fallible<TpmList>)
      requires Schemas.Valid(elem) && capacity < 0x1_0000_0000
      ensures |elements| > capacity ==> r == Err(Error.Size)
      ensures |elements| <= capacity ==>
                && r.Ok? && r.value.Valid() && fresh(r.value) && fresh(r.value.entries)
                && r.value.elem == elem && r.value.capacity == capacity
                && r.value.Contents() == elements
    {
      if |elements| > capacity {
        return Err(Error.Size);
      }
      var x := new TpmList(elem, capacity);
      x.count := |elements|;
      forall i | 0 <= i < |elements| {
        x.entries[i] := elements[i];
      }
      return Ok(x);
    }

    // Accepts an element while there is room and otherwise changes nothing.
    method Add(element: Value) returns (r: Fallible<()>)
      requires Valid()
      modifies this`count, entries
      ensures Valid()
      ensures r == if |old(Contents())| < capacity then Ok(()) else Err(Error.Size)
      ensures Contents() == if r.Ok? then old(Contents()) + [element] else old(Contents())
      ensures r.Err? ==> entries[..] == old(entries[..])
    {
      if count >= entries.Length {
        return Err(Error.Size);
      }
      entries[count] := element;
      count := count + 1;
      return Ok(());
    }
  }

  // A list of normal-form elements is itself in normal form.
  lemma {:induction false} ListIsNormal(elem: Schema, capacity: nat, elements: seq<Value>)
    requires Valid(elem) && |elements| <= capacity < 0x1_0000_0000
    requires forall e | e in elements :: Matches(elem, e) && Normalize(elem, e) == e
    ensures var s, v := Tpml(elem, capacity), ListValue(elem, capacity, elements);
            Valid(s) && Matches(s, v) && Normalize(s, v) == v
  {
    var s, v := Tpml(elem, capacity), ListValue(elem, capacity, elements);
    var f := EntryField(elem, capacity);
    assert s.fields == [Plain(U32), f];
    assert ValidField(f) && ValidField(Plain(U32)) && ValidShape(s.fields, 1);
    CountInRange(|elements|);
    assert MatchesElem(Plain(U32), v.vals[0]) && MatchesField(Plain(U32), v.vals, 0);
    EntriesNormal(elem, capacity, elements, v.vals);
    assert NormalizeFields(s.fields, v.vals, 1) == [v.vals[0]];
    assert NormalizeFields(s.fields, v.vals, 2) == v.vals;
  }

  lemma {:induction false} EntriesNormal(elem: Schema, capacity: nat, elements: seq<Value>, vals: seq<Value>)
    requires Valid(elem) && |elements| <= capacity < 0x1_0000_0000
    requires forall e | e in elements :: Matches(elem, e) && Normalize(elem, e) == e
    requires vals == ListValue(elem, capacity, elements).vals
    ensures var f := EntryField(elem, capacity); MatchesField(f, vals, 1) && NormalizeField(f, vals, 1) == vals[1]
  {
    var f := EntryField(elem, capacity);
    var items := PadItems(f, elements);
    CountInRange(|elements|);
    assert EntryCount(f.shape, vals) == |elements|;
    DefaultElemMatches(f);
    assert forall i | 0 <= i < |elements| :: items[i] in elements;
    assert forall i | 0 <= i < |items| :: MatchesElem(f, items[i]);
    NormalItems(f, items, |elements|);
    assert items[..|elements|] == elements;
  }

  lemma {:induction false} CountInRange(n: nat)
    requires n < 0x1_0000_0000
    ensures InRange(4, false, n) && AsUsize(n) == n
  {
    assert Pow256(4) == 0x1_0000_0000;
  }

  lemma {:induction false} NormalItems(f: Field, items: seq<Value>, n: nat)
    requires ValidField(f) && n <= |items|
    requires forall i | 0 <= i < n :: MatchesElem(f, items[i]) && NormalizeElem(f, items[i]) == items[i]
    ensures NormalizeItems(f, items, n) == items[..n]
  {
    if n > 0 {
      NormalItems(f, items, n - 1);
      assert items[..n] == items[..n - 1] + [items[n - 1]];
    }
  }

  // On the wire a list is its count followed by its elements, and it comes back
  // exactly as it was.
  lemma {:induction false} ListRoundTrip(elem: Schema, capacity: nat, elements: seq<Value>, tail: seq<byte>)
    requires Valid(elem) && |elements| <= capacity < 0x1_0000_0000
    requires forall e | e in elements :: Matches(elem, e) && Normalize(elem, e) == e
    ensures var s, v := Tpml(elem, capacity), ListValue(elem, capacity, elements);
            && Valid(s) && Matches(s, v)
            && Decode(s, Encode(s, v) + tail) == Parsed(v, tail)
  {
    ListIsNormal(elem, capacity, elements);
    RoundTrip(Tpml(elem, capacity), ListValue(elem, capacity, elements), tail);
  }

  lemma {:induction false} ListEncoding(elem: Schema, capacity: nat, elements: seq<Value>)
    requires Valid(elem) && |elements| <= capacity < 0x1_0000_0000
    requires forall e | e in elements :: Matches(elem, e) && Normalize(elem, e) == e
    ensures var s, v := Tpml(elem, capacity), ListValue(elem, capacity, elements);
            && Matches(s, v)
            && |elements| < Pow256(4)
            && (forall i | 0 <= i < |elements| :: MatchesElem(EntryField(elem, capacity), elements[i]))
            && Encode(s, v) == BeBytes(4, |elements|)
                               + EncodeItems(EntryField(elem, capacity), elements, |elements|)
  {
    ListIsNormal(elem, capacity, elements);
    var s, v := Tpml(elem, capacity), ListValue(elem, capacity, elements);
    var f, n := EntryField(elem, capacity), |elements|;
    CountInRange(n);
    assert Pow256(4) == 0x1_0000_0000;
    assert forall i | 0 <= i < n :: elements[i] in elements;
    var items := v.vals[1].items;
    assert items[..n] == elements;
    assert MatchesField(f, v.vals, 1);
    SameItemsSameCode(f, items, elements, n);
    assert EncodeField(f, v.vals, 1) == EncodeItems(f, items, n);
    assert EncodeFields(s.fields, v.vals, 1) == BeBytes(4, n);
  }

  lemma {:induction false} SameItemsSameCode(f: Field, items: seq<Value>, other: seq<Value>, n: nat)
    requires n <= |items| && n <= |other| && items[..n] == other[..n]
    requires forall i | 0 <= i < n :: MatchesElem(f, items[i])
    ensures forall i | 0 <= i < n :: MatchesElem(f, other[i])
    ensures EncodeItems(f, items, n) == EncodeItems(f, other, n)
  {
    assert forall i | 0 <= i < n :: items[i] == items[..n][i] == other[i];
    if n > 0 {
      assert items[..n - 1] == items[..n][..n - 1] && other[..n - 1] == other[..n][..n - 1];
      SameItemsSameCode(f, items, other, n - 1);
    }
  }

  // A count above the capacity is refused with Size, whatever follows it; one
  // within gives as many elements and defaults behind them.
  lemma {:induction false} CountDecides(elem: Schema, capacity: nat, b: seq<byte>)
    requires Valid(elem)
    ensures Valid(Tpml(elem, capacity))
    ensures var s, r := Tpml(elem, capacity), Decode(Tpml(elem, capacity), b);
            if |b| < 4 then r == Failed(Memory)
            else
              var count := FourBytes(b);
              if count > capacity then r == Failed(Error.Size)
              else r.Parsed? ==> IsList(elem, capacity, count, r.value)
  {
    var s := Tpml(elem, capacity);
    var f := EntryField(elem, capacity);
    assert s.fields == [Plain(U32), f];
    assert ValidField(f) && ValidField(Plain(U32)) && ValidShape(s.fields, 1);
    assert DecodeFields(s.fields, b, 0) == Parsed([], b);
    if |b| >= 4 {
      CountRead(b);
      var count := FourBytes(b);
      assert DecodeField(s.fields[0], [], b) == DecodeElem(Plain(U32), b) == Parsed(Int(count), b[4..]);
      var none: seq<Value> := [];
      assert none + [Int(count)] == [Int(count)];
      assert DecodeFields(s.fields, b, 1) == Parsed([Int(count)], b[4..]);
      ArrayFromWire(f, [Int(count)], b[4..], count);
    } else {
      assert DecodeElem(Plain(U32), b) == Failed(Memory);
      assert DecodeFields(s.fields, b, 1) == Failed(Memory);
    }
  }

  ghost predicate IsList(elem: Schema, capacity: nat, count: nat, v: Value)
    requires Valid(elem)
  {
    && v.Record? && |v.vals| == 2 && v.vals[0] == Int(count)
    && v.vals[1].List? && |v.vals[1].items| == capacity
    && forall i | count <= i < capacity :: v.vals[1].items[i] == Default(elem)
  }

  function FourBytes(b: seq<byte>): (n: nat)
    requires |b| >= 4
    ensures n < 0x1_0000_0000
  {
    0x1_0000 * TwoBytes(b) + TwoBytes(b[2..])
  }

  lemma {:induction false} CountRead(b: seq<byte>)
    requires |b| >= 4
    ensures Decode(U32, b) == Parsed(Int(FourBytes(b)), b[4..])
  {
    Widths();
    ShortValues(b[0], b[1], b[2], b[3]);
    assert b[..4] == [b[0], b[1], b[2], b[3]];
  }
}
