// The helpers that build one form of random generation from another.
module DrbgHelpers {
  import opened ByteOrder

  type u32 = x: int | 0 <= x < 0x1_0000_0000
  type u64 = x: int | 0 <= x < 0x1_0000_0000_0000_0000

  // One call of `next_u32` or `next_u64`: a number and the next state, or an
  // error, which may also leave the generator in another state.
  datatype Draw<S, T> = Drew(value: T, state: S) | Faulted(state: S)

  // A call of `fill_bytes`.
  datatype Fill<S> = Filled(bytes: seq<byte>, state: S) | FillFaulted(state: S)

  // The generator behind a `Drbg`: functions of its state and the additional input.
  datatype Model<!S> = Model(
    nextU32: (S, seq<byte>) -> Draw<S, u32>,
    nextU64: (S, seq<byte>) -> Draw<S, u64>)

  // `next_u64_via_u32`: the low word is drawn first.
  function U64ViaU32<S>(nextU32: (S, seq<byte>) -> Draw<S, u32>, s: S, additional: seq<byte>): Draw<S, u64> {
    match nextU32(s, additional)
    case Faulted(s1) => Faulted(s1)
    case Drew(x, s1) =>
      match nextU32(s1, [])
      case Faulted(s2) => Faulted(s2)
      case Drew(y, s2) => Drew(y * 0x1_0000_0000 + x, s2)
  }

  // `next_u32_via_fill` and `next_u64_via_fill`.
  function U32ViaFill<S>(fill: (S, seq<byte>, nat) -> Fill<S>, s: S, additional: seq<byte>): Draw<S, u32>
    requires FillsExactly(fill, s, additional, 4)
  {
    match fill(s, additional, 4)
    case FillFaulted(s1) => Faulted(s1)
    case Filled(bytes, s1) => Drew(U32OfBytes(bytes), s1)
  }

  function U64ViaFill<S>(fill: (S, seq<byte>, nat) -> Fill<S>, s: S, additional: seq<byte>): Draw<S, u64>
    requires FillsExactly(fill, s, additional, 8)
  {
    match fill(s, additional, 8)
    case FillFaulted(s1) => Faulted(s1)
    case Filled(bytes, s1) => Drew(U64OfBytes(bytes), s1)
  }

  predicate FillsExactly<S>(fill: (S, seq<byte>, nat) -> Fill<S>, s: S, additional: seq<byte>, n: nat) {
    fill(s, additional, n).Filled? ==> |fill(s, additional, n).bytes| == n
  }

  // A u64 is two words in a row.
  ghost predicate TwoWords<S(!new)>(m: Model<S>) {
    forall s, additional :: m.nextU64(s, additional) == U64ViaU32(m.nextU32, s, additional)
  }

  // ---- Little-endian words ----

  lemma {:induction false} Powers()
    ensures Pow256(4) == 0x1_0000_0000
    ensures Pow256(8) == 0x1_0000_0000_0000_0000
  {
    assert Pow256(4) == 0x1_0000_0000;
  }

  function U32Bytes(x: u32): (b: seq<byte>)
    ensures |b| == 4 && LeValue(b) == x
  {
    Powers();
    LeBytes(4, x)
  }

  function U64Bytes(x: u64): (b: seq<byte>)
    ensures |b| == 8 && LeValue(b) == x
  {
    Powers();
    LeBytes(8, x)
  }

  function U32OfBytes(b: seq<byte>): (x: u32)
    requires |b| == 4
    ensures U32Bytes(x) == b
  {
    Powers();
    LeBytesOfValue(b);
    LeValue(b)
  }

  function U64OfBytes(b: seq<byte>): (x: u64)
    requires |b| == 8
    ensures U64Bytes(x) == b
  {
    Powers();
    LeBytesOfValue(b);
    LeValue(b)
  }

  lemma {:induction false} LeValueOfConcat(a: seq<byte>, b: seq<byte>)
    ensures LeValue(a + b) == LeValue(a) + Pow256(|a|) * LeValue(b)
  {
    if a == [] {
      assert a + b == b;
    } else {
      LeValueOfConcat(a[1..], b);
      assert (a + b)[1..] == a[1..] + b;
      Distribute(LeValue(a[1..]), Pow256(|a| - 1), LeValue(b));
    }
  }

  lemma {:induction false} Distribute(x: nat, p: nat, v: nat)
    ensures 256 * (x + p * v) == 256 * x + (256 * p) * v
  {
  }

  lemma {:induction false} SameLeValue(a: seq<byte>, b: seq<byte>)
    requires |a| == |b| && LeValue(a) == LeValue(b)
    ensures a == b
  {
    LeBytesOfValue(a);
    LeBytesOfValue(b);
  }

  lemma {:induction false} U64IsTwoWords(x: u32, y: u32)
    ensures U64Bytes(y * 0x1_0000_0000 + x) == U32Bytes(x) + U32Bytes(y)
  {
    var both := U32Bytes(x) + U32Bytes(y);
    TwoWordsValue(U32Bytes(x), U32Bytes(y));
    SameLeValue(U64Bytes(y * 0x1_0000_0000 + x), both);
  }

  lemma {:induction false} TwoWordsValue(low: seq<byte>, high: seq<byte>)
    requires |low| == 4
    ensures LeValue(low + high) == LeValue(high) * 0x1_0000_0000 + LeValue(low)
  {
    LeValueOfConcat(low, high);
    Powers();
  }

  // ---- The little-endian word stream ----

  // The bytes of the next `k` words; the first one gets the additional input.
  function Words<S>(nextU32: (S, seq<byte>) -> Draw<S, u32>, s: S, additional: seq<byte>, k: nat): (r: Fill<S>)
    ensures r.Filled? ==> |r.bytes| == 4 * k
  {
    if k == 0 then Filled([], s)
    else OneMore(nextU32, Words(nextU32, s, additional, k - 1), if k == 1 then additional else [])
  }

  function OneMore<S>(nextU32: (S, seq<byte>) -> Draw<S, u32>, sofar: Fill<S>, additional: seq<byte>): (r: Fill<S>)
    ensures r.Filled? ==> sofar.Filled? && |r.bytes| == |sofar.bytes| + 4
  {
    if sofar.FillFaulted? then sofar
    else
      match nextU32(sofar.state, additional)
      case Faulted(s') => FillFaulted(s')
      case Drew(x, s') => Filled(sofar.bytes + U32Bytes(x), s')
  }

  // The same for one u64.
  function TwoMore<S>(nextU64: (S, seq<byte>) -> Draw<S, u64>, sofar: Fill<S>, additional: seq<byte>): (r: Fill<S>)
    ensures r.Filled? ==> sofar.Filled? && |r.bytes| == |sofar.bytes| + 8
  {
    if sofar.FillFaulted? then sofar
    else
      match nextU64(sofar.state, additional)
      case Faulted(s') => FillFaulted(s')
      case Drew(x, s') => Filled(sofar.bytes + U64Bytes(x), s')
  }

  function WordCount(n: nat): nat {
    (n + 3) / 4
  }

  // What filling `n` bytes comes to: the front of as many words as it takes.
  function FillSpec<S>(nextU32: (S, seq<byte>) -> Draw<S, u32>, s: S, additional: seq<byte>, n: nat): (r: Fill<S>)
    ensures r.Filled? ==> |r.bytes| == n
  {
    match Words(nextU32, s, additional, WordCount(n))
    case FillFaulted(s') => FillFaulted(s')
    case Filled(bytes, s') => Filled(bytes[..n], s')
  }

  // ---- Filling a slice ----

  // The bytes of the next `k` u64 chunks; the first one gets the additional input.
  function Chunks<S>(nextU64: (S, seq<byte>) -> Draw<S, u64>, s: S, additional: seq<byte>, k: nat): (r: Fill<S>)
    ensures r.Filled? ==> |r.bytes| == 8 * k
  {
    if k == 0 then Filled([], s)
    else TwoMore(nextU64, Chunks(nextU64, s, additional, k - 1), if k == 1 then additional else [])
  }

  // Less than eight bytes more: a u64 for more than four of them, else a u32.
  function Tail<S>(m: Model<S>, sofar: Fill<S>, additional: seq<byte>, n: nat): (r: Fill<S>)
    requires n < 8
    ensures r.Filled? ==> sofar.Filled? && |r.bytes| == |sofar.bytes| + n
  {
    if sofar.FillFaulted? || n == 0 then sofar
    else
      match if n > 4 then TwoMore(m.nextU64, sofar, additional) else OneMore(m.nextU32, sofar, additional)
      case FillFaulted(s') => FillFaulted(s')
      case Filled(bytes, s') => Filled(bytes[..|sofar.bytes| + n], s')
  }

  // What filling `n` bytes comes to, for any generator.
  function ChunkedFill<S>(m: Model<S>, s: S, additional: seq<byte>, n: nat): (r: Fill<S>)
    ensures r.Filled? ==> |r.bytes| == n
  {
    Tail(m, Chunks(m.nextU64, s, additional, n / 8), if n < 8 then additional else [], n % 8)
  }

  lemma {:induction false} ChunkFaultLasts<S>(
    nextU64: (S, seq<byte>) -> Draw<S, u64>, s: S, additional: seq<byte>, j: nat, k: nat)
    requires j <= k && Chunks(nextU64, s, additional, j).FillFaulted?
    ensures Chunks(nextU64, s, additional, k) == Chunks(nextU64, s, additional, j)
  {
    if j < k {
      ChunkFaultLasts(nextU64, s, additional, j, k - 1);
    }
  }

  // One chunk of eight bytes, for a slice of `n` bytes.
  lemma {:induction false} ChunkStep<S>(
    m: Model<S>, s0: S, additional: seq<byte>, k: nat, sofar: seq<byte>, s: S, r: Draw<S, u64>, n: nat)
    requires 8 * k + 8 <= n
    requires Chunks(m.nextU64, s0, additional, k) == Filled(sofar, s)
    requires r == m.nextU64(s, if k == 0 then additional else [])
    ensures r.Faulted? ==> ChunkedFill(m, s0, additional, n) == FillFaulted(r.state)
    ensures r.Drew? ==> Chunks(m.nextU64, s0, additional, k + 1) == Filled(sofar + U64Bytes(r.value), r.state)
  {
    if r.Faulted? {
      ChunkFaultLasts(m.nextU64, s0, additional, k + 1, n / 8);
    }
  }

  // ---- Filling, draw by draw ----

  // Byte `i` of the output is byte `i % 8` of draw `i / 8`, low byte first.
  ghost predicate DigitsOf(bytes: seq<byte>, values: seq<u64>) {
    |bytes| <= 8 * |values| && forall i | 0 <= i < |bytes| :: bytes[i] == Digit(values, i)
  }

  function Digit(values: seq<u64>, i: nat): int
    requires i < 8 * |values|
  {
    values[i / 8] / Pow256(i % 8) % 256
  }

  // What the draw at `i` is given.
  function ExtraFor(additional: seq<byte>, i: nat): seq<byte> {
    if i == 0 then additional else []
  }

  ghost predicate DrawsInRow<S>(
    nextU64: (S, seq<byte>) -> Draw<S, u64>, s: S, additional: seq<byte>, states: seq<S>, values: seq<u64>)
  {
    && |states| == |values| + 1 && states[0] == s
    && forall i | 0 <= i < |values| ::
         nextU64(states[i], ExtraFor(additional, i)) == Drew(values[i], states[i + 1])
  }

  lemma {:induction false} ChunksByDraws<S>(
    nextU64: (S, seq<byte>) -> Draw<S, u64>, s: S, additional: seq<byte>, k: nat)
    returns (states: seq<S>, values: seq<u64>)
    ensures DrawsInRow(nextU64, s, additional, states, values) && |values| <= k
    ensures match Chunks(nextU64, s, additional, k)
            case Filled(bytes, s') =>
              |values| == k && |bytes| == 8 * k && s' == states[k] && DigitsOf(bytes, values)
            case FillFaulted(s') =>
              |values| < k && nextU64(states[|values|], ExtraFor(additional, |values|)) == Faulted(s')
  {
    if k == 0 {
      return [s], [];
    }
    states, values := ChunksByDraws(nextU64, s, additional, k - 1);
    match Chunks(nextU64, s, additional, k - 1)
    case FillFaulted(_) =>
    case Filled(bytes, s') =>
      assert ExtraFor(additional, k - 1) == if k == 1 then additional else [];
      match nextU64(s', ExtraFor(additional, k - 1))
      case Faulted(_) =>
      case Drew(x, s'') =>
        EightMore(bytes, values, x);
        OneDrawMore(nextU64, s, additional, states, values, x, s'');
        states, values := states + [s''], values + [x];
  }

  lemma {:induction false} EightMore(bytes: seq<byte>, values: seq<u64>, x: u64)
    requires |bytes| == 8 * |values| && DigitsOf(bytes, values)
    ensures DigitsOf(bytes + U64Bytes(x), values + [x])
  {
    DigitsMore(bytes, values, x, U64Bytes(x), 8);
    assert (bytes + U64Bytes(x))[..|bytes| + 8] == bytes + U64Bytes(x);
  }

  lemma {:induction false} OneDrawMore<S>(
    nextU64: (S, seq<byte>) -> Draw<S, u64>, s: S, additional: seq<byte>, states: seq<S>, values: seq<u64>, x: u64,
    s': S)
    requires DrawsInRow(nextU64, s, additional, states, values)
    requires nextU64(states[|values|], ExtraFor(additional, |values|)) == Drew(x, s')
    ensures DrawsInRow(nextU64, s, additional, states + [s'], values + [x])
  {
  }

  // The first `n` bytes of one more draw.
  lemma {:induction false} DigitsMore(bytes: seq<byte>, values: seq<u64>, x: u64, code: seq<byte>, n: nat)
    requires |bytes| == 8 * |values| && DigitsOf(bytes, values) && n <= |code| <= 8
    requires x < Pow256(|code|) && code == LeBytes(|code|, x)
    ensures DigitsOf((bytes + code)[..|bytes| + n], values + [x])
  {
    var all := (bytes + code)[..|bytes| + n];
    forall i | 0 <= i < |all|
      ensures all[i] == Digit(values + [x], i)
    {
      if i < |bytes| {
        assert all[i] == bytes[i] == Digit(values, i);
      } else {
        var j := i - |bytes|;
        assert i / 8 == |values| && i % 8 == j;
        LeBytesAt(|code|, x, j);
      }
    }
  }

  // The draws of a fill of `n` bytes: u64s, and for a rest of at most four bytes a
  // u32; only the first one is given the additional input.
  lemma {:induction false} FillByDraws<S>(m: Model<S>, s: S, additional: seq<byte>, n: nat)
    returns (states: seq<S>, values: seq<u64>)
    ensures DrawsInRow(m.nextU64, s, additional, states, values) && |values| <= n / 8
    ensures FilledByDraws(m, additional, n, states, values, ChunkedFill(m, s, additional, n))
  {
    states, values := ChunksByDraws(m.nextU64, s, additional, n / 8);
    assert ExtraFor(additional, n / 8) == if n < 8 then additional else [];
    match Chunks(m.nextU64, s, additional, n / 8)
    case FillFaulted(_) =>
    case Filled(bytes, _) => TailByDraws(m, additional, n, states, values, bytes);
  }

  lemma {:induction false} TailByDraws<S>(
    m: Model<S>, additional: seq<byte>, n: nat, states: seq<S>, values: seq<u64>, bytes: seq<byte>)
    requires |states| == |values| + 1 && |values| == n / 8 && |bytes| == 8 * |values| && DigitsOf(bytes, values)
    ensures var sofar := Filled(bytes, states[n / 8]);
            FilledByDraws(m, additional, n, states, values, Tail(m, sofar, ExtraFor(additional, n / 8), n % 8))
  {
    var last, extra := states[n / 8], ExtraFor(additional, n / 8);
    if n % 8 > 4 {
      var r := m.nextU64(last, extra);
      if r.Drew? {
        DigitsMore(bytes, values, r.value, U64Bytes(r.value), n % 8);
      }
    } else if n % 8 > 0 {
      var r := m.nextU32(last, extra);
      if r.Drew? {
        Powers();
        DigitsMore(bytes, values, r.value, U32Bytes(r.value), n % 8);
      }
    }
  }

  ghost predicate FilledByDraws<S>(
    m: Model<S>, additional: seq<byte>, n: nat, states: seq<S>, values: seq<u64>, r: Fill<S>)
    requires |states| == |values| + 1 && |values| <= n / 8
  {
    var k, last := |values|, states[|values|];
    var extra := ExtraFor(additional, k);
    if k < n / 8 then m.nextU64(last, extra).Faulted? && r == FillFaulted(m.nextU64(last, extra).state)
    else if n % 8 == 0 then r.Filled? && r.state == last && |r.bytes| == n && DigitsOf(r.bytes, values)
    else if n % 8 > 4 then
      match m.nextU64(last, extra)
      case Faulted(s') => r == FillFaulted(s')
      case Drew(x, s') => r.Filled? && r.state == s' && |r.bytes| == n && DigitsOf(r.bytes, values + [x])
    else
      match m.nextU32(last, extra)
      case Faulted(s') => r == FillFaulted(s')
      case Drew(x, s') => r.Filled? && r.state == s' && |r.bytes| == n && DigitsOf(r.bytes, values + [x])
  }

  class Generator<S(!new)> {
    var state: S
    const model: Model<S>

    constructor (model: Model<S>, state: S)
      ensures this.model == model && this.state == state
    {
      this.model := model;
      this.state := state;
    }

    method NextU32(additional: seq<byte>) returns (r: Draw<S, u32>)
      modifies this
      ensures r == model.nextU32(old(state), additional) && state == r.state
    {
      r := model.nextU32(state, additional);
      state := r.state;
    }

    method NextU64(additional: seq<byte>) returns (r: Draw<S, u64>)
      modifies this
      ensures r == model.nextU64(old(state), additional) && state == r.state
    {
      r := model.nextU64(state, additional);
      state := r.state;
    }

    ghost predicate FilledBy(r: Fill<S>, ok: bool, dest: array<byte>)
      reads this, dest
    {
      ok == r.Filled? && state == r.state && (ok ==> dest[..] == r.bytes)
    }

    // `fill_bytes_via_next`, chunk by chunk; `from` is where the shrinking slice
    // of the source begins. ChunkedIsWords says what this is when a u64 is made
    // of two words.
    method FillBytesViaNext(additionalInput: seq<byte>, dest: array<byte>) returns (ok: bool)
      modifies this, dest
      ensures FilledBy(ChunkedFill(model, old(state), additionalInput, dest.Length), ok, dest)
    {
      ghost var s0 := state;
      ghost var k: nat := 0;
      var additional := additionalInput;
      var from := 0;
      while dest.Length - from >= 8
        invariant 0 <= from == 8 * k <= dest.Length
        invariant additional == if k == 0 then additionalInput else []
        invariant Chunks(model.nextU64, s0, additionalInput, k) == Filled(dest[..from], state)
      {
        ghost var sofar, s := dest[..from], state;
        ChunkStep(model, s0, additionalInput, k, sofar, s, model.nextU64(s, additional), dest.Length);
        ok := NextChunk(additional, dest, from);
        if !ok {
          return false;
        }
        additional := [];
        from := from + 8;
        k := k + 1;
      }
      assert dest.Length / 8 == k && dest.Length % 8 == dest.Length - from;
      ok := FillTail(additional, dest, from);
    }

    // One chunk of eight bytes.
    method NextChunk(additional: seq<byte>, dest: array<byte>, from: nat) returns (ok: bool)
      requires from + 8 <= dest.Length
      modifies this, dest
      ensures var r := model.nextU64(old(state), additional);
              && state == r.state && ok == r.Drew?
              && (ok ==> dest[..from + 8] == old(dest[..from]) + U64Bytes(r.value))
    {
      var r := NextU64(additional);
      if r.Faulted? {
        return false;
      }
      CopyInto(dest, from, U64Bytes(r.value), 8);
      assert U64Bytes(r.value)[..8] == U64Bytes(r.value);
      return true;
    }

    // The last, partial chunk.
    method FillTail(additional: seq<byte>, dest: array<byte>, from: nat) returns (ok: bool)
      requires from <= dest.Length < from + 8
      modifies this, dest
      ensures FilledBy(Tail(model, Filled(old(dest[..from]), old(state)), additional, dest.Length - from), ok, dest)
    {
      var n := dest.Length - from;
      if n > 4 {
        var r := NextU64(additional);
        if r.Faulted? {
          return false;
        }
        Finish(dest, from, U64Bytes(r.value));
      } else if n > 0 {
        var r := NextU32(additional);
        if r.Faulted? {
          return false;
        }
        Finish(dest, from, U32Bytes(r.value));
      } else {
        assert dest[..] == dest[..from];
      }
      return true;
    }
  }

  // The front of a chunk completes the slice.
  method Finish(dest: array<byte>, from: nat, chunk: seq<byte>)
    requires from <= dest.Length <= from + |chunk|
    modifies dest
    ensures dest[..] == (old(dest[..from]) + chunk)[..dest.Length]
  {
    CopyInto(dest, from, chunk, dest.Length - from);
    assert dest[..] == dest[..dest.Length];
  }

  // `dest.copy_from_slice(&chunk[..n])` at the front of the remaining slice.
  method CopyInto(dest: array<byte>, from: nat, chunk: seq<byte>, n: nat)
    requires n <= |chunk| && from + n <= dest.Length
    modifies dest
    ensures dest[..from + n] == old(dest[..from]) + chunk[..n]
  {
    forall i | 0 <= i < n {
      dest[from + i] := chunk[i];
    }
  }

  lemma {:induction false} U64IsTwoSteps<S(!new)>(m: Model<S>, sofar: Fill<S>, additional: seq<byte>)
    requires TwoWords(m)
    ensures TwoMore(m.nextU64, sofar, additional)
         == OneMore(m.nextU32, OneMore(m.nextU32, sofar, additional), [])
  {
    if sofar.Filled? {
      assert m.nextU64(sofar.state, additional) == U64ViaU32(m.nextU32, sofar.state, additional);
      var first := m.nextU32(sofar.state, additional);
      if first.Drew? {
        var second := m.nextU32(first.state, []);
        if second.Drew? {
          U64IsTwoWords(first.value, second.value);
          assert sofar.bytes + U32Bytes(first.value) + U32Bytes(second.value)
              == sofar.bytes + (U32Bytes(first.value) + U32Bytes(second.value));
        }
      }
    }
  }

  lemma {:induction false} TwoMoreWords<S(!new)>(m: Model<S>, s: S, additional: seq<byte>, k: nat)
    requires TwoWords(m)
    ensures Words(m.nextU32, s, additional, k + 2)
         == TwoMore(m.nextU64, Words(m.nextU32, s, additional, k), if k == 0 then additional else [])
  {
    var sofar := Words(m.nextU32, s, additional, k);
    var extra := if k == 0 then additional else [];
    U64IsTwoSteps(m, sofar, extra);
    assert Words(m.nextU32, s, additional, k + 1) == OneMore(m.nextU32, sofar, extra);
  }

  lemma {:induction false} FaultLasts<S>(
    nextU32: (S, seq<byte>) -> Draw<S, u32>, s: S, additional: seq<byte>, j: nat, k: nat)
    requires j <= k && Words(nextU32, s, additional, j).FillFaulted?
    ensures Words(nextU32, s, additional, k) == Words(nextU32, s, additional, j)
  {
    if j < k {
      FaultLasts(nextU32, s, additional, j, k - 1);
    }
  }

  // ---- Chunks as words ----

  lemma {:induction false} ChunksAreWords<S(!new)>(m: Model<S>, s: S, additional: seq<byte>, k: nat)
    requires TwoWords(m)
    ensures Chunks(m.nextU64, s, additional, k) == Words(m.nextU32, s, additional, 2 * k)
  {
    if k > 0 {
      ChunksAreWords(m, s, additional, k - 1);
      ChunkIsTwoWords(m, s, additional, k - 1, 2 * k - 2);
    }
  }

  lemma {:induction false} ChunkIsTwoWords<S(!new)>(m: Model<S>, s: S, additional: seq<byte>, k: nat, j: nat)
    requires TwoWords(m) && j == 2 * k
    requires Chunks(m.nextU64, s, additional, k) == Words(m.nextU32, s, additional, j)
    ensures Chunks(m.nextU64, s, additional, k + 1) == Words(m.nextU32, s, additional, j + 2)
  {
    TwoMoreWords(m, s, additional, j);
  }

  // If a u64 is two words, the slice gets the front of the word stream and no
  // word more is drawn than it takes.
  lemma {:induction false} ChunkedIsWords<S(!new)>(m: Model<S>, s: S, additional: seq<byte>, n: nat)
    requires TwoWords(m)
    ensures ChunkedFill(m, s, additional, n) == FillSpec(m.nextU32, s, additional, n)
  {
    var k := n / 8;
    ChunksAreWords(m, s, additional, k);
    if Words(m.nextU32, s, additional, 2 * k).FillFaulted? {
      FaultLasts(m.nextU32, s, additional, 2 * k, WordCount(n));
    } else {
      TailIsWords(m, s, additional, n, Words(m.nextU32, s, additional, 2 * k));
    }
  }

  // Behind whole chunks the tail is the front of two more words, of one or of none.
  lemma {:induction false} TailIsWords<S(!new)>(m: Model<S>, s: S, additional: seq<byte>, n: nat, sofar: Fill<S>)
    requires TwoWords(m) && sofar == Words(m.nextU32, s, additional, 2 * (n / 8)) && sofar.Filled?
    ensures Tail(m, sofar, if n < 8 then additional else [], n % 8) == FillSpec(m.nextU32, s, additional, n)
  {
    var words := 2 * (n / 8);
    if n % 8 == 0 {
      assert WordCount(n) == words && sofar.bytes[..n] == sofar.bytes;
    } else if n % 8 > 4 {
      assert WordCount(n) == words + 2;
      TwoMoreWords(m, s, additional, words);
    } else {
      assert WordCount(n) == words + 1;
      assert Words(m.nextU32, s, additional, words + 1)
          == OneMore(m.nextU32, sofar, if words == 0 then additional else []);
    }
  }

  // ---- What the word stream gives ----

  function Then<S>(first: Fill<S>, second: Fill<S>): (r: Fill<S>)
    requires first.Filled?
    ensures r.state == second.state
  {
    match second
    case FillFaulted(s') => second
    case Filled(bytes, s') => Filled(first.bytes + bytes, s')
  }

  // One more word behind two parts is one more word behind the second.
  lemma {:induction false} MoreThen<S>(nextU32: (S, seq<byte>) -> Draw<S, u32>, first: Fill<S>, mid: Fill<S>)
    requires first.Filled?
    ensures OneMore(nextU32, Then(first, mid), []) == Then(first, OneMore(nextU32, mid, []))
  {
    if mid.Filled? {
      var next := nextU32(mid.state, []);
      if next.Drew? {
        assert first.bytes + (mid.bytes + U32Bytes(next.value)) == first.bytes + mid.bytes + U32Bytes(next.value);
      }
    }
  }

  lemma {:induction false} WordsSplit<S>(
    nextU32: (S, seq<byte>) -> Draw<S, u32>, s: S, additional: seq<byte>, a: nat, k: nat)
    requires a > 0
    ensures var first := Words(nextU32, s, additional, a);
            Words(nextU32, s, additional, a + k)
            == if first.FillFaulted? then first else Then(first, Words(nextU32, first.state, [], k))
  {
    var first := Words(nextU32, s, additional, a);
    if k > 0 {
      WordsSplit(nextU32, s, additional, a, k - 1);
      if first.Filled? {
        var mid := Words(nextU32, first.state, [], k - 1);
        assert Words(nextU32, first.state, [], k) == OneMore(nextU32, mid, []);
        assert Words(nextU32, s, additional, a + k) == OneMore(nextU32, Words(nextU32, s, additional, a + k - 1), []);
        MoreThen(nextU32, first, mid);
      }
    } else if first.Filled? {
      assert first.bytes + [] == first.bytes;
    }
  }

  // Filling a multiple of four bytes and then some more is filling them at once.
  lemma {:induction false} FillInTwoParts<S>(
    nextU32: (S, seq<byte>) -> Draw<S, u32>, s: S, additional: seq<byte>, a: nat, n: nat)
    requires a > 0
    ensures var first := FillSpec(nextU32, s, additional, 4 * a);
            FillSpec(nextU32, s, additional, 4 * a + n)
            == if first.FillFaulted? then first else Then(first, FillSpec(nextU32, first.state, [], n))
  {
    WordsSplit(nextU32, s, additional, a, WordCount(n));
    assert WordCount(4 * a) == a && WordCount(4 * a + n) == a + WordCount(n);
    var first := Words(nextU32, s, additional, a);
    if first.Filled? {
      assert first.bytes[..4 * a] == first.bytes;
      var second := Words(nextU32, first.state, [], WordCount(n));
      if second.Filled? {
        assert (first.bytes + second.bytes)[..4 * a + n] == first.bytes + second.bytes[..n];
      }
    }
  }

  // A generator that serves one stream of bytes, however it is cut up: a request
  // takes the additional input at its first byte, and faults where a part of it
  // does.
  ghost predicate ByteStream<S(!new)>(fill: (S, seq<byte>, nat) -> Fill<S>) {
    && (forall s, additional, n: nat :: FillsExactly(fill, s, additional, n))
    && (forall s, additional, n: nat, m: nat | n > 0 && m > 0 :: Continues(fill, s, additional, n, m))
  }

  ghost predicate Continues<S>(fill: (S, seq<byte>, nat) -> Fill<S>, s: S, additional: seq<byte>, n: nat, m: nat) {
    fill(s, additional, n + m) == Onwards(fill, fill(s, additional, n), [], m)
  }

  // `m` bytes more, unless there was a fault.
  function Onwards<S>(fill: (S, seq<byte>, nat) -> Fill<S>, sofar: Fill<S>, additional: seq<byte>, m: nat): Fill<S> {
    if sofar.FillFaulted? then sofar else Then(sofar, fill(sofar.state, additional, m))
  }

  // The model of a Drbg that implements only `fill_bytes`.
  ghost predicate ViaFill<S(!new)>(m: Model<S>, fill: (S, seq<byte>, nat) -> Fill<S>) {
    && (forall s, additional ::
          FillsExactly(fill, s, additional, 4) && m.nextU32(s, additional) == U32ViaFill(fill, s, additional))
    && (forall s, additional ::
          FillsExactly(fill, s, additional, 8) && m.nextU64(s, additional) == U64ViaFill(fill, s, additional))
  }

  // A word is four bytes of the stream.
  lemma {:induction false} WordOfStream<S(!new)>(
    m: Model<S>, fill: (S, seq<byte>, nat) -> Fill<S>, sofar: Fill<S>, additional: seq<byte>)
    requires ByteStream(fill) && ViaFill(m, fill)
    ensures OneMore(m.nextU32, sofar, additional) == Onwards(fill, sofar, additional, 4)
  {
    if sofar.Filled? {
      assert FillsExactly(fill, sofar.state, additional, 4);
      assert m.nextU32(sofar.state, additional) == U32ViaFill(fill, sofar.state, additional);
    }
  }

  lemma {:induction false} StreamHasTwoWords<S(!new)>(m: Model<S>, fill: (S, seq<byte>, nat) -> Fill<S>)
    requires ByteStream(fill) && ViaFill(m, fill)
    ensures TwoWords(m)
  {
    forall s, additional
      ensures m.nextU64(s, additional) == U64ViaU32(m.nextU32, s, additional)
    {
      StreamU64(m, fill, s, additional);
    }
  }

  lemma {:induction false} StreamU64<S(!new)>(
    m: Model<S>, fill: (S, seq<byte>, nat) -> Fill<S>, s: S, additional: seq<byte>)
    requires ByteStream(fill) && ViaFill(m, fill)
    ensures m.nextU64(s, additional) == U64ViaU32(m.nextU32, s, additional)
  {
    var first := fill(s, additional, 4);
    assert Continues(fill, s, additional, 4, 4) && FillsExactly(fill, s, additional, 4);
    assert m.nextU64(s, additional) == U64ViaFill(fill, s, additional);
    assert m.nextU32(s, additional) == U32ViaFill(fill, s, additional);
    if first.Filled? {
      var second := fill(first.state, [], 4);
      assert FillsExactly(fill, first.state, [], 4);
      assert m.nextU32(first.state, []) == U32ViaFill(fill, first.state, []);
      if second.Filled? {
        U64OfTwoWords(first.bytes, second.bytes);
      }
    }
  }

  lemma {:induction false} U64OfTwoWords(low: seq<byte>, high: seq<byte>)
    requires |low| == |high| == 4
    ensures U64OfBytes(low + high) == U32OfBytes(high) * 0x1_0000_0000 + U32OfBytes(low)
  {
    var x: int, y: int := U32OfBytes(low), U32OfBytes(high);
    var both: u64 := y * 0x1_0000_0000 + x;
    U64IsTwoWords(x, y);
    SameU64(U64OfBytes(low + high), both);
  }

  lemma {:induction false} SameU64(x: u64, y: u64)
    requires U64Bytes(x) == U64Bytes(y)
    ensures x == y
  {
    assert LeValue(U64Bytes(x)) == LeValue(U64Bytes(y));
  }

  lemma {:induction false} WordsOfStream<S(!new)>(
    m: Model<S>, fill: (S, seq<byte>, nat) -> Fill<S>, s: S, additional: seq<byte>, k: nat)
    requires ByteStream(fill) && ViaFill(m, fill) && k > 0
    ensures Words(m.nextU32, s, additional, k) == fill(s, additional, 4 * k)
  {
    if k == 1 {
      assert Words(m.nextU32, s, additional, 0) == Filled([], s);
      WordOfStream(m, fill, Filled([], s), additional);
      NothingBefore(fill(s, additional, 4), s);
    } else {
      WordsOfStream(m, fill, s, additional, k - 1);
      WordOfStream(m, fill, fill(s, additional, 4 * (k - 1)), []);
      assert Continues(fill, s, additional, 4 * (k - 1), 4);
    }
  }

  lemma {:induction false} NothingBefore<S>(f: Fill<S>, s: S)
    ensures Then(Filled([], s), f) == f
  {
    if f.Filled? {
      assert [] + f.bytes == f.bytes;
    }
  }

  // fill_bytes_via_next on top of the via_fill helpers produces the bytes that
  // filling directly would, and moves the stream on to a multiple of four, where
  // it faults if the stream does. Only an empty slice drops the additional input.
  lemma {:induction false} ViaFillIsFill<S(!new)>(
    m: Model<S>, fill: (S, seq<byte>, nat) -> Fill<S>, s: S, additional: seq<byte>, n: nat)
    requires ByteStream(fill) && ViaFill(m, fill)
    ensures if n == 0 then ChunkedFill(m, s, additional, n) == Filled([], s)
            else
              match fill(s, additional, 4 * WordCount(n))
              case FillFaulted(s') => ChunkedFill(m, s, additional, n) == FillFaulted(s')
              case Filled(_, s') =>
                && fill(s, additional, n).Filled?
                && ChunkedFill(m, s, additional, n) == Filled(fill(s, additional, n).bytes, s')
  {
    StreamChunks(m, fill, s, additional, n);
    if n > 0 {
      WordsOfStream(m, fill, s, additional, WordCount(n));
      FrontOfStream(fill, s, additional, n, 4 * WordCount(n) - n);
      FrontOfWords(m.nextU32, s, additional, n, fill(s, additional, 4 * WordCount(n)), fill(s, additional, n));
    }
  }

  lemma {:induction false} StreamChunks<S(!new)>(
    m: Model<S>, fill: (S, seq<byte>, nat) -> Fill<S>, s: S, additional: seq<byte>, n: nat)
    requires ByteStream(fill) && ViaFill(m, fill)
    ensures ChunkedFill(m, s, additional, n) == FillSpec(m.nextU32, s, additional, n)
  {
    StreamHasTwoWords(m, fill);
    ChunkedIsWords(m, s, additional, n);
  }

  lemma {:induction false} FrontOfWords<S>(
    nextU32: (S, seq<byte>) -> Draw<S, u32>, s: S, additional: seq<byte>, n: nat, all: Fill<S>, front: Fill<S>)
    requires Words(nextU32, s, additional, WordCount(n)) == all
    requires all.Filled? ==> front.Filled? && front.bytes == all.bytes[..n]
    ensures FillSpec(nextU32, s, additional, n)
         == match all
            case FillFaulted(s') => FillFaulted(s')
            case Filled(_, s') => Filled(front.bytes, s')
  {
  }

  lemma {:induction false} FrontOfStream<S(!new)>(
    fill: (S, seq<byte>, nat) -> Fill<S>, s: S, additional: seq<byte>, n: nat, m: nat)
    requires ByteStream(fill) && n > 0
    ensures var all := fill(s, additional, n + m);
            all.Filled? ==>
              && |all.bytes| == n + m
              && fill(s, additional, n).Filled? && fill(s, additional, n).bytes == all.bytes[..n]
  {
    assert FillsExactly(fill, s, additional, n) && FillsExactly(fill, s, additional, n + m);
    if m > 0 {
      assert Continues(fill, s, additional, n, m);
    }
  }
}
