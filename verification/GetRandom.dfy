// TPM2_GetRandom on the command engine, single commands and whole runs.
module GetRandom {
  import opened ByteOrder
  import opened Codec
  import opened Buffers
  import opened Server

  const CC_GET_RANDOM: nat := 0x17B

  // ---- The generator and the entropy source, kept abstract ----

  // `reseed` and `fill` are called with empty additional input; None is an error.
  // That `fill` is given the length of its slice and not the old contents is an
  // assumption about `fill_bytes`: it overwrites all of the slice without
  // looking at it.
  // Asking whether reseeding is required may change the state as well.
  datatype Drbg<!S, !E> = Drbg(
    requiresReseeding: S -> (bool, S),
    fillEntropy: E -> (seq<byte>, E),
    reseed: (S, seq<byte>) -> Option<S>,
    fill: (S, nat) -> Option<(S, seq<byte>)>)

  datatype Crypto<S, E> = Crypto(drbg: S, entropy: E)

  // fill_bytes fills exactly the slice it is given.
  ghost predicate FillsExactly<S(!new), E>(m: Drbg<S, E>) {
    forall s, n: nat :: m.fill(s, n).Some? ==> |m.fill(s, n).value.1| == n
  }

  // ---- The handler ----

  function Reseeded<S, E>(m: Drbg<S, E>, c: Crypto<S, E>): Option<Crypto<S, E>> {
    var (needed, asked) := m.requiresReseeding(c.drbg);
    if !needed then Some(Crypto(asked, c.entropy))
    else
      var (seed, entropy) := m.fillEntropy(c.entropy);
      match m.reseed(asked, seed)
      case None => None
      case Some(drbg) => Some(Crypto(drbg, entropy))
  }

  // `try_get_random` on a slice of `n` bytes.
  function TryGetRandom<S, E>(m: Drbg<S, E>, c: Crypto<S, E>, n: nat): Option<(Crypto<S, E>, seq<byte>)> {
    match Reseeded(m, c)
    case None => None
    case Some(ready) =>
      match m.fill(ready.drbg, n)
      case None => None
      case Some((drbg, bytes)) => Some((Crypto(drbg, ready.entropy), bytes))
  }

  function GetRandomHandler<S, E>(m: Drbg<S, E>): Handler<Crypto<S, E>> {
    Handler([2], (vals: seq<nat>, c: Crypto<S, E>) =>
      Answer(c, if |vals| == 0 then [] else [GetRandomWrite(m, vals[0])]))
  }

  function GetRandomWrite<S, E>(m: Drbg<S, E>, n: nat): WriteOp<Crypto<S, E>> {
    WriteOp(n, (c: Crypto<S, E>, slice: seq<byte>) => TryGetRandom(m, c, |slice|))
  }

  // The command match of `execute_command`.
  function Commands<S, E>(m: Drbg<S, E>): Table<Crypto<S, E>> {
    (code: nat) => if code == CC_GET_RANDOM then Some(GetRandomHandler(m)) else None
  }

  // The table keeps what the types ask of handlers, and none of its callbacks
  // looks at its slice.
  lemma {:induction false} CommandsOk<S(!new), E(!new)>(m: Drbg<S, E>)
    requires FillsExactly(m)
    ensures TableOk(Commands(m)) && TableIgnoresSlices(Commands(m))
  {
    forall code, vals, c: Crypto<S, E> | Commands(m)(code).Some?
      ensures ReplyOk(Commands(m)(code).value.respond(vals, c))
      ensures ReplyIgnores(Commands(m)(code).value.respond(vals, c))
    {
      if |vals| > 0 {
        GetRandomWriteOk(m, vals[0]);
      }
    }
  }

  lemma {:induction false} GetRandomWriteOk<S(!new), E(!new)>(m: Drbg<S, E>, n: nat)
    requires FillsExactly(m)
    ensures FillsItsSlice(GetRandomWrite(m, n)) && IgnoresSlice(GetRandomWrite(m, n))
  {
    forall c: Crypto<S, E> | TryGetRandom(m, c, n).Some?
      ensures |TryGetRandom(m, c, n).value.1| == n
    {
      DrawsExactly(m, c, n);
    }
  }

  // ---- One command ----

  // On a response buffer that holds `response` before.
  function Run<S, E>(m: Drbg<S, E>, c: Crypto<S, E>, request: seq<byte>, response: seq<byte>): Exec<Crypto<S, E>> {
    Execute(Commands(m), c, request, response)
  }

  // A request that reaches the handler with its byte count.
  predicate AsksFor(request: seq<byte>, n: nat) {
    && |request| >= 12
    && BeValue(request[2..6]) == |request|
    && BeValue(request[6..10]) == CC_GET_RANDOM
    && BeValue(request[10..12]) == n
  }

  // A draw of `n` bytes, call by call: the generator is asked whether it needs
  // reseeding, reseeded from the entropy source if it does, and then filled from;
  // the bytes are those that it gave.
  ghost predicate DrawnBy<S, E>(m: Drbg<S, E>, c: Crypto<S, E>, n: nat, c': Crypto<S, E>, bytes: seq<byte>) {
    var (needed, asked) := m.requiresReseeding(c.drbg);
    if !needed then m.fill(asked, n) == Some((c'.drbg, bytes)) && c'.entropy == c.entropy
    else
      var (seed, entropy) := m.fillEntropy(c.entropy);
      && m.reseed(asked, seed).Some?
      && m.fill(m.reseed(asked, seed).value, n) == Some((c'.drbg, bytes))
      && c'.entropy == entropy
  }

  // A reseeding or a filling that fails.
  ghost predicate DrawFails<S, E>(m: Drbg<S, E>, c: Crypto<S, E>, n: nat) {
    var (needed, asked) := m.requiresReseeding(c.drbg);
    if !needed then m.fill(asked, n) == None
    else
      var (seed, _) := m.fillEntropy(c.entropy);
      m.reseed(asked, seed) == None || m.fill(m.reseed(asked, seed).value, n) == None
  }

  // TryGetRandom makes just these calls.
  lemma {:induction false} DrawByCalls<S, E>(m: Drbg<S, E>, c: Crypto<S, E>, n: nat)
    ensures TryGetRandom(m, c, n).None? <==> DrawFails(m, c, n)
    ensures forall c', bytes :: TryGetRandom(m, c, n) == Some((c', bytes)) <==> DrawnBy(m, c, n, c', bytes)
  {
  }

  // All outcomes. A failure has touched neither the generator nor the response,
  // the header writes never fail, and the only panic is that of the generator.
  lemma {:induction false} RunOutcome<S, E>(m: Drbg<S, E>, c: Crypto<S, E>, request: seq<byte>, response: seq<byte>)
    ensures var e := Run(m, c, request, response);
            if |request| < 10 || BeValue(request[2..6]) != |request| then e == Failure(c, 0x142, [], [])
            else if BeValue(request[6..10]) != 0x17B then e == Failure(c, 0x143, [], [])
            else if |request| < 12 then e == Failure(c, 0x142, [], [])
            else
              var n := BeValue(request[10..12]);
              if 10 + n > |response| then e == Failure(c, 0x904, [], [])
              else if e.Crash? then DrawFails(m, c, n)
              else e.Success? && DrawnBy(m, c, n, e.state, e.payload)
  {
    if |request| >= 10 && BeValue(request[2..6]) == |request| && BeValue(request[6..10]) == CC_GET_RANDOM {
      HandlerOutcome(m, c, request, response);
      if |request| >= 12 {
        AnswerOutcome(m, c, BeValue(request[10..12]), response);
        DrawByCalls(m, c, BeValue(request[10..12]));
      }
    }
  }

  // Behind the command match.
  lemma {:induction false} HandlerOutcome<S, E>(
    m: Drbg<S, E>, c: Crypto<S, E>, request: seq<byte>, response: seq<byte>)
    requires |request| >= HEADER_SIZE
    ensures var e := Handle(GetRandomHandler(m), c, request, response);
            if |request| < 12 then e == Failure(c, RC_COMMAND_SIZE, [], [])
            else e == Answered([GetRandomWrite(m, BeValue(request[10..12]))], c, response)
  {
    var h := GetRandomHandler(m);
    assert ReadFields([2], request, HEADER_SIZE, 0) == Some(([], HEADER_SIZE));
    if |request| >= 12 {
      var n := BeValue(request[10..12]);
      var none: seq<nat> := [];
      assert ReadAt(request, HEADER_SIZE, 2) == Some(n) && none + [n] == [n];
      assert ReadFields([2], request, HEADER_SIZE, 1) == Some(([n], 12));
      assert h.respond([n], c) == Answer(c, [GetRandomWrite(m, n)]);
    }
  }

  // The one write of the handler, sealed.
  lemma {:induction false} AnswerOutcome<S, E>(m: Drbg<S, E>, c: Crypto<S, E>, n: nat, response: seq<byte>)
    ensures Answered([GetRandomWrite(m, n)], c, response)
         == if HEADER_SIZE + n > |response| then Failure(c, RC_MEMORY, [], [])
            else
              match TryGetRandom(m, c, n)
              case None => Crash
              case Some((c', bytes)) => Success(c', bytes)
  {
    var ops := [GetRandomWrite(m, n)];
    assert RunWrites(ops, c, response, 0) == Wrote(c, []);
    assert RunWrites(ops, c, response, 1) == RunWriteOp(ops[0], c, [], response);
    var filled := TryGetRandom(m, c, n);
    if HEADER_SIZE + n <= |response| && filled.Some? {
      assert |response[HEADER_SIZE..HEADER_SIZE + n]| == n;
      assert [] + filled.value.1 == filled.value.1;
    }
  }

  // On an error the caller finds the generator and the entropy source as they
  // were, and a response that differs at most in bytes 6 to 9.
  lemma {:induction false} ErrorsAreAtomic<S, E>(
    m: Drbg<S, E>, c: Crypto<S, E>, request: seq<byte>, before: seq<byte>, after: seq<byte>, r: Option<nat>)
    requires Run(m, c, request, before).Failure?
    requires Responded(Run(m, c, request, before), before, after, r)
    ensures Run(m, c, request, before).state == c
    ensures |after| == |before|
    ensures forall i | 0 <= i < |before| && !(6 <= i < 10) :: after[i] == before[i]
  {
    FailsEmpty(m, c, request, before);
    OnlyTheCode(Run(m, c, request, before), before, after, r);
  }

  // A failure comes before the first write.
  lemma {:induction false} FailsEmpty<S, E>(m: Drbg<S, E>, c: Crypto<S, E>, request: seq<byte>, response: seq<byte>)
    requires Run(m, c, request, response).Failure?
    ensures var e := Run(m, c, request, response); e.state == c && e.header == [] && e.payload == []
  {
    RunOutcome(m, c, request, response);
  }

  lemma {:induction false} OnlyTheCode<T>(e: Exec<T>, before: seq<byte>, after: seq<byte>, r: Option<nat>)
    requires e.Failure? && e.header == [] && e.payload == []
    requires Responded(e, before, after, r)
    ensures |after| == |before|
    ensures forall i | 0 <= i < |before| && !(6 <= i < 10) :: after[i] == before[i]
  {
  }

  // ---- Whole runs ----

  // A request and the response buffer that it comes with.
  datatype Command = Command(request: seq<byte>, response: seq<byte>)

  // The successful payloads of a run; a panic ends it.
  datatype Trace<S, E> = Trace(crypto: Crypto<S, E>, payloads: seq<seq<byte>>, crashed: bool)

  function RunAll<S, E>(m: Drbg<S, E>, c: Crypto<S, E>, commands: seq<Command>, k: nat): Trace<S, E>
    requires k <= |commands|
  {
    if k == 0 then Trace(c, [], false) else RunOne(m, RunAll(m, c, commands, k - 1), commands[k - 1])
  }

  function RunOne<S, E>(m: Drbg<S, E>, t: Trace<S, E>, command: Command): Trace<S, E> {
    if t.crashed then t
    else
      match Run(m, t.crypto, command.request, command.response)
      case Crash => Trace(t.crypto, t.payloads, true)
      case Failure(c', _, _, _) => Trace(c', t.payloads, false)
      case Success(c', payload) => Trace(c', t.payloads + [payload], false)
  }

  // The byte counts of the commands that ask for bytes and have room for them.
  function Wanted(commands: seq<Command>, k: nat): (counts: seq<nat>)
    requires k <= |commands|
  {
    if k == 0 then [] else Wanted(commands, k - 1) + WantedBy(commands[k - 1])
  }

  function WantedBy(command: Command): (counts: seq<nat>) {
    if |command.request| < 12 then []
    else
      var n := BeValue(command.request[10..12]);
      if AsksFor(command.request, n) && HEADER_SIZE + n <= |command.response| then [n] else []
  }

  // The abstract generator, asked for one piece after the other and nothing
  // else, up to its first failure.
  function Draws<S, E>(m: Drbg<S, E>, c: Crypto<S, E>, counts: seq<nat>): Trace<S, E> {
    if counts == [] then Trace(c, [], false)
    else DrawOne(m, Draws(m, c, counts[..|counts| - 1]), counts[|counts| - 1])
  }

  function DrawOne<S, E>(m: Drbg<S, E>, t: Trace<S, E>, n: nat): Trace<S, E> {
    if t.crashed then t
    else
      match TryGetRandom(m, t.crypto, n)
      case None => Trace(t.crypto, t.payloads, true)
      case Some((c', piece)) => Trace(c', t.payloads + [piece], false)
  }

  // A run, with its payloads, final state and crash, is the generator asked for
  // just the counts that commands want: refused commands leave no trace.
  lemma {:induction false} RunsAreDraws<S, E>(m: Drbg<S, E>, c: Crypto<S, E>, commands: seq<Command>, k: nat)
    requires k <= |commands|
    ensures RunAll(m, c, commands, k) == Draws(m, c, Wanted(commands, k))
  {
    if k > 0 {
      RunsAreDraws(m, c, commands, k - 1);
      NextDraw(m, c, RunAll(m, c, commands, k - 1), Wanted(commands, k - 1), commands[k - 1]);
    }
  }

  lemma {:induction false} NextDraw<S, E>(
    m: Drbg<S, E>, c: Crypto<S, E>, t: Trace<S, E>, counts: seq<nat>, command: Command)
    requires t == Draws(m, c, counts)
    ensures RunOne(m, t, command) == Draws(m, c, counts + WantedBy(command))
  {
    RunIsDraw(m, t, command);
    OneMoreDraw(m, c, counts, WantedBy(command));
  }

  lemma {:induction false} OneMoreDraw<S, E>(m: Drbg<S, E>, c: Crypto<S, E>, counts: seq<nat>, more: seq<nat>)
    requires |more| <= 1
    ensures Draws(m, c, counts + more)
         == if more == [] then Draws(m, c, counts) else DrawOne(m, Draws(m, c, counts), more[0])
  {
    if more == [] {
      assert counts + more == counts;
    } else {
      assert (counts + more)[..|counts|] == counts;
    }
  }

  // One command is one draw if it wants bytes, and else nothing.
  lemma {:induction false} RunIsDraw<S, E>(m: Drbg<S, E>, t: Trace<S, E>, command: Command)
    ensures var more := WantedBy(command);
            && |more| <= 1
            && RunOne(m, t, command) == if more == [] then t else DrawOne(m, t, more[0])
  {
    RunOutcome(m, t.crypto, command.request, command.response);
    if WantedBy(command) != [] {
      DrawByCalls(m, t.crypto, BeValue(command.request[10..12]));
    }
  }

  // A run command by command, in calls of the generator: a command that asks for
  // bytes and has room for them adds what the generator gives, or crashes with
  // it; any other one leaves no trace.
  lemma {:induction false} RunByCalls<S, E>(m: Drbg<S, E>, c: Crypto<S, E>, commands: seq<Command>, j: nat)
    requires j < |commands|
    ensures RunAll(m, c, commands, 0) == Trace(c, [], false)
    ensures var t, t', (request, response) := RunAll(m, c, commands, j), RunAll(m, c, commands, j + 1),
                                              (commands[j].request, commands[j].response);
            if t.crashed then t' == t
            else if |request| >= 12 && BeValue(request[2..6]) == |request| && BeValue(request[6..10]) == 0x17B
                    && 10 + BeValue(request[10..12]) <= |response| then
              var n := BeValue(request[10..12]);
              if t'.crashed then DrawFails(m, t.crypto, n) && t' == Trace(t.crypto, t.payloads, true)
              else
                && |t'.payloads| == |t.payloads| + 1 && t.payloads <= t'.payloads
                && DrawnBy(m, t.crypto, n, t'.crypto, t'.payloads[|t.payloads|])
            else t' == t
  {
    var t := RunAll(m, c, commands, j);
    RunOutcome(m, t.crypto, commands[j].request, commands[j].response);
  }

  // Each payload is as long as its command wanted, and a run without a crash
  // has one for each.
  lemma {:induction false} PayloadLengths<S(!new), E>(m: Drbg<S, E>, c: Crypto<S, E>, counts: seq<nat>)
    requires FillsExactly(m)
    ensures var t := Draws(m, c, counts);
            && |t.payloads| <= |counts|
            && (forall i | 0 <= i < |t.payloads| :: |t.payloads[i]| == counts[i])
            && (!t.crashed ==> |t.payloads| == |counts|)
  {
    if counts != [] {
      var front, last := counts[..|counts| - 1], counts[|counts| - 1];
      PayloadLengths(m, c, front);
      var t := Draws(m, c, front);
      if !t.crashed && TryGetRandom(m, t.crypto, last).Some? {
        DrawsExactly(m, t.crypto, last);
      }
    }
  }

  lemma {:induction false} RunLengths<S(!new), E>(m: Drbg<S, E>, c: Crypto<S, E>, commands: seq<Command>, k: nat)
    requires FillsExactly(m) && k <= |commands|
    ensures var t, counts := RunAll(m, c, commands, k), Wanted(commands, k);
            && |t.payloads| <= |counts|
            && (forall i | 0 <= i < |t.payloads| :: |t.payloads[i]| == counts[i])
            && (!t.crashed ==> |t.payloads| == |counts|)
  {
    RunsAreDraws(m, c, commands, k);
    PayloadLengths(m, c, Wanted(commands, k));
  }

  lemma {:induction false} DrawsExactly<S(!new), E>(m: Drbg<S, E>, c: Crypto<S, E>, n: nat)
    requires FillsExactly(m) && TryGetRandom(m, c, n).Some?
    ensures |TryGetRandom(m, c, n).value.1| == n
  {
    assert m.fill(Reseeded(m, c).value.drbg, n).Some?;
  }

  // ---- The failure branch ----

  // As documented, reseeding makes a generator ready, and one that needs none
  // when asked is ready.
  ghost predicate Readies<S(!new), E>(m: Drbg<S, E>, ready: S -> bool) {
    && (forall s :: !m.requiresReseeding(s).0 ==> ready(m.requiresReseeding(s).1))
    && (forall s, seed :: m.reseed(s, seed).Some? ==> ready(m.reseed(s, seed).value))
  }

  // The documented failure cases without a hardware fault: reseeding succeeds,
  // and so does filling a ready generator's bytes within the request limit.
  ghost predicate FailsOnlyAsDocumented<S(!new), E>(m: Drbg<S, E>, limit: nat, ready: S -> bool) {
    && Readies(m, ready)
    && (forall s, seed :: m.reseed(s, seed).Some?)
    && (forall s, n: nat :: ready(s) && n <= limit ==> m.fill(s, n).Some?)
  }

  lemma {:induction false} ReadyBeforeFill<S(!new), E>(m: Drbg<S, E>, ready: S -> bool, c: Crypto<S, E>)
    requires Readies(m, ready) && Reseeded(m, c).Some?
    ensures ready(Reseeded(m, c).value.drbg)
  {
  }

  // Two generators that differ at most in what fill_bytes does while reseeding
  // is required.
  ghost predicate AgreeWhenReady<S(!new), E(!new)>(m: Drbg<S, E>, m': Drbg<S, E>, ready: S -> bool) {
    && (forall s :: m.requiresReseeding(s) == m'.requiresReseeding(s))
    && (forall e :: m.fillEntropy(e) == m'.fillEntropy(e))
    && (forall s, seed :: m.reseed(s, seed) == m'.reseed(s, seed))
    && (forall s, n: nat :: ready(s) ==> m.fill(s, n) == m'.fill(s, n))
  }

  lemma {:induction false} SameDraw<S(!new), E(!new)>(
    m: Drbg<S, E>, m': Drbg<S, E>, ready: S -> bool, c: Crypto<S, E>, n: nat)
    requires Readies(m, ready) && AgreeWhenReady(m, m', ready)
    ensures TryGetRandom(m, c, n) == TryGetRandom(m', c, n)
  {
    assert Reseeded(m, c) == Reseeded(m', c);
    if Reseeded(m, c).Some? {
      ReadyBeforeFill(m, ready, c);
    }
  }

  lemma {:induction false} SameDraws<S(!new), E(!new)>(
    m: Drbg<S, E>, m': Drbg<S, E>, ready: S -> bool, c: Crypto<S, E>, counts: seq<nat>)
    requires Readies(m, ready) && AgreeWhenReady(m, m', ready)
    ensures Draws(m, c, counts) == Draws(m', c, counts)
  {
    if counts != [] {
      var front := counts[..|counts| - 1];
      SameDraws(m, m', ready, c, front);
      SameDraw(m, m', ready, Draws(m, c, front).crypto, counts[|counts| - 1]);
    }
  }

  // No run can tell them apart: fill_bytes is never called while reseeding is
  // required.
  lemma {:induction false} NeverFilledUnready<S(!new), E(!new)>(
    m: Drbg<S, E>, m': Drbg<S, E>, ready: S -> bool, c: Crypto<S, E>, commands: seq<Command>, k: nat)
    requires Readies(m, ready) && AgreeWhenReady(m, m', ready) && k <= |commands|
    ensures RunAll(m, c, commands, k) == RunAll(m', c, commands, k)
  {
    RunsAreDraws(m, c, commands, k);
    RunsAreDraws(m', c, commands, k);
    SameDraws(m, m', ready, c, Wanted(commands, k));
  }

  lemma {:induction false} DrawSucceeds<S(!new), E>(
    m: Drbg<S, E>, limit: nat, ready: S -> bool, c: Crypto<S, E>, n: nat)
    requires FailsOnlyAsDocumented(m, limit, ready) && n <= limit
    ensures TryGetRandom(m, c, n).Some?
  {
    var seed := m.fillEntropy(c.entropy).0;
    assert m.reseed(m.requiresReseeding(c.drbg).1, seed).Some?;
    ReadyBeforeFill(m, ready, c);
    assert m.fill(Reseeded(m, c).value.drbg, n).Some?;
  }

  lemma {:induction false} DrawsSucceed<S(!new), E>(
    m: Drbg<S, E>, limit: nat, ready: S -> bool, c: Crypto<S, E>, counts: seq<nat>)
    requires FailsOnlyAsDocumented(m, limit, ready)
    requires forall i | 0 <= i < |counts| :: counts[i] <= limit
    ensures !Draws(m, c, counts).crashed
  {
    if counts != [] {
      var front := counts[..|counts| - 1];
      DrawsSucceed(m, limit, ready, c, front);
      DrawSucceeds(m, limit, ready, Draws(m, c, front).crypto, counts[|counts| - 1]);
    }
  }

  // No run of commands that stay within the limit reaches the failure branch.
  lemma {:induction false} NoCrash<S(!new), E>(
    m: Drbg<S, E>, limit: nat, ready: S -> bool, c: Crypto<S, E>, commands: seq<Command>, k: nat)
    requires FailsOnlyAsDocumented(m, limit, ready) && k <= |commands|
    requires forall i, n: nat | 0 <= i < k && AsksFor(commands[i].request, n) :: n <= limit
    ensures !RunAll(m, c, commands, k).crashed
  {
    WantedWithin(commands, k, limit);
    DrawsSucceed(m, limit, ready, c, Wanted(commands, k));
    RunsAreDraws(m, c, commands, k);
  }

  lemma {:induction false} WantedWithin(commands: seq<Command>, k: nat, limit: nat)
    requires k <= |commands|
    requires forall i, n: nat | 0 <= i < k && AsksFor(commands[i].request, n) :: n <= limit
    ensures forall i | 0 <= i < |Wanted(commands, k)| :: Wanted(commands, k)[i] <= limit
  {
    if k > 0 {
      WantedWithin(commands, k - 1, limit);
      var more := WantedBy(commands[k - 1]);
      if more != [] {
        assert AsksFor(commands[k - 1].request, more[0]);
      }
    }
  }
}
