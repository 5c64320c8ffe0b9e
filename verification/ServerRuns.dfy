// Whole runs of commands on one server context, with every response read back
// from its buffer.
module ServerRuns {
  import opened ByteOrder
  import opened Codec
  import Server
  import opened GetRandom
  import opened ClientResponse
  import EndToEnd

  const HEADER_SIZE := Server.HEADER_SIZE

  // One command, on a response buffer of its own; the payload of a success is
  // what the buffer holds behind the header.
  method RunNext<S(!new), E(!new)>(ghost m: Drbg<S, E>, server: Server.TpmContext<Crypto<S, E>>,
                                   payloads: seq<seq<byte>>, command: Command) returns (t: Trace<S, E>)
    requires FillsExactly(m) && server.table == Commands(m)
    requires |command.response| >= HEADER_SIZE
    modifies server
    ensures t == RunOne(m, Trace(old(server.state), payloads, false), command)
    ensures !t.crashed ==> server.state == t.crypto
  {
    CommandsOk(m);
    var crypto := server.state;
    var size, after := EndToEnd.Transact(server, command.request, command.response);
    HeaderTells(server.table, crypto, command.request, command.response, after, size);
    ReadBack(m, crypto, payloads, command, after, size, server.state);
    if size.None? {
      return Trace(crypto, payloads, true);
    }
    var header := ReadHeader(after);
    if header.HeaderFailed? {
      return Trace(server.state, payloads, false);
    }
    return Trace(server.state, payloads + [after[HEADER_SIZE..size.value]], false);
  }

  // The header that a command leaves tells a failure from a success, and where
  // the payload ends.
  lemma {:induction false} HeaderTells<T(!new)>(
    table: Server.Table<T>, state: T, request: seq<byte>, before: seq<byte>, after: seq<byte>, size: Option<nat>)
    requires Server.TableOk(table) && |before| >= HEADER_SIZE
    requires Server.Responded(Server.Execute(table, state, request, before), before, after, size)
    ensures Tells(Server.Execute(table, state, request, before), after, size)
  {
    if size.Some? {
      EndToEnd.ServerHeaderIsRead(table, state, request, before, after, size);
    }
  }

  ghost predicate Tells<T>(e: Server.Exec<T>, after: seq<byte>, size: Option<nat>) {
    match e
    case Crash => size.None?
    case Failure(_, _, _, _) => size.Some? && HeaderOf(after).HeaderFailed?
    case Success(_, payload) =>
      && size.Some? && HeaderOf(after).HeaderOk?
      && HEADER_SIZE <= size.value <= |after| && after[HEADER_SIZE..size.value] == payload
  }

  // What a response buffer says of the command behind it.
  lemma {:induction false} ReadBack<S, E>(
    m: Drbg<S, E>, crypto: Crypto<S, E>, payloads: seq<seq<byte>>, command: Command, after: seq<byte>,
    size: Option<nat>, crypto': Crypto<S, E>)
    requires var e := Run(m, crypto, command.request, command.response);
             Server.StateAfter(e, crypto') && Tells(e, after, size)
    ensures var next := RunOne(m, Trace(crypto, payloads, false), command);
            if size.None? then next == Trace(crypto, payloads, true)
            else if HeaderOf(after).HeaderFailed? then next == Trace(crypto', payloads, false)
            else
              && HEADER_SIZE <= size.value <= |after|
              && next == Trace(crypto', payloads + [after[HEADER_SIZE..size.value]], false)
  {
  }

  // A run ends with a crash, or with all its commands.
  method RunCommands<S(!new), E(!new)>(m: Drbg<S, E>, crypto: Crypto<S, E>, commands: seq<Command>)
    returns (t: Trace<S, E>)
    requires FillsExactly(m)
    requires forall i | 0 <= i < |commands| :: |commands[i].response| >= HEADER_SIZE
    ensures t == RunAll(m, crypto, commands, |commands|)
  {
    var server := new Server.TpmContext(Commands(m), crypto);
    t := Trace(crypto, [], false);
    for k := 0 to |commands|
      invariant t == RunAll(m, crypto, commands, k)
      invariant !t.crashed && server.state == t.crypto
    {
      t := RunNext(m, server, t.payloads, commands[k]);
      if t.crashed {
        CrashLasts(m, crypto, commands, k + 1, |commands|);
        return;
      }
    }
  }

  lemma {:induction false} CrashLasts<S, E>(m: Drbg<S, E>, crypto: Crypto<S, E>, commands: seq<Command>, j: nat, k: nat)
    requires j <= k <= |commands| && RunAll(m, crypto, commands, j).crashed
    ensures RunAll(m, crypto, commands, k) == RunAll(m, crypto, commands, j)
  {
    if j < k {
      CrashLasts(m, crypto, commands, j, k - 1);
      NothingAfterCrash(m, RunAll(m, crypto, commands, k - 1), commands[k - 1]);
    }
  }

  lemma {:induction false} NothingAfterCrash<S, E>(m: Drbg<S, E>, t: Trace<S, E>, command: Command)
    requires t.crashed
    ensures RunOne(m, t, command) == t
  {
  }
}
