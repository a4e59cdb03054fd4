/**
  The dual-stack TCP server: one passive TCP socket per address that name
  resolution returns for the local port, bound and put in the listening
  state, then a `poll` loop over all of them that never stops on its own.
  Each ready pass accepts one connection on the first readable socket,
  reads once from it, writes one greeting naming the server's address and
  port, and closes it.

  Each `poll` return is an event of a finite trace; the trace running out
  stands for the loop still running.  For a readable slot the event also
  carries what the calls that follow return: `getnameinfo` for the passive
  socket's address, `accept`, and `getnameinfo` for the client.  The calls
  the server makes on connections and its closes are recorded in a log.
*/
module DualTcp {
  import opened FdMap
  import opened Wrappers
  import opened PassiveSockets

  /** The idle counter counts timeouts up to this value, then starts again from 0. */
  const IdleLimit := 20

  /** `BUFSIZE`: the size of the greeting buffer, terminator included. */
  const BUFSIZE := 1500

  /** What one `poll` call returns (and, when readable, what follows it). */
  datatype TcpEvent =
    | Timeout
    | PollFailed(interrupted: bool)
    | Ready(revents: seq<bv16>, serverInfo: Option<HostInfo>, accepted: int, clientInfo: Option<HostInfo>)

  /** How the poll loop ends. */
  datatype TcpExit =
    | PollError      // `break` on a poll failure other than EINTR
    | NoReadableSlot // no slot has POLLIN: `targets[num_targets]` is read out of range
    | LookupFailed   // `get_host_info` throws, for the server's address or the client's
    | AcceptFailed   // `accept` returns -1 and the server throws
    | StillRunning   // the trace ran out with the loop still going

  /** A call the server makes on a descriptor after setup. */
  datatype Op =
    | Accepted(passive: Fd, result: int)
    | ReadFrom(conn: Fd)
    | WroteTo(conn: Fd, data: string)
    | Closed(fd: Fd)

  /** The state the loop changes: the idle counter, the targets, the call log. */
  datatype TcpState = TcpState(idle: int, targets: seq<PollFd>, ops: seq<Op>)

  datatype TcpStep = Next(st: TcpState) | Exit(st: TcpState, exit: TcpExit)

  /** `poll` fills one `revents` per target. */
  ghost predicate EventsFit(events: seq<TcpEvent>, n: nat)
  {
    forall i :: 0 <= i < |events| && events[i].Ready? ==> |events[i].revents| == n
  }

  /** The text `snprintf` formats before it truncates. */
  function GreetingText(server: HostInfo): string
  {
    "message from server " + server.numericHost + ", port=" + server.numericService + "\n"
  }

  /**
    What is written to the client: the formatted text as far as the buffer
    holds it (`snprintf` keeps BUFSIZE - 1 characters and the terminator,
    and `strnlen` measures up to the terminator).
  */
  function Greeting(server: HostInfo): (g: string)
    ensures |g| <= BUFSIZE - 1
    ensures |g| == if |GreetingText(server)| < BUFSIZE then |GreetingText(server)| else BUFSIZE - 1
    ensures g <= GreetingText(server)
  {
    var text := GreetingText(server);
    if |text| < BUFSIZE then text else text[..BUFSIZE - 1]
  }

  /** A greeting that fits names the server's numeric host and port in full. */
  lemma GreetingNamesServer(server: HostInfo)
    requires |server.numericHost| + |server.numericService| + 28 < BUFSIZE
    ensures var g := Greeting(server);
      && g[..20] == "message from server "
      && g[20..20 + |server.numericHost|] == server.numericHost
      && g[20 + |server.numericHost|..27 + |server.numericHost|] == ", port="
      && g[27 + |server.numericHost|..27 + |server.numericHost| + |server.numericService|] == server.numericService
      && g[|g| - 1] == '\n'
  {
    var h := server.numericHost;
    var g := Greeting(server);
    assert g == "message from server " + h + ", port=" + server.numericService + "\n";
    assert g[..20] == "message from server ";
    assert g[20..20 + |h|] == h;
    assert g[20 + |h|..27 + |h|] == ", port=";
    assert g[27 + |h|..27 + |h| + |server.numericService|] == server.numericService;
  }

  /** One pass of the loop body for one `poll` return. */
  function TcpStepOf(st: TcpState, e: TcpEvent): TcpStep
    requires e.Ready? ==> |e.revents| == |st.targets|
  {
    match e
    case Timeout =>
      if st.idle < IdleLimit then Next(st.(idle := st.idle + 1)) else Next(st.(idle := 0))
    case PollFailed(interrupted) =>
      if interrupted then Next(st) else Exit(st, PollError)
    case Ready(revents, serverInfo, accepted, clientInfo) =>
      var t := Polled(st.targets, revents);
      var index := FirstWhere(t, IsReadable);
      var st1 := st.(targets := t);
      if index == |t| then Exit(st1, NoReadableSlot)
      else if serverInfo.None? then Exit(st1, LookupFailed)
      else
        var st2 := st1.(ops := st.ops + [Accepted(t[index].fd, accepted)]);
        if accepted == -1 then Exit(st2, AcceptFailed)
        else if clientInfo.None? then Exit(st2, LookupFailed)
        else Next(st2.(ops := st2.ops + [ReadFrom(accepted), WroteTo(accepted, Greeting(serverInfo.value)), Closed(accepted)]))
  }

  /** The state a step leaves keeps the targets' descriptors and interests. */
  lemma StepKeepsTargets(st: TcpState, e: TcpEvent)
    requires e.Ready? ==> |e.revents| == |st.targets|
    ensures var s := TcpStepOf(st, e).st;
      |s.targets| == |st.targets| &&
      forall i :: 0 <= i < |s.targets| ==> s.targets[i].fd == st.targets[i].fd && s.targets[i].events == st.targets[i].events
  {
  }

  /** The loop over a trace of `poll` returns: the final state and how it ended. */
  ghost function TcpRun(st: TcpState, events: seq<TcpEvent>): (r: (TcpState, TcpExit))
    requires EventsFit(events, |st.targets|)
    ensures |r.0.targets| == |st.targets|
    ensures forall i :: 0 <= i < |st.targets| ==>
      r.0.targets[i].fd == st.targets[i].fd && r.0.targets[i].events == st.targets[i].events
    decreases |events|
  {
    if events == [] then (st, StillRunning)
    else
      assert events[0].Ready? ==> |events[0].revents| == |st.targets|;
      StepKeepsTargets(st, events[0]);
      match TcpStepOf(st, events[0])
      case Exit(s, x) => (s, x)
      case Next(s) =>
        assert EventsFit(events[1..], |s.targets|) by {
          forall i | 0 <= i < |events[1..]| && events[1..][i].Ready?
            ensures |events[1..][i].revents| == |s.targets|
          {
            assert events[1..][i] == events[i + 1];
          }
        }
        TcpRun(s, events[1..])
  }

  /** A trace that starts with one event steps once, then runs on. */
  lemma UnfoldRun(st: TcpState, e: TcpEvent, rest: seq<TcpEvent>)
    requires EventsFit([e] + rest, |st.targets|)
    ensures EventsFit(rest, |st.targets|)
    ensures e.Ready? ==> |e.revents| == |st.targets|
    ensures TcpStepOf(st, e).Next? ==> |TcpStepOf(st, e).st.targets| == |st.targets|
    ensures TcpRun(st, [e] + rest) ==
      var step := TcpStepOf(st, e);
      if step.Exit? then (step.st, step.exit) else TcpRun(step.st, rest)
  {
    var events := [e] + rest;
    assert events[0] == e && events[1..] == rest;
    assert EventsFit(rest, |st.targets|) by {
      forall i | 0 <= i < |rest| && rest[i].Ready?
        ensures |rest[i].revents| == |st.targets|
      {
        assert rest[i] == events[i + 1];
      }
    }
    assert e.Ready? ==> |e.revents| == |st.targets|;
    StepKeepsTargets(st, e);
  }

  /** The sockets among `table`'s keys, in map order, whose `listen` fails. */
  function ListenFailures(table: Table<Bound>, failing: set<Fd>): (r: seq<Fd>)
    ensures |r| <= |table|
  {
    if table == [] then []
    else
      var rest := ListenFailures(table[1..], failing);
      if table[0].0 in failing then [table[0].0] + rest else rest
  }

  /** Exactly the map's keys whose `listen` fails are reported. */
  lemma {:induction false} ListenFailuresMembers(table: Table<Bound>, failing: set<Fd>)
    ensures forall fd :: fd in ListenFailures(table, failing) <==> fd in Keys(table) && fd in failing
  {
    if table != [] {
      ListenFailuresMembers(table[1..], failing);
      assert Keys(table) == [table[0].0] + Keys(table[1..]);
    }
  }

  /** Appending one map entry appends its failure, if any. */
  lemma {:induction false} ListenFailuresAppend(table: Table<Bound>, e: (Fd, Bound), failing: set<Fd>)
    ensures ListenFailures(table + [e], failing) == ListenFailures(table, failing) + if e.0 in failing then [e.0] else []
  {
    if table != [] {
      assert (table + [e])[1..] == table[1..] + [e];
      ListenFailuresAppend(table[1..], e, failing);
    } else {
      assert (table + [e])[1..] == [];
    }
  }

  /**
    The position, in map order, of the first socket whose `listen` fails
    and whose address `getnameinfo` cannot print, so that reporting the
    failure throws; |table| when there is none.
  */
  function FirstThrow(table: Table<Bound>, failing: set<Fd>, lookupFailing: set<Fd>): (k: nat)
    ensures k <= |table|
    ensures forall j :: 0 <= j < k ==> !(table[j].0 in failing && table[j].0 in lookupFailing)
    ensures k < |table| ==> table[k].0 in failing && table[k].0 in lookupFailing
    decreases |table|
  {
    if table == [] then 0
    else if table[0].0 in failing && table[0].0 in lookupFailing then 0
    else 1 + FirstThrow(table[1..], failing, lookupFailing)
  }

  /** Every element is below every later one. */
  ghost predicate Increasing(s: seq<Fd>)
  {
    forall i, j :: 0 <= i < j < |s| ==> s[i] < s[j]
  }

  /** In an ascending map the failures are reported in ascending order. */
  lemma {:induction false} ListenFailuresAscend(table: Table<Bound>, failing: set<Fd>)
    requires Ascending(table)
    ensures Increasing(ListenFailures(table, failing))
  {
    if table != [] {
      var rest := ListenFailures(table[1..], failing);
      assert Ascending(table[1..]) by {
        forall i, j | 0 <= i < j < |table[1..]|
          ensures table[1..][i].0 < table[1..][j].0
        {
          assert table[1..][i] == table[i + 1] && table[1..][j] == table[j + 1];
        }
      }
      ListenFailuresAscend(table[1..], failing);
      if table[0].0 in failing {
        forall k | 0 <= k < |table[1..]|
          ensures table[0].0 < table[1..][k].0
        {
          assert table[1..][k] == table[k + 1];
        }
        ListenFailuresAbove(table[1..], failing, table[0].0);
        var r := [table[0].0] + rest;
        assert ListenFailures(table, failing) == r;
        forall i, j | 0 <= i < j < |r|
          ensures r[i] < r[j]
        {
          assert r[j] == rest[j - 1];
          if i > 0 {
            assert r[i] == rest[i - 1];
          }
        }
      }
    }
  }

  /** When every key is above `b`, so is every failure reported. */
  lemma {:induction false} ListenFailuresAbove(table: Table<Bound>, failing: set<Fd>, b: Fd)
    requires forall k :: 0 <= k < |table| ==> b < table[k].0
    ensures forall m :: 0 <= m < |ListenFailures(table, failing)| ==> b < ListenFailures(table, failing)[m]
  {
    if table != [] {
      forall k | 0 <= k < |table[1..]|
        ensures b < table[1..][k].0
      {
        assert table[1..][k] == table[k + 1];
      }
      ListenFailuresAbove(table[1..], failing, b);
    }
  }

  // ---------------------------------------------------------------------
  // The server
  // ---------------------------------------------------------------------

  /** The server's global state: the socket map, and the calls it makes after setup. */
  class DualTcpServer {
    var sockets: Table<Bound>
    var v6only: set<Fd>
    var created: seq<Fd>
    var ops: seq<Op>

    ghost predicate Valid()
      reads this
    {
      Ascending(sockets)
    }

    function Setup(): SocketSet
      reads this
    {
      SocketSet(sockets, v6only, created)
    }

    constructor ()
      ensures Valid() && Setup() == EmptySet && ops == []
    {
      sockets := [];
      v6only := {};
      created := [];
      ops := [];
    }

    /** Step 2: create and register one socket per resolution entry. */
    method MakeSockets(entries: seq<Resolved>) returns (err: Option<SetupError>)
      modifies this
      requires Setup() == EmptySet
      ensures Valid()
      ensures (Setup(), err) == OpenAll(EmptySet, entries)
      ensures ops == old(ops)
    {
      var s;
      s, err := OpenSockets(entries);
      sockets, v6only, created := s.table, s.v6only, s.created;
    }

    /**
      Step 4: `listen` on every socket in map order.  A failure is reported
      through `socket_address_error` and the loop goes on, unless the
      `getnameinfo` inside that report fails (the socket is in
      `lookupFailing`): then it throws, and `thrown` names the socket.
      `reported` holds the failures reported in full before that point.
    */
    method ListenSockets(failing: set<Fd>, lookupFailing: set<Fd>) returns (reported: seq<Fd>, thrown: Option<Fd>)
      requires Valid()
      ensures var k := FirstThrow(sockets, failing, lookupFailing);
        && reported == ListenFailures(sockets[..k], failing)
        && (thrown.None? <==> k == |sockets|)
        && (thrown.Some? ==> thrown.value == sockets[k].0)
      ensures forall fd :: fd in reported <==>
        fd in Keys(sockets[..FirstThrow(sockets, failing, lookupFailing)]) && fd in failing
      ensures Increasing(reported)
    {
      ghost var k := FirstThrow(sockets, failing, lookupFailing);
      assert Ascending(sockets[..k]) by {
        forall i, j | 0 <= i < j < k
          ensures sockets[..k][i].0 < sockets[..k][j].0
        {
          assert sockets[..k][i] == sockets[i] && sockets[..k][j] == sockets[j];
        }
      }
      ListenFailuresAscend(sockets[..k], failing);
      reported := [];
      var i := 0;
      while i < |sockets|
        invariant 0 <= i <= |sockets| && i <= k
        invariant reported == ListenFailures(sockets[..i], failing)
      {
        var fd := sockets[i].0;
        if fd in failing && fd in lookupFailing {
          assert i == k;
          ListenFailuresMembers(sockets[..i], failing);
          return reported, Some(fd);
        }
        assert sockets[..i + 1] == sockets[..i] + [sockets[i]];
        ListenFailuresAppend(sockets[..i], sockets[i], failing);
        if fd in failing {
          reported := reported + [fd];
        }
        i := i + 1;
      }
      assert sockets[..|sockets|] == sockets;
      ListenFailuresMembers(sockets, failing);
      thrown := None;
    }

    /**
      The `while (true)` poll loop over `targets`, which `poll` updates in
      place, for the trace `events`.
    */
    method Serve(targets: array<PollFd>, events: seq<TcpEvent>) returns (exit: TcpExit)
      modifies this`ops, targets
      requires EventsFit(events, targets.Length)
      ensures var r := TcpRun(TcpState(0, old(targets[..]), old(ops)), events);
        exit == r.1 && targets[..] == r.0.targets && ops == r.0.ops
      ensures Setup() == old(Setup())
    {
      ghost var init := TcpState(0, targets[..], ops);
      var timeoutCount := 0;
      var i := 0;
      while i < |events|
        invariant 0 <= i <= |events|
        invariant EventsFit(events[i..], targets.Length)
        invariant TcpRun(TcpState(timeoutCount, targets[..], ops), events[i..]) == TcpRun(init, events)
      {
        ghost var cur := TcpState(timeoutCount, targets[..], ops);
        var e := events[i];
        assert events[i..] == [e] + events[i + 1..];
        UnfoldRun(cur, e, events[i + 1..]);
        match e {
          case Timeout =>
            if timeoutCount < IdleLimit {
              timeoutCount := timeoutCount + 1;
            } else {
              timeoutCount := 0;
            }
          case PollFailed(interrupted) =>
            if !interrupted {
              return PollError;
            }
          case Ready(revents, serverInfo, accepted, clientInfo) =>
            var stop := OnReady(targets, timeoutCount, revents, serverInfo, accepted, clientInfo);
            if stop.Some? {
              return stop.value;
            }
        }
        assert TcpStepOf(cur, e) == Next(TcpState(timeoutCount, targets[..], ops));
        i := i + 1;
      }
      exit := StillRunning;
    }

    /**
      One ready `poll` return: `poll` writes the `revents`, the first
      readable slot is selected, and one connection is accepted on it,
      read from, written to and closed.  `stop` is the exit the pass takes
      instead, if any.
    */
    method OnReady(targets: array<PollFd>, ghost idle: int, revents: seq<bv16>,
                   serverInfo: Option<HostInfo>, accepted: int, clientInfo: Option<HostInfo>)
      returns (stop: Option<TcpExit>)
      modifies this`ops, targets
      requires |revents| == targets.Length
      ensures var step := TcpStepOf(TcpState(idle, old(targets[..]), old(ops)), Ready(revents, serverInfo, accepted, clientInfo));
        && (stop.Some? <==> step.Exit?)
        && (stop.Some? ==> stop.value == step.exit)
        && targets[..] == step.st.targets && ops == step.st.ops
      ensures Setup() == old(Setup())
    {
      ghost var before := targets[..];
      ghost var step := TcpStepOf(TcpState(idle, before, ops), Ready(revents, serverInfo, accepted, clientInfo));
      // what `poll` writes into the targets
      for k := 0 to targets.Length
        modifies targets
        invariant forall j :: 0 <= j < k ==> targets[j] == before[j].(revents := revents[j])
        invariant forall j :: k <= j < targets.Length ==> targets[j] == before[j]
      {
        targets[k] := targets[k].(revents := revents[k]);
      }
      assert targets[..] == Polled(before, revents);
      var index := SelectReady(targets);
      assert index == FirstWhere(Polled(before, revents), IsReadable);
      if index == targets.Length {
        assert step == Exit(step.st, NoReadableSlot);
        return Some(NoReadableSlot);
      }
      var passiveSocket := targets[index].fd;
      if serverInfo.None? {
        assert step == Exit(step.st, LookupFailed);
        return Some(LookupFailed);
      }
      var socketToClient := accepted;
      ops := ops + [Accepted(passiveSocket, socketToClient)];
      if socketToClient == -1 {
        assert step == Exit(step.st, AcceptFailed);
        return Some(AcceptFailed);
      }
      if clientInfo.None? {
        assert step == Exit(step.st, LookupFailed);
        return Some(LookupFailed);
      }
      ops := ops + [ReadFrom(socketToClient)];
      ops := ops + [WroteTo(socketToClient, Greeting(serverInfo.value))];
      ops := ops + [Closed(socketToClient)];
      assert step.Next? && step.st.targets == targets[..] && step.st.ops == ops;
      stop := None;
    }

    /** The close loop: every passive socket of the map, in map order. */
    method CloseAll()
      modifies this`ops
      ensures ops == old(ops) + ClosesOf(Keys(sockets))
      ensures Setup() == old(Setup())
    {
      ghost var keys := Keys(sockets);
      for i := 0 to |sockets|
        modifies this`ops
        invariant ops == old(ops) + ClosesOf(keys[..i])
      {
        ClosesOfAppend(keys[..i], sockets[i].0);
        assert keys[..i + 1] == keys[..i] + [sockets[i].0];
        ops := ops + [Closed(sockets[i].0)];
      }
      assert keys[..|sockets|] == keys;
    }
  }

  /** A close for each descriptor, in order. */
  function ClosesOf(fds: seq<Fd>): (r: seq<Op>)
    ensures |r| == |fds| && forall i :: 0 <= i < |fds| ==> r[i] == Closed(fds[i])
  {
    seq(|fds|, i requires 0 <= i < |fds| => Closed(fds[i]))
  }

  lemma ClosesOfAppend(fds: seq<Fd>, fd: Fd)
    ensures ClosesOf(fds + [fd]) == ClosesOf(fds) + [Closed(fd)]
  {
  }

  /**
    How `main` ends: socket creation or `bind` throws, reporting a failed
    `listen` throws, or the poll loop stops.
  */
  datatype TcpOutcome = SetupFailed(error: SetupError) | ListenThrew(fd: Fd) | Stopped(exit: TcpExit)

  /**
    `main`: resolution entries, the sockets `bind` and `listen` fail on,
    the sockets whose address `getnameinfo` cannot print, and the `poll`
    trace.  A throw during setup comes before any polling and skips the
    close loop; a listen failure is reported and setup goes on, unless the
    report itself throws; a `break` out of the poll loop closes every
    passive socket; a throw out of it (or the out-of-range read) closes none.
  */
  method RunServer(entries: seq<Resolved>, bindFailing: set<Fd>, listenFailing: set<Fd>, lookupFailing: set<Fd>,
                   events: seq<TcpEvent>)
    returns (srv: DualTcpServer, outcome: TcpOutcome, listenReported: seq<Fd>)
    requires EventsFit(events, |OpenAll(EmptySet, entries).0.table|)
    ensures fresh(srv)
    ensures var s := OpenAll(EmptySet, entries).0;
      var err := OpenAll(EmptySet, entries).1;
      && srv.Setup() == s
      && (err.Some? ==> outcome == SetupFailed(err.value))
      && (err.None? && (exists i :: 0 <= i < |s.table| && s.table[i].0 in bindFailing) ==>
           outcome.SetupFailed? && outcome.error.BindFailed?)
      && (outcome.SetupFailed? ==> srv.ops == [] && listenReported == [])
      && (outcome.ListenThrew? ==> srv.ops == [])
      && (outcome.SetupFailed? <==> err.Some? || exists i :: 0 <= i < |s.table| && s.table[i].0 in bindFailing)
      && (err.None? && outcome.SetupFailed? ==>
           exists k :: 0 <= k < |s.table| && s.table[k].0 == outcome.error.fd && outcome.error.fd in bindFailing &&
                       forall j :: 0 <= j < k ==> s.table[j].0 !in bindFailing)
    ensures var s := OpenAll(EmptySet, entries).0;
      var k := FirstThrow(s.table, listenFailing, lookupFailing);
      !outcome.SetupFailed? ==>
        && listenReported == ListenFailures(s.table[..k], listenFailing)
        && Increasing(listenReported)
        && (outcome.ListenThrew? <==> k < |s.table|)
        && (outcome.ListenThrew? ==> outcome.fd == s.table[k].0)
    ensures var s := OpenAll(EmptySet, entries).0;
      outcome.Stopped? ==>
        var r := TcpRun(TcpState(0, Targets(s.table), []), events);
        && outcome.exit == r.1
        && srv.ops == r.0.ops + if r.1 == PollError then ClosesOf(Keys(s.table)) else []
  {
    srv := new DualTcpServer();
    listenReported := [];
    var err := srv.MakeSockets(entries);
    if err.Some? {
      return srv, SetupFailed(err.value), [];
    }
    // step 3: the first failing bind throws
    var failed := FirstFailingBind(srv.sockets, bindFailing);
    if failed.Some? {
      return srv, SetupFailed(BindFailed(failed.value)), [];
    }
    var thrown;
    listenReported, thrown := srv.ListenSockets(listenFailing, lookupFailing);
    if thrown.Some? {
      return srv, ListenThrew(thrown.value), listenReported;
    }
    var targets := MakeTargets(srv.sockets);
    var exit := srv.Serve(targets, events);
    if exit == PollError {
      srv.CloseAll();
    }
    outcome := Stopped(exit);
  }

  // ---------------------------------------------------------------------
  // Properties of the loop
  // ---------------------------------------------------------------------

  /** `n` consecutive timeouts. */
  function Timeouts(n: nat): (ts: seq<TcpEvent>)
    ensures |ts| == n && forall i :: 0 <= i < n ==> ts[i] == Timeout
  {
    seq(n, _ => Timeout)
  }

  /** Timeouts are no `Ready` events. */
  lemma TimeoutsFit(n: nat, rest: seq<TcpEvent>, m: nat)
    requires EventsFit(rest, m)
    ensures EventsFit(Timeouts(n) + rest, m)
  {
    var events := Timeouts(n) + rest;
    forall i | 0 <= i < |events| && events[i].Ready?
      ensures |events[i].revents| == m
    {
      assert events[i] == rest[i - n];
    }
  }

  /** Each timeout below IdleLimit counts one up. */
  lemma {:induction false} TimeoutsCountUp(st: TcpState, n: nat, rest: seq<TcpEvent>)
    requires 0 <= st.idle && st.idle + n <= IdleLimit
    requires EventsFit(rest, |st.targets|)
    ensures EventsFit(Timeouts(n) + rest, |st.targets|)
    ensures TcpRun(st, Timeouts(n) + rest) == TcpRun(st.(idle := st.idle + n), rest)
    decreases n
  {
    TimeoutsFit(n, rest, |st.targets|);
    if n > 0 {
      assert Timeouts(n) + rest == [Timeout] + (Timeouts(n - 1) + rest);
      TimeoutsFit(n - 1, rest, |st.targets|);
      UnfoldRun(st, Timeout, Timeouts(n - 1) + rest);
      TimeoutsCountUp(st.(idle := st.idle + 1), n - 1, rest);
    } else {
      assert Timeouts(n) + rest == rest;
    }
  }

  /**
    The idle counter cycles with period IdleLimit + 1: from any count in
    0..IdleLimit, IdleLimit + 1 consecutive timeouts bring the loop back to
    the state it was in, whatever follows.
  */
  lemma TimeoutsCycle(st: TcpState, rest: seq<TcpEvent>)
    requires 0 <= st.idle <= IdleLimit
    requires EventsFit(rest, |st.targets|)
    ensures EventsFit(Timeouts(IdleLimit + 1) + rest, |st.targets|)
    ensures TcpRun(st, Timeouts(IdleLimit + 1) + rest) == TcpRun(st, rest)
  {
    var up := IdleLimit - st.idle;
    var tail := Timeouts(st.idle) + rest;
    var wrap := [Timeout] + tail;
    TimeoutsSplit(up, 1 + st.idle, rest);
    TimeoutsSplit(1, st.idle, rest);
    assert Timeouts(1) == [Timeout];
    TimeoutsFit(st.idle, rest, |st.targets|);
    TimeoutsFit(1 + st.idle, rest, |st.targets|);
    TimeoutsFit(IdleLimit + 1, rest, |st.targets|);
    TimeoutsCountUp(st, up, wrap);
    UnfoldRun(st.(idle := IdleLimit), Timeout, tail);
    TimeoutsCountUp(st.(idle := 0), st.idle, rest);
    assert st.(idle := 0).(idle := st.idle) == st;
  }

  /** A run of timeouts splits into two shorter runs. */
  lemma TimeoutsSplit(a: nat, b: nat, rest: seq<TcpEvent>)
    ensures Timeouts(a + b) + rest == Timeouts(a) + (Timeouts(b) + rest)
  {
    assert Timeouts(a + b) == Timeouts(a) + Timeouts(b);
  }

  /** Timeouts alone never end the loop. */
  lemma {:induction false} TimeoutsNeverStop(st: TcpState, n: nat)
    ensures EventsFit(Timeouts(n), |st.targets|)
    ensures TcpRun(st, Timeouts(n)).1 == StillRunning
    decreases n
  {
    TimeoutsFit(n, [], |st.targets|);
    assert Timeouts(n) + [] == Timeouts(n);
    if n > 0 {
      assert Timeouts(n) == [Timeout] + Timeouts(n - 1);
      TimeoutsFit(n - 1, [], |st.targets|);
      assert Timeouts(n - 1) + [] == Timeouts(n - 1);
      UnfoldRun(st, Timeout, Timeouts(n - 1));
      TimeoutsNeverStop(TcpStepOf(st, Timeout).st, n - 1);
    }
  }

  /** The idle counter never leaves 0..IdleLimit. */
  lemma {:induction false} IdleStaysBounded(st: TcpState, events: seq<TcpEvent>)
    requires 0 <= st.idle <= IdleLimit
    requires EventsFit(events, |st.targets|)
    ensures 0 <= TcpRun(st, events).0.idle <= IdleLimit
    decreases |events|
  {
    if events != [] {
      assert events == [events[0]] + events[1..];
      UnfoldRun(st, events[0], events[1..]);
      if TcpStepOf(st, events[0]).Next? {
        IdleStaysBounded(TcpStepOf(st, events[0]).st, events[1..]);
      }
    }
  }

  /** An interrupted `poll` goes straight back to polling and changes nothing. */
  lemma InterruptedPollIsRetried(st: TcpState, rest: seq<TcpEvent>)
    requires EventsFit(rest, |st.targets|)
    ensures EventsFit([PollFailed(true)] + rest, |st.targets|)
    ensures TcpRun(st, [PollFailed(true)] + rest) == TcpRun(st, rest)
  {
    var events := [PollFailed(true)] + rest;
    assert EventsFit(events, |st.targets|) by {
      forall i | 0 <= i < |events| && events[i].Ready?
        ensures |events[i].revents| == |st.targets|
      {
        assert events[i] == rest[i - 1];
      }
    }
    UnfoldRun(st, PollFailed(true), rest);
  }

  /** Any other poll failure ends the loop in the state it found. */
  lemma OtherPollFailureExits(st: TcpState, rest: seq<TcpEvent>)
    requires EventsFit([PollFailed(false)] + rest, |st.targets|)
    ensures TcpRun(st, [PollFailed(false)] + rest) == (st, PollError)
  {
    UnfoldRun(st, PollFailed(false), rest);
  }

  /**
    A ready `poll` return keeps the idle counter.  It ends the loop as
    NoReadableSlot exactly when no slot has POLLIN.  Otherwise, with both
    lookups and the `accept` succeeding, it makes exactly one `accept` on
    the socket of the lowest readable slot, then one read, one write of the
    greeting and one close, all on the new connection; a failed `accept`
    is the one call made before the loop ends.
  */
  lemma ReadyStep(st: TcpState, revents: seq<bv16>, serverInfo: Option<HostInfo>, accepted: int, clientInfo: Option<HostInfo>)
    requires |revents| == |st.targets|
    ensures var s := TcpStepOf(st, Ready(revents, serverInfo, accepted, clientInfo));
      s.st.idle == st.idle && s.st.targets == Polled(st.targets, revents)
    ensures TcpStepOf(st, Ready(revents, serverInfo, accepted, clientInfo)).Exit? &&
            TcpStepOf(st, Ready(revents, serverInfo, accepted, clientInfo)).exit == NoReadableSlot
        <==> forall i :: 0 <= i < |revents| ==> !HasPollin(revents, i)
    ensures forall k :: 0 <= k < |revents| && HasPollin(revents, k) && (forall j :: 0 <= j < k ==> !HasPollin(revents, j)) ==>
      var s := TcpStepOf(st, Ready(revents, serverInfo, accepted, clientInfo));
      var fd := st.targets[k].fd;
      if serverInfo.None? then s.Exit? && s.exit == LookupFailed && s.st.ops == st.ops
      else if accepted == -1 then s.Exit? && s.exit == AcceptFailed && s.st.ops == st.ops + [Accepted(fd, -1)]
      else if clientInfo.None? then s.Exit? && s.exit == LookupFailed && s.st.ops == st.ops + [Accepted(fd, accepted)]
      else s.Next? && s.st.ops == st.ops + Cycle(fd, accepted, serverInfo.value)
  {
    var t := Polled(st.targets, revents);
    assert forall i :: 0 <= i < |t| ==> (IsReadable(t[i]) <==> HasPollin(revents, i));
    var index := FirstWhere(t, IsReadable);
    if index < |t| {
      assert HasPollin(revents, index);
    }
    forall k | 0 <= k < |revents| && HasPollin(revents, k) && (forall j :: 0 <= j < k ==> !HasPollin(revents, j))
      ensures index == k
    {
      FirstWhereUnique(t, IsReadable, k);
    }
  }

  /** The four calls of one served connection. */
  function Cycle(passive: Fd, conn: Fd, server: HostInfo): seq<Op>
  {
    [Accepted(passive, conn), ReadFrom(conn), WroteTo(conn, Greeting(server)), Closed(conn)]
  }

  /**
    The log is made of complete connection cycles on passive sockets among
    `fds`: each accepted connection is read from, written to and closed,
    and nothing else is touched.
  */
  ghost predicate Cycles(ops: seq<Op>, fds: set<Fd>)
    decreases |ops|
  {
    ops == [] ||
    (|ops| >= 4 && ops[0].Accepted? && ops[0].passive in fds && ops[0].result != -1 &&
     (exists server :: ops[..4] == Cycle(ops[0].passive, ops[0].result, server)) &&
     Cycles(ops[4..], fds))
  }

  lemma {:induction false} CyclesAppend(ops: seq<Op>, fds: set<Fd>, passive: Fd, conn: Fd, server: HostInfo)
    requires Cycles(ops, fds) && passive in fds && conn != -1
    ensures Cycles(ops + Cycle(passive, conn, server), fds)
    decreases |ops|
  {
    if ops == [] {
      var c := Cycle(passive, conn, server);
      assert [] + c == c && c[..4] == c && c[4..] == [];
    } else {
      CyclesAppend(ops[4..], fds, passive, conn, server);
      var all := ops + Cycle(passive, conn, server);
      assert all[..4] == ops[..4];
      assert all[4..] == ops[4..] + Cycle(passive, conn, server);
    }
  }

  /** The descriptors the targets watch. */
  ghost function FdsOfTargets(targets: seq<PollFd>): set<Fd>
  {
    set i | 0 <= i < |targets| :: targets[i].fd
  }

  /**
    Every connection the server accepts is served in full and closed before
    the next `poll`: unless the loop ends by a throw (a failed lookup or
    `accept`), the log of a run from a log of complete cycles is again made
    of complete cycles, all on watched passive sockets.
  */
  lemma {:induction false} RunServesWholeCycles(st: TcpState, events: seq<TcpEvent>)
    requires EventsFit(events, |st.targets|)
    requires Cycles(st.ops, FdsOfTargets(st.targets))
    ensures var r := TcpRun(st, events);
      r.1 != LookupFailed && r.1 != AcceptFailed ==> Cycles(r.0.ops, FdsOfTargets(st.targets))
    decreases |events|
  {
    if events != [] {
      var e := events[0];
      assert events == [e] + events[1..];
      UnfoldRun(st, e, events[1..]);
      var step := TcpStepOf(st, e);
      StepKeepsCycles(st, e);
      if step.Next? {
        RunServesWholeCycles(step.st, events[1..]);
      }
    }
  }

  /** One step keeps the watched descriptors, and a step that goes on adds only complete cycles on them. */
  lemma StepKeepsCycles(st: TcpState, e: TcpEvent)
    requires e.Ready? ==> |e.revents| == |st.targets|
    requires Cycles(st.ops, FdsOfTargets(st.targets))
    ensures FdsOfTargets(TcpStepOf(st, e).st.targets) == FdsOfTargets(st.targets)
    ensures TcpStepOf(st, e).Next? ==> Cycles(TcpStepOf(st, e).st.ops, FdsOfTargets(st.targets))
  {
    var step := TcpStepOf(st, e);
    StepKeepsFds(st, e);
    if e.Ready? && step.Next? {
      var t := Polled(st.targets, e.revents);
      var index := FirstWhere(t, IsReadable);
      assert t[index].fd == st.targets[index].fd;
      assert st.targets[index].fd in FdsOfTargets(st.targets);
      assert step.st.ops == st.ops + Cycle(t[index].fd, e.accepted, e.serverInfo.value);
      CyclesAppend(st.ops, FdsOfTargets(st.targets), t[index].fd, e.accepted, e.serverInfo.value);
    }
  }

  /** One step keeps the set of watched descriptors. */
  lemma StepKeepsFds(st: TcpState, e: TcpEvent)
    requires e.Ready? ==> |e.revents| == |st.targets|
    ensures FdsOfTargets(TcpStepOf(st, e).st.targets) == FdsOfTargets(st.targets)
  {
    var step := TcpStepOf(st, e);
    StepKeepsTargets(st, e);
    forall x ensures x in FdsOfTargets(step.st.targets) <==> x in FdsOfTargets(st.targets)
    {
      if x in FdsOfTargets(st.targets) {
        var i :| 0 <= i < |st.targets| && st.targets[i].fd == x;
        assert step.st.targets[i].fd == x;
      }
      if x in FdsOfTargets(step.st.targets) {
        var i :| 0 <= i < |step.st.targets| && step.st.targets[i].fd == x;
        assert st.targets[i].fd == x;
      }
    }
  }

  /** No close in `ops` names a descriptor of `fds`. */
  ghost predicate ClosesNone(ops: seq<Op>, fds: set<Fd>)
  {
    forall i :: 0 <= i < |ops| && ops[i].Closed? ==> ops[i].fd !in fds
  }

  /** Every connection `accept` hands out in the trace is a descriptor other than those of `fds`. */
  ghost predicate AcceptsOthers(events: seq<TcpEvent>, fds: set<Fd>)
  {
    forall i :: 0 <= i < |events| && events[i].Ready? ==> events[i].accepted !in fds
  }

  /**
    The poll loop closes only the connections it accepts: as long as
    `accept` never returns a watched descriptor, no passive socket is closed
    before the loop ends, however it ends.
  */
  lemma {:induction false} LoopNeverClosesPassive(st: TcpState, events: seq<TcpEvent>)
    requires EventsFit(events, |st.targets|)
    requires AcceptsOthers(events, FdsOfTargets(st.targets))
    requires ClosesNone(st.ops, FdsOfTargets(st.targets))
    ensures ClosesNone(TcpRun(st, events).0.ops, FdsOfTargets(st.targets))
    decreases |events|
  {
    if events != [] {
      var e := events[0];
      assert events == [e] + events[1..];
      UnfoldRun(st, e, events[1..]);
      var step := TcpStepOf(st, e);
      StepClosesOnlyAccepted(st, e, FdsOfTargets(st.targets));
      if step.Next? {
        StepKeepsFds(st, e);
        assert AcceptsOthers(events[1..], FdsOfTargets(st.targets)) by {
          forall i | 0 <= i < |events[1..]| && events[1..][i].Ready?
            ensures events[1..][i].accepted !in FdsOfTargets(st.targets)
          {
            assert events[1..][i] == events[i + 1];
          }
        }
        LoopNeverClosesPassive(step.st, events[1..]);
      }
    }
  }

  /** One step adds no close but that of the connection it accepted. */
  lemma StepClosesOnlyAccepted(st: TcpState, e: TcpEvent, fds: set<Fd>)
    requires e.Ready? ==> |e.revents| == |st.targets| && e.accepted !in fds
    requires ClosesNone(st.ops, fds)
    ensures ClosesNone(TcpStepOf(st, e).st.ops, fds)
  {
  }
}
