/**
  The dual-stack UDP receiver: one passive UDP socket per address that
  name resolution returns for the local port, a `poll` loop over all of
  them that gives up after a run of idle timeouts, and a per-socket,
  per-family registry of the senders seen, keyed by numeric host name.

  Each `poll` return is an event of a finite trace; the trace running out
  stands for the loop still running.  For a readable slot the event also
  carries what the `recvfrom` that follows reports (the sender's address
  family) and what `getnameinfo` yields for the sender (nothing when it
  fails, which throws).
*/
module DualUdp {
  import opened FdMap
  import opened Wrappers
  import opened PassiveSockets

  /** `shutdown_count`: consecutive timeouts after which the receiver stops. */
  const ShutdownCount := 20

  /** `map_sender_hosts_ipv4` / `map_sender_hosts_ipv6`: socket -> numeric host -> sender. */
  type Registry = map<Fd, map<string, HostInfo>>

  /** What one `poll` call returns (and, when readable, what follows it). */
  datatype UdpEvent =
    | Timeout
    | PollFailed(interrupted: bool)
    | Ready(revents: seq<bv16>, sender: Family, info: Option<HostInfo>)

  /** How the poll loop ends. */
  datatype UdpExit =
    | IdleShutdown   // `break` after ShutdownCount + 1 consecutive timeouts
    | PollError      // `break` on a poll failure other than EINTR
    | NoReadableSlot // no slot has POLLIN: `targets[num_targets]` is read out of range
    | LookupFailed   // `get_host_info` throws
    | StillRunning   // the trace ran out with the loop still going

  /** The state the loop changes: the idle counter, the targets, the two registries. */
  datatype UdpState = UdpState(idle: int, targets: seq<PollFd>, v4: Registry, v6: Registry)

  datatype UdpStep = Next(st: UdpState) | Exit(st: UdpState, exit: UdpExit)

  /** `poll` fills one `revents` per target. */
  ghost predicate EventsFit(events: seq<UdpEvent>, n: nat)
  {
    forall i :: 0 <= i < |events| && events[i].Ready? ==> |events[i].revents| == n
  }

  /**
    Registration of a sender under the socket it arrived on: the socket's
    map is created when absent, and the sender is inserted only when its
    numeric host name is not there yet.
  */
  function Register(reg: Registry, fd: Fd, info: HostInfo): (r: Registry)
    ensures r.Keys == reg.Keys + {fd}
    ensures forall k :: k in reg && k != fd ==> r[k] == reg[k]
    ensures r[fd].Keys == (if fd in reg then reg[fd].Keys else {}) + {info.numericHost}
    ensures fd in reg ==> forall h :: h in reg[fd] ==> r[fd][h] == reg[fd][h]
    ensures (fd !in reg || info.numericHost !in reg[fd]) ==> r[fd][info.numericHost] == info
  {
    var inner := if fd in reg then reg[fd] else map[];
    reg[fd := if info.numericHost in inner then inner else inner[info.numericHost := info]]
  }

  /** One pass of the loop body for one `poll` return. */
  function UdpStepOf(st: UdpState, e: UdpEvent): UdpStep
    requires e.Ready? ==> |e.revents| == |st.targets|
  {
    match e
    case Timeout =>
      if st.idle < ShutdownCount then Next(st.(idle := st.idle + 1))
      else if st.idle == ShutdownCount then Exit(st, IdleShutdown)
      else Next(st.(idle := 0))
    case PollFailed(interrupted) =>
      if interrupted then Next(st) else Exit(st, PollError)
    case Ready(revents, sender, info) =>
      var t := Polled(st.targets, revents);
      var index := FirstWhere(t, IsReadable);
      var st1 := st.(idle := 0, targets := t);
      if index == |t| then Exit(st1, NoReadableSlot)
      else if info.None? then Exit(st1, LookupFailed)
      else if sender == Inet6 then Next(st1.(v6 := Register(st.v6, t[index].fd, info.value)))
      else Next(st1.(v4 := Register(st.v4, t[index].fd, info.value)))
  }

  /** The state the first step leaves keeps the targets' descriptors and interests. */
  lemma StepKeepsTargets(st: UdpState, e: UdpEvent)
    requires e.Ready? ==> |e.revents| == |st.targets|
    ensures var s := UdpStepOf(st, e).st;
      |s.targets| == |st.targets| &&
      forall i :: 0 <= i < |s.targets| ==> s.targets[i].fd == st.targets[i].fd && s.targets[i].events == st.targets[i].events
  {
  }

  /** The loop over a trace of `poll` returns: the final state and how it ended. */
  ghost function UdpRun(st: UdpState, events: seq<UdpEvent>): (r: (UdpState, UdpExit))
    requires EventsFit(events, |st.targets|)
    ensures |r.0.targets| == |st.targets|
    ensures forall i :: 0 <= i < |st.targets| ==>
      r.0.targets[i].fd == st.targets[i].fd && r.0.targets[i].events == st.targets[i].events
    decreases |events|
  {
    if events == [] then (st, StillRunning)
    else
      assert events[0].Ready? ==> |events[0].revents| == |st.targets|;
      StepKeepsTargets(st, events[0]);
      match UdpStepOf(st, events[0])
      case Exit(s, x) => (s, x)
      case Next(s) =>
        assert EventsFit(events[1..], |s.targets|) by {
          forall i | 0 <= i < |events[1..]| && events[1..][i].Ready?
            ensures |events[1..][i].revents| == |s.targets|
          {
            assert events[1..][i] == events[i + 1];
          }
        }
        UdpRun(s, events[1..])
  }

  /** A trace that starts with one event steps once, then runs on. */
  lemma UnfoldRun(st: UdpState, e: UdpEvent, rest: seq<UdpEvent>)
    requires EventsFit([e] + rest, |st.targets|)
    ensures EventsFit(rest, |st.targets|)
    ensures e.Ready? ==> |e.revents| == |st.targets|
    ensures UdpStepOf(st, e).Next? ==> |UdpStepOf(st, e).st.targets| == |st.targets|
    ensures UdpRun(st, [e] + rest) ==
      var step := UdpStepOf(st, e);
      if step.Exit? then (step.st, step.exit) else UdpRun(step.st, rest)
  {
    var events := [e] + rest;
    assert events[0] == e && events[1..] == rest;
    assert EventsFit(rest, |st.targets|) by {
      forall i | 0 <= i < |rest| && rest[i].Ready?
        ensures |rest[i].revents| == |st.targets|
      {
        assert rest[i] == events[i + 1];
      }
    }
    assert e.Ready? ==> |e.revents| == |st.targets|;
    StepKeepsTargets(st, e);
  }

  // ---------------------------------------------------------------------
  // The receiver
  // ---------------------------------------------------------------------

  /** The receiver's global state: the socket map and the two sender registries. */
  class DualUdpReceiver {
    var sockets: Table<Bound>
    var v6only: set<Fd>
    var created: seq<Fd>
    var sendersV4: Registry
    var sendersV6: Registry
    /** The descriptors closed, in order. */
    var closed: seq<Fd>

    ghost predicate Valid()
      reads this
    {
      Ascending(sockets)
    }

    function Setup(): SocketSet
      reads this
    {
      SocketSet(sockets, v6only, created)
    }

    constructor ()
      ensures Valid() && Setup() == EmptySet
      ensures sendersV4 == map[] && sendersV6 == map[] && closed == []
    {
      sockets := [];
      v6only := {};
      created := [];
      sendersV4 := map[];
      sendersV6 := map[];
      closed := [];
    }

    /** Step 2: create and register one socket per resolution entry. */
    method MakeSockets(entries: seq<Resolved>) returns (err: Option<SetupError>)
      modifies this
      requires Setup() == EmptySet
      ensures Valid()
      ensures (Setup(), err) == OpenAll(EmptySet, entries)
      ensures sendersV4 == old(sendersV4) && sendersV6 == old(sendersV6) && closed == old(closed)
    {
      var s;
      s, err := OpenSockets(entries);
      sockets, v6only, created := s.table, s.v6only, s.created;
    }

    /**
      The `while (true)` poll loop over `targets`, which `poll` updates in
      place, for the trace `events`.
    */
    method Serve(targets: array<PollFd>, events: seq<UdpEvent>) returns (exit: UdpExit)
      modifies this`sendersV4, this`sendersV6, targets
      requires EventsFit(events, targets.Length)
      ensures var r := UdpRun(UdpState(0, old(targets[..]), old(sendersV4), old(sendersV6)), events);
        exit == r.1 && targets[..] == r.0.targets && sendersV4 == r.0.v4 && sendersV6 == r.0.v6
      ensures Setup() == old(Setup()) && closed == old(closed)
    {
      ghost var init := UdpState(0, targets[..], sendersV4, sendersV6);
      var timeoutCount := 0;
      var i := 0;
      while i < |events|
        modifies this`sendersV4, this`sendersV6, targets
        invariant 0 <= i <= |events|
        invariant EventsFit(events[i..], targets.Length)
        invariant UdpRun(UdpState(timeoutCount, targets[..], sendersV4, sendersV6), events[i..]) == UdpRun(init, events)
      {
        ghost var cur := UdpState(timeoutCount, targets[..], sendersV4, sendersV6);
        var e := events[i];
        assert events[i..] == [e] + events[i + 1..];
        UnfoldRun(cur, e, events[i + 1..]);
        match e {
          case Timeout =>
            if timeoutCount < ShutdownCount {
              timeoutCount := timeoutCount + 1;
            } else if timeoutCount == ShutdownCount {
              return IdleShutdown;
            } else {
              timeoutCount := 0;
            }
          case PollFailed(interrupted) =>
            if !interrupted {
              return PollError;
            }
          case Ready(revents, sender, info) =>
            var stop := OnReady(targets, timeoutCount, revents, sender, info);
            timeoutCount := 0;
            if stop.Some? {
              return stop.value;
            }
        }
        assert UdpStepOf(cur, e) == Next(UdpState(timeoutCount, targets[..], sendersV4, sendersV6));
        i := i + 1;
      }
      exit := StillRunning;
    }

    /**
      One ready `poll` return: `poll` writes the `revents`, the first
      readable slot is selected, and its sender is registered.  `stop` is
      the exit the pass takes instead, if any.
    */
    method OnReady(targets: array<PollFd>, ghost idle: int, revents: seq<bv16>, sender: Family, info: Option<HostInfo>)
      returns (stop: Option<UdpExit>)
      modifies this`sendersV4, this`sendersV6, targets
      requires |revents| == targets.Length
      ensures var step := UdpStepOf(UdpState(idle, old(targets[..]), old(sendersV4), old(sendersV6)), Ready(revents, sender, info));
        && (stop.Some? <==> step.Exit?)
        && (stop.Some? ==> stop.value == step.exit)
        && targets[..] == step.st.targets && sendersV4 == step.st.v4 && sendersV6 == step.st.v6
      ensures Setup() == old(Setup()) && closed == old(closed)
    {
      ghost var before := targets[..];
      ghost var step := UdpStepOf(UdpState(idle, before, sendersV4, sendersV6), Ready(revents, sender, info));
      // what `poll` writes into the targets
      for k := 0 to targets.Length
        modifies targets
        invariant forall j :: 0 <= j < k ==> targets[j] == before[j].(revents := revents[j])
        invariant forall j :: k <= j < targets.Length ==> targets[j] == before[j]
      {
        targets[k] := targets[k].(revents := revents[k]);
      }
      assert targets[..] == Polled(before, revents);
      var index := SelectReady(targets);
      assert index == FirstWhere(Polled(before, revents), IsReadable);
      if index == targets.Length {
        assert step == Exit(step.st, NoReadableSlot);
        return Some(NoReadableSlot);
      }
      var passiveSocket := targets[index].fd;
      if info.None? {
        assert step == Exit(step.st, LookupFailed);
        return Some(LookupFailed);
      }
      assert step.Next? && step.st.targets == targets[..];
      RegisterSender(passiveSocket, sender, info.value);
      stop := None;
    }

    /**
      Registration under `passiveSocket` in the registry of the sender's
      family: `operator[]` creates the socket's map when absent, and the
      sender goes in only when its numeric host name is not there yet.
    */
    method RegisterSender(passiveSocket: Fd, sender: Family, host: HostInfo)
      modifies this`sendersV4, this`sendersV6
      ensures sendersV6 == if sender == Inet6 then Register(old(sendersV6), passiveSocket, host) else old(sendersV6)
      ensures sendersV4 == if sender == Inet6 then old(sendersV4) else Register(old(sendersV4), passiveSocket, host)
      ensures Setup() == old(Setup()) && closed == old(closed)
    {
      if sender == Inet6 {
        var inner := if passiveSocket in sendersV6 then sendersV6[passiveSocket] else map[];
        sendersV6 := sendersV6[passiveSocket := inner];
        if host.numericHost !in inner {
          sendersV6 := sendersV6[passiveSocket := inner[host.numericHost := host]];
        }
      } else {
        var inner := if passiveSocket in sendersV4 then sendersV4[passiveSocket] else map[];
        sendersV4 := sendersV4[passiveSocket := inner];
        if host.numericHost !in inner {
          sendersV4 := sendersV4[passiveSocket := inner[host.numericHost := host]];
        }
      }
    }

    /** The close loop: every socket of the map, in map order. */
    method CloseAll()
      modifies this`closed
      requires Valid()
      ensures closed == old(closed) + Keys(sockets)
      ensures forall i, j :: |old(closed)| <= i < j < |closed| ==> closed[i] < closed[j]
      ensures Setup() == old(Setup()) && sendersV4 == old(sendersV4) && sendersV6 == old(sendersV6)
    {
      ghost var keys := Keys(sockets);
      for i := 0 to |sockets|
        modifies this`closed
        invariant closed == old(closed) + keys[..i]
      {
        assert keys[..i + 1] == keys[..i] + [sockets[i].0];
        closed := closed + [sockets[i].0];
      }
      assert keys[..|sockets|] == keys;
      forall i, j | |old(closed)| <= i < j < |closed|
        ensures closed[i] < closed[j]
      {
        assert closed[i] == sockets[i - |old(closed)|].0 && closed[j] == sockets[j - |old(closed)|].0;
      }
    }
  }

  /** How `main` ends: construction throws, or the poll loop stops. */
  datatype UdpOutcome = SetupFailed(error: SetupError) | Stopped(exit: UdpExit)

  /** The loop exits that reach the close loop (`break`), as opposed to a throw. */
  predicate Breaks(x: UdpExit)
  {
    x == IdleShutdown || x == PollError
  }

  /**
    `main`: resolution entries `entries`, the sockets `bind` fails on, and
    the `poll` trace.  A construction failure throws before any polling and
    skips the close loop; a `break` out of the poll loop closes every
    socket; a throw out of it (or the out-of-range read) closes none.
  */
  method RunReceiver(entries: seq<Resolved>, bindFailing: set<Fd>, events: seq<UdpEvent>)
    returns (rx: DualUdpReceiver, outcome: UdpOutcome)
    requires EventsFit(events, |OpenAll(EmptySet, entries).0.table|)
    ensures fresh(rx)
    ensures var s := OpenAll(EmptySet, entries).0;
      var err := OpenAll(EmptySet, entries).1;
      && rx.Setup() == s
      && (err.Some? ==> outcome == SetupFailed(err.value))
      && (err.None? && (exists i :: 0 <= i < |s.table| && s.table[i].0 in bindFailing) ==>
           outcome.SetupFailed? && outcome.error.BindFailed?)
      && (outcome.SetupFailed? ==> rx.closed == [] && rx.sendersV4 == map[] && rx.sendersV6 == map[])
      && (outcome.SetupFailed? <==> err.Some? || exists i :: 0 <= i < |s.table| && s.table[i].0 in bindFailing)
      && (err.None? && outcome.SetupFailed? ==>
           exists k :: 0 <= k < |s.table| && s.table[k].0 == outcome.error.fd && outcome.error.fd in bindFailing &&
                       forall j :: 0 <= j < k ==> s.table[j].0 !in bindFailing)
      && (outcome.Stopped? ==>
           err.None? && (forall i :: 0 <= i < |s.table| ==> s.table[i].0 !in bindFailing) &&
           var r := UdpRun(UdpState(0, Targets(s.table), map[], map[]), events);
           && outcome.exit == r.1
           && rx.sendersV4 == r.0.v4 && rx.sendersV6 == r.0.v6
           && rx.closed == if Breaks(r.1) then Keys(s.table) else [])
  {
    rx := new DualUdpReceiver();
    var err := rx.MakeSockets(entries);
    if err.Some? {
      return rx, SetupFailed(err.value);
    }
    // step 3: the first failing bind throws
    var failed := FirstFailingBind(rx.sockets, bindFailing);
    if failed.Some? {
      return rx, SetupFailed(BindFailed(failed.value));
    }
    var targets := MakeTargets(rx.sockets);
    var exit := rx.Serve(targets, events);
    if Breaks(exit) {
      rx.CloseAll();
    }
    outcome := Stopped(exit);
  }

  // ---------------------------------------------------------------------
  // Properties of the loop
  // ---------------------------------------------------------------------

  /** `n` consecutive timeouts. */
  function Timeouts(n: nat): (ts: seq<UdpEvent>)
    ensures |ts| == n && forall i :: 0 <= i < n ==> ts[i] == Timeout
  {
    seq(n, _ => Timeout)
  }

  /** Timeouts are no `Ready` events. */
  lemma TimeoutsFit(n: nat, rest: seq<UdpEvent>, m: nat)
    requires EventsFit(rest, m)
    ensures EventsFit(Timeouts(n) + rest, m)
  {
    var events := Timeouts(n) + rest;
    forall i | 0 <= i < |events| && events[i].Ready?
      ensures |events[i].revents| == m
    {
      assert events[i] == rest[i - n];
    }
  }

  /** Each timeout below ShutdownCount counts one up and keeps the loop going. */
  lemma {:induction false} TimeoutsCountUp(st: UdpState, n: nat, rest: seq<UdpEvent>)
    requires 0 <= st.idle && st.idle + n <= ShutdownCount
    requires EventsFit(rest, |st.targets|)
    ensures EventsFit(Timeouts(n) + rest, |st.targets|)
    ensures UdpRun(st, Timeouts(n) + rest) == UdpRun(st.(idle := st.idle + n), rest)
    decreases n
  {
    TimeoutsFit(n, rest, |st.targets|);
    if n > 0 {
      assert Timeouts(n) + rest == [Timeout] + (Timeouts(n - 1) + rest);
      TimeoutsFit(n - 1, rest, |st.targets|);
      UnfoldRun(st, Timeout, Timeouts(n - 1) + rest);
      TimeoutsCountUp(st.(idle := st.idle + 1), n - 1, rest);
    } else {
      assert Timeouts(n) + rest == rest;
    }
  }

  /**
    From an idle count of `c` (at most ShutdownCount), the loop stops on the
    (ShutdownCount + 1 - c)-th consecutive timeout, whatever follows.  From
    a fresh count that is the 21st.
  */
  lemma IdleShutdownOnTimeoutRun(st: UdpState, rest: seq<UdpEvent>)
    requires 0 <= st.idle <= ShutdownCount
    requires EventsFit(rest, |st.targets|)
    ensures EventsFit(Timeouts(ShutdownCount + 1 - st.idle) + rest, |st.targets|)
    ensures UdpRun(st, Timeouts(ShutdownCount + 1 - st.idle) + rest) == (st.(idle := ShutdownCount), IdleShutdown)
  {
    var n := ShutdownCount - st.idle;
    var last := [Timeout] + rest;
    TimeoutsThenOne(n, rest);
    TimeoutsFit(1, rest, |st.targets|);
    TimeoutsFit(n + 1, rest, |st.targets|);
    TimeoutsCountUp(st, n, last);
    UnfoldRun(st.(idle := ShutdownCount), Timeout, rest);
  }

  /** One more timeout in front of the rest is one more in the run. */
  lemma TimeoutsThenOne(n: nat, rest: seq<UdpEvent>)
    ensures Timeouts(1) + rest == [Timeout] + rest
    ensures Timeouts(n + 1) + rest == Timeouts(n) + ([Timeout] + rest)
  {
    assert Timeouts(1) == [Timeout];
    assert Timeouts(n + 1) == Timeouts(n) + [Timeout];
  }

  /** Fewer consecutive timeouts than that leave the loop running. */
  lemma FewerTimeoutsKeepRunning(st: UdpState, n: nat)
    requires 0 <= st.idle && st.idle + n <= ShutdownCount
    ensures EventsFit(Timeouts(n), |st.targets|)
    ensures UdpRun(st, Timeouts(n)) == (st.(idle := st.idle + n), StillRunning)
  {
    TimeoutsCountUp(st, n, []);
    assert Timeouts(n) + [] == Timeouts(n);
  }

  /**
    The idle counter never leaves 0..ShutdownCount, so the reset branch of
    the timeout case (a count above ShutdownCount) is never taken.
  */
  lemma {:induction false} IdleStaysBounded(st: UdpState, events: seq<UdpEvent>)
    requires 0 <= st.idle <= ShutdownCount
    requires EventsFit(events, |st.targets|)
    ensures 0 <= UdpRun(st, events).0.idle <= ShutdownCount
    decreases |events|
  {
    if events != [] {
      assert events == [events[0]] + events[1..];
      UnfoldRun(st, events[0], events[1..]);
      if UdpStepOf(st, events[0]).Next? {
        IdleStaysBounded(UdpStepOf(st, events[0]).st, events[1..]);
      }
    }
  }

  /** With the counter in range a timeout either counts up or stops the loop; it never resets. */
  lemma TimeoutNeverResets(st: UdpState)
    requires 0 <= st.idle <= ShutdownCount
    ensures UdpStepOf(st, Timeout) ==
      if st.idle < ShutdownCount then Next(st.(idle := st.idle + 1)) else Exit(st, IdleShutdown)
  {
  }

  /** An interrupted `poll` goes straight back to polling and changes nothing. */
  lemma InterruptedPollIsRetried(st: UdpState, rest: seq<UdpEvent>)
    requires EventsFit(rest, |st.targets|)
    ensures EventsFit([PollFailed(true)] + rest, |st.targets|)
    ensures UdpRun(st, [PollFailed(true)] + rest) == UdpRun(st, rest)
  {
    var events := [PollFailed(true)] + rest;
    assert EventsFit(events, |st.targets|) by {
      forall i | 0 <= i < |events| && events[i].Ready?
        ensures |events[i].revents| == |st.targets|
      {
        assert events[i] == rest[i - 1];
      }
    }
    UnfoldRun(st, PollFailed(true), rest);
  }

  /** Any other poll failure ends the loop in the state it found. */
  lemma OtherPollFailureExits(st: UdpState, rest: seq<UdpEvent>)
    requires EventsFit([PollFailed(false)] + rest, |st.targets|)
    ensures UdpRun(st, [PollFailed(false)] + rest) == (st, PollError)
  {
    UnfoldRun(st, PollFailed(false), rest);
  }

  /**
    A ready `poll` return resets the idle counter.  It ends the loop as
    NoReadableSlot exactly when no slot has POLLIN; otherwise the sender is
    registered under the socket of the lowest readable slot, in the map of
    its address family, and the other family's registry is unchanged.
  */
  lemma ReadyStep(st: UdpState, revents: seq<bv16>, sender: Family, info: Option<HostInfo>)
    requires |revents| == |st.targets|
    ensures UdpStepOf(st, Ready(revents, sender, info)).st.idle == 0
    ensures UdpStepOf(st, Ready(revents, sender, info)) == Exit(UdpStepOf(st, Ready(revents, sender, info)).st, NoReadableSlot)
        <==> forall i :: 0 <= i < |revents| ==> !HasPollin(revents, i)
    ensures forall k :: 0 <= k < |revents| && HasPollin(revents, k) && (forall j :: 0 <= j < k ==> !HasPollin(revents, j)) ==>
      var s := UdpStepOf(st, Ready(revents, sender, info));
      var fd := st.targets[k].fd;
      if info.None? then s.Exit? && s.exit == LookupFailed
      else if sender == Inet6 then s == Next(s.st) && s.st.v6 == Register(st.v6, fd, info.value) && s.st.v4 == st.v4
      else s == Next(s.st) && s.st.v4 == Register(st.v4, fd, info.value) && s.st.v6 == st.v6
  {
    var t := Polled(st.targets, revents);
    assert forall i :: 0 <= i < |t| ==> (IsReadable(t[i]) <==> HasPollin(revents, i));
    var index := FirstWhere(t, IsReadable);
    if index < |t| {
      assert HasPollin(revents, index);
    }
    forall k | 0 <= k < |revents| && HasPollin(revents, k) && (forall j :: 0 <= j < k ==> !HasPollin(revents, j))
      ensures index == k
    {
      FirstWhereUnique(t, IsReadable, k);
    }
  }

  /**
    First sighting wins: a sender registered under a socket stays registered
    with the same information for the rest of the run, in both registries.
  */
  lemma {:induction false} RegistryEntriesPersist(st: UdpState, events: seq<UdpEvent>, fd: Fd, host: string)
    requires EventsFit(events, |st.targets|)
    ensures var s := UdpRun(st, events).0;
      && (fd in st.v4 && host in st.v4[fd] ==> fd in s.v4 && host in s.v4[fd] && s.v4[fd][host] == st.v4[fd][host])
      && (fd in st.v6 && host in st.v6[fd] ==> fd in s.v6 && host in s.v6[fd] && s.v6[fd][host] == st.v6[fd][host])
    decreases |events|
  {
    if events != [] {
      assert events == [events[0]] + events[1..];
      UnfoldRun(st, events[0], events[1..]);
      StepKeepsEntries(st, events[0], fd, host);
      if UdpStepOf(st, events[0]).Next? {
        RegistryEntriesPersist(UdpStepOf(st, events[0]).st, events[1..], fd, host);
      }
    }
  }

  /** One step never drops or overwrites a registered sender. */
  lemma StepKeepsEntries(st: UdpState, e: UdpEvent, fd: Fd, host: string)
    requires e.Ready? ==> |e.revents| == |st.targets|
    ensures var s := UdpStepOf(st, e).st;
      && (fd in st.v4 && host in st.v4[fd] ==> fd in s.v4 && host in s.v4[fd] && s.v4[fd][host] == st.v4[fd][host])
      && (fd in st.v6 && host in st.v6[fd] ==> fd in s.v6 && host in s.v6[fd] && s.v6[fd][host] == st.v6[fd][host])
  {
  }
}
