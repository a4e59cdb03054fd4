/**
  What the dual-stack UDP receiver and the dual-stack TCP server share: one
  passive socket per address that name resolution returns, IPv6 sockets
  restricted to IPv6 traffic (IPV6_V6ONLY, section 5.3 of RFC 3493), the
  sockets kept in a `std::map` keyed by descriptor, and a `pollfd` array
  built in that map's ascending order.

  The operating system's answers are inputs: the descriptor `socket()`
  returns for each resolution entry, what `setsockopt()` returns, and which
  sockets `bind()` (or `listen()`) fails on.
*/
module PassiveSockets {
  import opened FdMap
  import opened Wrappers

  type Fd = int

  datatype Family = Inet | Inet6

  /** A copy of a `sockaddr_storage`: its family and its (opaque) bytes. */
  datatype SockAddr = SockAddr(family: Family, raw: seq<int>)

  /** The value stored per socket: the resolved address and its `ai_addrlen`. */
  datatype Bound = Bound(addr: SockAddr, addrLen: nat)

  /** One `addrinfo` entry, with what `socket()` and `setsockopt(IPV6_V6ONLY)` return for it. */
  datatype Resolved = Resolved(addr: SockAddr, addrLen: nat, socketResult: int, v6onlyResult: int)

  /** What makes construction throw. */
  datatype SetupError = SocketFailed | V6OnlyFailed(fd: Fd) | BindFailed(fd: Fd)

  /** Names a host and service as `getnameinfo` gives them: by name and numerically. */
  datatype HostInfo = HostInfo(host: string, service: string, numericHost: string, numericService: string)

  /**
    The socket map, the sockets IPV6_V6ONLY was applied to, and every
    descriptor `socket()` returned, in order (none of them is closed during
    construction).
  */
  datatype SocketSet = SocketSet(table: Table<Bound>, v6only: set<Fd>, created: seq<Fd>)

  const EmptySet := SocketSet([], {}, [])

  /** Every IPv6 socket in the map has IPV6_V6ONLY set. */
  ghost predicate V6OnlyCovered(s: SocketSet)
  {
    forall fd :: fd in ToMap(s.table) && ToMap(s.table)[fd].addr.family == Inet6 ==> fd in s.v6only
  }

  /** The descriptors that the successful `socket()` calls of `entries` return. */
  function FdsOf(entries: seq<Resolved>): set<Fd>
  {
    set e | e in entries && e.socketResult >= 0 :: e.socketResult
  }

  /**
    The socket-creation loop over the resolution entries, in order:
    `socket()`, IPV6_V6ONLY on IPv6 sockets, then registration
    `map[sock] = (address, ai_addrlen)`.  The first failure stops the loop;
    the sockets created so far stay open.
  */
  ghost function OpenAll(s: SocketSet, entries: seq<Resolved>): (r: (SocketSet, Option<SetupError>))
    requires Ascending(s.table)
    ensures Ascending(r.0.table)
    ensures |s.created| <= |r.0.created| && r.0.created[..|s.created|] == s.created
    decreases |entries|
  {
    if entries == [] then (s, None)
    else
      var e := entries[0];
      if e.socketResult < 0 then (s, Some(SocketFailed))
      else
        var fd := e.socketResult;
        var s1 := s.(created := s.created + [fd]);
        if e.addr.family == Inet6 && e.v6onlyResult != 0 then (s1, Some(V6OnlyFailed(fd)))
        else
          var s2 := s1.(table := Put(s1.table, fd, Bound(e.addr, e.addrLen)),
                        v6only := if e.addr.family == Inet6 then s1.v6only + {fd} else s1.v6only);
          var r := OpenAll(s2, entries[1..]);
          assert r.0.created[..|s.created|] == r.0.created[..|s2.created|][..|s.created|];
          r
  }

  /**
    The creation loop, run over a socket set that grows in place: each
    entry's `socket()` result is recorded, IPV6_V6ONLY is applied to an IPv6
    socket, and the socket is registered in the map.
  */
  method OpenSockets(entries: seq<Resolved>) returns (s: SocketSet, err: Option<SetupError>)
    ensures (s, err) == OpenAll(EmptySet, entries)
  {
    s := EmptySet;
    var i := 0;
    while i < |entries|
      invariant 0 <= i <= |entries|
      invariant Ascending(s.table)
      invariant OpenAll(s, entries[i..]) == OpenAll(EmptySet, entries)
    {
      var e := entries[i];
      assert entries[i..] == [e] + entries[i + 1..];
      var sock := e.socketResult;
      if sock < 0 {
        return s, Some(SocketFailed);
      }
      s := s.(created := s.created + [sock]);
      if e.addr.family == Inet6 {
        if e.v6onlyResult != 0 {
          return s, Some(V6OnlyFailed(sock));
        }
        s := s.(v6only := s.v6only + {sock});
      }
      s := s.(table := Put(s.table, sock, Bound(e.addr, e.addrLen)));
      i := i + 1;
    }
    err := None;
  }

  /** One entry's step of the creation loop. */
  ghost predicate EntryOk(e: Resolved)
  {
    e.socketResult >= 0 && (e.addr.family == Inet6 ==> e.v6onlyResult == 0)
  }

  /** Construction gets past the creation loop exactly when every entry's calls succeed. */
  lemma {:induction false} OpenAllSucceedsIff(s: SocketSet, entries: seq<Resolved>)
    requires Ascending(s.table)
    ensures OpenAll(s, entries).1 == None <==> forall e :: e in entries ==> EntryOk(e)
    decreases |entries|
  {
    if entries != [] {
      var e := entries[0];
      if EntryOk(e) {
        var s2 := s.(created := s.created + [e.socketResult],
                     table := Put(s.table, e.socketResult, Bound(e.addr, e.addrLen)),
                     v6only := if e.addr.family == Inet6 then s.v6only + {e.socketResult} else s.v6only);
        OpenAllSucceedsIff(s2, entries[1..]);
        assert forall x :: x in entries ==> x == e || x in entries[1..];
      }
    }
  }

  /** IPV6_V6ONLY is set on an IPv6 socket before it is registered, so every registered IPv6 socket has it. */
  lemma {:induction false} OpenAllSetsV6Only(s: SocketSet, entries: seq<Resolved>)
    requires Ascending(s.table) && V6OnlyCovered(s)
    ensures V6OnlyCovered(OpenAll(s, entries).0)
    decreases |entries|
  {
    if entries != [] {
      var e := entries[0];
      if EntryOk(e) {
        var fd := e.socketResult;
        var s2 := s.(created := s.created + [fd],
                     table := Put(s.table, fd, Bound(e.addr, e.addrLen)),
                     v6only := if e.addr.family == Inet6 then s.v6only + {fd} else s.v6only);
        assert V6OnlyCovered(s2) by {
          forall k | k in ToMap(s2.table) && ToMap(s2.table)[k].addr.family == Inet6
            ensures k in s2.v6only
          {
            if k != fd {
              assert k in ToMap(s.table) && ToMap(s2.table)[k] == ToMap(s.table)[k];
            }
          }
        }
        OpenAllSetsV6Only(s2, entries[1..]);
      }
    }
  }

  /**
    After a successful creation loop, each entry's descriptor maps to that
    entry's address and length, unless a later entry reused the descriptor
    (the later assignment wins), and no other descriptor was added.
  */
  lemma {:induction false} OpenAllRegisters(s: SocketSet, entries: seq<Resolved>)
    requires Ascending(s.table)
    requires forall e :: e in entries ==> EntryOk(e)
    ensures var m := ToMap(OpenAll(s, entries).0.table);
      && (forall fd :: fd in m <==> fd in ToMap(s.table) || fd in FdsOf(entries))
      && forall i | 0 <= i < |entries| && LastUse(entries, i) ::
           entries[i].socketResult in m && m[entries[i].socketResult] == Bound(entries[i].addr, entries[i].addrLen)
    decreases |entries|
  {
    if entries != [] {
      var e := entries[0];
      var fd := e.socketResult;
      var s2 := s.(created := s.created + [fd],
                   table := Put(s.table, fd, Bound(e.addr, e.addrLen)),
                   v6only := if e.addr.family == Inet6 then s.v6only + {fd} else s.v6only);
      assert e in entries;
      assert OpenAll(s, entries) == OpenAll(s2, entries[1..]);
      OpenAllRegisters(s2, entries[1..]);
      var m := ToMap(OpenAll(s, entries).0.table);
      assert FdsOf(entries) == {fd} + FdsOf(entries[1..]) by {
        assert forall x :: x in entries <==> x == e || x in entries[1..];
      }
      forall i | 0 <= i < |entries| && LastUse(entries, i)
        ensures entries[i].socketResult in m && m[entries[i].socketResult] == Bound(entries[i].addr, entries[i].addrLen)
      {
        if i == 0 {
          OpenAllKeepsUntouched(s2, entries[1..], fd);
        } else {
          assert entries[1..][i - 1] == entries[i];
          assert LastUse(entries[1..], i - 1);
        }
      }
    }
  }

  /** No later entry returns the descriptor entry `i` returned. */
  ghost predicate LastUse(entries: seq<Resolved>, i: int)
    requires 0 <= i < |entries|
  {
    forall j :: i < j < |entries| ==> entries[j].socketResult != entries[i].socketResult
  }

  /** The creation loop leaves the entry of a descriptor that no entry returns as it was. */
  lemma {:induction false} OpenAllKeepsUntouched(s: SocketSet, entries: seq<Resolved>, fd: Fd)
    requires Ascending(s.table) && fd in ToMap(s.table)
    requires forall e :: e in entries ==> e.socketResult != fd
    ensures var m := ToMap(OpenAll(s, entries).0.table);
      fd in m && m[fd] == ToMap(s.table)[fd]
    decreases |entries|
  {
    if entries != [] && EntryOk(entries[0]) {
      var e := entries[0];
      assert e in entries;
      var s2 := s.(created := s.created + [e.socketResult],
                   table := Put(s.table, e.socketResult, Bound(e.addr, e.addrLen)),
                   v6only := if e.addr.family == Inet6 then s.v6only + {e.socketResult} else s.v6only);
      OpenAllKeepsUntouched(s2, entries[1..], fd);
    }
  }

  // ---------------------------------------------------------------------
  // Searching in iteration order
  // ---------------------------------------------------------------------

  /** The first position whose element satisfies `p`, or `|s|` when none does. */
  function FirstWhere<T>(s: seq<T>, p: T -> bool): (k: nat)
    ensures k <= |s|
    ensures forall j :: 0 <= j < k ==> !p(s[j])
    ensures k < |s| ==> p(s[k])
  {
    if s == [] then 0
    else if p(s[0]) then 0
    else 1 + FirstWhere(s[1..], p)
  }

  /** The bind loop: the first socket, in map order, whose `bind()` fails. */
  method FirstFailingBind(table: Table<Bound>, failing: set<Fd>) returns (r: Option<Fd>)
    ensures r == None <==> forall i :: 0 <= i < |table| ==> table[i].0 !in failing
    ensures r.Some? ==> exists k :: 0 <= k < |table| && table[k].0 == r.value && r.value in failing &&
                                    (forall j :: 0 <= j < k ==> table[j].0 !in failing)
  {
    for i := 0 to |table|
      invariant forall j :: 0 <= j < i ==> table[j].0 !in failing
    {
      if table[i].0 in failing {
        return Some(table[i].0);
      }
    }
    return None;
  }

  // ---------------------------------------------------------------------
  // The poll targets
  // ---------------------------------------------------------------------

  const POLLIN: bv16 := 0x0001
  const POLLERR: bv16 := 0x0008

  /** A `struct pollfd`. */
  datatype PollFd = PollFd(fd: Fd, events: bv16, revents: bv16)

  /** `targets[index].revents & POLLIN`. */
  predicate IsReadable(t: PollFd)
  {
    t.revents & POLLIN != 0
  }

  /** Whether slot `i` of a `poll` result is readable. */
  predicate HasPollin(revents: seq<bv16>, i: int)
    requires 0 <= i < |revents|
  {
    revents[i] & POLLIN != 0
  }

  /** The targets the setup loops produce for a socket map. */
  function Targets(table: Table<Bound>): seq<PollFd>
  {
    seq(|table|, i requires 0 <= i < |table| => PollFd(table[i].0, POLLIN | POLLERR, 0))
  }

  /**
    The target array: `num_targets` zeroed slots, then one slot per socket in
    the map's iteration order, watching POLLIN | POLLERR.
  */
  method MakeTargets(table: Table<Bound>) returns (targets: array<PollFd>)
    ensures fresh(targets) && targets[..] == Targets(table)
  {
    var numTargets := |table|;
    targets := new PollFd[numTargets](_ => PollFd(0, 0, 0));
    var index := 0;
    while index < numTargets
      invariant 0 <= index <= numTargets
      invariant forall i :: 0 <= i < index ==> targets[i] == PollFd(table[i].0, POLLIN | POLLERR, 0)
    {
      targets[index] := PollFd(table[index].0, POLLIN | POLLERR, 0);
      index := index + 1;
    }
    assert targets[..] == Targets(table);
  }

  /** The targets watch each socket of the map once, in ascending descriptor order. */
  lemma TargetsFollowMap(table: Table<Bound>)
    requires Ascending(table)
    ensures var targets := Targets(table);
      && (forall i :: 0 <= i < |targets| ==> targets[i].events == POLLIN | POLLERR && targets[i].revents == 0)
      && (forall i, j :: 0 <= i < j < |targets| ==> targets[i].fd < targets[j].fd)
      && forall fd :: fd in ToMap(table) <==> exists i :: 0 <= i < |targets| && targets[i].fd == fd
  {
    var targets := Targets(table);
    ToMapLookup(table);
    forall fd | fd in ToMap(table)
      ensures exists i :: 0 <= i < |targets| && targets[i].fd == fd
    {
      var i :| 0 <= i < |table| && Keys(table)[i] == fd;
      assert targets[i].fd == fd;
    }
  }

  /** What `poll` leaves in the targets: each slot's `revents` replaced. */
  function Polled(targets: seq<PollFd>, revents: seq<bv16>): seq<PollFd>
    requires |revents| == |targets|
  {
    seq(|targets|, i requires 0 <= i < |targets| => targets[i].(revents := revents[i]))
  }

  /**
    The selection loop `for (index = 0; index < num_targets; ++index) if
    (targets[index].revents & POLLIN) break;`: the first readable slot, or
    `targets.Length` when no slot is readable.
  */
  method SelectReady(targets: array<PollFd>) returns (index: nat)
    ensures index == FirstWhere(targets[..], IsReadable)
    ensures index <= targets.Length
    ensures index < targets.Length ==> IsReadable(targets[index])
    ensures forall j :: 0 <= j < index ==> !IsReadable(targets[j])
  {
    index := 0;
    while index < targets.Length
      invariant 0 <= index <= targets.Length
      invariant forall j :: 0 <= j < index ==> !IsReadable(targets[j])
    {
      if IsReadable(targets[index]) {
        break;
      }
      index := index + 1;
    }
    FirstWhereUnique(targets[..], IsReadable, index);
  }

  /** The position characterised by FirstWhere's contract is unique. */
  lemma FirstWhereUnique<T>(s: seq<T>, p: T -> bool, k: nat)
    requires k <= |s|
    requires forall j :: 0 <= j < k ==> !p(s[j])
    requires k < |s| ==> p(s[k])
    ensures k == FirstWhere(s, p)
  {
  }
}
