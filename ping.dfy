/**
  The ICMP echo client of SimplePing (the `__MACH__` branches): it builds an
  Echo Request (type 8, code 0, section "Echo or Echo Reply Message" of
  RFC 792), validates the Echo Reply that arrives behind an IPv4 header
  (section 3.1 of RFC 791), retries while polling, and averages the
  round-trip times of the attempts that succeed.

  The operating system is an input: whether the name resolves, what
  `sendto` returns, what each `poll` reports, the bytes `recvfrom` leaves in
  the receive buffer, and the round-trip time in milliseconds computed from
  the clock (kept opaque, as is the send timestamp).
*/
module Ping {
  import opened InternetChecksum

  const BUFSIZE: nat := 1500
  const ECHO_HDR_SIZE: nat := 8
  /** sizeof(struct timeval) on 64-bit macOS. */
  const TIMEVAL_SIZE: nat := 16
  const ICMP_ECHO: Byte := 8
  const ICMP_ECHOREPLY: Byte := 0
  const PAD: Byte := 0xA5
  /** macOS runs little-endian on both x86-64 and arm64. */
  const HostOrder: ByteOrder := LittleEndian

  /** The value of a 16-bit field stored in network byte order (what `ntohs` reads). */
  function Net16(hi: Byte, lo: Byte): nat
  {
    Word(hi, lo, BigEndian)
  }

  /** `(unsigned short)getpid()`: the identifier the process puts in and expects in replies. */
  function EchoId(pid: int): nat
  {
    pid % 65536
  }

  /**
    The Echo Request SendPing hands to `sendto`: `len` bytes; type ICMP_ECHO,
    code 0; identifier and sequence number in network byte order; bytes from 8
    on hold the timestamp (as far as `len` reaches) and then 0xA5 padding; the
    checksum field holds the checksum of the packet with that field zero, and
    the whole packet checksums to 0.
  */
  ghost predicate IsEchoRequest(wire: seq<Byte>, len: int, pid: int, sqc: nat, stamp: seq<Byte>)
  {
    && |stamp| == TIMEVAL_SIZE
    && |wire| == len >= ECHO_HDR_SIZE
    && wire[0] == ICMP_ECHO && wire[1] == 0
    && Net16(wire[4], wire[5]) == EchoId(pid)
    && Net16(wire[6], wire[7]) == sqc
    && (forall i :: ECHO_HDR_SIZE <= i < len ==>
          wire[i] == if i < ECHO_HDR_SIZE + TIMEVAL_SIZE then stamp[i - ECHO_HDR_SIZE] else PAD)
    && Word(wire[2], wire[3], HostOrder) == Checksum(wire[2 := 0][3 := 0], HostOrder)
    && Checksum(wire, HostOrder) == 0
  }

  /**
    The part of SendPing that fills the zeroed send buffer: header fields,
    the 0xA5 padding loop over bytes 8..len-1, then the timestamp copied over
    the first TIMEVAL_SIZE of them.  The checksum field stays zero.
  */
  method FillRequest(sbuff: array<Byte>, pid: int, len: int, sqc: nat, sendtime: seq<Byte>)
    requires sbuff.Length == BUFSIZE && forall i :: 0 <= i < BUFSIZE ==> sbuff[i] == 0
    requires sqc < 65536 && |sendtime| == TIMEVAL_SIZE
    requires ECHO_HDR_SIZE <= len <= BUFSIZE
    modifies sbuff
    ensures sbuff[0] == ICMP_ECHO && sbuff[1] == 0 && sbuff[2] == 0 && sbuff[3] == 0
    ensures Net16(sbuff[4], sbuff[5]) == EchoId(pid) && Net16(sbuff[6], sbuff[7]) == sqc
    ensures forall i :: ECHO_HDR_SIZE <= i < len ==>
      sbuff[i] == if i < ECHO_HDR_SIZE + TIMEVAL_SIZE then sendtime[i - ECHO_HDR_SIZE] else PAD
    ensures forall i :: ECHO_HDR_SIZE <= i < ECHO_HDR_SIZE + TIMEVAL_SIZE ==> sbuff[i] == sendtime[i - ECHO_HDR_SIZE]
    ensures forall i :: len <= i < BUFSIZE && ECHO_HDR_SIZE + TIMEVAL_SIZE <= i ==> sbuff[i] == 0
  {
    sbuff[0] := ICMP_ECHO;
    sbuff[1] := 0;
    var id := EchoId(pid);
    sbuff[4], sbuff[5] := id / 256, id % 256;
    sbuff[6], sbuff[7] := sqc / 256, sqc % 256;
    var ptr := ECHO_HDR_SIZE;
    var psize := len - ECHO_HDR_SIZE;
    while psize != 0
      invariant ptr + psize == len && ECHO_HDR_SIZE <= ptr <= len
      invariant sbuff[0] == ICMP_ECHO && sbuff[1] == 0 && sbuff[2] == 0 && sbuff[3] == 0
      invariant Net16(sbuff[4], sbuff[5]) == id && Net16(sbuff[6], sbuff[7]) == sqc
      invariant forall i :: ECHO_HDR_SIZE <= i < ptr ==> sbuff[i] == PAD
      invariant forall i :: ptr <= i < BUFSIZE ==> sbuff[i] == 0
    {
      sbuff[ptr] := PAD;
      ptr := ptr + 1;
      psize := psize - 1;
    }
    // memcpy(ptr, sendtime, sizeof(struct timeval)), within the BUFSIZE buffer
    for k := 0 to TIMEVAL_SIZE
      invariant sbuff[0] == ICMP_ECHO && sbuff[1] == 0 && sbuff[2] == 0 && sbuff[3] == 0
      invariant Net16(sbuff[4], sbuff[5]) == id && Net16(sbuff[6], sbuff[7]) == sqc
      invariant forall i :: ECHO_HDR_SIZE <= i < ECHO_HDR_SIZE + k ==> sbuff[i] == sendtime[i - ECHO_HDR_SIZE]
      invariant forall i :: ECHO_HDR_SIZE + k <= i < len ==> sbuff[i] == PAD
      invariant forall i :: ECHO_HDR_SIZE + k <= i < BUFSIZE && len <= i ==> sbuff[i] == 0
    {
      sbuff[ECHO_HDR_SIZE + k] := sendtime[k];
    }
  }

  /**
    SendPing: returns -100 when the name cannot be resolved (nothing is
    built or sent); otherwise builds the request in a zeroed BUFSIZE buffer,
    stores its checksum, and returns 0 exactly when `sendto` reports `len`
    bytes sent, -1000 otherwise.  `wire` is what is handed to `sendto`.  A
    length below ECHO_HDR_SIZE makes the padding loop run past the buffer, and
    one above BUFSIZE overruns it.
  */
  method SendPing(resolved: bool, pid: int, len: int, sqc: nat, sendtime: seq<Byte>, sent: int)
    returns (code: int, wire: seq<Byte>)
    requires sqc < 65536 && |sendtime| == TIMEVAL_SIZE
    requires resolved ==> ECHO_HDR_SIZE <= len <= BUFSIZE
    ensures !resolved ==> code == -100 && wire == []
    ensures resolved ==> IsEchoRequest(wire, len, pid, sqc, sendtime)
    ensures resolved ==> (code == 0 <==> sent == len) && (code == 0 || code == -1000)
  {
    if !resolved {
      return -100, [];
    }
    var sbuff := new Byte[BUFSIZE](_ => 0);
    FillRequest(sbuff, pid, len, sqc, sendtime);
    ghost var unsummed := sbuff[..len];
    var c := CalcChecksum(sbuff, len, HostOrder);
    var bytes := Store16(c, HostOrder);
    sbuff[2], sbuff[3] := bytes.0, bytes.1;
    wire := sbuff[..len];
    assert wire == WithChecksum(unsummed, c, HostOrder);
    assert wire[2 := 0][3 := 0] == unsummed;
    ChecksumRoundTrip(unsummed, HostOrder);
    assert forall i :: 4 <= i < len ==> wire[i] == unsummed[i];
    code := if sent == len then 0 else -1000;
  }

  // ---------------------------------------------------------------------
  // Validating a reply
  // ---------------------------------------------------------------------

  /** `iph->ip_hl * 4`: the IPv4 header length, from the low nibble of the first byte. */
  function HeaderBytes(buf: seq<Byte>): (n: nat)
    requires |buf| > 0
    ensures n <= 60 && n % 4 == 0
  {
    buf[0] % 16 * 4
  }

  /** Every byte at positions `from` up to (not including) `to` is the padding byte. */
  ghost predicate PaddingIntact(buf: seq<Byte>, from: int, to: int)
  {
    forall i :: 0 <= from <= i < to && i < |buf| ==> buf[i] == PAD
  }

  /** A receive buffer and the count `recvfrom` returned (-1 on failure). */
  ghost predicate IsReceive(buf: seq<Byte>, nbytes: int)
  {
    |buf| == BUFSIZE && nbytes <= BUFSIZE
  }

  /**
    The reason code CheckPacket returns for a receive buffer, checked in its
    fixed order: identifier (1), length (-3000), type (-3010), sequence number
    (-3030), padding after the timestamp up to `nbytes` (-3040); 0 when all pass.
  */
  ghost function Verdict(buf: seq<Byte>, nbytes: int, len: int, sqc: nat, pid: int): int
    requires IsReceive(buf, nbytes)
  {
    var off := HeaderBytes(buf);
    if Net16(buf[off + 4], buf[off + 5]) != EchoId(pid) then 1
    else if nbytes < len + off then -3000
    else if buf[off] != ICMP_ECHOREPLY then -3010
    else if Net16(buf[off + 6], buf[off + 7]) != sqc then -3030
    else if !PaddingIntact(buf, off + ECHO_HDR_SIZE + TIMEVAL_SIZE, nbytes) then -3040
    else 0
  }

  /** CheckPacket: the header checks, then a pointer scan of the padding. */
  method CheckPacket(rbuff: array<Byte>, nbytes: int, len: int, sqc: nat, pid: int) returns (code: int)
    requires IsReceive(rbuff[..], nbytes)
    ensures code == Verdict(rbuff[..], nbytes, len, sqc, pid)
    ensures code in {0, 1, -3000, -3010, -3030, -3040}
  {
    var off := rbuff[0] % 16 * 4;
    if Net16(rbuff[off + 4], rbuff[off + 5]) != EchoId(pid) {
      return 1;
    }
    if nbytes < len + off {
      return -3000;
    }
    if rbuff[off] != ICMP_ECHOREPLY {
      return -3010;
    }
    if Net16(rbuff[off + 6], rbuff[off + 7]) != sqc {
      return -3030;
    }
    var ptr := off + ECHO_HDR_SIZE + TIMEVAL_SIZE;
    var i := nbytes - off - ECHO_HDR_SIZE - TIMEVAL_SIZE;
    while i > 0
      invariant ptr + i == nbytes
      invariant off + ECHO_HDR_SIZE + TIMEVAL_SIZE <= ptr
      invariant PaddingIntact(rbuff[..], off + ECHO_HDR_SIZE + TIMEVAL_SIZE, ptr)
    {
      if rbuff[ptr] != PAD {
        return -3040;
      }
      ptr := ptr + 1;
      i := i - 1;
    }
    return 0;
  }

  /**
    The reply a well-behaved peer sends back for `request`: behind an IPv4
    header of `HeaderBytes` bytes, the request's bytes with the type changed to
    ICMP_ECHOREPLY (its checksum field may differ; CheckPacket does not read it).
  */
  ghost predicate EchoesRequest(buf: seq<Byte>, nbytes: int, request: seq<Byte>)
    requires |buf| > 0
  {
    var off := HeaderBytes(buf);
    && |request| >= ECHO_HDR_SIZE
    && nbytes == off + |request| <= |buf|
    && buf[off] == ICMP_ECHOREPLY && buf[off + 1] == request[1]
    && buf[off + 4..off + |request|] == request[4..]
  }

  /** The validator accepts the echo of the request the builder made for the same identifier and sequence number. */
  lemma AcceptsEchoOfOwnRequest(buf: seq<Byte>, nbytes: int, request: seq<Byte>, len: int, pid: int, sqc: nat, stamp: seq<Byte>)
    requires IsReceive(buf, nbytes)
    requires IsEchoRequest(request, len, pid, sqc, stamp)
    requires EchoesRequest(buf, nbytes, request)
    ensures Verdict(buf, nbytes, len, sqc, pid) == 0
  {
    var off := HeaderBytes(buf);
    assert buf[off + 4] == request[4] && buf[off + 5] == request[5];
    assert buf[off + 6] == request[6] && buf[off + 7] == request[7];
    forall i | 0 <= off + ECHO_HDR_SIZE + TIMEVAL_SIZE <= i < nbytes && i < |buf|
      ensures buf[i] == PAD
    {
      assert buf[i] == request[i - off];
    }
  }

  /** The echo of an earlier attempt's request (another sequence number) is rejected with -3030. */
  lemma RejectsEchoOfOtherSequence(buf: seq<Byte>, nbytes: int, request: seq<Byte>, len: int, pid: int, sqc: nat, other: nat, stamp: seq<Byte>)
    requires IsReceive(buf, nbytes)
    requires IsEchoRequest(request, len, pid, other, stamp)
    requires EchoesRequest(buf, nbytes, request)
    requires other != sqc
    ensures Verdict(buf, nbytes, len, sqc, pid) == -3030
  {
    var off := HeaderBytes(buf);
    assert buf[off + 4] == request[4] && buf[off + 5] == request[5];
    assert buf[off + 6] == request[6] && buf[off + 7] == request[7];
  }

  /**
    Conversely, a buffer the validator accepts carries the expected identifier
    and sequence number in an Echo Reply of at least `len` bytes, and only
    padding after the timestamp: on those bytes it agrees with the request.
  */
  lemma AcceptedReplyMatchesRequest(buf: seq<Byte>, nbytes: int, request: seq<Byte>, len: int, pid: int, sqc: nat, stamp: seq<Byte>)
    requires IsReceive(buf, nbytes)
    requires IsEchoRequest(request, len, pid, sqc, stamp)
    requires Verdict(buf, nbytes, len, sqc, pid) == 0
    ensures var off := HeaderBytes(buf);
      && nbytes >= off + len
      && buf[off] == ICMP_ECHOREPLY
      && buf[off + 4..off + 8] == request[4..8]
      && forall i :: ECHO_HDR_SIZE + TIMEVAL_SIZE <= i < len ==> buf[off + i] == request[i]
  {
    var off := HeaderBytes(buf);
    assert Net16(buf[off + 4], buf[off + 5]) == Net16(request[4], request[5]);
    assert Net16(buf[off + 6], buf[off + 7]) == Net16(request[6], request[7]);
    assert buf[off + 4..off + 8] == [buf[off + 4], buf[off + 5], buf[off + 6], buf[off + 7]];
    assert request[4..8] == [request[4], request[5], request[6], request[7]];
  }

  // ---------------------------------------------------------------------
  // Waiting for the reply
  // ---------------------------------------------------------------------

  /**
    One pass of RecvPing's loop, as the operating system decides it: `poll`
    timed out, failed with EINTR, failed otherwise, or reported data, in which
    case `recvfrom` left `buf` in the receive buffer and returned `nbytes`;
    `rttMs` is `int(diff * 1000.0)` and `late` the comparison
    `diff > timeout_sec * 1000`.
  */
  datatype PollEvent =
    | PollTimeout
    | PollInterrupted
    | PollFailed
    | Received(buf: seq<Byte>, nbytes: int, rttMs: int, late: bool)

  ghost predicate WellFormed(events: seq<PollEvent>)
  {
    forall e :: e in events && e.Received? ==> IsReceive(e.buf, e.nbytes)
  }

  /** RecvPing's result: the code it returns, or still waiting when the events run out. */
  datatype RecvResult = Returned(code: int) | StillWaiting

  /** Whether an event ends RecvPing: a timeout, a non-EINTR failure, a valid reply, or a late foreign reply. */
  ghost predicate Decisive(e: PollEvent, len: int, sqc: nat, pid: int)
    requires WellFormed([e])
  {
    match e
    case PollTimeout => true
    case PollInterrupted => false
    case PollFailed => true
    case Received(buf, nbytes, _, late) =>
      var v := Verdict(buf, nbytes, len, sqc, pid);
      v == 0 || (v == 1 && late)
  }

  /** The code a decisive event makes RecvPing return. */
  ghost function DecisiveCode(e: PollEvent, len: int, sqc: nat, pid: int): int
    requires WellFormed([e])
  {
    match e
    case PollTimeout => -2000
    case PollInterrupted => 0
    case PollFailed => -2010
    case Received(buf, nbytes, rtt, _) =>
      if Verdict(buf, nbytes, len, sqc, pid) == 0 then rtt else -2000
  }

  /** The outcome of RecvPing's retry loop over a trace of events. */
  ghost function RecvOutcome(events: seq<PollEvent>, len: int, sqc: nat, pid: int): RecvResult
    requires WellFormed(events)
  {
    if events == [] then StillWaiting
    else if Decisive(events[0], len, sqc, pid) then Returned(DecisiveCode(events[0], len, sqc, pid))
    else RecvOutcome(events[1..], len, sqc, pid)
  }

  /**
    RecvPing: polls the one socket and returns -2000 on a timeout, -2010 on a
    non-EINTR poll failure and the round-trip time on a valid reply; it retries
    on EINTR and on any CheckPacket code other than 0 and 1, and on code 1 (a
    reply for another process) unless the wait is already late.  `polls` is the
    number of events consumed.
  */
  method RecvPing(len: int, sqc: nat, pid: int, events: seq<PollEvent>) returns (r: RecvResult, polls: nat)
    requires WellFormed(events)
    ensures r == RecvOutcome(events, len, sqc, pid)
    ensures polls <= |events|
    ensures r.StillWaiting? <==> polls == |events| && forall e :: e in events ==> !Decisive(e, len, sqc, pid)
  {
    var rbuff := new Byte[BUFSIZE](_ => 0);
    var i := 0;
    while i < |events|
      invariant 0 <= i <= |events|
      invariant RecvOutcome(events[i..], len, sqc, pid) == RecvOutcome(events, len, sqc, pid)
      invariant forall j :: 0 <= j < i ==> !Decisive(events[j], len, sqc, pid)
    {
      var e := events[i];
      assert e in events;
      assert events[i..][1..] == events[i + 1..];
      match e {
        case PollTimeout =>
          return Returned(-2000), i + 1;
        case PollInterrupted =>
        case PollFailed =>
          return Returned(-2010), i + 1;
        case Received(buf, nbytes, rtt, late) =>
          forall k | 0 <= k < BUFSIZE {
            rbuff[k] := buf[k];
          }
          assert rbuff[..] == buf;
          var ret := CheckPacket(rbuff, nbytes, len, sqc, pid);
          if ret == 0 {
            return Returned(rtt), i + 1;
          } else if ret == 1 && late {
            return Returned(-2000), i + 1;
          }
      }
      i := i + 1;
    }
    r, polls := StillWaiting, i;
  }

  /** EINTR failures and replies that do not decide leave the outcome to the events after them. */
  lemma {:induction false} SkipsNonDecisive(prefix: seq<PollEvent>, rest: seq<PollEvent>, len: int, sqc: nat, pid: int)
    requires WellFormed(prefix) && WellFormed(rest)
    requires forall e :: e in prefix ==> !Decisive(e, len, sqc, pid)
    ensures WellFormed(prefix + rest)
    ensures RecvOutcome(prefix + rest, len, sqc, pid) == RecvOutcome(rest, len, sqc, pid)
  {
    if prefix != [] {
      assert prefix[0] in prefix;
      assert (prefix + rest)[1..] == prefix[1..] + rest;
      SkipsNonDecisive(prefix[1..], rest, len, sqc, pid);
    } else {
      assert prefix + rest == rest;
    }
  }

  /** RecvPing returns only -2000, -2010, or the round-trip time of a reply the validator accepted. */
  lemma {:induction false} RecvCodes(events: seq<PollEvent>, len: int, sqc: nat, pid: int)
    requires WellFormed(events)
    ensures RecvOutcome(events, len, sqc, pid).Returned? ==>
      var c := RecvOutcome(events, len, sqc, pid).code;
      c == -2000 || c == -2010 ||
      exists k :: 0 <= k < |events| && events[k].Received? &&
        Verdict(events[k].buf, events[k].nbytes, len, sqc, pid) == 0 && c == events[k].rttMs
  {
    if events != [] && !Decisive(events[0], len, sqc, pid) {
      assert WellFormed(events[1..]);
      RecvCodes(events[1..], len, sqc, pid);
      var c := RecvOutcome(events, len, sqc, pid);
      if c.Returned? && c.code != -2000 && c.code != -2010 {
        var k :| 0 <= k < |events[1..]| && events[1..][k].Received? &&
          Verdict(events[1..][k].buf, events[1..][k].nbytes, len, sqc, pid) == 0 && c.code == events[1..][k].rttMs;
        assert events[k + 1] == events[1..][k];
      }
    }
  }

  // ---------------------------------------------------------------------
  // The ping driver
  // ---------------------------------------------------------------------

  /** What the operating system does during one attempt of PingCheck's loop. */
  datatype Attempt = Attempt(resolved: bool, sendtime: seq<Byte>, sent: int, events: seq<PollEvent>)

  ghost predicate AttemptWellFormed(a: Attempt)
  {
    |a.sendtime| == TIMEVAL_SIZE && WellFormed(a.events)
  }

  /** The running totals of PingCheck, or the attempt whose receive was still waiting when the trace ended. */
  datatype Tally = Tally(total: int, count: nat) | Stalled(attempt: nat)

  /** The sequence number of attempt `i` (counted from 0): `(unsigned short)(i + 1)`. */
  function SequenceOf(i: nat): nat
  {
    (i + 1) % 65536
  }

  /**
    The outcome of attempt `i`: the receive's result when the send
    succeeded.  When it did not, the source skips the receive and the
    tally; `Returned(-1)` stands for that skip (any negative value is left
    out of the tally).  It is not a code the source produces: SendPing
    itself returned -100 or -1000.
  */
  ghost function AttemptOutcome(a: Attempt, i: nat, len: int, pid: int): RecvResult
    requires AttemptWellFormed(a)
  {
    if a.resolved && a.sent == len then RecvOutcome(a.events, len, SequenceOf(i), pid)
    else Returned(-1)
  }

  /** How one attempt's outcome changes the totals. */
  function AddOutcome(t: Tally, o: RecvResult, i: nat): Tally
  {
    match t
    case Stalled(_) => t
    case Tally(total, count) =>
      match o
      case StillWaiting => Stalled(i)
      case Returned(c) => if c >= 0 then Tally(total + c, count + 1) else t
  }

  /** `total` and `total_no` after the first `n` attempts. */
  ghost function TallyOf(attempts: seq<Attempt>, n: nat, len: int, pid: int): Tally
    requires n <= |attempts|
    requires forall a :: a in attempts ==> AttemptWellFormed(a)
  {
    if n == 0 then Tally(0, 0)
    else
      assert attempts[n - 1] in attempts;
      AddOutcome(TallyOf(attempts, n - 1, len, pid), AttemptOutcome(attempts[n - 1], n - 1, len, pid), n - 1)
  }

  datatype PingResult = Finished(code: int) | Blocked(attempt: nat)

  /** What PingCheck returns for the totals after its attempts. */
  function ResultOf(t: Tally): PingResult
  {
    match t
    case Stalled(k) => Blocked(k)
    case Tally(total, count) => Finished(Average(total, count))
  }

  /** `total / total_no`, or -1 when no attempt succeeded. */
  function Average(total: int, count: nat): int
  {
    if count > 0 then total / count else -1
  }

  /** What attempt `i` hands to `sendto`: its Echo Request, or nothing when the name did not resolve. */
  ghost predicate SentAsRequested(wire: seq<Byte>, a: Attempt, i: nat, len: int, pid: int)
  {
    if a.resolved then IsEchoRequest(wire, len, pid, SequenceOf(i), a.sendtime) else wire == []
  }

  /**
    One pass of PingCheck's loop: send attempt `i`'s request and, when the
    send succeeded, wait for its reply.  A failed send gives the placeholder
    `Returned(-1)`, which the tally skips as the source skips the attempt.
  */
  method PingOnce(pid: int, len: int, i: nat, a: Attempt) returns (outcome: RecvResult, wire: seq<Byte>)
    requires AttemptWellFormed(a)
    requires a.resolved ==> ECHO_HDR_SIZE <= len <= BUFSIZE
    ensures outcome == AttemptOutcome(a, i, len, pid)
    ensures SentAsRequested(wire, a, i, len, pid)
  {
    var ret;
    ret, wire := SendPing(a.resolved, pid, len, SequenceOf(i), a.sendtime, a.sent);
    outcome := Returned(-1);
    if ret == 0 {
      var polls;
      outcome, polls := RecvPing(len, SequenceOf(i), pid, a.events);
    }
  }

  /**
    PingCheck: -300 when the raw socket cannot be created; otherwise `times`
    attempts with sequence numbers 1, 2, ..., each sending a request and, when
    the send succeeded, waiting for its reply; the result is the integer mean
    of the non-negative receive results, or -1 when there is none.
    `requests` holds, per attempt, what was handed to `sendto` ([] when the name
    did not resolve).
  */
  method PingCheck(socketOk: bool, pid: int, len: int, times: int, attempts: seq<Attempt>)
    returns (r: PingResult, requests: seq<seq<Byte>>)
    requires socketOk ==> times <= |attempts|
    requires forall a :: a in attempts ==> AttemptWellFormed(a)
    requires forall a :: a in attempts && a.resolved ==> ECHO_HDR_SIZE <= len <= BUFSIZE
    ensures !socketOk ==> r == Finished(-300) && requests == []
    ensures socketOk ==> r == ResultOf(TallyOf(attempts, if times < 0 then 0 else times, len, pid))
    ensures |requests| <= |attempts|
    ensures socketOk && r.Finished? ==> |requests| == (if times < 0 then 0 else times)
    ensures socketOk && r.Blocked? ==> |requests| == r.attempt + 1
    ensures forall i :: 0 <= i < |requests| ==> SentAsRequested(requests[i], attempts[i], i, len, pid)
  {
    requests := [];
    if !socketOk {
      return Finished(-300), [];
    }
    var n := if times < 0 then 0 else times;
    var total, totalNo := 0, 0;
    var i := 0;
    while i < n
      invariant 0 <= i <= n && |requests| == i
      invariant TallyOf(attempts, i, len, pid) == Tally(total, totalNo)
      invariant forall j :: 0 <= j < i ==> SentAsRequested(requests[j], attempts[j], j, len, pid)
    {
      var a := attempts[i];
      assert a in attempts;
      var outcome, wire := PingOnce(pid, len, i, a);
      RequestLogGrows(requests, wire, attempts, len, pid);
      requests := requests + [wire];
      TallyNext(attempts, i, n, len, pid, outcome);
      if outcome.StillWaiting? {
        return Blocked(i), requests;
      }
      if outcome.code >= 0 {
        total := total + outcome.code;
        totalNo := totalNo + 1;
      }
      i := i + 1;
    }
    r := Finished(Average(total, totalNo));
  }

  /** Appending attempt `|log|`'s request keeps the log in step with the attempts. */
  lemma RequestLogGrows(log: seq<seq<Byte>>, wire: seq<Byte>, attempts: seq<Attempt>, len: int, pid: int)
    requires |log| < |attempts|
    requires forall j :: 0 <= j < |log| ==> SentAsRequested(log[j], attempts[j], j, len, pid)
    requires SentAsRequested(wire, attempts[|log|], |log|, len, pid)
    ensures forall j :: 0 <= j <= |log| ==> SentAsRequested((log + [wire])[j], attempts[j], j, len, pid)
  {
    forall j | 0 <= j <= |log|
      ensures SentAsRequested((log + [wire])[j], attempts[j], j, len, pid)
    {
      if j < |log| {
        assert (log + [wire])[j] == log[j];
      }
    }
  }

  /**
    The totals after one more attempt: a still-waiting receive stalls the
    run for good, a non-negative result is added, any other is skipped.
  */
  lemma TallyNext(attempts: seq<Attempt>, i: nat, n: nat, len: int, pid: int, outcome: RecvResult)
    requires i < n <= |attempts|
    requires forall a :: a in attempts ==> AttemptWellFormed(a)
    requires TallyOf(attempts, i, len, pid).Tally?
    requires outcome == AttemptOutcome(attempts[i], i, len, pid)
    ensures outcome.StillWaiting? ==> TallyOf(attempts, n, len, pid) == Stalled(i)
    ensures outcome.Returned? ==>
      var t := TallyOf(attempts, i, len, pid);
      TallyOf(attempts, i + 1, len, pid) == (if outcome.code >= 0 then Tally(t.total + outcome.code, t.count + 1) else t)
  {
    if outcome.StillWaiting? {
      StalledStaysStalled(attempts, i + 1, n, len, pid);
    }
  }

  /** Once an attempt is stalled, no later attempt runs. */
  lemma {:induction false} StalledStaysStalled(attempts: seq<Attempt>, m: nat, n: nat, len: int, pid: int)
    requires m <= n <= |attempts|
    requires forall a :: a in attempts ==> AttemptWellFormed(a)
    requires TallyOf(attempts, m, len, pid).Stalled?
    ensures TallyOf(attempts, n, len, pid) == TallyOf(attempts, m, len, pid)
  {
    if n > m {
      StalledStaysStalled(attempts, m, n - 1, len, pid);
    }
  }

  /** The totals are never negative: only non-negative results are added. */
  lemma {:induction false} TallyNonNegative(attempts: seq<Attempt>, n: nat, len: int, pid: int)
    requires n <= |attempts|
    requires forall a :: a in attempts ==> AttemptWellFormed(a)
    ensures TallyOf(attempts, n, len, pid).Tally? ==> TallyOf(attempts, n, len, pid).total >= 0
  {
    if n > 0 {
      TallyNonNegative(attempts, n - 1, len, pid);
    }
  }

  /**
    When every successful attempt's round-trip time lies in `lo..hi`, so do
    the totals scaled by the count, and so does the reported average.
  */
  lemma {:induction false} TallyBounds(attempts: seq<Attempt>, n: nat, len: int, pid: int, lo: nat, hi: nat)
    requires n <= |attempts|
    requires forall a :: a in attempts ==> AttemptWellFormed(a)
    requires forall i :: 0 <= i < n ==>
      var o := AttemptOutcome(attempts[i], i, len, pid);
      o.Returned? && o.code >= 0 ==> lo <= o.code <= hi
    ensures var t := TallyOf(attempts, n, len, pid);
      t.Tally? ==> t.count * lo <= t.total <= t.count * hi
  {
    if n > 0 {
      TallyBounds(attempts, n - 1, len, pid, lo, hi);
      assert attempts[n - 1] in attempts;
      AddOutcomeBounds(TallyOf(attempts, n - 1, len, pid), AttemptOutcome(attempts[n - 1], n - 1, len, pid), n - 1, lo, hi);
    }
  }

  /** Adding a round-trip time in `lo..hi` keeps the totals between `count * lo` and `count * hi`. */
  lemma AddOutcomeBounds(t: Tally, o: RecvResult, i: nat, lo: nat, hi: nat)
    requires t.Tally? ==> t.count * lo <= t.total <= t.count * hi
    requires o.Returned? && o.code >= 0 ==> lo <= o.code <= hi
    ensures var u := AddOutcome(t, o, i);
      u.Tally? ==> u.count * lo <= u.total <= u.count * hi
  {
    if t.Tally? && o.Returned? && o.code >= 0 {
      assert (t.count + 1) * lo == t.count * lo + lo;
      assert (t.count + 1) * hi == t.count * hi + hi;
    }
  }

  lemma {:induction false} MulMonotone(a: nat, x: int, y: int)
    requires x <= y
    ensures a * x <= a * y
  {
    if a > 0 {
      MulMonotone(a - 1, x, y);
      assert a * x == (a - 1) * x + x;
      assert a * y == (a - 1) * y + y;
    }
  }

  lemma MulCancel(a: nat, x: int, y: int)
    requires a > 0 && a * x < a * y
    ensures x < y
  {
    if y <= x {
      MulMonotone(a, y, x);
    }
  }

  lemma AverageBounds(total: int, count: nat, lo: nat, hi: nat)
    requires count > 0 && count * lo <= total <= count * hi
    ensures lo <= Average(total, count) <= hi
  {
    var q, r := total / count, total % count;
    assert total == count * q + r && 0 <= r < count;
    assert count * (q + 1) == count * q + count;
    MulCancel(count, lo, q + 1);
    MulMonotone(count, 0, q);
    if hi < q {
      MulMonotone(count, hi + 1, q);
    }
  }

  /** PingCheck's result is the mean of some successful round-trip times, -1 for none, or -300. */
  lemma PingResultRange(attempts: seq<Attempt>, n: nat, len: int, pid: int, lo: nat, hi: nat)
    requires n <= |attempts|
    requires forall a :: a in attempts ==> AttemptWellFormed(a)
    requires forall i :: 0 <= i < n ==>
      var o := AttemptOutcome(attempts[i], i, len, pid);
      o.Returned? && o.code >= 0 ==> lo <= o.code <= hi
    ensures var r := ResultOf(TallyOf(attempts, n, len, pid));
      r.Finished? ==> r.code == -1 || lo <= r.code <= hi
  {
    TallyBounds(attempts, n, len, pid, lo, hi);
    var t := TallyOf(attempts, n, len, pid);
    if t.Tally? && t.count > 0 {
      AverageBounds(t.total, t.count, lo, hi);
    }
  }
}
