/**
 * lwmaster: finds the LiveWire clock master. It joins the master clock
 * group on every network interface, then waits up to 100 ms for a 78-byte
 * frame addressed to that group. The IPv4 source of that frame is the
 * master node, whose address is printed ("0.0.0.0" when none shows up in
 * time).
 *
 * The sockets, ioctl(), setsockopt(), poll(), recv(), inet_ntop() and
 * gettimeofday() are the environment. Their answers come in as parameters:
 * one `Pass` per turn of the wait loop, one `InterfaceAnswer` per
 * interface. Clock readings are in microseconds.
 */
module MasterDiscovery {
  import opened QtText

  /** MASTER_MCAST_ADDRESS, MASTER_MCAST_PACKET_LENGTH and TIMEOUT_INTERVAL. */
  const GroupOctets: seq<nat> := [239, 192, 255, 2]
  const PacketLength: nat := 78
  const TimeoutMs: nat := 100

  /** Four bytes read as one 32-bit number, the first byte on top. */
  function Word(b0: nat, b1: nat, b2: nat, b3: nat): nat
  {
    ((b0 * 0x100 + b1) * 0x100 + b2) * 0x100 + b3
  }

  /** global_master_mcast_address: the group in host byte order. */
  function MasterGroup(): nat
  {
    Word(GroupOctets[0], GroupOctets[1], GroupOctets[2], GroupOctets[3])
  }

  /** dst_addr: bytes 30 to 33 of the Ethernet frame (the IPv4 destination)
      read with byte 30 on top. */
  function DestinationOf(frame: seq<byte>): nat
    requires |frame| >= 34
  {
    Word(frame[30], frame[31], frame[32], frame[33])
  }

  /** node_addr.s_addr: bytes 26 to 29 (the IPv4 source) packed with byte
      29 on top. */
  function SourceWord(frame: seq<byte>): nat
    requires |frame| >= 30
  {
    Word(frame[29], frame[28], frame[27], frame[26])
  }

  /** The bytes of a 32-bit word in memory on a little-endian host, lowest
      address first; inet_ntop prints them in that order. */
  function HostBytes(w: nat): seq<nat>
  {
    [w % 0x100, w / 0x100 % 0x100, w / 0x1_0000 % 0x100, w / 0x100_0000 % 0x100]
  }

  /** The text inet_ntop makes of node_addr. */
  function NodeText(frame: seq<byte>): string
    requires |frame| >= 30
  {
    var b := HostBytes(SourceWord(frame));
    DottedQuad(b[0], b[1], b[2], b[3])
  }

  /** A clock announcement: exactly 78 bytes, sent to the master group. */
  predicate IsAnnouncement(frame: seq<byte>)
  {
    |frame| == PacketLength && DestinationOf(frame) == MasterGroup()
  }

  // ---------------------------------------------------------------------
  // GetAddress: the wait loop
  // ---------------------------------------------------------------------

  /** What poll() returns: -1, 0, or a ready count with the POLLIN bit. */
  datatype Poll = PollError | PollTimeout | PollReady(readable: bool)

  /** What recv() returns: a negative count, or the bytes read. */
  datatype Recv = RecvError | Received(frame: seq<byte>)

  /** The system's answers during one turn of the loop: poll(), recv()
      (used only when readable), inet_ntop() (used only for an
      announcement) and the gettimeofday() reading at the end of the turn
      (None when it fails). */
  datatype Pass = Pass(poll: Poll, recv: Recv, ntopOk: bool, clock: Option<int>)

  /** How GetAddress ends. `PassesExhausted` means the given answers ran out
      before the loop ended. */
  datatype Result = Master(node: string) | NoMaster | PollFailed | RecvFailed | NtopFailed
                  | ClockFailed | PassesExhausted

  /** timeout=(int)(1000.0*(deadline-now)), with the deadline 100 ms after
      the start reading and the cast truncating toward zero. */
  function Remaining(start: int, now: int): int
  {
    CDiv(start + TimeoutMs * 1000 - now, 1000)
  }

  /** The loop from some turn on, with `timeout` milliseconds left. */
  function Wait(passes: seq<Pass>, start: int, timeout: int): Result
    decreases |passes|
  {
    if timeout <= 0 then NoMaster
    else if passes == [] then PassesExhausted
    else
      var p := passes[0];
      match p.poll
      case PollError => PollFailed
      case PollTimeout => NoMaster
      case PollReady(readable) =>
        if readable && p.recv.RecvError? then RecvFailed
        else if readable && IsAnnouncement(p.recv.frame) then
          (if p.ntopOk then Master(NodeText(p.recv.frame)) else NtopFailed)
        else
          match p.clock
          case None => ClockFailed
          case Some(now) => Wait(passes[1..], start, Remaining(start, now))
  }

  /** The timeouts handed to poll(), turn by turn. */
  function WaitTimeouts(passes: seq<Pass>, start: int, timeout: int): seq<int>
    decreases |passes|
  {
    if timeout <= 0 || passes == [] then []
    else
      var p := passes[0];
      match p.poll
      case PollReady(readable) =>
        if readable && (p.recv.RecvError? || IsAnnouncement(p.recv.frame)) then [timeout]
        else
          (match p.clock
           case None => [timeout]
           case Some(now) => [timeout] + WaitTimeouts(passes[1..], start, Remaining(start, now)))
      case _ => [timeout]
  }

  /** GetAddress, from the first gettimeofday() reading on. */
  function Discover(start: Option<int>, passes: seq<Pass>): (r: Result)
    ensures start.None? ==> r == ClockFailed
    ensures r.Master? ==>
      exists k :: 0 <= k < |passes| && passes[k].recv.Received? &&
                  IsAnnouncement(passes[k].recv.frame) && r.node == NodeText(passes[k].recv.frame)
  {
    match start
    case None => ClockFailed
    case Some(t) =>
      if Wait(passes, t, TimeoutMs).Master? then
        MasterOnlyFromAnnouncement(passes, t, TimeoutMs);
        Wait(passes, t, TimeoutMs)
      else Wait(passes, t, TimeoutMs)
  }

  function DiscoverTimeouts(start: Option<int>, passes: seq<Pass>): seq<int>
  {
    match start
    case None => []
    case Some(t) => WaitTimeouts(passes, t, TimeoutMs)
  }

  /** GetAddress(dl_sock): the loop that polls, reads and checks frames
      until the deadline passes. */
  method GetAddress(start: Option<int>, passes: seq<Pass>) returns (r: Result, timeouts: seq<int>)
    ensures r == Discover(start, passes)
    ensures timeouts == DiscoverTimeouts(start, passes)
  {
    timeouts := [];
    if start.None? {
      return ClockFailed, timeouts;
    }
    var t0 := start.value;
    var timeout: int := TimeoutMs;
    var i := 0;
    while timeout > 0
      invariant 0 <= i <= |passes|
      invariant Wait(passes[i..], t0, timeout) == Wait(passes, t0, TimeoutMs)
      invariant timeouts + WaitTimeouts(passes[i..], t0, timeout) == WaitTimeouts(passes, t0, TimeoutMs)
      decreases |passes| - i
    {
      if i == |passes| {
        assert passes[i..] == [];
        return PassesExhausted, timeouts;
      }
      var stop, res, next := Turn(passes[i..], t0, timeout);
      timeouts := timeouts + [timeout];
      if stop {
        return res, timeouts;
      }
      assert passes[i..][1..] == passes[i + 1..];
      timeout := next;
      i := i + 1;
    }
    assert WaitTimeouts(passes[i..], t0, timeout) == [];
    assert timeouts == WaitTimeouts(passes, t0, TimeoutMs);
    r := NoMaster;
  }

  /** One turn of the loop on the answers ps[0]: poll, read, check the
      frame and read the clock. It either ends the wait with `r`, or hands
      the `next` timeout to the turns that follow. */
  method Turn(ps: seq<Pass>, t0: int, timeout: int) returns (stop: bool, r: Result, next: int)
    requires timeout > 0 && ps != []
    ensures stop ==> r == Wait(ps, t0, timeout) && WaitTimeouts(ps, t0, timeout) == [timeout]
    ensures !stop ==> ps[0].clock.Some? && next == Remaining(t0, ps[0].clock.value)
    ensures !stop ==> Wait(ps, t0, timeout) == Wait(ps[1..], t0, next)
    ensures !stop ==> WaitTimeouts(ps, t0, timeout) == [timeout] + WaitTimeouts(ps[1..], t0, next)
  {
    var p := ps[0];
    stop, next := true, 0;
    if p.poll == PollError {
      return stop, PollFailed, next;
    }
    if p.poll == PollTimeout {
      return stop, NoMaster, next;
    }
    if p.poll.readable {
      if p.recv.RecvError? {
        return stop, RecvFailed, next;
      }
      if IsAnnouncement(p.recv.frame) {
        if !p.ntopOk {
          return stop, NtopFailed, next;
        }
        return stop, Master(NodeText(p.recv.frame)), next;
      }
    }
    if p.clock.None? {
      return stop, ClockFailed, next;
    }
    stop, r, next := false, NoMaster, Remaining(t0, p.clock.value);
  }

  /** What GetAddress prints on standard output. */
  function Printed(r: Result): (out: seq<string>)
    ensures |out| <= 1
    ensures r.Master? ==> out == [r.node]
    ensures r == NoMaster ==> out == ["0.0.0.0"]
  {
    match r
    case Master(node) => [node]
    case NoMaster => ["0.0.0.0"]
    case _ => []
  }

  /** The status GetAddress returns (or, for a clock failure, exits with). */
  function Status(r: Result): (status: int)
    ensures status == 0 <==> |Printed(r)| == 1
    ensures status != 0 ==> status == 1
  {
    match r
    case Master(_) => 0
    case NoMaster => 0
    case _ => 1
  }

  // ---------------------------------------------------------------------
  // Subscribe: join the group and turn on promiscuous mode everywhere
  // ---------------------------------------------------------------------

  /** The setsockopt() requests SubscribeInterface makes. */
  datatype Request = JoinGroup(index: nat) | Promiscuous(index: nat)

  /** The answers to the two setsockopt() calls for one interface. */
  datatype InterfaceAnswer = InterfaceAnswer(joinOk: bool, promiscOk: bool)

  /** The requests made for interfaces first, first + 1, ..., stopping after
      the first refused one; ok says whether none was refused. */
  function Subscription(answers: seq<InterfaceAnswer>, first: nat): (seq<Request>, bool)
    decreases |answers|
  {
    if answers == [] then ([], true)
    else if !answers[0].joinOk then ([JoinGroup(first)], false)
    else if !answers[0].promiscOk then ([JoinGroup(first), Promiscuous(first)], false)
    else
      var rest := Subscription(answers[1..], first + 1);
      ([JoinGroup(first), Promiscuous(first)] + rest.0, rest.1)
  }

  /** Subscribe(dl_sock): interface indexes from 1 for as long as
      SIOCGIFNAME finds a name; `answers` holds one entry per such index.
      A refused request ends the program with status 1. */
  method Subscribe(socketOk: bool, answers: seq<InterfaceAnswer>) returns (requests: seq<Request>, ok: bool)
    ensures !socketOk ==> requests == [] && !ok
    ensures socketOk ==> (requests, ok) == Subscription(answers, 1)
  {
    requests := [];
    if !socketOk {
      return [], false;
    }
    var index := 1;
    while index <= |answers|
      invariant 1 <= index <= |answers| + 1
      invariant requests + Subscription(answers[index - 1..], index).0 == Subscription(answers, 1).0
      invariant Subscription(answers[index - 1..], index).1 == Subscription(answers, 1).1
    {
      var a := answers[index - 1];
      assert answers[index - 1..][0] == a && answers[index - 1..][1..] == answers[index..];
      var old_requests := requests;
      requests := requests + [JoinGroup(index)];
      if !a.joinOk {
        assert Subscription(answers[index - 1..], index) == ([JoinGroup(index)], false);
        return requests, false;
      }
      requests := requests + [Promiscuous(index)];
      assert requests == old_requests + [JoinGroup(index), Promiscuous(index)];
      if !a.promiscOk {
        assert Subscription(answers[index - 1..], index) == ([JoinGroup(index), Promiscuous(index)], false);
        return requests, false;
      }
      index := index + 1;
    }
    assert answers[index - 1..] == [];
    assert requests == Subscription(answers, 1).0;
    ok := Subscription(answers, 1).1;
  }

  /** What one run of lwmaster shows: standard output and exit status. */
  datatype Run = Run(stdout: seq<string>, status: int)

  /** main(): the group address is a constant, so inet_pton cannot fail;
      then the datalink socket, Subscribe and GetAddress. */
  function Lwmaster(dlSocketOk: bool, ipSocketOk: bool, answers: seq<InterfaceAnswer>,
                    start: Option<int>, passes: seq<Pass>): (r: Run)
    ensures r.status == 0 <==> |r.stdout| == 1
    ensures r.status == 0 ==> dlSocketOk && ipSocketOk && Subscription(answers, 1).1 && start.Some?
    ensures r.status != 0 ==> r.status == 1 && r.stdout == []
  {
    if !dlSocketOk || !ipSocketOk || !Subscription(answers, 1).1 then Run([], 1)
    else
      var r := Discover(start, passes);
      Run(Printed(r), Status(r))
  }

  // ---------------------------------------------------------------------
  // Properties
  // ---------------------------------------------------------------------

  lemma WordBytes(w: nat, b0: nat, b1: nat, b2: nat, b3: nat)
    requires b0 < 256 && b1 < 256 && b2 < 256 && b3 < 256 && w == Word(b0, b1, b2, b3)
    ensures w % 0x100 == b3 && w / 0x100 % 0x100 == b2
    ensures w / 0x1_0000 % 0x100 == b1 && w / 0x100_0000 % 0x100 == b0
  {
    var q1 := (b0 * 0x100 + b1) * 0x100 + b2;
    var q2 := b0 * 0x100 + b1;
    assert w / 0x100 == q1 && w % 0x100 == b3;
    assert w == q2 * 0x1_0000 + (b2 * 0x100 + b3);
    assert w / 0x1_0000 == q2;
    assert q2 % 0x100 == b1;
    assert w == b0 * 0x100_0000 + ((b1 * 0x100 + b2) * 0x100 + b3);
    assert w / 0x100_0000 == b0;
  }

  /** On a little-endian host the packed source word lies in memory exactly
      as bytes 26 to 29 of the frame: the node printed is the frame's IPv4
      source address. */
  lemma SourceWordLayout(frame: seq<byte>)
    requires |frame| >= 30
    ensures HostBytes(SourceWord(frame)) == [frame[26], frame[27], frame[28], frame[29]]
    ensures NodeText(frame) == DottedQuad(frame[26], frame[27], frame[28], frame[29])
  {
    WordBytes(SourceWord(frame), frame[29], frame[28], frame[27], frame[26]);
  }

  /** A frame is addressed to the master group exactly when its IPv4
      destination bytes are 239, 192, 255, 2. */
  lemma DestinationIsGroup(frame: seq<byte>)
    requires |frame| >= 34
    ensures DestinationOf(frame) == MasterGroup() <==> frame[30..34] == GroupOctets
  {
    var w := DestinationOf(frame);
    WordBytes(w, frame[30], frame[31], frame[32], frame[33]);
    WordBytes(MasterGroup(), 239, 192, 255, 2);
    if frame[30..34] == GroupOctets {
      assert frame[30] == 239 && frame[31] == 192 && frame[32] == 255 && frame[33] == 2;
    }
  }

  /** A master is only ever reported from an announcement actually read,
      and it is that frame's source address. */
  lemma {:induction false} MasterOnlyFromAnnouncement(passes: seq<Pass>, start: int, timeout: int)
    requires Wait(passes, start, timeout).Master?
    ensures exists k :: (0 <= k < |passes| && passes[k].poll == PollReady(true) &&
      passes[k].recv.Received? && IsAnnouncement(passes[k].recv.frame) &&
      Wait(passes, start, timeout).node == NodeText(passes[k].recv.frame))
    decreases |passes|
  {
    var p := passes[0];
    if p.poll.PollReady? && p.poll.readable && p.recv.Received? && IsAnnouncement(p.recv.frame) {
      assert passes[0] == p;
    } else {
      var now := p.clock.value;
      MasterOnlyFromAnnouncement(passes[1..], start, Remaining(start, now));
      var k :| 0 <= k < |passes[1..]| && passes[1..][k].poll == PollReady(true) &&
        passes[1..][k].recv.Received? && IsAnnouncement(passes[1..][k].recv.frame) &&
        Wait(passes[1..], start, Remaining(start, now)).node == NodeText(passes[1..][k].recv.frame);
      assert passes[k + 1] == passes[1..][k];
    }
  }

  /** A turn that reads a frame other than an announcement, or nothing, and
      ends with a clock reading. */
  predicate QuietPass(p: Pass)
  {
    p.poll.PollReady? && (p.poll.readable ==> p.recv.Received? && !IsAnnouncement(p.recv.frame))
    && p.clock.Some?
  }

  /** The first announcement read before the deadline is reported: when
      every earlier turn was quiet and ended at least a millisecond before
      the deadline, the announcement's source is the master. */
  lemma {:induction false} FirstAnnouncementWins(passes: seq<Pass>, start: int, timeout: int, k: nat)
    requires timeout > 0 && k < |passes|
    requires forall j :: 0 <= j < k ==> QuietPass(passes[j]) && passes[j].clock.value <= start + 99_000
    requires passes[k].poll == PollReady(true) && passes[k].recv.Received?
    requires IsAnnouncement(passes[k].recv.frame) && passes[k].ntopOk
    ensures Wait(passes, start, timeout) == Master(NodeText(passes[k].recv.frame))
    decreases k
  {
    if k > 0 {
      var now := passes[0].clock.value;
      assert Remaining(start, now) > 0;
      forall j | 0 <= j < k - 1
        ensures QuietPass(passes[1..][j]) && passes[1..][j].clock.value <= start + 99_000
      {
        assert passes[1..][j] == passes[j + 1];
      }
      FirstAnnouncementWins(passes[1..], start, Remaining(start, now), k - 1);
    }
  }

  /** Without an announcement the loop never reports a master; once a
      turn ends past the deadline, it prints 0.0.0.0. */
  lemma {:induction false} DeadlineEndsWait(passes: seq<Pass>, start: int, timeout: int)
    requires timeout > 0 && |passes| >= 1 && QuietPass(passes[0])
    requires passes[0].clock.value > start + 99_000
    ensures Wait(passes, start, timeout) == NoMaster
  {
    assert Remaining(start, passes[0].clock.value) <= 0;
  }

  /** poll() is first given the full 100 ms, and afterwards never more than
      what is left before the deadline: every timeout is positive, and none
      exceeds 100 ms while the clock does not run backwards. */
  lemma {:induction false} TimeoutsBounded(passes: seq<Pass>, start: int, timeout: int)
    requires 0 < timeout <= TimeoutMs
    requires forall j :: 0 <= j < |passes| && passes[j].clock.Some? ==> passes[j].clock.value >= start
    ensures var ts := WaitTimeouts(passes, start, timeout);
      (passes != [] ==> |ts| >= 1 && ts[0] == timeout) &&
      forall j :: 0 <= j < |ts| ==> 0 < ts[j] <= TimeoutMs
    decreases |passes|
  {
    if passes != [] {
      var p := passes[0];
      if p.poll.PollReady? && !(p.poll.readable && (p.recv.RecvError? || IsAnnouncement(p.recv.frame)))
         && p.clock.Some? {
        var now := p.clock.value;
        var t := Remaining(start, now);
        assert t <= TimeoutMs;
        if t > 0 {
          forall j | 0 <= j < |passes[1..]| && passes[1..][j].clock.Some?
            ensures passes[1..][j].clock.value >= start
          {
            assert passes[1..][j] == passes[j + 1];
          }
          TimeoutsBounded(passes[1..], start, t);
        }
      }
    }
  }

  /** Subscribing succeeds exactly when every interface accepts both
      requests, and then each interface is joined before it is put in
      promiscuous mode, in index order. */
  lemma {:induction false} SubscriptionComplete(answers: seq<InterfaceAnswer>, first: nat)
    ensures var (reqs, ok) := Subscription(answers, first);
      (ok <==> forall i :: 0 <= i < |answers| ==> answers[i].joinOk && answers[i].promiscOk) &&
      (ok ==> (|reqs| == 2 * |answers| &&
        forall i :: 0 <= i < |answers| ==>
          (reqs[2 * i] == JoinGroup(first + i) && reqs[2 * i + 1] == Promiscuous(first + i))))
    decreases |answers|
  {
    if answers != [] && answers[0].joinOk && answers[0].promiscOk {
      SubscriptionComplete(answers[1..], first + 1);
      var rest := Subscription(answers[1..], first + 1);
      if rest.1 {
        forall i | 0 <= i < |answers|
          ensures Subscription(answers, first).0[2 * i] == JoinGroup(first + i)
          ensures Subscription(answers, first).0[2 * i + 1] == Promiscuous(first + i)
        {
          if i > 0 {
            assert rest.0[2 * (i - 1)] == JoinGroup(first + 1 + (i - 1));
          }
        }
      }
      assert (forall i :: 0 <= i < |answers[1..]| ==> answers[1..][i].joinOk && answers[1..][i].promiscOk)
        <==> (forall i :: 0 <= i < |answers| ==> answers[i].joinOk && answers[i].promiscOk);
    }
  }
}
