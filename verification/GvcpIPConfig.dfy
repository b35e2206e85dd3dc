/** rcdiscover/gvcp_ip_config.cc: the client that reads and writes a device's persistent IP
    configuration. */
module GvcpIPConfig {
  import opened RequestCounter
  import opened GvcpMessages
  import opened GvcpNetwork
  import opened GvcpResponsive
  import opened GvcpSessions
  import opened GvcpAtomicity
  import opened GvcpConfigure
  import opened GvcpProgress
  import opened GvcpEffects

  /** What recvfrom delivers for the answer at position `j`. */
  function DatagramBytes(s: Net, j: nat): Packet
    requires j < |s.served| && s.served[j].serial in s.issued && s.issued[s.served[j].serial].Some?
  {
    var e := s.served[j];
    var (hi, lo) := IdBytes(IdOf(e.serial));
    Acknowledge(s.issued[e.serial].value, hi, lo, e.reply)
  }

  function AsBytes(r: Result<Reply>): Result<Packet> {
    match r
    case Ok(reply) => Ok(Announced(reply))
    case Throw(e) => Throw(e)
  }

  /** The socket and everything behind it. `wire` has the packets that were put on their way;
      `history` holds the states that were passed through, the last one being the present. A link is
      either responsive or adversarial. */
  class Link {
    const responsive: bool
    const counter: Counter
    var wire: seq<Packet>
    var history: seq<Net>

    ghost predicate Valid()
      reads this, counter
    {
      && history != [] && WellFormed(Now())
      && counter.Valid() && counter.draws == Now().draws
    }

    function Now(): Net
      reads this
      requires history != []
    {
      history[|history| - 1]
    }

    constructor (responsive: bool, counter: Counter, start: Net)
      requires WellFormed(start) && counter.Valid() && counter.draws == start.draws
      ensures Valid() && history == [start] && wire == []
      ensures this.responsive == responsive && this.counter == counter
    {
      this.responsive, this.counter := responsive, counter;
      wire, history := [], [start];
    }

    /** The network and the device act, for as long and in whatever order they like. */
    method Environment()
      requires Valid() && !responsive
      modifies this, counter
      ensures Valid() && old(history) <= history && wire == old(wire)
      ensures Quiet(history, old(|history|) - 1, |history| - 1)
    {
      var n: nat := *;
      while n > 0
        invariant Valid() && old(history) <= history && wire == old(wire)
        invariant Quiet(history, old(|history|) - 1, |history| - 1)
      {
        var e: Event := *;
        if Enabled(Now(), e) && !e.Draw? && !e.Transmit? && !e.Pop? {
          if e.OtherThreadDraws? {
            counter.OtherThreadDraws();
          }
          Record(e, old(|history|) - 1);
        }
        n := n - 1;
      }
    }

    /** GigERequestCounter::getNext. */
    method DrawId() returns (hi: byte, lo: byte, serial: nat)
      requires Valid()
      modifies this, counter
      ensures Valid() && old(history) <= history && wire == old(wire)
      ensures Quiet(history, old(|history|) - 1, |history| - 1)
      ensures old(Now().draws) < serial == Now().draws
      ensures (hi, lo) == IdBytes(IdOf(serial))
      ensures responsive ==> Now() == Apply(old(Now()), Draw)
    {
      var turns: int := *;
      var draw;
      hi, lo, draw := counter.GetNext(if responsive || turns < 0 then 0 else turns);
      while Now().draws + 1 < draw
        invariant history != [] && WellFormed(Now()) && old(history) <= history && wire == old(wire)
        invariant Now().draws < draw && (responsive ==> history == old(history))
        invariant Quiet(history, old(|history|) - 1, |history| - 1)
        invariant counter.Valid() && counter.draws == draw
        decreases draw - Now().draws
      {
        Record(OtherThreadDraws, old(|history|) - 1);
      }
      Record(Draw, old(|history|) - 1);
      serial := draw;
    }

    /** Notes one step of the client's draw or of the environment. */
    method Record(e: Event, ghost first: nat)
      requires history != [] && WellFormed(Now())
      requires Enabled(Now(), e) && !e.Transmit? && !e.Pop?
      requires Quiet(history, first, |history| - 1)
      modifies this`history
      ensures history == old(history) + [Apply(old(Now()), e)]
      ensures WellFormed(Now())
      ensures Quiet(history, first, |history| - 1)
    {
      StepKeepsWellFormed(Now(), e);
      assert QuietStep(Now(), Apply(Now(), e));
      QuietAppend(history, Apply(Now(), e), first);
      history := history + [Apply(Now(), e)];
    }

    /** socket_.send. It throws, or the packet is on its way. */
    method Send(packet: Packet, serial: nat) returns (ok: bool)
      requires Valid() && 0 < serial <= Now().draws
      requires |packet| >= 8 && (packet[6], packet[7]) == IdBytes(IdOf(serial))
      requires serial in Now().issued ==> Now().issued[serial] == ParseRequest(packet)
      modifies this, counter
      ensures Valid() && old(history) <= history
      ensures wire == old(wire) + if ok then [packet] else []
      ensures Steps(history, old(|history|) - 1, |history| - 1, serial, ParseRequest(packet))
      ensures Now().sent == old(Now().sent) + if ok then [serial] else []
      ensures Now().popped == old(Now().popped)
      ensures serial in Now().issued ==> Now().issued[serial] == ParseRequest(packet)
      ensures responsive ==> ok && Now() == Exchange(old(Now()), serial, ParseRequest(packet))
    {
      var command := ParseRequest(packet);
      ok := true;
      if !responsive {
        Environment();
        QuietIsSteps(history, old(|history|) - 1, |history| - 1, serial, command);
        StepsKeepWellFormed(history, old(|history|) - 1, |history| - 1, serial, command);
        ok := *;
      }
      if ok {
        wire := wire + [packet];
        Transmitted(serial, command, old(|history|) - 1);
        if responsive && command.Some? {
          ghost var h := history;
          AnsweredAtOnce(serial);
          QuietIsSteps(history, |h| - 1, |history| - 1, serial, command);
          StepsJoin(h, history, old(|history|) - 1, |h| - 1, |history| - 1, serial, command);
        }
      }
    }

    /** The responsive device answers, and the answer arrives. */
    method AnsweredAtOnce(serial: nat)
      requires history != [] && WellFormed(Now())
      requires Enabled(Now(), Deliver(serial, Plain)) && Now().issued[serial].Some?
      modifies this`history
      ensures history != [] && old(history) <= history && WellFormed(Now())
      ensures Quiet(history, old(|history|) - 1, |history| - 1)
      ensures Now() == Apply(Apply(old(Now()), Deliver(serial, Plain)), Arrive(old(|Now().served|)))
    {
      var position := |Now().served|;
      Record(Deliver(serial, Plain), |history| - 1);
      Record(Arrive(position), old(|history|) - 1);
    }

    method Transmitted(serial: nat, command: Option<Command>, ghost first: nat)
      requires history != [] && WellFormed(Now()) && Enabled(Now(), Transmit(serial, command))
      requires Steps(history, first, |history| - 1, serial, command)
      modifies this`history
      ensures history == old(history) + [Apply(old(Now()), Transmit(serial, command))]
      ensures WellFormed(Now())
      ensures Steps(history, first, |history| - 1, serial, command)
    {
      var next := Apply(Now(), Transmit(serial, command));
      StepKeepsWellFormed(Now(), Transmit(serial, command));
      StepsAppend(history, next, first, serial, command);
      history := history + [next];
    }

    /** select, with its half-second timeout. It may report a datagram that is not there. */
    method Select() returns (readable: bool)
      requires Valid()
      modifies this, counter
      ensures Valid() && old(history) <= history && wire == old(wire)
      ensures Quiet(history, old(|history|) - 1, |history| - 1)
      ensures responsive ==> history == old(history) && (readable <==> Now().popped < |Now().arrived|)
    {
      var spurious := false;
      if !responsive {
        Environment();
        spurious := *;
      }
      readable := Now().popped < |Now().arrived| || spurious;
    }

    /** recvfrom; nothing at all stands for an error return. */
    method Receive() returns (p: Packet)
      requires Valid()
      modifies this`history
      ensures Valid() && WellFormed(old(Now()))
      ensures if old(Now().popped < |Now().arrived|) then
                && history == old(history) + [Apply(old(Now()), Pop)]
                && p == DatagramBytes(Now(), Now().arrived[Now().popped - 1])
              else
                history == old(history) && p == []
    {
      p := [];
      if Now().popped < |Now().arrived| {
        var j := Now().arrived[Now().popped];
        assert GenuineReply(Now(), Now().served[j]);
        p := DatagramBytes(Now(), j);
        StepKeepsWellFormed(Now(), Pop);
        history := history + [Apply(Now(), Pop)];
      }
    }
  }

  /** Since `first` the history is that of a call for `c` under way: request `serial` was drawn and
      has been transmitted `copies` times, and at most `taken` datagrams were taken. */
  ghost predicate UnderWay(h: seq<Net>, first: nat, c: Command, serial: nat, copies: nat, taken: nat) {
    && first < |h| && WellFormed(h[first]) && WellFormed(h[|h| - 1])
    && h[first].draws < serial <= h[|h| - 1].draws
    && MayTransmit(h[|h| - 1], serial, Some(c))
    && Steps(h, first, |h| - 1, serial, Some(c))
    && h[|h| - 1].sent == h[first].sent + Repeat(serial, copies)
    && h[first].popped <= h[|h| - 1].popped <= h[first].popped + taken
  }

  lemma {:induction false} UnderWayFacts(h: seq<Net>, first: nat, c: Command, serial: nat, copies: nat, taken: nat)
    requires UnderWay(h, first, c, serial, copies, taken)
    ensures MayTransmit(h[|h| - 1], serial, Some(c)) && first < |h|
    ensures UnderWay(h, first, c, serial, copies, taken + 1)
  {
  }

  lemma {:induction false} UnderWayDrawn(h: seq<Net>, first: nat, c: Command, serial: nat)
    requires first < |h| && WellFormed(h[first]) && WellFormed(h[|h| - 1])
    requires Quiet(h, first, |h| - 1) && h[first].draws < serial <= h[|h| - 1].draws
    ensures UnderWay(h, first, c, serial, 0, 0)
  {
    QuietIsSteps(h, first, |h| - 1, serial, Some(c));
    assert h[first].sent + Repeat(serial, 0) == h[first].sent;
  }

  lemma {:induction false} UnderWaySent(h: seq<Net>, h': seq<Net>, first: nat, c: Command, serial: nat, copies: nat,
      taken: nat, more: nat)
    requires UnderWay(h, first, c, serial, copies, taken) && h <= h' && WellFormed(h'[|h'| - 1]) && more <= 1
    requires Steps(h', |h| - 1, |h'| - 1, serial, Some(c))
    requires h'[|h'| - 1].sent == h[|h| - 1].sent + Repeat(serial, more)
    requires h'[|h'| - 1].popped == h[|h| - 1].popped
    requires serial in h'[|h'| - 1].issued ==> h'[|h'| - 1].issued[serial] == Some(c)
    ensures UnderWay(h', first, c, serial, copies + more, taken)
  {
    StepsJoin(h, h', first, |h| - 1, |h'| - 1, serial, Some(c));
    StepsKeepWellFormed(h', |h| - 1, |h'| - 1, serial, Some(c));
    assert Repeat(serial, copies) + Repeat(serial, more) == Repeat(serial, copies + more);
  }

  lemma {:induction false} UnderWayQuiet(h: seq<Net>, h': seq<Net>, first: nat, c: Command, serial: nat, copies: nat,
      taken: nat)
    requires UnderWay(h, first, c, serial, copies, taken) && h <= h' && WellFormed(h'[|h'| - 1])
    requires Quiet(h', |h| - 1, |h'| - 1)
    ensures UnderWay(h', first, c, serial, copies, taken)
  {
    QuietIsSteps(h', |h| - 1, |h'| - 1, serial, Some(c));
    assert Repeat(serial, 0) == [];
    UnderWaySent(h, h', first, c, serial, copies, taken, 0);
  }

  lemma {:induction false} UnderWayPopped(h: seq<Net>, first: nat, c: Command, serial: nat, copies: nat, taken: nat)
    requires UnderWay(h, first, c, serial, copies, taken) && Enabled(h[|h| - 1], Pop)
    ensures UnderWay(h + [Apply(h[|h| - 1], Pop)], first, c, serial, copies, taken + 1)
  {
    var s := h[|h| - 1];
    StepKeepsWellFormed(s, Pop);
    assert StepOf(s, Apply(s, Pop), serial, Some(c));
    StepsAppend(h, Apply(s, Pop), first, serial, Some(c));
  }

  /** A call that ends here. */
  lemma {:induction false} UnderWayEnds(h: seq<Net>, first: nat, c: Command, serial: nat, copies: nat,
      result: Result<Reply>)
    requires UnderWay(h, first, c, serial, copies, copies) && copies <= 3
    requires (result == Throw(SendFailed) && copies < 3) || (result == Unanswered(c) && copies == 3)
    ensures IsTransaction(h, Transaction(c, serial, copies, result, first, |h| - 1))
  {
  }

  lemma {:induction false} UnderWayAccepts(h: seq<Net>, first: nat, c: Command, serial: nat, copies: nat)
    requires UnderWay(h, first, c, serial, copies, copies) && 0 < copies <= 3
    requires h[first].popped < h[|h| - 1].popped
    requires Matches(h[|h| - 1], h[|h| - 1].arrived[h[|h| - 1].popped - 1], c, serial)
    ensures var s := h[|h| - 1];
      var result := Conclude(c, s.served[s.arrived[s.popped - 1]].reply);
      IsTransaction(h, Transaction(c, serial, copies, result, first, |h| - 1))
  {
    var s := h[|h| - 1];
    var q := Transaction(c, serial, copies, Conclude(c, s.served[s.arrived[s.popped - 1]].reply), first, |h| - 1);
    assert AcceptedAt(h[first], s, q, s.popped - 1);
  }

  /** The packet asks for `c`, with the id of draw number `n` in its seventh and eighth byte. */
  predicate Carries(p: Packet, c: Command, n: nat) {
    n > 0 && AsksFor(p, c, ((n - 1) % 65535 + 1) / 256, ((n - 1) % 65535 + 1) % 256)
  }

  /** From `before` to `after` the wire got the copies of one request. */
  predicate Carried(before: seq<Packet>, after: seq<Packet>, c: Command, n: nat, copies: nat) {
    && |after| == |before| + copies && before <= after
    && forall k | |before| <= k < |after| :: Carries(after[k], c, n)
  }

  /** The packets are those of the calls, in order and nothing else. */
  predicate Spelled(ps: seq<Packet>, qs: seq<Transaction>) {
    && |ps| == |Datagrams(qs)| == |Transmissions(qs)|
    && forall k | 0 <= k < |ps| :: Carries(ps[k], Datagrams(qs)[k], Transmissions(qs)[k])
  }

  lemma {:induction false} NothingSpelled()
    ensures Spelled([], [])
  {
  }

  lemma {:induction false} SpelledSnoc(ps: seq<Packet>, more: seq<Packet>, qs: seq<Transaction>, q: Transaction)
    requires Spelled(ps, qs) && |more| == q.copies
    requires forall k | 0 <= k < |more| :: Carries(more[k], q.command, q.serial)
    ensures Spelled(ps + more, qs + [q])
  {
    hide Carries;
    assert (qs + [q])[..|qs|] == qs;
  }

  /** The wire goes on with the copies of one more call. */
  lemma {:induction false} WireGrows(start: seq<Packet>, before: seq<Packet>, after: seq<Packet>,
      qs: seq<Transaction>, q: Transaction)
    requires start <= before && Spelled(before[|start|..], qs)
    requires Carried(before, after, q.command, q.serial, q.copies)
    ensures start <= after && Spelled(after[|start|..], qs + [q])
  {
    hide Spelled, Carries;
    SpelledSnoc(before[|start|..], after[|before|..], qs, q);
    assert after[|start|..] == before[|start|..] + after[|before|..];
  }

  /** Request bytes with the id of a draw are read back as the request. */
  lemma {:induction false} PacketReads(c: Command, hi: byte, lo: byte, n: nat, packet: Packet)
    requires packet == RequestHeader(c, hi, lo) + Payload(c)
    requires 0 < n && (hi, lo) == IdBytes(IdOf(n))
    ensures ParseRequest(packet) == Some(c) && |packet| >= 8 && packet[6] == hi && packet[7] == lo
    ensures Carries(packet, c, n)
  {
    ParseInvertsRequest(c, hi, lo);
    hide AsksFor, ParseRequest;
    assert hi == ((n - 1) % 65535 + 1) / 256 && lo == ((n - 1) % 65535 + 1) % 256;
  }

  lemma {:induction false} SameIdBytes(a: nat, b: nat)
    ensures IdBytes(IdOf(a)) == IdBytes(IdOf(b)) <==> IdOf(a) == IdOf(b)
  {
    if IdBytes(IdOf(a)) == IdBytes(IdOf(b)) {
      IdBytesInjective(IdOf(a), IdOf(b));
    }
  }

  /** The fields of a received datagram. */
  lemma {:induction false} DatagramFields(s: Net, j: nat)
    requires WellFormed(s) && j < |s.served|
    ensures GenuineReply(s, s.served[j])
    ensures var p, reply := DatagramBytes(s, j), s.served[j].reply;
      && |p| == 8 + |ReplyPayload(reply)| && SizeField(p) == reply.announced && Join(p[0], p[1]) == reply.status
      && (IsWhole(reply) ==> p[8..8 + SizeField(p)] == Announced(reply))
      && Join(p[2], p[3]) == s.issued[s.served[j].serial].value.AckCode()
      && (p[6], p[7]) == IdBytes(IdOf(s.served[j].serial))
  {
    var e := s.served[j];
    assert GenuineReply(s, e);
    hide WellFormed, Acknowledge, Announced, Join, SizeField, IdBytes, IdOf, ReplyPayload, IsWhole;
    var ids := IdBytes(IdOf(e.serial));
    var p := DatagramBytes(s, j);
    assert p == Acknowledge(s.issued[e.serial].value, ids.0, ids.1, e.reply);
    hide DatagramBytes;
    AcknowledgeFields(s.issued[e.serial].value, ids.0, ids.1, e.reply);
  }

  /** The tests that the code makes on the bytes are those on command, id and size. */
  lemma {:induction false} TestedBytes(s: Net, j: nat, c: Command, serial: nat)
    requires WellFormed(s) && j < |s.served|
    ensures GenuineReply(s, s.served[j])
    ensures var p := DatagramBytes(s, j); var (hi, lo) := IdBytes(IdOf(serial)); var reply := s.served[j].reply;
      && |p| >= 8 && Join(p[0], p[1]) == reply.status
      && (|p| >= SizeField(p) + 8 <==> IsWhole(reply))
      && (IsWhole(reply) ==> p[8..8 + SizeField(p)] == Announced(reply))
      && (Join(p[2], p[3]) == c.AckCode() && p[6] == hi && p[7] == lo && (reply.status != 0 || IsWhole(reply))
          <==> Matches(s, j, c, serial))
  {
    DatagramFields(s, j);
    hide WellFormed, DatagramBytes, Announced, Join, SizeField, IdBytes, IdOf, ReplyPayload;
    SameIdBytes(s.served[j].serial, serial);
  }

  /** A request that is answered was answered with all that was announced. */
  lemma {:induction false} OkIsWhole(h: seq<Net>, q: Transaction)
    requires IsTransaction(h, q) && q.result.Ok?
    ensures IsWhole(q.result.value) && q.result.value.status == 0
  {
  }

  /** The vector of eight zeros once its elements are assigned one by one. */
  lemma {:induction false} HeaderFilled(c: Command, payload: Packet, hi: byte, lo: byte)
    requires payload == Payload(c)
    ensures |payload| / 256 % 256 == 0
    ensures |payload| % 256 == if c.ReadReg? then 4 else 8
    ensures seq(8, _ => 0)[0 := 0x42][1 := 0x01][2 := Hi(c.Code())][3 := Lo(c.Code())][4 := 0]
              [5 := if c.ReadReg? then 4 else 8][6 := hi][7 := lo] == RequestHeader(c, hi, lo)
  {
  }

  /** What the loop makes of a received datagram; None means that it looks for another one. */
  function Inspect(p: Packet, cmd: Half, expectedAck: Half, address: Word, hi: byte, lo: byte): Option<Result<Packet>> {
    if |p| < 8 || Join(p[2], p[3]) != expectedAck || p[6] != hi || p[7] != lo then None
    else
      var len := SizeField(p);
      var status := Join(p[0], p[1]);
      if status == GEV_STATUS_ACCESS_DENIED then Some(Throw(AccessDenied(cmd, address)))
      else if status != 0 then Some(Throw(DeviceStatus(status, cmd, address)))
      else if |p| >= len + 8 then Some(Ok(p[8..8 + len]))
      else None
  }

  /** The accepted datagrams in bytes: status 0, READREG_ACK or WRITEREG_ACK, the size, the id, as
      many bytes as announced, and possibly more. 0x8006 refuses access, all other statuses are
      errors. Everything else is passed over. */
  lemma {:induction false} InspectInBytes(p: Packet, c: Command, hi: byte, lo: byte, body: Packet)
    ensures var seen := Inspect(p, c.Code(), c.AckCode(), c.address, hi, lo);
      var ack, cmd := if c.ReadReg? then 0x81 else 0x83, if c.ReadReg? then 0x80 else 0x82;
      var answers := |p| >= 8 && p[2..4] == [0, ack] && p[6..8] == [hi, lo];
      && (seen.Some? && seen.value.Ok? && seen.value.value == body <==>
            && answers && p[..2] == [0, 0] && |body| == p[4] as int * 256 + p[5]
            && body <= p[8..])
      && (seen == Some(Throw(AccessDenied(cmd, c.address))) <==> answers && p[..2] == [0x80, 0x06])
      && (seen.Some? && seen.value.Throw? && seen.value.error.DeviceStatus? <==>
            answers && p[..2] != [0, 0] && p[..2] != [0x80, 0x06])
      && (seen == None <==> !answers || (p[..2] == [0, 0] && |p| < 8 + p[4] as int * 256 + p[5]))
  {
    if |p| >= 8 {
      assert p[2..4] == [p[2], p[3]] && p[6..8] == [p[6], p[7]] && p[..2] == [p[0], p[1]];
      var size := p[4] as int * 256 + p[5];
      if |p| >= 8 + size {
        assert p[8..][..size] == p[8..8 + size];
        assert body <= p[8..] && |body| == size <==> body == p[8..8 + size];
      }
    }
  }

  lemma {:induction false} InspectNothing(cmd: Half, expectedAck: Half, address: Word, hi: byte, lo: byte)
    ensures Inspect([], cmd, expectedAck, address, hi, lo) == None
  {
  }

  /** A datagram is accepted exactly if it answers a request with the same id and of the same kind,
      and is an error or brings all it announces; what is made of it is decided by the device's
      reply alone. */
  lemma {:induction false} InspectDecides(s: Net, j: nat, c: Command, serial: nat, hi: byte, lo: byte)
    requires WellFormed(s) && j < |s.served| && (hi, lo) == IdBytes(IdOf(serial))
    ensures GenuineReply(s, s.served[j])
    ensures Inspect(DatagramBytes(s, j), c.Code(), c.AckCode(), c.address, hi, lo)
      == if Matches(s, j, c, serial) then Some(AsBytes(Conclude(c, s.served[j].reply))) else None
  {
    hide Acknowledge, IdBytes, IdOf, DatagramBytes, Announced, IsWhole, Matches, Join, SizeField, WellFormed;
    TestedBytes(s, j, c, serial);
  }

  /** On a responsive link `called` is what remains to come out of the call. */
  ghost predicate Pending(s: Net, c: Command, n: nat, left: nat, called: Called) {
    WellFormed(s) && MayTransmit(s, n, Some(c)) && Attempts(s, c, n, left) == called
  }

  ghost predicate Done(called: Called, t: Net, result: Result<Reply>) {
    called.net == t && called.result == result
  }

  lemma {:induction false} CallPending(s: Net, t: Net, c: Command)
    requires WellFormed(s) && t == Apply(s, Draw)
    ensures Pending(t, c, s.draws + 1, 3, Call(s, c))
  {
    hide Attempts;
    StepKeepsWellFormed(s, Draw);
  }

  lemma {:induction false} NothingPending(s: Net, c: Command, n: nat, called: Called)
    requires Pending(s, c, n, 0, called)
    ensures Done(called, s, Unanswered(c))
  {
  }

  /** A round whose datagram is not the acknowledge leaves the rest of the call to do. */
  lemma {:induction false} RoundRejected(s: Net, a: Net, t: Net, c: Command, n: nat, left: nat, called: Called)
    requires Pending(s, c, n, left, called) && 0 < left
    requires a == Exchange(s, n, Some(c)) && a.popped < |a.arrived| && t == Apply(a, Pop)
    requires WellFormed(t) && !Matches(t, t.arrived[t.popped - 1], c, n)
    ensures Pending(t, c, n, left - 1, called)
  {
    RoundFacts(s, c, n);
    assert t == Round(s, c, n);
  }

  lemma {:induction false} RoundAccepted(s: Net, a: Net, t: Net, c: Command, n: nat, left: nat, called: Called)
    requires Pending(s, c, n, left, called) && 0 < left
    requires a == Exchange(s, n, Some(c)) && a.popped < |a.arrived| && t == Apply(a, Pop)
    requires WellFormed(t) && Matches(t, t.arrived[t.popped - 1], c, n)
    ensures Done(called, t, Conclude(c, t.served[t.arrived[t.popped - 1]].reply))
  {
  }

  lemma {:induction false} DoneIsRemote(s: Net, t: Net, c: Command, result: Result<Reply>)
    requires WellFormed(s) && Done(Call(s, c), t, result)
    ensures Remote(s, t, c, result)
  {
    CallIsRemote(s, c);
  }

  lemma {:induction false} ExchangeFillsQueue(s: Net, c: Command, n: nat)
    requires WellFormed(s) && MayTransmit(s, n, Some(c))
    ensures Exchange(s, n, Some(c)).popped < |Exchange(s, n, Some(c)).arrived|
  {
  }

  class GvcpIPConfig {
    const link: Link
    ghost const start: seq<Packet>
    ghost var log: seq<Transaction>

    /** Since `start` the wire got the packets of the calls in the log. */
    ghost predicate Valid()
      reads this, link, link.counter
    {
      link.Valid() && start <= link.wire && Spelled(link.wire[|start|..], log)
    }

    constructor (link: Link)
      requires link.Valid()
      ensures this.link == link && log == [] && Valid()
    {
      this.link := link;
      start, log := link.wire, [];
      new;
      NothingSpelled();
    }

    /** The part of a turn of the loop that follows select. None means: look for another datagram.
        `before` is the state in which the turn began. */
    method ReceiveAck(serial: nat, hi: byte, lo: byte, cmd: Half, expectedAck: Half, address: Word, ghost c: Command,
        ghost first: nat, ghost copies: nat, ghost before: Net, ghost called: Called)
      returns (r: Option<Result<Packet>>, ghost result: Result<Reply>)
      requires link.Valid() && 0 < copies <= 3
      requires (hi, lo) == IdBytes(IdOf(serial)) && cmd == c.Code() && expectedAck == c.AckCode()
      requires address == c.address
      requires UnderWay(link.history, first, c, serial, copies, copies - 1)
      requires link.responsive ==>
        && Pending(before, c, serial, 4 - copies, called) && MayTransmit(before, serial, Some(c))
        && link.Now() == Exchange(before, serial, Some(c)) && link.Now().popped < |link.Now().arrived|
      modifies link`history
      ensures link.Valid() && old(link.history) <= link.history
      ensures r.None? ==> UnderWay(link.history, first, c, serial, copies, copies)
      ensures r.Some? ==> r.value == AsBytes(result)
      ensures r.Some? ==> IsTransaction(link.history, Transaction(c, serial, copies, result, first, |link.history| - 1))
      ensures link.responsive && r.None? ==> Pending(link.Now(), c, serial, 3 - copies, called)
      ensures link.responsive && r.Some? ==> Done(called, link.Now(), result)
    {
      hide IdBytes, IdOf, Exchange, IsTransaction, Steps, UnderWay, Pending, Done;
      hide Inspect, DatagramBytes, Conclude, Matches;
      UnderWayFacts(link.history, first, c, serial, copies, copies - 1);
      InspectNothing(cmd, expectedAck, address, hi, lo);
      result := Throw(SendFailed);
      ghost var h, exchanged := link.history, link.Now();
      var p := link.Receive();
      if |h| < |link.history| {
        UnderWayPopped(h, first, c, serial, copies, copies - 1);
        ghost var j := link.Now().arrived[link.Now().popped - 1];
        InspectDecides(link.Now(), j, c, serial, hi, lo);
        result := Conclude(c, link.Now().served[j].reply);
        if Matches(link.Now(), j, c, serial) {
          UnderWayAccepts(link.history, first, c, serial, copies);
          if link.responsive {
            RoundAccepted(before, exchanged, link.Now(), c, serial, 4 - copies, called);
          }
        } else if link.responsive {
          RoundRejected(before, exchanged, link.Now(), c, serial, 4 - copies, called);
        }
      }
      r := Inspect(p, cmd, expectedAck, address, hi, lo);
    }

    /** One turn of the loop: send, wait, look at one datagram. None means: try again. `c` is the
        request that the packet spells. */
    method Attempt(packet: Packet, serial: nat, hi: byte, lo: byte, cmd: Half, expectedAck: Half, address: Word,
        ghost c: Command, ghost first: nat, ghost copies: nat, ghost called: Called)
      returns (r: Option<Result<Packet>>, ghost result: Result<Reply>, ghost transmitted: nat)
      requires link.Valid() && first < |link.history| && copies < 3
      requires ParseRequest(packet) == Some(c) && |packet| >= 8 && packet[6] == hi && packet[7] == lo
      requires (hi, lo) == IdBytes(IdOf(serial)) && cmd == c.Code() && expectedAck == c.AckCode()
      requires address == c.address
      requires UnderWay(link.history, first, c, serial, copies, copies)
      requires link.responsive ==> Pending(link.Now(), c, serial, 3 - copies, called)
      modifies link, link.counter
      ensures link.Valid() && old(link.history) <= link.history
      ensures link.wire == old(link.wire) + if transmitted > copies then [packet] else []
      ensures copies <= transmitted <= copies + 1 && (r.None? ==> transmitted > copies)
      ensures r.None? ==> UnderWay(link.history, first, c, serial, copies + 1, copies + 1)
      ensures r.Some? ==> r.value == AsBytes(result)
      ensures r.Some? ==> IsTransaction(link.history,
          Transaction(c, serial, transmitted, result, first, |link.history| - 1))
      ensures link.responsive && r.None? ==> Pending(link.Now(), c, serial, 2 - copies, called)
      ensures link.responsive && r.Some? ==> Done(called, link.Now(), result)
    {
      hide IdBytes, IdOf, Exchange, IsTransaction, Steps, Quiet, UnderWay, Pending, Done, ParseRequest;
      UnderWayFacts(link.history, first, c, serial, copies, copies);
      r, result, transmitted := None, Throw(SendFailed), copies;
      ghost var h, before := link.history, link.Now();
      ExchangeFillsQueue(before, c, serial);
      var sent := link.Send(packet, serial);
      if !sent {
        UnderWaySent(h, link.history, first, c, serial, copies, copies, 0);
        UnderWayEnds(link.history, first, c, serial, copies, result);
        return Some(Throw(SendFailed)), result, transmitted;
      }
      UnderWaySent(h, link.history, first, c, serial, copies, copies, 1);
      transmitted := copies + 1;
      h := link.history;
      var readable := link.Select();
      UnderWayQuiet(h, link.history, first, c, serial, copies + 1, copies);
      UnderWayFacts(link.history, first, c, serial, copies + 1, copies);
      if readable {
        r, result := ReceiveAck(serial, hi, lo, cmd, expectedAck, address, c, first, copies + 1, before, called);
      }
    }

    /** `c` is the request that the four arguments spell. */
    method SendAndReceive(cmd: Half, expectedAck: Half, address: Word, payload: Packet, ghost c: Command)
      returns (r: Result<Packet>, ghost q: Transaction)
      requires Valid()
      requires cmd == c.Code() && expectedAck == c.AckCode() && address == c.address && payload == Payload(c)
      modifies this`log, link, link.counter
      ensures Valid() && old(link.history) <= link.history && log == old(log) + [q]
      ensures IsTransaction(link.history, q)
      ensures q.command == c && q.first == old(|link.history|) - 1 && q.last == |link.history| - 1
      ensures r == AsBytes(q.result)
      ensures Carried(old(link.wire), link.wire, c, q.serial, q.copies)
      ensures link.responsive ==> Done(Call(old(link.Now()), c), link.Now(), q.result)
    {
      hide UnderWay, Pending, Done, IsTransaction, Attempts, Call, Quiet;
      hide IdBytes, IdOf, ParseRequest, RequestHeader, Hi, Lo, Spelled, Carries;
      ghost var first, begin, wire := |link.history| - 1, link.Now(), link.wire;
      ghost var called := Call(begin, c);
      var packet: Packet := seq(8, _ => 0);
      packet := packet[0 := 0x42];
      packet := packet[1 := 0x01];
      packet := packet[2 := Hi(cmd)];
      packet := packet[3 := Lo(cmd)];
      packet := packet[4 := |payload| / 256 % 256];
      packet := packet[5 := |payload| % 256];
      var hi, lo, serial := link.DrawId();
      packet := packet[6 := hi];
      packet := packet[7 := lo];
      HeaderFilled(c, payload, hi, lo);
      packet := packet + payload;
      PacketReads(c, hi, lo, serial, packet);
      UnderWayDrawn(link.history, first, c, serial);
      if link.responsive {
        CallPending(begin, link.Now(), c);
      }

      var attempt := 0;
      while attempt < 3
        invariant 0 <= attempt <= 3 && link.Valid() && old(link.history) <= link.history && log == old(log)
        invariant Carried(wire, link.wire, c, serial, attempt)
        invariant UnderWay(link.history, first, c, serial, attempt, attempt)
        invariant link.responsive ==> Pending(link.Now(), c, serial, 3 - attempt, called)
      {
        var turn;
        ghost var result, copies;
        turn, result, copies := Attempt(packet, serial, hi, lo, cmd, expectedAck, address, c, first, attempt, called);
        if turn.Some? {
          q := Transaction(c, serial, copies, result, first, |link.history| - 1);
          WireGrows(start, wire, link.wire, log, q);
          log := log + [q];
          return turn.value, q;
        }
        attempt := attempt + 1;
      }
      UnderWayEnds(link.history, first, c, serial, 3, Unanswered(c));
      if link.responsive {
        NothingPending(link.Now(), c, serial, called);
      }
      q := Transaction(c, serial, 3, Unanswered(c), first, |link.history| - 1);
      WireGrows(start, wire, link.wire, log, q);
      log := log + [q];
      return Throw(NoResponse(cmd, address)), q;
    }

    method ReadRegister(address: Word) returns (r: Result<Word>, ghost q: Transaction)
      requires Valid()
      modifies this`log, link, link.counter
      ensures Valid() && log == old(log) + [q] && q.command == ReadReg(address)
      ensures old(link.history) <= link.history && old(link.wire) <= link.wire
      ensures NextCall(old(link.history), link.history, q, link.responsive)
      ensures Carried(old(link.wire), link.wire, ReadReg(address), q.serial, q.copies)
      ensures r == if Verdict(q).Some? then Throw(Verdict(q).value) else Ok(q.result.value.value)
    {
      hide IsTransaction, Done, Remote, Call, Spelled, Carries;
      var payload: Packet := [];
      payload := payload + WordBytes(address);
      var response;
      response, q := SendAndReceive(READREG_CMD, READREG_ACK, address, payload, ReadReg(address));
      if link.responsive {
        DoneIsRemote(old(link.Now()), link.Now(), ReadReg(address), q.result);
      }
      if response.Throw? {
        return Throw(response.error), q;
      }
      ghost var reply := q.result.value;
      OkIsWhole(link.history, q);
      WordRoundTrip(reply.value, []);
      if |response.value| < 4 {
        return Throw(InvalidResponse), q;
      }
      return Ok(ExtractWord(response.value)), q;
    }

    /** `thrown` is what the call throws, if anything. */
    method WriteRegister(address: Word, value: Word) returns (thrown: Option<Error>, ghost q: Transaction)
      requires Valid()
      modifies this`log, link, link.counter
      ensures Valid() && log == old(log) + [q] && q.command == WriteReg(address, value)
      ensures old(link.history) <= link.history && old(link.wire) <= link.wire
      ensures NextCall(old(link.history), link.history, q, link.responsive)
      ensures Carried(old(link.wire), link.wire, WriteReg(address, value), q.serial, q.copies)
      ensures thrown == Verdict(q)
    {
      hide IsTransaction, Done, Remote, Call, Spelled, Carries;
      var payload: Packet := [];
      payload := payload + WordBytes(address);
      payload := payload + WordBytes(value);
      var response;
      response, q := SendAndReceive(WRITEREG_CMD, WRITEREG_ACK, address, payload, WriteReg(address, value));
      if link.responsive {
        DoneIsRemote(old(link.Now()), link.Now(), WriteReg(address, value), q.result);
      }
      thrown := if response.Throw? then Some(response.error) else None;
    }

    /** The three address writes. Each one throws before the next is sent. */
    method WriteAddresses(config: IPConfig, ghost claim: Transaction, ghost mode: Word)
      returns (thrown: Option<Error>, ghost body: seq<Transaction>)
      requires Valid() && config.persistentIpEnabled
      requires Progress(link.Now(), link.history, claim, [], config, mode, link.responsive)
      modifies this`log, link, link.counter
      ensures Valid() && old(link.history) <= link.history && log == old(log) + body
      ensures old(link.wire) <= link.wire
      ensures thrown == None ==> |body| == |AddressUpdates(config)|
      ensures thrown == None ==> Progress(old(link.Now()), link.history, claim, body, config, mode, link.responsive)
      ensures thrown != None ==> Finished(old(link.Now()), link.history, claim, body, config, mode, thrown,
          link.responsive)
    {
      hide IsTransaction, Progress, Finished, NextCall, NewMode, Spelled, Carried;
      ghost var begin, h, q := link.Now(), link.history, claim;
      thrown, q := WriteRegister(GEV_PERSISTENT_IP_ADDRESS, config.persistentIp);
      ProgressStep(begin, h, link.history, claim, [], q, config, mode, link.responsive);
      assert [] + [q] == [q];
      h, body := link.history, [q];
      if thrown.Some? { return; }
      thrown, q := WriteRegister(GEV_PERSISTENT_SUBNET_MASK, config.persistentSubnet);
      ProgressStep(begin, h, link.history, claim, body, q, config, mode, link.responsive);
      h, body := link.history, body + [q];
      if thrown.Some? { return; }
      thrown, q := WriteRegister(GEV_PERSISTENT_DEFAULT_GATEWAY, config.persistentGateway);
      ProgressStep(begin, h, link.history, claim, body, q, config, mode, link.responsive);
      body := body + [q];
    }

    /** The modification, one assignment at a time. */
    method ModifyMode(read: Word, config: IPConfig) returns (mode: Word)
      ensures mode == NewMode(read, config)
      ensures mode % 8 == 4 + (if config.persistentIpEnabled then 1 else 0) + (if config.dhcpEnabled then 2 else 0)
      ensures mode / 8 == read / 8
    {
      ModifiedModeBits(read, config.persistentIpEnabled, config.dhcpEnabled);
      mode := read;
      mode := mode - mode % 8;
      if config.persistentIpEnabled { mode := mode + IPCONFIG_PERSISTENT_IP_BIT; }
      if config.dhcpEnabled { mode := mode + IPCONFIG_DHCP_BIT; }
      mode := mode + IPCONFIG_LLA_BIT;
    }

    /** Read-modify-write of the mode register. `before` are the requests before it. */
    method WriteMode(config: IPConfig, ghost claim: Transaction, ghost before: seq<Transaction>, ghost begin: Net,
        ghost guess: Word)
      returns (thrown: Option<Error>, ghost body: seq<Transaction>, ghost mode: Word)
      requires Valid() && |before| == |AddressUpdates(config)|
      requires Progress(begin, link.history, claim, before, config, guess, link.responsive)
      modifies this`log, link, link.counter
      ensures Valid() && old(link.history) <= link.history
      ensures before <= body && log == old(log) + body[|before|..] && old(link.wire) <= link.wire
      ensures Finished(begin, link.history, claim, body, config, mode, thrown, link.responsive)
    {
      hide IsTransaction, Progress, Finished, NextCall, NewMode, Calm, Spelled, Carried;
      ghost var responsive, h, q := link.responsive, link.history, claim;
      ModeRequests(config, guess, |before|);
      body, mode := before, guess;
      var read;
      read, q := ReadRegister(GEV_CURRENT_IP_CONFIGURATION);
      body := body + [q];
      if read.Throw? {
        ProgressStep(begin, h, link.history, claim, before, q, config, guess, responsive);
        return Some(read.error), body, mode;
      }
      mode := read.value;
      if responsive && Calm(begin) {
        ModeRead(begin, h, link.history, claim, before, q, config, guess, responsive);
      }
      ModeRequests(config, mode, |before|);
      ProgressMode(begin, h, claim, before, config, guess, mode, responsive);
      ProgressStep(begin, h, link.history, claim, before, q, config, mode, responsive);
      h := link.history;

      var newMode := ModifyMode(read.value, config);
      thrown, q := WriteRegister(GEV_CURRENT_IP_CONFIGURATION, newMode);
      ProgressStep(begin, h, link.history, claim, body, q, config, mode, responsive);
      body := body + [q];
      if thrown == None {
        ProgressEnd(begin, link.history, claim, body, config, mode, responsive);
      }
    }

    /** What is inside the try block of writeConfig. The claim has succeeded. */
    method WriteClaimed(config: IPConfig, ghost claim: Transaction)
      returns (thrown: Option<Error>, ghost body: seq<Transaction>, ghost mode: Word)
      requires Valid() && IsTransaction(link.history, claim) && claim.last == |link.history| - 1
      modifies this`log, link, link.counter
      ensures Valid() && old(link.history) <= link.history && log == old(log) + body
      ensures old(link.wire) <= link.wire
      ensures Finished(old(link.Now()), link.history, claim, body, config, mode, thrown, link.responsive)
    {
      hide IsTransaction, Progress, Finished, NewMode, Spelled, Carried;
      ghost var begin := link.Now();
      body, mode := [], ModeIn(begin.device.regs);
      ProgressStart(link.history, claim, config, mode, link.responsive);
      if config.persistentIpEnabled {
        thrown, body := WriteAddresses(config, claim, mode);
        if thrown.Some? { return; }
      }
      ghost var before := body;
      thrown, body, mode := WriteMode(config, claim, before, begin, mode);
      assert body == before + body[|before|..];
    }

    /** `thrown` is what the caller catches, if anything. */
    method WriteConfig(config: IPConfig) returns (thrown: Option<Error>, ghost qs: seq<Transaction>, ghost mode: Word)
      requires Valid()
      modifies this`log, link, link.counter
      ensures Valid() && old(link.history) <= link.history && log == old(log) + qs
      ensures old(link.wire) <= link.wire
      ensures ConfigRun(link.history, qs, old(|link.history|) - 1, |link.history| - 1, config, mode, thrown)
      ensures link.responsive && Settled(old(link.Now())) ==>
        && Settled(link.Now()) && Backlog(link.Now()) == Backlog(old(link.Now()))
        && RemotelyConfigured(old(link.Now()), link.Now().device, config, thrown)
      ensures link.responsive && Settled(old(link.Now())) && !old(link.Now()).device.foreign ==>
        (link.Now().device.ccp == 0 <==> Backlog(old(link.Now())) <= 2)
      ensures link.responsive && Settled(old(link.Now())) ==>
        RemoteEffect(old(link.Now()), link.Now().device, config, thrown)
      ensures thrown == None ==> TakesEffect(link.history, old(|link.history|) - 1, |link.history| - 1, config)
    {
      hide IsTransaction, Finished, Body, NewMode, Spelled, Carried, TakesEffect, RemoteEffect, ConfigRun;
      ghost var h0, begin := link.history, link.Now();
      ghost var claim, release;
      thrown, claim := WriteRegister(GEV_CCP, 1);
      qs, mode := [claim], 0;
      if thrown.Some? {
        FailedClaim(h0, link.history, claim, config, link.responsive);
        ReleasedIfCalm(begin, link.Now(), config, thrown, link.responsive);
        EffectIfSettled(begin, link.Now(), config, thrown, link.responsive);
        return;
      }
      ghost var h1 := link.history;
      ghost var body;
      thrown, body, mode := WriteClaimed(config, claim);
      ghost var h2 := link.history;
      var ignored;
      ignored, release := WriteRegister(GEV_CCP, 0);
      qs := [claim] + body + [release];
      Released(h0, h1, h2, link.history, claim, body, release, config, mode, thrown, link.responsive);
      ReleasedIfCalm(begin, link.Now(), config, thrown, link.responsive);
      EffectIfSettled(begin, link.Now(), config, thrown, link.responsive);
      RunsTakeEffect(link.history, qs, |h0| - 1, |link.history| - 1, config, mode, thrown);
    }

    /** The three address reads. Each one throws before the next is sent. */
    method ReadAddresses(ghost begin: Net, ghost first: nat, ghost before: seq<Transaction>)
      returns (thrown: Option<Error>, ip: Word, subnet: Word, gateway: Word, ghost qs: seq<Transaction>)
      requires Valid() && |before| == 1 && ReadsSoFar(begin, link.history, before, first, link.responsive)
      modifies this`log, link, link.counter
      ensures Valid() && old(link.history) <= link.history && old(link.wire) <= link.wire
      ensures before <= qs && log == old(log) + qs[1..]
      ensures thrown.Some? ==> ReadRun(link.history, qs, first, |link.history| - 1, Throw(thrown.value))
      ensures thrown.Some? && link.responsive ==> ReadRemotely(begin, link.Now(), Throw(thrown.value))
      ensures thrown == None ==>
        && |qs| == 4 && ReadsSoFar(begin, link.history, qs, first, link.responsive)
        && qs[1].result.Ok? && qs[1].result.value.value == ip
        && qs[2].result.Ok? && qs[2].result.value.value == subnet
        && qs[3].result.Ok? && qs[3].result.value.value == gateway
    {
      hide IsTransaction, NextCall, ReadsSoFar, ReadRun, ReadRemotely, WellFormed, Spelled, Carried;
      ghost var h, q := link.history, before[0];
      var read;
      thrown, ip, subnet, gateway := None, 0, 0, 0;
      read, q := ReadRegister(GEV_PERSISTENT_IP_ADDRESS);
      ReadsNext(begin, h, link.history, before, first, q, link.responsive);
      h, qs := link.history, before + [q];
      if read.Throw? { return Some(read.error), ip, subnet, gateway, qs; }
      ip := read.value;
      read, q := ReadRegister(GEV_PERSISTENT_SUBNET_MASK);
      ReadsNext(begin, h, link.history, qs, first, q, link.responsive);
      h, qs := link.history, qs + [q];
      if read.Throw? { return Some(read.error), ip, subnet, gateway, qs; }
      subnet := read.value;
      read, q := ReadRegister(GEV_PERSISTENT_DEFAULT_GATEWAY);
      ReadsNext(begin, h, link.history, qs, first, q, link.responsive);
      qs := qs + [q];
      if read.Throw? { return Some(read.error), ip, subnet, gateway, qs; }
      gateway := read.value;
    }

    /** `qs` are the calls made. */
    method ReadConfig() returns (r: Result<IPConfig>, ghost qs: seq<Transaction>)
      requires Valid()
      modifies this`log, link, link.counter
      ensures Valid() && old(link.history) <= link.history && log == old(log) + qs
      ensures old(link.wire) <= link.wire
      ensures ReadRun(link.history, qs, old(|link.history|) - 1, |link.history| - 1, r)
      ensures link.responsive ==> ReadRemotely(old(link.Now()), link.Now(), r)
      ensures r.Ok? ==> ReportsReplies(qs, r.value)
      ensures link.responsive && Settled(old(link.Now())) ==> RemoteReport(old(link.Now()), r)
      ensures r.Ok? ==> ReadsAreHeld(link.history, old(|link.history|) - 1, |link.history| - 1, r.value)
    {
      hide IsTransaction, NextCall, ReadsSoFar, ReadRun, ReadRemotely, HasBit, WellFormed;
      hide Spelled, Carried, RemoteReport, ReadsAreHeld, ReportsReplies, Settled;
      ghost var first, begin := |link.history| - 1, link.Now();
      ReadsStart(link.history, link.responsive);
      var mode, q := ReadRegister(GEV_CURRENT_IP_CONFIGURATION);
      ReadsNext(begin, old(link.history), link.history, [], first, q, link.responsive);
      qs := [q];
      assert [] + [q] == qs;
      if mode.Throw? {
        ReadFails(begin, link.history, qs, first, mode.error, link.responsive);
        return Throw(mode.error), qs;
      }
      var thrown, ip, subnet, gateway;
      thrown, ip, subnet, gateway, qs := ReadAddresses(begin, first, qs);
      assert qs == [q] + qs[1..];
      if thrown.Some? {
        ReadFails(begin, link.history, qs, first, thrown.value, link.responsive);
        return Throw(thrown.value), qs;
      }
      ReadsEnd(begin, link.history, qs, first, link.responsive);
      r := Ok(IPConfig(HasBit(mode.value, IPCONFIG_PERSISTENT_IP_BIT), HasBit(mode.value, IPCONFIG_DHCP_BIT),
                       ip, subnet, gateway));
      ReadEnds(begin, link.history, qs, first, r, link.responsive);
    }
  }
}
