/** The listener threads and the consumer of rcdiscover/discover.cc as interleaved steps. */
module Collector {
  import opened RequestCounter
  import opened DeviceInfo

  type Datagram = seq<byte>
  type RequestId = (byte, byte)

  const BUFFER := 600

  /** What recvfrom puts into the buffer. */
  function Received(d: Datagram): (p: Datagram)
    ensures |p| <= BUFFER
  {
    if |d| <= BUFFER then d else d[..BUFFER]
  }

  /** What a listener makes of a datagram: nothing, or one info. */
  function Accepted(iface: string, ids: seq<RequestId>, d: Datagram): (infos: seq<Info>)
    ensures |infos| <= 1
  {
    var p := Received(d);
    if |p| < 8 || p[0] != 0 || p[1] != 0 || p[2] != 0 || p[3] != 3 || (p[6], p[7]) !in ids then []
    else
      var len := p[4] as int * 256 + p[5];
      if |p| < len + 8 then []
      else
        var info := Parse(iface, p[8..8 + len]);
        if info.IsValid() then [info] else []
  }

  /** The acknowledge that a device with these data sends. */
  function DiscoveryAck(id: RequestId, d: Info, g: Gaps): Datagram
    requires g.Ok() && Encodable(d)
  {
    [0, 0, 0, 0x03, 0, BODY, id.0, id.1] + Encode(d, g)
  }

  /** A device's acknowledge is accepted, as the device's data, exactly if it answers one of the
      requests and the device has an address. */
  lemma {:induction false} DeviceIsHeard(ids: seq<RequestId>, id: RequestId, d: Info, g: Gaps)
    requires g.Ok() && Encodable(d)
    ensures Accepted(d.iface, ids, DiscoveryAck(id, d, g)) == if id in ids && d.mac != 0 then [d] else []
  {
    hide Encode, Parse, Encodable;
    ParseInvertsEncode(d, g);
    var p := DiscoveryAck(id, d, g);
    assert Received(p) == p && p[8..8 + BODY] == Encode(d, g);
  }

  /** Three zeros, a three, the size of the body, the id, and the body. */
  predicate Acknowledges(p: Datagram, id: RequestId, body: seq<byte>) {
    && |body| < 65536 && |p| >= 8 + |body|
    && p[..8] == [0, 0, 0, 3, |body| / 256, |body| % 256, id.0, id.1] && p[8..8 + |body|] == body
  }

  /** What is accepted is just this, in the first 600 bytes, with an id of the broadcast and a body
      whose address is not zero. */
  lemma {:induction false} AcceptedExactly(iface: string, ids: seq<RequestId>, d: Datagram, x: Info)
    ensures Accepted(iface, ids, d) == [x] <==>
      exists id, body :: id in ids && Acknowledges(if |d| <= 600 then d else d[..600], id, body)
        && x == Parse(iface, body) && x.mac != 0
  {
    hide Parse;
    var p := Received(d);
    if Accepted(iface, ids, d) == [x] {
      var len := p[4] as int * 256 + p[5];
      assert Accepted(iface, ids, d) == [Parse(iface, p[8..8 + len])];
      assert [x][0] == Parse(iface, p[8..8 + len]);
      assert p[..8] == [0, 0, 0, 3, len / 256, len % 256, p[6], p[7]];
      assert Acknowledges(p, (p[6], p[7]), p[8..8 + len]);
    }
    if id, body :| id in ids && Acknowledges(p, id, body) && x == Parse(iface, body) && x.mac != 0 {
      var head := p[..8];
      assert p[0] == head[0] && p[1] == head[1] && p[2] == head[2] && p[3] == head[3];
      assert p[4] == head[4] && p[5] == head[5] && p[6] == head[6] && p[7] == head[7];
      assert p[4] as int * 256 + p[5] == |body|;
    }
  }

  function AcceptedAll(iface: string, ids: seq<RequestId>, ds: seq<Datagram>): seq<Info> {
    if ds == [] then [] else AcceptedAll(iface, ids, ds[..|ds| - 1]) + Accepted(iface, ids, ds[|ds| - 1])
  }

  /** A socket and its thread: what has arrived, how much of it was received, and the info that the
      thread is about to store. */
  datatype Listener = Listener(iface: string, arrived: seq<Datagram>, taken: nat, held: seq<Info>, running: bool)

  datatype Entry = Entry(socket: nat, info: Info)

  /** `delivered` is what calls of getResponse have moved to the caller. */
  datatype System = System(
    ids: seq<RequestId>, listeners: seq<Listener>, pending: seq<Entry>, delivered: seq<Entry>, stop: bool)

  datatype Action =
    | Arrive(socket: nat, datagram: Datagram)
    | Receive(socket: nat)
    | Store(socket: nat)
    | Exit(socket: nat)
    | Drain
    | Stop

  predicate Enabled(s: System, a: Action) {
    match a
    case Arrive(i, _) => i < |s.listeners|
    case Receive(i) => i < |s.listeners| && var l := s.listeners[i]; l.running && l.held == [] && l.taken < |l.arrived|
    case Store(i) => i < |s.listeners| && s.listeners[i].running && s.listeners[i].held != []
    case Exit(i) => i < |s.listeners| && s.listeners[i].running && s.listeners[i].held == [] && s.stop
    case Drain => true
    case Stop => true
  }

  function Act(s: System, a: Action): System
    requires Enabled(s, a)
  {
    match a
    case Arrive(i, d) => s.(listeners := s.listeners[i := s.listeners[i].(arrived := s.listeners[i].arrived + [d])])
    case Receive(i) =>
      var l := s.listeners[i];
      s.(listeners := s.listeners[i := l.(taken := l.taken + 1, held := Accepted(l.iface, s.ids, l.arrived[l.taken]))])
    case Store(i) =>
      var l := s.listeners[i];
      s.(listeners := s.listeners[i := l.(held := [])], pending := s.pending + [Entry(i, l.held[0])])
    case Exit(i) => s.(listeners := s.listeners[i := s.listeners[i].(running := false)])
    case Drain => s.(delivered := s.delivered + s.pending, pending := [])
    case Stop => s.(stop := true)
  }

  function OfSocket(entries: seq<Entry>, i: nat): seq<Info> {
    if entries == [] then []
    else
      var e := entries[|entries| - 1];
      OfSocket(entries[..|entries| - 1], i) + if e.socket == i then [e.info] else []
  }

  lemma {:induction false} OfSocketConcat(a: seq<Entry>, b: seq<Entry>, i: nat)
    ensures OfSocket(a + b, i) == OfSocket(a, i) + OfSocket(b, i)
    decreases |b|
  {
    if b == [] {
      assert a + b == a;
    } else {
      assert (a + b)[..|a + b| - 1] == a + b[..|b| - 1];
      OfSocketConcat(a, b[..|b| - 1], i);
    }
  }

  /** What socket `i` has contributed: delivered, pending, and in its thread's hands, in this order. */
  function Contributed(s: System, i: nat): seq<Info>
    requires i < |s.listeners|
  {
    OfSocket(s.delivered + s.pending, i) + s.listeners[i].held
  }

  /** Nothing is lost, added or reordered. */
  ghost predicate Conserved(s: System, i: nat)
    requires i < |s.listeners|
  {
    var l := s.listeners[i];
    && l.taken <= |l.arrived| && |l.held| <= 1 && (!l.running ==> l.held == [])
    && Contributed(s, i) == AcceptedAll(l.iface, s.ids, l.arrived[..l.taken])
  }

  ghost predicate Inv(s: System) {
    && (forall i | 0 <= i < |s.listeners| :: Conserved(s, i))
    && (forall e <- s.delivered + s.pending :: e.socket < |s.listeners|)
  }

  lemma {:induction false} AcceptedNext(iface: string, ids: seq<RequestId>, ds: seq<Datagram>, k: nat)
    requires k < |ds|
    ensures AcceptedAll(iface, ids, ds[..k + 1]) == AcceptedAll(iface, ids, ds[..k]) + Accepted(iface, ids, ds[k])
  {
    assert ds[..k + 1][..k] == ds[..k];
  }

  lemma {:induction false} OfSocketSnoc(entries: seq<Entry>, e: Entry, i: nat)
    ensures OfSocket(entries + [e], i) == OfSocket(entries, i) + if e.socket == i then [e.info] else []
  {
  }

  lemma {:induction false} ReceiveKeepsConserved(s: System, j: nat, i: nat)
    requires Enabled(s, Receive(j)) && i < |s.listeners| && Conserved(s, i)
    ensures Conserved(Act(s, Receive(j)), i)
  {
    hide Accepted, OfSocket, AcceptedAll;
    if i == j {
      var l := s.listeners[i];
      AcceptedNext(l.iface, s.ids, l.arrived, l.taken);
      assert Contributed(s, i) == OfSocket(s.delivered + s.pending, i);
    }
  }

  lemma {:induction false} StoreKeepsConserved(s: System, j: nat, i: nat)
    requires Enabled(s, Store(j)) && i < |s.listeners| && Conserved(s, i)
    ensures Conserved(Act(s, Store(j)), i)
  {
    hide Accepted, OfSocket, AcceptedAll;
    var e, t := Entry(j, s.listeners[j].held[0]), Act(s, Store(j));
    assert t.delivered + t.pending == (s.delivered + s.pending) + [e];
    OfSocketSnoc(s.delivered + s.pending, e, i);
    if i == j {
      assert s.listeners[i].held == [e.info];
      assert Contributed(t, i) == Contributed(s, i);
    } else {
      assert t.listeners[i] == s.listeners[i];
      assert OfSocket(s.delivered + s.pending, i) + [] == OfSocket(s.delivered + s.pending, i);
    }
  }

  lemma {:induction false} ActKeepsConserved(s: System, a: Action, i: nat)
    requires Enabled(s, a) && i < |s.listeners| && Conserved(s, i)
    ensures |Act(s, a).listeners| == |s.listeners| && Conserved(Act(s, a), i)
  {
    hide Accepted, OfSocket, AcceptedAll;
    match a
    case Arrive(j, d) =>
      var l := s.listeners[i];
      assert (l.arrived + [d])[..l.taken] == l.arrived[..l.taken];
    case Receive(j) => ReceiveKeepsConserved(s, j, i);
    case Store(j) => StoreKeepsConserved(s, j, i);
    case Drain => assert (s.delivered + s.pending) + [] == s.delivered + s.pending;
    case _ =>
  }

  lemma {:induction false} ActKeepsInv(s: System, a: Action)
    requires Enabled(s, a) && Inv(s)
    ensures Inv(Act(s, a))
  {
    hide Accepted, Conserved;
    var t := Act(s, a);
    forall i | 0 <= i < |t.listeners| ensures Conserved(t, i) {
      ActKeepsConserved(s, a, i);
    }
  }

  // ---- whole runs --------------------------------------------------------------------------

  ghost predicate Legal(s: System, trace: seq<Action>)
    decreases |trace|, 0
  {
    trace == [] ||
      (Legal(s, trace[..|trace| - 1]) && Enabled(Replay(s, trace[..|trace| - 1]), trace[|trace| - 1]))
  }

  ghost function Replay(s: System, trace: seq<Action>): System
    requires Legal(s, trace)
    decreases |trace|, 1
  {
    if trace == [] then s else Act(Replay(s, trace[..|trace| - 1]), trace[|trace| - 1])
  }

  lemma {:induction false} LegalSnoc(s: System, trace: seq<Action>, a: Action)
    requires Legal(s, trace) && Enabled(Replay(s, trace), a)
    ensures Legal(s, trace + [a]) && Replay(s, trace + [a]) == Act(Replay(s, trace), a)
  {
  }

  function Started(ids: seq<RequestId>, ifaces: seq<string>): System {
    System(ids, seq(|ifaces|, i requires 0 <= i < |ifaces| => Listener(ifaces[i], [], 0, [], true)), [], [], false)
  }

  /** After the broadcast, whatever the interleaving of arrivals, listeners, consumer and
      destructor: for each socket, what was delivered, is pending, or is in the hands of its thread
      is, in order, what the test accepts of the datagrams that were received. */
  lemma {:induction false} CollectorConserves(ids: seq<RequestId>, ifaces: seq<string>, trace: seq<Action>)
    requires Legal(Started(ids, ifaces), trace)
    ensures Inv(Replay(Started(ids, ifaces), trace))
    ensures |Replay(Started(ids, ifaces), trace).listeners| == |ifaces|
    ensures Replay(Started(ids, ifaces), trace).ids == ids
  {
    hide Inv;
    var s := Started(ids, ifaces);
    if trace == [] {
      StartedInv(ids, ifaces);
    } else {
      CollectorConserves(ids, ifaces, trace[..|trace| - 1]);
      ActKeepsInv(Replay(s, trace[..|trace| - 1]), trace[|trace| - 1]);
    }
  }

  lemma {:induction false} StartedInv(ids: seq<RequestId>, ifaces: seq<string>)
    ensures Inv(Started(ids, ifaces))
  {
  }

  /** A call of getResponse that moves nothing does not mean that there is no further response: the
      next one may bring the acknowledge of any device. */
  lemma {:induction false} NothingYet(iface: string, id: RequestId, d: Info, g: Gaps)
    requires g.Ok() && Encodable(d) && d.mac != 0 && d.iface == iface
    ensures var s := Started([id], [iface]); var ack := DiscoveryAck(id, d, g);
      var trace := [Drain] + [Arrive(0, ack)] + [Receive(0)] + [Store(0)] + [Drain];
      && Legal(s, trace[..1]) && Replay(s, trace[..1]).delivered == s.delivered
      && Legal(s, trace) && Replay(s, trace).delivered == s.delivered + [Entry(0, d)]
  {
    hide Encode, Encodable, Accepted, DiscoveryAck;
    var s, ack := Started([id], [iface]), DiscoveryAck(id, d, g);
    DeviceIsHeard([id], id, d, g);
    var t1, t2, t3, t4 := [Drain], [Drain] + [Arrive(0, ack)], [Drain] + [Arrive(0, ack)] + [Receive(0)],
                          [Drain] + [Arrive(0, ack)] + [Receive(0)] + [Store(0)];
    assert [] + [Drain] == t1 && (t4 + [Drain])[..1] == t1;
    LegalSnoc(s, [], Drain);
    LegalSnoc(s, t1, Arrive(0, ack));
    LegalSnoc(s, t2, Receive(0));
    LegalSnoc(s, t3, Store(0));
    LegalSnoc(s, t4, Drain);
  }

  // ---- all sockets together ----------------------------------------------------------------

  /** The infos of the first `n` sockets. */
  function Below(entries: seq<Entry>, n: nat): seq<Info> {
    if entries == [] then []
    else
      var e := entries[|entries| - 1];
      Below(entries[..|entries| - 1], n) + if e.socket < n then [e.info] else []
  }

  function AcceptedBelow(s: System, n: nat): multiset<Info>
    requires n <= |s.listeners| && forall i | 0 <= i < n :: s.listeners[i].taken <= |s.listeners[i].arrived|
  {
    if n == 0 then multiset{}
    else
      var l := s.listeners[n - 1];
      AcceptedBelow(s, n - 1) + multiset(AcceptedAll(l.iface, s.ids, l.arrived[..l.taken]))
  }

  function HeldBelow(s: System, n: nat): multiset<Info>
    requires n <= |s.listeners|
  {
    if n == 0 then multiset{} else HeldBelow(s, n - 1) + multiset(s.listeners[n - 1].held)
  }

  lemma {:induction false} BelowNext(entries: seq<Entry>, n: nat)
    ensures multiset(Below(entries, n + 1)) == multiset(Below(entries, n)) + multiset(OfSocket(entries, n))
  {
    if entries != [] {
      BelowNext(entries[..|entries| - 1], n);
    }
  }

  lemma {:induction false} BelowNone(entries: seq<Entry>)
    ensures Below(entries, 0) == []
  {
    if entries != [] {
      BelowNone(entries[..|entries| - 1]);
    }
  }

  lemma {:induction false} SumOfSockets(s: System, n: nat)
    requires Inv(s) && n <= |s.listeners|
    ensures forall i | 0 <= i < n :: s.listeners[i].taken <= |s.listeners[i].arrived|
    ensures multiset(Below(s.delivered + s.pending, n)) + HeldBelow(s, n) == AcceptedBelow(s, n)
  {
    hide AcceptedAll, OfSocket, Below;
    forall i | 0 <= i < n ensures s.listeners[i].taken <= |s.listeners[i].arrived| {
      assert Conserved(s, i);
    }
    if n == 0 {
      BelowNone(s.delivered + s.pending);
    } else {
      SumOfSockets(s, n - 1);
      BelowNext(s.delivered + s.pending, n - 1);
      assert Conserved(s, n - 1);
    }
  }

  function Infos(entries: seq<Entry>): (infos: seq<Info>)
    ensures |infos| == |entries|
  {
    seq(|entries|, i requires 0 <= i < |entries| => entries[i].info)
  }

  lemma {:induction false} BelowAll(entries: seq<Entry>, n: nat)
    requires forall e <- entries :: e.socket < n
    ensures Below(entries, n) == Infos(entries)
  {
    if entries != [] {
      var front, e := entries[..|entries| - 1], entries[|entries| - 1];
      assert e in entries;
      BelowAll(front, n);
      assert Infos(entries) == Infos(front) + [e.info];
    }
  }

  lemma {:induction false} InfosConcat(a: seq<Entry>, b: seq<Entry>)
    ensures multiset(Infos(a + b)) == multiset(Infos(a)) + multiset(Infos(b))
  {
    assert Infos(a + b) == Infos(a) + Infos(b);
  }

  lemma {:induction false} EntriesBelow(s: System)
    requires Inv(s)
    ensures Below(s.delivered + s.pending, |s.listeners|) == Infos(s.delivered + s.pending)
  {
    hide Conserved, Below;
    BelowAll(s.delivered + s.pending, |s.listeners|);
  }

  /** Conservation over all sockets: what was delivered, is pending or is held, with multiplicities,
      is what was accepted of all that was received. */
  lemma {:induction false} NothingLostOrInvented(s: System)
    requires Inv(s)
    ensures forall i | 0 <= i < |s.listeners| :: s.listeners[i].taken <= |s.listeners[i].arrived|
    ensures multiset(Infos(s.delivered)) + multiset(Infos(s.pending)) + HeldBelow(s, |s.listeners|)
         == AcceptedBelow(s, |s.listeners|)
  {
    hide Inv, Below, HeldBelow, AcceptedBelow, Infos;
    SumOfSockets(s, |s.listeners|);
    EntriesBelow(s);
    InfosConcat(s.delivered, s.pending);
  }
}
