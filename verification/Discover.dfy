/** rcdiscover/discover.cc: the broadcast, one turn of a listener, getResponse and the destructor,
    each with other threads running in between. */
module Discover {
  import opened RequestCounter
  import opened DeviceInfo
  import opened Collector

  /** The thread on whose behalf a method runs: the consumer's, or the listener of a socket. */
  datatype Thread = Consumer | ListenerOf(socket: nat)

  /** A step of the network or of another thread. */
  predicate ByOthers(me: Thread, a: Action) {
    match a
    case Arrive(_, _) => true
    case Drain => me.ListenerOf?
    case Stop => me.ListenerOf?
    case _ => me == Consumer || a.socket != me.socket
  }

  /** What has happened from trace `before` to trace `after` was done by others. */
  ghost predicate OthersOnly(me: Thread, before: seq<Action>, after: seq<Action>) {
    before <= after && forall k | |before| <= k < |after| :: ByOthers(me, after[k])
  }

  /** What a call of send comes to. */
  datatype SendOutcome = Sent | Unreachable | Fails

  function Names(sent: seq<(string, Datagram)>): (names: seq<string>)
    ensures |names| == |sent|
  {
    seq(|sent|, k requires 0 <= k < |sent| => sent[k].0)
  }

  /** The sockets in front of position `n` that are on a wanted interface were sent the command. */
  ghost predicate Asked(sockets: seq<string>, iface: seq<string>, n: nat, sent: seq<(string, Datagram)>, at: seq<nat>,
      ids: seq<RequestId>)
  {
    && n <= |sockets| && |at| == |sent| == |ids|
    && (forall k | 0 <= k < |sent| ::
          at[k] < n && sent[k].0 == sockets[at[k]] && (iface == [] || sent[k].0 in iface))
    && (forall j, k | 0 <= j < k < |at| :: at[j] < at[k])
    && (forall k | 0 <= k < |sent| :: sent[k].1 == DiscoveryCommand(ids[k]))
    && (forall i | 0 <= i < n && (iface == [] || sockets[i] in iface) :: i in at)
    && (iface == [] ==> Names(sent) == sockets[..n])
    && (forall name :: CountOf(Names(sent), name)
          == if iface == [] || name in iface then CountOf(sockets[..n], name) else 0)
  }

  function CountOf(names: seq<string>, name: string): nat {
    multiset(names)[name]
  }

  lemma {:induction false} NobodyAsked(sockets: seq<string>, iface: seq<string>)
    ensures Asked(sockets, iface, 0, [], [], [])
  {
  }

  lemma {:induction false} AskedNext(sockets: seq<string>, iface: seq<string>, n: nat, sent: seq<(string, Datagram)>,
      at: seq<nat>, ids: seq<RequestId>, id: RequestId)
    requires Asked(sockets, iface, n, sent, at, ids) && n < |sockets|
    ensures iface == [] || sockets[n] in iface ==>
      Asked(sockets, iface, n + 1, sent + [(sockets[n], DiscoveryCommand(id))], at + [n], ids + [id])
    ensures !(iface == [] || sockets[n] in iface) ==> Asked(sockets, iface, n + 1, sent, at, ids)
  {
    hide DiscoveryCommand, CountOf, Names;
    assert sockets[..n + 1] == sockets[..n] + [sockets[n]];
    forall name
      ensures CountOf(sockets[..n + 1], name) == CountOf(sockets[..n], name) + if sockets[n] == name then 1 else 0
    {
      CountNext(sockets[..n], sockets[n], name);
    }
    if iface == [] || sockets[n] in iface {
      var sent' := sent + [(sockets[n], DiscoveryCommand(id))];
      NamesNext(sent, (sockets[n], DiscoveryCommand(id)));
      forall name
        ensures CountOf(Names(sent'), name) == CountOf(Names(sent), name) + if sockets[n] == name then 1 else 0
      {
        CountNext(Names(sent), sockets[n], name);
      }
    }
  }

  lemma {:induction false} CountNext(names: seq<string>, x: string, name: string)
    ensures CountOf(names + [x], name) == CountOf(names, name) + if x == name then 1 else 0
  {
  }

  lemma {:induction false} NamesNext(sent: seq<(string, Datagram)>, x: (string, Datagram))
    ensures Names(sent + [x]) == Names(sent) + [x.0]
  {
  }

  lemma {:induction false} AskedFacts(sockets: seq<string>, iface: seq<string>, n: nat, sent: seq<(string, Datagram)>,
      at: seq<nat>, ids: seq<RequestId>)
    requires Asked(sockets, iface, n, sent, at, ids)
    ensures |at| == |sent| == |ids|
    ensures forall k | 0 <= k < |sent| ::
              at[k] < n <= |sockets| && sent[k].0 == sockets[at[k]] && (iface == [] || sent[k].0 in iface)
    ensures forall j, k | 0 <= j < k < |at| :: at[j] < at[k]
    ensures forall k | 0 <= k < |sent| :: sent[k].1 == [0x42, 0x11, 0, 0x02, 0, 0, ids[k].0, ids[k].1]
    ensures forall i | 0 <= i < n && (iface == [] || sockets[i] in iface) :: i in at
    ensures n == |sockets| && iface == [] ==> Names(sent) == sockets
    ensures n == |sockets| ==> forall name ::
              multiset(Names(sent))[name] == if iface == [] || name in iface then multiset(sockets)[name] else 0
  {
    if n == |sockets| {
      assert sockets[..n] == sockets;
      forall name
        ensures multiset(Names(sent))[name] == if iface == [] || name in iface then multiset(sockets)[name] else 0
      {
        assert CountOf(Names(sent), name) == if iface == [] || name in iface then CountOf(sockets[..n], name) else 0;
      }
    }
  }

  function DiscoveryCommand(id: RequestId): Datagram {
    [0x42, 0x11, 0, 0x02, 0, 0, id.0, id.1]
  }

  function Filled(n: nat, b: byte): (bytes: Datagram)
    ensures |bytes| == n
  {
    if n == 0 then [] else Filled(n - 1, b) + [b]
  }

  /** The ids are those of the draws, which were made one after the other. */
  ghost predicate Drawn(ids: seq<RequestId>, draws: seq<nat>, first: nat, last: nat) {
    && |ids| == |draws| && first <= last
    && (forall k | 0 <= k < |draws| :: first < draws[k] <= last && ids[k] == IdBytes(IdOf(draws[k])))
    && (forall j, k | 0 <= j < k < |draws| :: draws[j] < draws[k])
  }

  lemma {:induction false} NoneDrawn(draws: nat)
    ensures Drawn([], [], draws, draws)
  {
  }

  lemma {:induction false} OneMoreDrawn(ids: seq<RequestId>, draws: seq<nat>, first: nat, last: nat, id: RequestId,
      draw: nat)
    requires Drawn(ids, draws, first, last) && last < draw && id == IdBytes(IdOf(draw))
    ensures Drawn(ids + [id], draws + [draw], first, draw) && |draws| == |ids|
  {
    hide IdOf, IdBytes;
  }

  /** Fewer than 65535 draws give every socket an id of its own. */
  lemma {:induction false} IdsDiffer(ids: seq<RequestId>, draws: seq<nat>, first: nat, last: nat, j: nat, k: nat)
    requires Drawn(ids, draws, first, last) && last - first <= MAX_ID && j < k < |ids|
    ensures ids[j] != ids[k]
  {
    hide IdOf, IdBytes;
    if ids[j] == ids[k] {
      IdBytesInjective(IdOf(draws[j]), IdOf(draws[k]));
      IdsDistinctInWindow(draws[j], draws[k]);
    }
  }

  lemma {:induction false} StoppedHoldNothing(ids: seq<RequestId>, ifaces: seq<string>, trace: seq<Action>)
    requires Legal(Started(ids, ifaces), trace)
    ensures forall l <- Replay(Started(ids, ifaces), trace).listeners | !l.running :: l.held == []
  {
    CollectorConserves(ids, ifaces, trace);
    var s := Replay(Started(ids, ifaces), trace);
    forall j | 0 <= j < |s.listeners| && !s.listeners[j].running ensures s.listeners[j].held == [] {
      assert Conserved(s, j);
    }
  }

  class Discover {
    const sockets: seq<string>
    const counter: Counter
    var reqNums: seq<RequestId>
    var listeners: seq<Listener>
    var pending: seq<Entry>
    var stop: bool
    ghost var delivered: seq<Entry>
    ghost var trace: seq<Action>

    ghost function State(): System
      reads this
    {
      System(reqNums, listeners, pending, delivered, stop)
    }

    /** The threads run, and `trace` is what has happened since they were started. */
    ghost predicate Listening()
      reads this
    {
      && Legal(Started(reqNums, sockets), trace)
      && State() == Replay(Started(reqNums, sockets), trace)
      && |listeners| == |sockets|
    }

    constructor (sockets: seq<string>, counter: Counter)
      ensures this.sockets == sockets && this.counter == counter && fresh(this)
      ensures listeners == [] && pending == [] && delivered == [] && !stop
    {
      this.sockets, this.counter := sockets, counter;
      reqNums, listeners, pending, stop := [], [], [], false;
      delivered, trace := [], [];
    }

    /** `sent` are the datagrams handed to the sockets, in order, and `at` the positions of these. A
        send that finds the network unreachable is passed over; one that fails in another way ends
        the call before any thread is started. */
    method BroadcastRequest(iface: seq<string>)
        returns (ok: bool, sent: seq<(string, Datagram)>, ghost at: seq<nat>, ghost draws: seq<nat>)
      requires counter.Valid() && listeners == [] && pending == [] && delivered == [] && !stop
      modifies this, counter
      ensures counter.Valid() && Drawn(reqNums, draws, old(counter.draws), counter.draws)
      ensures |at| == |sent| == |reqNums|
      ensures forall k | 0 <= k < |sent| ::
                at[k] < |sockets| && sent[k].0 == sockets[at[k]] && (iface == [] || sent[k].0 in iface)
      ensures forall j, k | 0 <= j < k < |at| :: at[j] < at[k]
      ensures forall k | 0 <= k < |sent| :: sent[k].1 == [0x42, 0x11, 0, 0x02, 0, 0, reqNums[k].0, reqNums[k].1]
      ensures ok && iface == [] ==> Names(sent) == sockets
      ensures ok ==> forall name ::
                multiset(Names(sent))[name] == if iface == [] || name in iface then multiset(sockets)[name] else 0
      ensures ok ==> Listening() && trace == [] && State() == Started(reqNums, sockets)
      ensures !ok ==>
        sent != [] && forall i | 0 <= i <= at[|sent| - 1] && (iface == [] || sockets[i] in iface) :: i in at
      ensures !ok ==> listeners == [] && pending == [] && delivered == [] && !stop
    {
      hide Drawn, IdOf, IdBytes, Asked, Names;
      NobodyAsked(sockets, iface);
      NoneDrawn(counter.draws);
      reqNums := [];
      ok, sent, at, draws := true, [], [], [];
      var discoveryCmd: Datagram := [0x42, 0x11, 0, 0x02, 0, 0, 0, 0];
      var i := 0;
      while i < |sockets|
        invariant 0 <= i <= |sockets| && counter.Valid() && unchanged(`listeners, `pending, `delivered, `stop)
        invariant ok && Drawn(reqNums, draws, old(counter.draws), counter.draws)
        invariant Asked(sockets, iface, i, sent, at, reqNums)
        invariant |discoveryCmd| == 8 && discoveryCmd[..6] == [0x42, 0x11, 0, 0x02, 0, 0]
      {
        AskedNext(sockets, iface, i, sent, at, reqNums, (0, 0));
        if |iface| == 0 || sockets[i] in iface {
          var turns: nat := *;
          ghost var last := counter.draws;
          var hi, lo, draw := counter.GetNext(turns);
          OneMoreDrawn(reqNums, draws, old(counter.draws), last, (hi, lo), draw);
          AskedNext(sockets, iface, i, sent, at, reqNums, (hi, lo));
          reqNums := reqNums + [(hi, lo)];
          draws := draws + [draw];
          discoveryCmd := discoveryCmd[6 := hi][7 := lo];
          assert discoveryCmd == DiscoveryCommand((hi, lo));
          sent := sent + [(sockets[i], discoveryCmd)];
          at := at + [i];
          var outcome: SendOutcome := *;
          if outcome.Fails? {
            AskedFacts(sockets, iface, i + 1, sent, at, reqNums);
            return false, sent, at, draws;
          }
        }
        i := i + 1;
      }
      AskedFacts(sockets, iface, i, sent, at, reqNums);
      StartListening();
    }

    method StartListening()
      requires listeners == [] && pending == [] && delivered == [] && !stop
      modifies this`listeners, this`trace
      ensures Listening() && trace == [] && State() == Started(reqNums, sockets)
    {
      listeners := [];
      trace := [];
      var i := 0;
      while i < |sockets|
        invariant 0 <= i <= |sockets| && listeners == Started(reqNums, sockets[..i]).listeners && trace == []
      {
        listeners := listeners + [Listener(sockets[i], [], 0, [], true)];
        i := i + 1;
      }
      assert sockets[..i] == sockets;
    }

    /** Any one step. */
    method Perform(a: Action)
      requires Listening() && Enabled(State(), a)
      modifies this`listeners, this`pending, this`delivered, this`trace, this`stop
      ensures Listening() && trace == old(trace) + [a] && State() == Act(old(State()), a)
    {
      hide Legal, Replay, Accepted;
      LegalSnoc(Started(reqNums, sockets), trace, a);
      ActKeepsSize(State(), a);
      trace := trace + [a];
      match a
      case Arrive(i, d) => listeners := listeners[i := listeners[i].(arrived := listeners[i].arrived + [d])];
      case Receive(i) =>
        var l := listeners[i];
        listeners := listeners[i := l.(taken := l.taken + 1, held := Accepted(l.iface, reqNums, l.arrived[l.taken]))];
      case Store(i) =>
        var l := listeners[i];
        pending := pending + [Entry(i, l.held[0])];
        listeners := listeners[i := l.(held := [])];
      case Exit(i) => listeners := listeners[i := listeners[i].(running := false)];
      case Drain =>
        delivered := delivered + pending;
        pending := [];
      case Stop => stop := true;
    }

    /** The network and the other threads run for a while. */
    method Others(me: Thread)
      requires Listening()
      modifies this`listeners, this`pending, this`delivered, this`trace, this`stop
      ensures Listening() && OthersOnly(me, old(trace), trace)
      ensures me == Consumer ==> delivered == old(delivered) && stop == old(stop)
      ensures me.ListenerOf? && me.socket < |listeners| ==> Unmoved(old(listeners), listeners, me.socket)
      ensures StillStopped(old(listeners), listeners)
    {
      hide Legal, Replay, Accepted;
      var n: nat := *;
      while n > 0
        invariant Listening() && OthersOnly(me, old(trace), trace)
        invariant me == Consumer ==> delivered == old(delivered) && stop == old(stop)
        invariant me.ListenerOf? && me.socket < |listeners| ==> Unmoved(old(listeners), listeners, me.socket)
        invariant StillStopped(old(listeners), listeners)
      {
        var a: Action := *;
        if CanRun(a) && ByOthers(me, a) {
          Perform(a);
        }
        n := n - 1;
      }
    }

    /** The nested tests of the listener, on the receive buffer. Behind the `n` bytes of the datagram
        the buffer holds anything. */
    method Examine(iface: string, datagram: Datagram) returns (held: seq<Info>)
      ensures held == Accepted(iface, reqNums, datagram)
    {
      hide Parse;
      held := [];
      var rubbish: byte := *;
      var n := |Received(datagram)|;
      var unused := Filled(BUFFER - n, rubbish);
      var p := Received(datagram) + unused;
      if n >= 8 {
        if p[0] == 0 && p[1] == 0 && p[2] == 0 && p[3] == 0x03 {
          if (p[6], p[7]) in reqNums {
            var len := p[4] as int * 256 + p[5];
            if n >= len + 8 {
              var deviceInfo := new DeviceInfo(iface);
              deviceInfo.Set(p[8..], len);
              assert p[8..][..len] == Received(datagram)[8..8 + len];
              if deviceInfo.Value().IsValid() {
                held := [deviceInfo.Value()];
              }
            }
          }
        }
      }
    }

    /** One turn of the loop of listener `i`. `received` tells whether it took a datagram; whatever
        the test accepted of it is stored when the turn ends. */
    method ListenOnSocket(i: nat) returns (received: bool)
      requires Listening() && i < |listeners| && listeners[i].running && listeners[i].held == []
      modifies this`listeners, this`pending, this`delivered, this`trace, this`stop
      ensures Listening() && old(trace) <= trace && StillStopped(old(listeners), listeners)
      ensures i < |listeners| && listeners[i].held == [] && old(listeners)[i].arrived <= listeners[i].arrived
      ensures listeners[i].taken == old(listeners)[i].taken + if received then 1 else 0
      ensures !listeners[i].running ==> stop && !received
    {
      received := false;
      if stop {
        Perform(Exit(i));
        return;
      }
      Others(ListenerOf(i));
      var ready: bool := *;
      if ready && listeners[i].taken < |listeners[i].arrived| {
        HandleDatagram(i);
        received := true;
      }
    }

    /** recvfrom, the tests, and the push under the lock. */
    method HandleDatagram(i: nat)
      requires Listening() && Enabled(State(), Receive(i))
      modifies this`listeners, this`pending, this`delivered, this`trace, this`stop
      ensures Listening() && old(trace) <= trace && StillStopped(old(listeners), listeners)
      ensures i < |listeners| && listeners[i].held == [] && listeners[i].running
      ensures listeners[i].taken == old(listeners)[i].taken + 1 && old(listeners)[i].arrived <= listeners[i].arrived
    {
      hide Legal, Replay;
      var l := listeners[i];
      var held := Examine(l.iface, l.arrived[l.taken]);
      Perform(Receive(i));
      if held != [] {
        Others(ListenerOf(i));
        Perform(Store(i));
      }
    }

    /** Waits, then moves everything that is pending to the caller. `took` are the milliseconds that
        passed; nothing is brought only after the whole timeout. */
    method GetResponse(info: seq<Info>, timeout: nat) returns (ret: bool, info': seq<Info>, took: nat)
      requires Listening()
      modifies this`listeners, this`pending, this`delivered, this`trace, this`stop
      ensures Listening() && stop == old(stop) && pending == []
      ensures |trace| > 0 && OthersOnly(Consumer, old(trace), trace[..|trace| - 1]) && trace[|trace| - 1] == Drain
      ensures old(delivered) <= delivered && info' == info + Infos(delivered[|old(delivered)|..])
      ensures ret <==> delivered != old(delivered)
      ensures !ret ==> took >= timeout
    {
      Others(Consumer);
      took := *;
      ret := pending != [];
      info' := info;
      var k := 0;
      while k < |pending|
        invariant 0 <= k <= |pending| && info' == info + Infos(pending[..k])
      {
        assert Infos(pending[..k + 1]) == Infos(pending[..k]) + [pending[k].info];
        info' := info' + [pending[k].info];
        k := k + 1;
      }
      assert pending[..k] == pending;
      ghost var before, moved := trace, pending;
      Perform(Drain);
      assert trace[..|trace| - 1] == before;
      assert delivered[|old(delivered)|..] == moved;
      if !ret && took < timeout {
        took := timeout;
      }
    }

    /** The destructor stops the threads and waits for each of them. Nothing that they have received
        is lost. */
    method Destroy()
      requires Listening()
      modifies this`listeners, this`pending, this`delivered, this`trace, this`stop
      ensures Listening() && delivered == old(delivered)
      ensures forall i | 0 <= i < |listeners| :: !listeners[i].running && listeners[i].held == []
    {
      hide Legal, Replay, Conserved;
      Perform(Stop);
      var i := 0;
      while i < |listeners|
        invariant 0 <= i <= |listeners| && Listening() && stop && delivered == old(delivered)
        invariant forall j | 0 <= j < i :: !listeners[j].running
      {
        Join(i);
        i := i + 1;
      }
      StoppedHoldNothing(reqNums, sockets, trace);
    }

    method Join(i: nat)
      requires Listening() && stop && i < |listeners|
      modifies this`listeners, this`pending, this`delivered, this`trace, this`stop
      ensures Listening() && stop && delivered == old(delivered)
      ensures StillStopped(old(listeners), listeners) && i < |listeners| && !listeners[i].running
    {
      Others(Consumer);
      if listeners[i].running {
        if listeners[i].held != [] {
          Perform(Store(i));
        }
        Perform(Exit(i));
      }
    }

    predicate CanRun(a: Action)
      reads this
      ensures CanRun(a) == Enabled(State(), a)
    {
      match a
      case Arrive(i, _) => i < |listeners|
      case Receive(i) =>
        && i < |listeners| && listeners[i].running && listeners[i].held == []
        && listeners[i].taken < |listeners[i].arrived|
      case Store(i) => i < |listeners| && listeners[i].running && listeners[i].held != []
      case Exit(i) => i < |listeners| && listeners[i].running && listeners[i].held == [] && stop
      case Drain => true
      case Stop => true
    }
  }

  lemma {:induction false} ActKeepsSize(s: System, a: Action)
    requires Enabled(s, a)
    ensures |Act(s, a).listeners| == |s.listeners| && Act(s, a).ids == s.ids
  {
  }

  /** Only datagrams have arrived at this socket. */
  predicate Unmoved(before: seq<Listener>, after: seq<Listener>, i: nat)
    requires i < |after|
  {
    && i < |before| && before[i].arrived <= after[i].arrived
    && after[i] == before[i].(arrived := after[i].arrived)
  }

  /** No thread comes back. */
  predicate StillStopped(before: seq<Listener>, after: seq<Listener>) {
    |after| == |before| && forall j | 0 <= j < |after| && !before[j].running :: !after[j].running
  }
}
