/** tools/rcdiscover-cli/cli_utils.cc, discoverWithFilter: from the broadcast to the list of devices,
    on a Discover object with its threads. */
module Discovery {
  import opened RequestCounter
  import opened Addresses
  import opened DeviceInfo
  import opened Collector
  import opened Discover
  import opened CommandLine
  import opened StableIndex
  import opened Wildcard

  // ---- the collection loop -----------------------------------------------------------------

  /** One call of getResponse: what it moved, how many milliseconds it took, and how long the caller
      then took to look at the clock. */
  datatype Response = Response(infos: seq<Info>, took: nat, pause: nat)

  /** Calls that brought nothing. */
  function Empties(rs: seq<Response>): nat {
    if rs == [] then 0 else Empties(rs[..|rs| - 1]) + if rs[|rs| - 1].infos == [] then 1 else 0
  }

  function AllInfos(rs: seq<Response>): seq<Info> {
    if rs == [] then [] else AllInfos(rs[..|rs| - 1]) + rs[|rs| - 1].infos
  }

  function Duration(rs: seq<Response>): nat {
    if rs == [] then 0 else Duration(rs[..|rs| - 1]) + rs[|rs| - 1].took + rs[|rs| - 1].pause
  }

  lemma {:induction false} OneMoreCall(rs: seq<Response>, r: Response)
    ensures Empties(rs + [r]) == Empties(rs) + if r.infos == [] then 1 else 0
    ensures AllInfos(rs + [r]) == AllInfos(rs) + r.infos
    ensures Duration(rs + [r]) == Duration(rs) + r.took + r.pause
  {
    assert (rs + [r])[..|rs|] == rs;
  }

  lemma {:induction false} InfosOfMore(entries: seq<Entry>, i: nat, j: nat)
    requires i <= j <= |entries|
    ensures Infos(entries[i..]) == Infos(entries[i..j]) + Infos(entries[j..])
  {
    assert entries[i..] == entries[i..j] + entries[j..];
  }

  /** The loop on a Discover object. `calls` are the calls that it makes. Left to itself it ends with
      the eleventh call that brings nothing at the latest, and never before 1000 ms are over; it is
      given up only after `limit` calls, all of which but ten have then brought something. */
  method Collect(discover: Discover, limit: nat) returns (infos: seq<Info>, ended: bool, ghost calls: seq<Response>)
    requires discover.Listening()
    modifies discover`listeners, discover`pending, discover`delivered, discover`trace, discover`stop
    ensures discover.Listening() && discover.stop == old(discover.stop) && old(discover.delivered) <= discover.delivered
    ensures infos == AllInfos(calls) == Infos(discover.delivered[|old(discover.delivered)|..])
    ensures forall r <- calls | r.infos == [] :: r.took >= 100
    ensures ended ==> calls != [] && calls[|calls| - 1].infos == [] && discover.pending == []
    ensures ended ==> Empties(calls) <= 11 && Duration(calls[..|calls| - 1]) >= 1000
    ensures !ended ==> |calls| == limit && Empties(calls) <= 10
  {
    hide Empties, AllInfos, Duration, Infos;
    ghost var from := |discover.delivered|;
    var tstart, clock := 0, 0;
    var tend := tstart;
    infos, ended, calls := [], false, [];
    var made := 0;
    NothingCalled(discover.delivered);
    while made < limit
      invariant made == |calls| <= limit && !ended
      invariant discover.Listening() && discover.stop == old(discover.stop)
      invariant old(discover.delivered) <= discover.delivered
      invariant infos == AllInfos(calls) == Infos(discover.delivered[from..])
      invariant forall r <- calls | r.infos == [] :: r.took >= 100
      invariant clock == tend == Duration(calls) && 100 * Empties(calls) <= tend && Empties(calls) <= 10
    {
      ghost var before := discover.delivered;
      var more, took;
      more, infos, took := discover.GetResponse(infos, 100);
      made := made + 1;
      InfosOfMore(discover.delivered, from, |before|);
      assert discover.delivered[from..|before|] == before[from..];
      ghost var moved := Infos(discover.delivered[|before|..]);
      MovedSome(before, discover.delivered);
      var pause := Delay();
      OneMoreCall(calls, Response(moved, took, pause));
      calls := calls + [Response(moved, took, pause)];
      if !(more || tend - tstart < 1000) {
        ended := true;
        assert calls[..|calls| - 1] + [Response(moved, took, pause)] == calls;
        break;
      }
      clock := clock + took;
      clock := clock + pause;
      tend := clock;
    }
  }

  method Delay() returns (milliseconds: nat)
  {
    milliseconds := *;
  }

  lemma {:induction false} NothingCalled(entries: seq<Entry>)
    ensures Infos(entries[|entries|..]) == [] == AllInfos([]) && Empties([]) == 0 && Duration([]) == 0
  {
  }

  lemma {:induction false} MovedSome(before: seq<Entry>, after: seq<Entry>)
    requires before <= after
    ensures Infos(after[|before|..]) == [] <==> before == after
  {
  }

  // ---- std::sort ---------------------------------------------------------------------------

  /** Any permutation in the order: all that is used of std::sort. */
  ghost predicate Sorts(sorted: seq<Info>, infos: seq<Info>) {
    multiset(sorted) == multiset(infos) && InOrder(sorted)
  }

  function InsertInfo(s: seq<Info>, x: Info): seq<Info> {
    if s == [] || !Under(x, s[|s| - 1]) then s + [x] else InsertInfo(s[..|s| - 1], x) + [s[|s| - 1]]
  }

  function SortInfos(s: seq<Info>): seq<Info> {
    if s == [] then [] else InsertInfo(SortInfos(s[..|s| - 1]), s[|s| - 1])
  }

  lemma {:induction false} InsertMembers(s: seq<Info>, x: Info)
    ensures multiset(InsertInfo(s, x)) == multiset(s) + multiset{x}
  {
    hide Under;
    if s != [] && Under(x, s[|s| - 1]) {
      InsertMembers(s[..|s| - 1], x);
      assert s == s[..|s| - 1] + [s[|s| - 1]];
    }
  }

  lemma {:induction false} NotUnder(x: Info, last: Info, y: Info)
    requires !Under(x, last) && !Under(last, y)
    ensures !Under(x, y)
  {
    UnderIsOrder(x, y, last);
    UnderIsOrder(y, last, x);
    hide Under, SameKey;
    UnderIsOrder(last, y, x);
  }

  lemma {:induction false} InsertInOrder(s: seq<Info>, x: Info)
    requires InOrder(s)
    ensures InOrder(InsertInfo(s, x))
  {
    hide Under;
    if s == [] {
    } else if Under(x, s[|s| - 1]) {
      var front, last := s[..|s| - 1], s[|s| - 1];
      InsertInOrder(front, x);
      InsertMembers(front, x);
      UnderIsOrder(x, last, x);
      var t := InsertInfo(front, x);
      forall i | 0 <= i < |t| ensures !Under(last, t[i]) {
        assert t[i] in multiset(t);
      }
    } else {
      forall i | 0 <= i < |s| ensures !Under(x, s[i]) {
        if i < |s| - 1 { NotUnder(x, s[|s| - 1], s[i]); }
      }
    }
  }

  lemma {:induction false} SortInfosSorts(s: seq<Info>)
    ensures Sorts(SortInfos(s), s)
  {
    if s != [] {
      var front, x := s[..|s| - 1], s[|s| - 1];
      SortInfosSorts(front);
      InsertInOrder(SortInfos(front), x);
      InsertMembers(SortInfos(front), x);
      assert s == front + [x];
    }
  }

  // ---- all of it ---------------------------------------------------------------------------

  /** What the call comes to: a socket fails; a filter runs past the end of a text; devices go on
      answering, call after call, until the call is given up; or the list of devices. */
  datatype Discovered = SendFailed | Undecided | StillAnswering | Devices(devices: seq<Info>)

  /** A state that the threads can reach from the broadcast, right after the last check of what is
      pending. */
  ghost predicate Checked(s: System, ids: seq<RequestId>, sockets: seq<string>) {
    s.pending == [] && exists trace :: Legal(Started(ids, sockets), trace) && s == Replay(Started(ids, sockets), trace)
  }

  /** `asked` are the sockets that the command was handed to. */
  method DiscoverWithFilter(sockets: seq<string>, counter: Counter, filter: DeviceFilter, limit: nat)
      returns (r: Discovered, ghost checked: System, ghost sorted: seq<Info>, ghost asked: seq<string>)
    requires counter.Valid()
    modifies counter
    ensures counter.Valid()
    ensures r.Devices? ==> Checked(checked, checked.ids, sockets) && Sorts(sorted, Infos(checked.delivered))
    ensures r.Devices? || r.Undecided? ==> |checked.ids| == |asked|
    ensures !r.SendFailed? && filter.iface == [] ==> asked == sockets
    ensures !r.SendFailed? ==> forall name ::
              multiset(asked)[name] == if filter.iface == [] || name in filter.iface then multiset(sockets)[name] else 0
    ensures r.Devices? ==> r.devices == Passing(Unique(sorted), filter)
    ensures r.Undecided? ==> Checked(checked, checked.ids, sockets) && Sorts(sorted, Infos(checked.delivered))
    ensures r.Undecided? ==> !Decided(Unique(sorted), filter)
  {
    var discover := new Discover(sockets, counter);
    checked, sorted := Started([], sockets), [];
    var sent, ended, infos;
    ghost var at, draws, calls;
    var ok;
    ok, sent, at, draws := discover.BroadcastRequest(filter.iface);
    asked := Names(sent);
    if !ok {
      return SendFailed, checked, sorted, asked;
    }
    infos, ended, calls := Collect(discover, limit);
    checked := discover.State();
    if !ended {
      discover.Destroy();
      return StillAnswering, checked, sorted, asked;
    }
    assert Checked(checked, checked.ids, sockets);
    assert infos == Infos(checked.delivered) by {
      assert discover.delivered[0..] == discover.delivered;
    }
    hide Legal, Replay, Unique, Decided, Passing, Sorts;
    SortInfosSorts(infos);
    var inOrder := SortInfos(infos);
    sorted := inOrder;
    var decided, devices := UniqueAndFiltered(inOrder, filter);
    discover.Destroy();
    r := if decided then Devices(devices) else Undecided;
  }

  // ---- what it finds -----------------------------------------------------------------------

  /** What the acceptance test makes of the datagrams that socket `i` has received. */
  function Answers(s: System, i: nat): seq<Info>
    requires i < |s.listeners|
  {
    var l := s.listeners[i];
    if l.taken <= |l.arrived| then AcceptedAll(l.iface, s.ids, l.arrived[..l.taken]) else []
  }

  ghost predicate Answered(s: System, x: Info) {
    exists i :: 0 <= i < |s.listeners| && x in Answers(s, i)
  }

  /** Those of them that are not in the hands of the socket's thread, which are all but the last, or
      all. */
  function Stored(s: System, i: nat): seq<Info>
    requires i < |s.listeners|
  {
    var n := |Answers(s, i)| - |s.listeners[i].held|;
    if n >= 0 then Answers(s, i)[..n] else []
  }

  lemma {:induction false} AcceptedMac(iface: string, ids: seq<RequestId>, ds: seq<Datagram>, x: Info)
    requires x in AcceptedAll(iface, ids, ds)
    ensures x.mac < 0x1_0000_0000_0000
    decreases |ds|
  {
    hide Accepted;
    var front, d := ds[..|ds| - 1], ds[|ds| - 1];
    if x in AcceptedAll(iface, ids, front) {
      AcceptedMac(iface, ids, front, x);
    } else {
      AddressBound(iface, ids, d, x);
    }
  }

  lemma {:induction false} AddressBound(iface: string, ids: seq<RequestId>, d: Datagram, x: Info)
    requires x in Accepted(iface, ids, d)
    ensures x.mac < 0x1_0000_0000_0000
  {
    var p := Received(d);
    var body := p[8..8 + (p[4] as int * 256 + p[5])];
    assert x == Parse(iface, body);
    hide Accepted, BigEndian, TextAt;
    Powers();
    if 16 <= |body| {
      BigEndianBound(body[10..16]);
    }
  }

  lemma {:induction false} OfSocketIn(entries: seq<Entry>, i: nat, x: Info)
    requires x in OfSocket(entries, i)
    ensures x in Infos(entries)
  {
    var front, e := entries[..|entries| - 1], entries[|entries| - 1];
    assert Infos(entries) == Infos(front) + [e.info];
    if x in OfSocket(front, i) {
      OfSocketIn(front, i, x);
    }
  }

  lemma {:induction false} InOfSocket(entries: seq<Entry>, j: nat)
    requires j < |entries|
    ensures entries[j].info in OfSocket(entries, entries[j].socket)
  {
    if j < |entries| - 1 {
      InOfSocket(entries[..|entries| - 1], j);
    }
  }

  lemma {:induction false} CheckedInv(s: System, ids: seq<RequestId>, sockets: seq<string>)
    requires Checked(s, ids, sockets)
    ensures Inv(s) && s.pending == [] && |s.listeners| == |sockets| && s.ids == ids
  {
    var trace :| Legal(Started(ids, sockets), trace) && s == Replay(Started(ids, sockets), trace);
    CollectorConserves(ids, sockets, trace);
  }

  /** What a socket has stored was delivered, in order. */
  lemma {:induction false} StoredIsDelivered(s: System, i: nat)
    requires Inv(s) && s.pending == [] && i < |s.listeners|
    ensures Stored(s, i) == OfSocket(s.delivered, i) && Answers(s, i) == Stored(s, i) + s.listeners[i].held
  {
    hide AcceptedAll, OfSocket;
    assert Conserved(s, i);
    assert s.delivered + s.pending == s.delivered;
  }

  /** Nothing is delivered that was not received. */
  lemma {:induction false} DeliveredWasAnswered(s: System, x: Info)
    requires Inv(s) && s.pending == [] && x in Infos(s.delivered)
    ensures Answered(s, x) && x.mac < 0x1_0000_0000_0000
  {
    var j :| 0 <= j < |s.delivered| && Infos(s.delivered)[j] == x;
    var i := s.delivered[j].socket;
    assert s.delivered[j] in s.delivered + s.pending;
    InOfSocket(s.delivered, j);
    StoredIsDelivered(s, i);
    hide Inv, OfSocket;
    assert x in Answers(s, i);
    var l := s.listeners[i];
    AcceptedMac(l.iface, s.ids, l.arrived[..l.taken], x);
  }

  /** Row `g` is the one that shows device `x`, and no other row shows its address. */
  ghost predicate OnlyRow(devices: seq<Info>, x: Info, g: nat) {
    && g < |Groups(devices)| == |Rows(devices, All)| && x in Groups(devices)[g]
    && Rows(devices, All)[g] == RowOf(Groups(devices)[g]) && RowOf(Groups(devices)[g])[3] == MacText(x)
    && ShowsDevice(Rows(devices, All)[g], Groups(devices)[g])
    && forall g' | 0 <= g' < |Groups(devices)| && g' != g :: Rows(devices, All)[g'][3] != MacText(x)
  }

  lemma {:induction false} InSomeGroup(groups: seq<seq<Info>>, x: Info) returns (g: nat)
    requires x in Flat(groups)
    ensures g < |groups| && x in groups[g]
  {
    if x in groups[|groups| - 1] {
      g := |groups| - 1;
    } else {
      g := InSomeGroup(groups[..|groups| - 1], x);
    }
  }

  lemma {:induction false} ListedInOneRow(devices: seq<Info>, x: Info) returns (g: nat)
    requires Increasing(devices) && (forall y <- devices :: y.mac < 0x1_0000_0000_0000) && x in devices
    ensures OnlyRow(devices, x, g)
  {
    hide Increasing;
    OneRowPerDevice(devices);
    var groups := Groups(devices);
    g := InSomeGroup(groups, x);
    assert OneMac(groups[g]);
    var j :| 0 <= j < |groups[g]| && groups[g][j] == x;
    RowMac(groups[g]);
    SameMacText(groups[g][0], x);
    hide ShowsDevice, RowOf, MacText, Rows, Groups;
    forall g' | 0 <= g' < |groups| && g' != g ensures Rows(devices, All)[g'][3] != MacText(x) {
      RowMac(groups[g']);
    }
  }

  lemma {:induction false} SameMacText(x: Info, y: Info)
    requires x.mac == y.mac
    ensures MacText(x) == MacText(y)
  {
  }

  /** What discoverWithFilter returns, and printDeviceTable prints, of what the sockets received up to
      the last check: strictly increasing devices, each of which answered and passes. For every
      answer that was stored, its device and interface are represented in what is filtered, and
      whatever passes of that is shown in exactly one row. */
  lemma {:induction false} EveryAnswerIsListed(s: System, ids: seq<RequestId>, sockets: seq<string>,
      sorted: seq<Info>, filter: DeviceFilter)
    requires Checked(s, ids, sockets) && Sorts(sorted, Infos(s.delivered))
    ensures |s.listeners| == |sockets| && Increasing(Passing(Unique(sorted), filter))
    ensures forall x <- Passing(Unique(sorted), filter) :: Answered(s, x) && Conjunction(Criteria(x, filter)) == Match
    ensures forall x <- Unique(sorted) | StarFree(x) && Conjunction(Criteria(x, filter)) != PastEnd ::
              (x in Passing(Unique(sorted), filter) <==>
                && Satisfied(if x.userName == "" then x.modelName else x.userName, filter.name)
                && Satisfied(x.serialNumber, filter.serial) && Satisfied(MacText(x), filter.mac)
                && Satisfied(x.iface, filter.iface) && Satisfied(x.modelName, filter.model))
    ensures forall i, x | 0 <= i < |sockets| && x in Stored(s, i) :: HasKey(Unique(sorted), x)
    ensures forall i | 0 <= i < |sockets| :: Answers(s, i) == Stored(s, i) + s.listeners[i].held
    ensures forall i | 0 <= i < |sockets| :: |s.listeners[i].held| <= 1
    ensures forall y <- Unique(sorted) | Conjunction(Criteria(y, filter)) == Match ::
              exists g :: OnlyRow(Passing(Unique(sorted), filter), y, g)
  {
    CheckedInv(s, ids, sockets);
    var devices := Passing(Unique(sorted), filter);
    DevicesAreDistinct(Infos(s.delivered), sorted, filter);
    UniqueIncreases(sorted);
    PassingIsIncreasing(Unique(sorted), filter);
    hide Passing, Unique, Conjunction, Increasing, HasKey, InOrder, Checked, OnlyRow, Satisfied, StarFree, MacText;
    hide Criteria, Less, LessAt;
    PassingInWords(Unique(sorted), filter);
    forall x <- devices ensures Answered(s, x) && x.mac < 0x1_0000_0000_0000 {
      DeliveredWasAnswered(s, x);
    }
    forall i | 0 <= i < |sockets|
      ensures Answers(s, i) == Stored(s, i) + s.listeners[i].held && |s.listeners[i].held| <= 1
    {
      assert Conserved(s, i);
      StoredIsDelivered(s, i);
    }
    forall i, x | 0 <= i < |sockets| && x in Stored(s, i) ensures HasKey(Unique(sorted), x) {
      StoredIsDelivered(s, i);
      OfSocketIn(s.delivered, i, x);
    }
    forall y <- Unique(sorted) | Conjunction(Criteria(y, filter)) == Match ensures exists g :: OnlyRow(devices, y, g) {
      var g := ListedInOneRow(devices, y);
    }
  }
}
