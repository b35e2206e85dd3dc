/** rcdiscover/force_ip.cc: the FORCEIP_CMD datagram, broadcast through every socket with an id of its
    own. */
module ForceIp {
  import opened RequestCounter
  import opened Addresses
  import opened Collector
  import opened Discover

  datatype Request = Request(mac: MacAddress, ip: Ip, subnet: Ip, gateway: Ip)

  function Zeros(n: nat): (bytes: Datagram)
    ensures |bytes| == n && forall i | 0 <= i < n :: bytes[i] == 0
  {
    if n == 0 then [] else Zeros(n - 1) + [0]
  }

  const HEADER: Datagram := [0x42, 0x00, 0x00, 0x04, 0x00, 56]

  function Command(r: Request, id: RequestId): (d: Datagram)
    ensures |d| == 64
  {
    HEADER + [id.0, id.1] + Zeros(2) + BytesOf(r.mac, 6) + Zeros(12) + BytesOf(r.ip, 4)
    + Zeros(12) + BytesOf(r.subnet, 4) + Zeros(12) + BytesOf(r.gateway, 4)
  }

  function WithId(d: Datagram, id: RequestId): Datagram
    requires |d| == 64
  {
    d[..6] + [id.0, id.1] + d[8..]
  }

  /** What a device reads out of such a datagram. */
  datatype Decoded = Decoded(mac: nat, ip: nat, subnet: nat, gateway: nat)

  function Decode(d: Datagram): Decoded
    requires |d| == 64
  {
    Decoded(BigEndian(d[10..16]), BigEndian(d[28..32]), BigEndian(d[44..48]), BigEndian(d[60..64]))
  }

  lemma {:induction false} CommandSlices(r: Request, id: RequestId)
    ensures var d := Command(r, id);
      && d[..8] == HEADER + [id.0, id.1] && d[10..16] == BytesOf(r.mac, 6) && d[28..32] == BytesOf(r.ip, 4)
      && d[44..48] == BytesOf(r.subnet, 4) && d[60..64] == BytesOf(r.gateway, 4)
  {
  }

  lemma {:induction false} CommandGaps(r: Request, id: RequestId)
    ensures var d := Command(r, id);
      forall i | 8 <= i < 10 || 16 <= i < 28 || 32 <= i < 44 || 48 <= i < 60 :: d[i] == 0
  {
    hide BytesOf, Zeros;
  }

  /** The device that is addressed gets the addresses that were asked for; the size in the header is
      that of what follows it. */
  lemma {:induction false} CommandRoundTrip(r: Request, id: RequestId)
    ensures Decode(Command(r, id)) == Decoded(r.mac, r.ip, r.subnet, r.gateway)
    ensures Command(r, id)[4] as int * 256 + Command(r, id)[5] == |Command(r, id)| - 8
    ensures Command(r, id)[..8] == [0x42, 0x00, 0x00, 0x04, 0x00, 56, id.0, id.1]
    ensures var d := Command(r, id);
      && BigEndian(d[10..16]) == r.mac && BigEndian(d[28..32]) == r.ip && BigEndian(d[44..48]) == r.subnet
      && BigEndian(d[60..64]) == r.gateway
      && forall i | 8 <= i < 10 || 16 <= i < 28 || 32 <= i < 44 || 48 <= i < 60 :: d[i] == 0
  {
    CommandGaps(r, id);
    CommandSlices(r, id);
    Powers();
    hide BytesOf, BigEndian, Command, Power256;
    BytesRoundTrip(r.mac, 6);
    BytesRoundTrip(r.ip, 4);
    BytesRoundTrip(r.subnet, 4);
    BytesRoundTrip(r.gateway, 4);
    assert Command(r, id)[4] == Command(r, id)[..8][4] && Command(r, id)[5] == Command(r, id)[..8][5];
  }

  lemma {:induction false} Assemble(d: Datagram, r: Request)
    requires |d| == 64 && d[..6] == HEADER && d[10..16] == BytesOf(r.mac, 6) && d[28..32] == BytesOf(r.ip, 4)
    requires d[44..48] == BytesOf(r.subnet, 4) && d[60..64] == BytesOf(r.gateway, 4)
    requires forall i | 6 <= i < 10 || 16 <= i < 28 || 32 <= i < 44 || 48 <= i < 60 :: d[i] == 0
    ensures d == Command(r, (0, 0))
  {
  }

  class ForceIP {
    const sockets: seq<string>
    const counter: Counter

    constructor (sockets: seq<string>, counter: Counter)
      ensures this.sockets == sockets && this.counter == counter
    {
      this.sockets, this.counter := sockets, counter;
    }

    /** Four bytes of an address. */
    static method PutAddress(a: array<byte>, first: nat, v: Ip)
      requires first + 4 <= a.Length
      modifies a
      ensures a[first..first + 4] == BytesOf(v, 4)
      ensures forall i | 0 <= i < a.Length && !(first <= i < first + 4) :: a[i] == old(a[i])
    {
      FourBytes(v);
      hide BytesOf;
      a[first] := v / 256 / 256 / 256 % 256;
      a[first + 1] := v / 256 / 256 % 256;
      a[first + 2] := v / 256 % 256;
      a[first + 3] := v % 256;
      assert a[first..first + 4] == [a[first], a[first + 1], a[first + 2], a[first + 3]];
    }

    static method PutMac(a: array<byte>, mac: MacAddress)
      requires a.Length == 64
      modifies a
      ensures a[10..16] == BytesOf(mac, 6)
      ensures forall i | 0 <= i < 64 && !(10 <= i < 16) :: a[i] == old(a[i])
    {
      PutAddress(a, 10, mac / 256 / 256);
      SixBytes(mac);
      hide BytesOf;
      a[14] := mac / 256 % 256;
      a[15] := mac % 256;
      assert a[10..16] == a[10..14] + [a[14], a[15]];
    }

    static method PutHeader(a: array<byte>)
      requires a.Length == 64
      modifies a
      ensures a[..6] == HEADER && forall i | 6 <= i < 64 :: a[i] == old(a[i])
    {
      a[0] := 0x42;
      a[1] := 0x00;
      a[2] := 0x00;
      a[3] := 0x04;
      a[4] := 0x00;
      a[5] := 64 - 8;
    }

    /** Lays out the datagram, apart from its id. */
    static method Layout(a: array<byte>, r: Request)
      requires a.Length == 64 && forall i | 0 <= i < 64 :: a[i] == 0
      modifies a
      ensures a[..] == Command(r, (0, 0))
    {
      hide BytesOf, Zeros, Command;
      PutHeader(a);
      PutMac(a, r.mac);
      PutAddress(a, 28, r.ip);
      PutAddress(a, 44, r.subnet);
      PutAddress(a, 60, r.gateway);
      assert a[..][..6] == HEADER && a[..][10..16] == BytesOf(r.mac, 6) && a[..][28..32] == BytesOf(r.ip, 4);
      assert a[..][44..48] == BytesOf(r.subnet, 4) && a[..][60..64] == BytesOf(r.gateway, 4);
      Assemble(a[..], r);
    }

    /** `sent` are the datagrams handed to the sockets, in order. A send that finds the network
        unreachable is passed over; one that fails in another way ends the call. */
    method SendCommand(
        r: Request) returns (ok: bool, sent: seq<Datagram>, ghost ids: seq<RequestId>, ghost draws: seq<nat>)
      requires counter.Valid()
      modifies counter
      ensures counter.Valid() && Drawn(ids, draws, old(counter.draws), counter.draws)
      ensures |sent| == |ids| <= |sockets| && forall k | 0 <= k < |sent| :: sent[k] == Command(r, ids[k])
      ensures if ok then |sent| == |sockets| else sent != []
    {
      hide BytesOf, Zeros, Drawn, IdOf, IdBytes;
      NoneDrawn(counter.draws);
      var command := new byte[64](_ => 0);
      Layout(command, r);
      ok, sent, ids, draws := true, [], [], [];
      var i := 0;
      while i < |sockets|
        invariant 0 <= i <= |sockets| && ok && counter.Valid() && Drawn(ids, draws, old(counter.draws), counter.draws)
        invariant |sent| == |ids| == i && forall k | 0 <= k < |sent| :: sent[k] == Command(r, ids[k])
        invariant exists id: RequestId :: command[..] == Command(r, id)
      {
        var turns: nat := *;
        ghost var last := counter.draws;
        var hi, lo, draw := counter.GetNext(turns);
        OneMoreDrawn(ids, draws, old(counter.draws), last, (hi, lo), draw);
        ghost var before: Datagram := command[..];
        command[6] := hi;
        command[7] := lo;
        assert command[..] == WithId(before, (hi, lo));
        NewId(r, before, (hi, lo));
        sent := sent + [command[..]];
        ids := ids + [(hi, lo)];
        draws := draws + [draw];
        var outcome: SendOutcome := *;
        if outcome.Fails? {
          return false, sent, ids, draws;
        }
        i := i + 1;
      }
    }
  }

  lemma {:induction false} NewId(r: Request, d: Datagram, id: RequestId)
    requires exists id0: RequestId :: d == Command(r, id0)
    ensures |d| == 64 && WithId(d, id) == Command(r, id)
  {
  }
}
