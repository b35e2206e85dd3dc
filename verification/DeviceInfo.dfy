/** rcdiscover/deviceinfo.cc: what is read from the body of a DISCOVERY_ACK. */
module DeviceInfo {
  import opened RequestCounter
  import opened Addresses

  datatype Info = Info(
    iface: string, major: nat, minor: nat, mac: nat, ip: nat, subnet: nat, gateway: nat,
    manufacturerName: string, modelName: string, deviceVersion: string,
    manufacturerInfo: string, serialNumber: string, userName: string)
  {
    predicate IsValid() { mac != 0 }
  }

  function Cleared(iface: string): Info {
    Info(iface, 0, 0, 0, 0, 0, 0, "", "", "", "", "", "")
  }

  // ---- texts -------------------------------------------------------------------------------

  /** Where the first NUL is, or the length. */
  function TextLength(field: seq<byte>): (n: nat)
    ensures n <= |field| && (forall i | 0 <= i < n :: field[i] != 0)
    ensures n < |field| ==> field[n] == 0
  {
    if field == [] || field[0] == 0 then 0 else 1 + TextLength(field[1..])
  }

  function Text(bytes: seq<byte>): (s: string)
    ensures |s| == |bytes|
  {
    seq(|bytes|, i requires 0 <= i < |bytes| => bytes[i] as char)
  }

  /** The longest NUL-free prefix of a field. */
  function Extracted(field: seq<byte>): string {
    Text(field[..TextLength(field)])
  }

  /** A text in a field of its own, filled up with NULs. */
  predicate Fits(s: string, width: nat) {
    |s| <= width && forall i | 0 <= i < |s| :: 0 < s[i] as int < 256
  }

  function Field(s: string, width: nat): (field: seq<byte>)
    requires Fits(s, width)
    ensures |field| == width
  {
    seq(width, i requires 0 <= i < width => if i < |s| then s[i] as int else 0)
  }

  lemma {:induction false} FieldRoundTrip(s: string, width: nat)
    requires Fits(s, width)
    ensures Extracted(Field(s, width)) == s
  {
    TextLengthIs(Field(s, width), |s|);
  }

  lemma {:induction false} TextLengthIs(field: seq<byte>, n: nat)
    requires n <= |field| && (forall i | 0 <= i < n :: field[i] != 0) && (n < |field| ==> field[n] == 0)
    ensures TextLength(field) == n
    decreases n
  {
  }

  // ---- the body ----------------------------------------------------------------------------

  const BODY := 248

  function Number(body: seq<byte>, first: nat, count: nat): nat {
    if first + count <= |body| then BigEndian(body[first..first + count]) else 0
  }

  function TextAt(body: seq<byte>, first: nat, width: nat): string {
    if first + width <= |body| then Extracted(body[first..first + width]) else ""
  }

  /** What `set` reads from a body; a field that does not fit into the body stays cleared. */
  function Parse(iface: string, body: seq<byte>): Info {
    Info(iface,
         if |body| >= 4 then Number(body, 0, 2) else 0, if |body| >= 4 then Number(body, 2, 2) else 0,
         Number(body, 10, 6), Number(body, 36, 4), Number(body, 52, 4), Number(body, 68, 4),
         TextAt(body, 72, 32), TextAt(body, 104, 32), TextAt(body, 136, 32),
         TextAt(body, 168, 48), TextAt(body, 216, 16), TextAt(body, 232, 16))
  }

  /** A longer body only adds fields. */
  lemma {:induction false} LongerBodyAddsFields(iface: string, body: seq<byte>, more: seq<byte>)
    ensures var a, b := Parse(iface, body), Parse(iface, body + more);
      && (a.major == b.major || a.major == 0) && (a.minor == b.minor || a.minor == 0)
      && (a.mac == b.mac || a.mac == 0) && (a.ip == b.ip || a.ip == 0)
      && (a.subnet == b.subnet || a.subnet == 0) && (a.gateway == b.gateway || a.gateway == 0)
      && (a.manufacturerName == b.manufacturerName || a.manufacturerName == "")
      && (a.modelName == b.modelName || a.modelName == "")
      && (a.deviceVersion == b.deviceVersion || a.deviceVersion == "")
      && (a.manufacturerInfo == b.manufacturerInfo || a.manufacturerInfo == "")
      && (a.serialNumber == b.serialNumber || a.serialNumber == "")
      && (a.userName == b.userName || a.userName == "")
  {
    NumberOfLonger(body, more, 0, 2);
    NumberOfLonger(body, more, 2, 2);
    NumberOfLonger(body, more, 10, 6);
    NumberOfLonger(body, more, 36, 4);
    NumberOfLonger(body, more, 52, 4);
    NumberOfLonger(body, more, 68, 4);
    TextOfLonger(body, more, 72, 32);
    TextOfLonger(body, more, 104, 32);
    TextOfLonger(body, more, 136, 32);
    TextOfLonger(body, more, 168, 48);
    TextOfLonger(body, more, 216, 16);
    TextOfLonger(body, more, 232, 16);
    hide Number, TextAt;
  }

  lemma {:induction false} NumberOfLonger(body: seq<byte>, more: seq<byte>, first: nat, count: nat)
    ensures Number(body, first, count) == if first + count <= |body| then Number(body + more, first, count) else 0
  {
    if first + count <= |body| {
      assert (body + more)[first..first + count] == body[first..first + count];
    }
  }

  lemma {:induction false} TextOfLonger(body: seq<byte>, more: seq<byte>, first: nat, width: nat)
    ensures TextAt(body, first, width) == if first + width <= |body| then TextAt(body + more, first, width) else ""
  {
  }

  lemma {:induction false} PartOfPrefix(raw: seq<byte>, len: nat, first: nat, count: nat)
    requires len <= |raw|
    ensures Number(raw[..len], first, count) == if first + count <= len then BigEndian(raw[first..first + count]) else 0
    ensures TextAt(raw[..len], first, count)
         == if first + count <= len then Extracted(raw[first..first + count]) else ""
  {
    if first + count <= len {
      assert raw[..len][first..first + count] == raw[first..first + count];
    }
  }

  lemma {:induction false} ParsePrefix(iface: string, raw: seq<byte>, len: nat)
    requires len <= |raw|
    ensures Parse(iface, raw[..len]) == Info(iface,
      if len >= 4 then BigEndian(raw[0..2]) else 0, if len >= 4 then BigEndian(raw[2..4]) else 0,
      if len >= 16 then BigEndian(raw[10..16]) else 0, if len >= 40 then BigEndian(raw[36..40]) else 0,
      if len >= 56 then BigEndian(raw[52..56]) else 0, if len >= 72 then BigEndian(raw[68..72]) else 0,
      if len >= 104 then Extracted(raw[72..104]) else "", if len >= 136 then Extracted(raw[104..136]) else "",
      if len >= 168 then Extracted(raw[136..168]) else "", if len >= 216 then Extracted(raw[168..216]) else "",
      if len >= 232 then Extracted(raw[216..232]) else "", if len >= 248 then Extracted(raw[232..248]) else "")
  {
    hide Number, TextAt, BigEndian, Extracted;
    PartOfPrefix(raw, len, 0, 2);
    PartOfPrefix(raw, len, 2, 2);
    PartOfPrefix(raw, len, 10, 6);
    PartOfPrefix(raw, len, 36, 4);
    PartOfPrefix(raw, len, 52, 4);
    PartOfPrefix(raw, len, 68, 4);
    PartOfPrefix(raw, len, 72, 32);
    PartOfPrefix(raw, len, 104, 32);
    PartOfPrefix(raw, len, 136, 32);
    PartOfPrefix(raw, len, 168, 48);
    PartOfPrefix(raw, len, 216, 16);
    PartOfPrefix(raw, len, 232, 16);
  }

  // ---- the encoder -------------------------------------------------------------------------

  predicate Encodable(d: Info) {
    && d.major < 0x1_0000 && d.minor < 0x1_0000 && d.mac < 0x1_0000_0000_0000
    && d.ip < 0x1_0000_0000 && d.subnet < 0x1_0000_0000 && d.gateway < 0x1_0000_0000
    && Fits(d.manufacturerName, 32) && Fits(d.modelName, 32) && Fits(d.deviceVersion, 32)
    && Fits(d.manufacturerInfo, 48) && Fits(d.serialNumber, 16) && Fits(d.userName, 16)
  }

  /** What lies between the fields that are read. */
  datatype Gaps = Gaps(mode: seq<byte>, options: seq<byte>, afterIp: seq<byte>, afterSubnet: seq<byte>)
  {
    predicate Ok() { |mode| == 6 && |options| == 20 && |afterIp| == 12 && |afterSubnet| == 12 }
  }

  function Numbers(d: Info, g: Gaps): (bytes: seq<byte>)
    requires g.Ok()
    ensures |bytes| == 72
  {
    BytesOf(d.major, 2) + BytesOf(d.minor, 2) + g.mode + BytesOf(d.mac, 6) + g.options
    + BytesOf(d.ip, 4) + g.afterIp + BytesOf(d.subnet, 4) + g.afterSubnet + BytesOf(d.gateway, 4)
  }

  function Texts(d: Info): (bytes: seq<byte>)
    requires Encodable(d)
    ensures |bytes| == 176
  {
    Field(d.manufacturerName, 32) + Field(d.modelName, 32) + Field(d.deviceVersion, 32)
    + Field(d.manufacturerInfo, 48) + Field(d.serialNumber, 16) + Field(d.userName, 16)
  }

  function Encode(d: Info, g: Gaps): (body: seq<byte>)
    requires g.Ok() && Encodable(d)
    ensures |body| == BODY
  {
    Numbers(d, g) + Texts(d)
  }

  lemma {:induction false} NumberSlices(d: Info, g: Gaps, rest: seq<byte>)
    requires g.Ok()
    ensures var body := Numbers(d, g) + rest;
      && body[0..2] == BytesOf(d.major, 2) && body[2..4] == BytesOf(d.minor, 2) && body[10..16] == BytesOf(d.mac, 6)
      && body[36..40] == BytesOf(d.ip, 4) && body[52..56] == BytesOf(d.subnet, 4)
      && body[68..72] == BytesOf(d.gateway, 4)
  {
  }

  lemma {:induction false} TextSlices(d: Info, front: seq<byte>)
    requires Encodable(d) && |front| == 72
    ensures var body := front + Texts(d);
      && body[72..104] == Field(d.manufacturerName, 32) && body[104..136] == Field(d.modelName, 32)
      && body[136..168] == Field(d.deviceVersion, 32) && body[168..216] == Field(d.manufacturerInfo, 48)
      && body[216..232] == Field(d.serialNumber, 16) && body[232..248] == Field(d.userName, 16)
  {
  }

  /** Parsing inverts the encoder, whatever lies between the fields. */
  lemma {:induction false} ParseInvertsEncode(d: Info, g: Gaps)
    requires g.Ok() && Encodable(d)
    ensures Parse(d.iface, Encode(d, g)) == d
  {
    Powers();
    assert Power256(2) == 0x1_0000;
    NumberSlices(d, g, Texts(d));
    TextSlices(d, Numbers(d, g));
    hide Field, BytesOf, Extracted, BigEndian, Numbers, Texts, Power256, Fits;
    BytesRoundTrip(d.major, 2);
    BytesRoundTrip(d.minor, 2);
    BytesRoundTrip(d.mac, 6);
    BytesRoundTrip(d.ip, 4);
    BytesRoundTrip(d.subnet, 4);
    BytesRoundTrip(d.gateway, 4);
    FieldRoundTrip(d.manufacturerName, 32);
    FieldRoundTrip(d.modelName, 32);
    FieldRoundTrip(d.deviceVersion, 32);
    FieldRoundTrip(d.manufacturerInfo, 48);
    FieldRoundTrip(d.serialNumber, 16);
    FieldRoundTrip(d.userName, 16);
  }

  // ---- the class ---------------------------------------------------------------------------

  class DeviceInfo {
    const ifaceName: string
    var major: nat
    var minor: nat
    var mac: nat
    var ip: nat
    var subnet: nat
    var gateway: nat
    var manufacturerName: string
    var modelName: string
    var deviceVersion: string
    var manufacturerInfo: string
    var serialNumber: string
    var userName: string

    function Value(): Info
      reads this
    {
      Info(ifaceName, major, minor, mac, ip, subnet, gateway, manufacturerName, modelName, deviceVersion,
           manufacturerInfo, serialNumber, userName)
    }

    constructor (ifaceName: string)
      ensures this.ifaceName == ifaceName && Value() == Cleared(ifaceName)
    {
      this.ifaceName := ifaceName;
      new;
      Clear();
    }

    method Clear()
      modifies this
      ensures Value() == Cleared(ifaceName)
    {
      major, minor := 0, 0;
      mac, ip, subnet, gateway := 0, 0, 0, 0;
      manufacturerName, modelName, deviceVersion := "", "", "";
      manufacturerInfo, serialNumber, userName := "", "", "";
    }

    /** The first `count` bytes as a number. */
    static method Accumulate(raw: seq<byte>, first: nat, count: nat) returns (n: nat)
      requires first + count <= |raw|
      ensures n == BigEndian(raw[first..first + count])
    {
      n := 0;
      var i := 0;
      while i < count
        invariant 0 <= i <= count && n == BigEndian(raw[first..first + i])
      {
        assert raw[first..first + i + 1][..i] == raw[first..first + i];
        n := n * 256 + raw[first + i];
        i := i + 1;
      }
    }

    /** Looks at one byte more than it may extract. */
    static method Extract(raw: seq<byte>, first: nat, len: nat) returns (out: string)
      requires first + len < |raw|
      ensures out == Extracted(raw[first..first + len])
    {
      out := "";
      var p, left := first, len;
      ghost var field := raw[first..first + len];
      while raw[p] != 0 && left > 0
        invariant first <= p && p + left == first + len
        invariant p - first <= TextLength(field) && out == Text(field[..p - first])
        decreases left
      {
        assert field[p - first] == raw[p];
        out := out + [raw[p] as char];
        p := p + 1;
        left := left - 1;
      }
      assert left > 0 ==> field[p - first] == raw[p];
    }

    /** `raw` is the receive buffer behind the header, which is longer than any body that is read.
        What is read depends on the first `len` bytes alone. */
    method Set(raw: seq<byte>, len: nat)
      requires len <= |raw| && BODY < |raw|
      modifies this
      ensures Value() == Parse(ifaceName, raw[..len])
    {
      hide BigEndian, Extracted;
      Clear();
      SetVersion(raw, len);
      SetAddresses(raw, len);
      SetTexts(raw, len);
      ParsePrefix(ifaceName, raw, len);
    }

    method SetVersion(raw: seq<byte>, len: nat)
      requires len <= |raw| && BODY < |raw| && major == minor == 0
      modifies this`major, this`minor
      ensures major == if len >= 4 then BigEndian(raw[0..2]) else 0
      ensures minor == if len >= 4 then BigEndian(raw[2..4]) else 0
    {
      if len >= 4 {
        major := raw[0] as int * 256 + raw[1];
        minor := raw[2] as int * 256 + raw[3];
        TwoBytes(raw[0..2]);
        TwoBytes(raw[2..4]);
      }
    }

    method SetAddresses(raw: seq<byte>, len: nat)
      requires len <= |raw| && BODY < |raw| && mac == ip == subnet == gateway == 0
      modifies this`mac, this`ip, this`subnet, this`gateway
      ensures mac == if len >= 16 then BigEndian(raw[10..16]) else 0
      ensures ip == if len >= 40 then BigEndian(raw[36..40]) else 0
      ensures subnet == if len >= 56 then BigEndian(raw[52..56]) else 0
      ensures gateway == if len >= 72 then BigEndian(raw[68..72]) else 0
    {
      hide BigEndian;
      if len >= 16 { mac := Accumulate(raw, 10, 6); }
      if len >= 40 { ip := Accumulate(raw, 36, 4); }
      if len >= 56 { subnet := Accumulate(raw, 52, 4); }
      if len >= 72 { gateway := Accumulate(raw, 68, 4); }
    }

    method SetTexts(raw: seq<byte>, len: nat)
      requires len <= |raw| && BODY < |raw| && manufacturerName == modelName == deviceVersion == ""
      requires manufacturerInfo == serialNumber == userName == ""
      modifies this`manufacturerName, this`modelName, this`deviceVersion
      modifies this`manufacturerInfo, this`serialNumber, this`userName
      ensures manufacturerName == if len >= 104 then Extracted(raw[72..104]) else ""
      ensures modelName == if len >= 136 then Extracted(raw[104..136]) else ""
      ensures deviceVersion == if len >= 168 then Extracted(raw[136..168]) else ""
      ensures manufacturerInfo == if len >= 216 then Extracted(raw[168..216]) else ""
      ensures serialNumber == if len >= 232 then Extracted(raw[216..232]) else ""
      ensures userName == if len >= 248 then Extracted(raw[232..248]) else ""
    {
      hide Extracted;
      if len >= 104 { manufacturerName := Extract(raw, 72, 32); }
      if len >= 136 { modelName := Extract(raw, 104, 32); }
      if len >= 168 { deviceVersion := Extract(raw, 136, 32); }
      if len >= 216 { manufacturerInfo := Extract(raw, 168, 48); }
      if len >= 232 { serialNumber := Extract(raw, 216, 16); }
      if len >= 248 { userName := Extract(raw, 232, 16); }
    }
  }

  lemma {:induction false} TwoBytes(bs: seq<byte>)
    requires |bs| == 2
    ensures BigEndian(bs) == bs[0] as int * 256 + bs[1]
  {
    assert bs[..1] == [bs[0]] && [bs[0]][..0] == [];
    assert BigEndian(bs[..1]) == bs[0];
  }
}
