/** GVCP datagrams as rcdiscover/gvcp_ip_config.cc writes and reads them, and the GigE Vision
    device that answers them. */
module GvcpMessages {
  import opened RequestCounter

  type Packet = seq<byte>
  type Half = x: int | 0 <= x < 0x1_0000
  type Word = x: int | 0 <= x < 0x1_0000_0000

  const READREG_CMD: Half := 0x0080
  const READREG_ACK: Half := 0x0081
  const WRITEREG_CMD: Half := 0x0082
  const WRITEREG_ACK: Half := 0x0083

  const GEV_STATUS_ACCESS_DENIED: Half := 0x8006
  // Stands for every other error status; the code treats them alike.
  const STATUS_INVALID_ADDRESS: Half := 0x8003

  const GEV_CCP: Word := 0x00000A00
  const GEV_CURRENT_IP_CONFIGURATION: Word := 0x00000014
  const GEV_PERSISTENT_IP_ADDRESS: Word := 0x0000064C
  const GEV_PERSISTENT_SUBNET_MASK: Word := 0x0000065C
  const GEV_PERSISTENT_DEFAULT_GATEWAY: Word := 0x0000066C

  const IPCONFIG_PERSISTENT_IP_BIT: Word := 1
  const IPCONFIG_DHCP_BIT: Word := 2
  const IPCONFIG_LLA_BIT: Word := 4

  /** Bit tests, masks and shifts of the code are written as arithmetic. `bit` is a power of two. */
  predicate HasBit(mode: Word, bit: Word)
    requires bit > 0
  {
    mode / bit % 2 == 1
  }

  /** The mask that clears the three lowest bits, then the bits that are wanted. */
  function ModifiedMode(mode: Word, persistentIp: bool, dhcp: bool): Word {
    var cleared := mode - mode % 8;
    var withIp := if persistentIp then cleared + IPCONFIG_PERSISTENT_IP_BIT else cleared;
    var withDhcp := if dhcp then withIp + IPCONFIG_DHCP_BIT else withIp;
    withDhcp + IPCONFIG_LLA_BIT
  }

  /** Read-modify-write sets the three bits as wanted, persistent IP being 1, DHCP 2 and LLA 4, and
      keeps the other twenty-nine. */
  lemma {:induction false} ModifiedModeBits(mode: Word, persistentIp: bool, dhcp: bool)
    ensures var mode' := ModifiedMode(mode, persistentIp, dhcp);
      && (mode' % 2 == 1 <==> persistentIp) && (mode' / 2 % 2 == 1 <==> dhcp) && mode' / 4 % 2 == 1
      && mode' % 8 == 4 + (if persistentIp then 1 else 0) + (if dhcp then 2 else 0)
      && mode' / 8 == mode / 8
    ensures HasBit(mode, IPCONFIG_PERSISTENT_IP_BIT) <==> mode % 2 == 1
    ensures HasBit(mode, IPCONFIG_DHCP_BIT) <==> mode / 2 % 2 == 1
  {
    var low := 4 + (if persistentIp then 1 else 0) + (if dhcp then 2 else 0);
    LowBits(mode / 8, low);
    assert ModifiedMode(mode, persistentIp, dhcp) == mode / 8 * 8 + low;
  }

  lemma {:induction false} LowBits(high: nat, low: nat)
    requires low < 8
    ensures var n := high * 8 + low;
      n / 8 == high && n % 8 == low && n % 2 == low % 2 && n / 2 % 2 == low / 2 % 2 && n / 4 % 2 == low / 4
  {
    assert (high * 8 + low) / 2 == high * 4 + low / 2;
    assert (high * 8 + low) / 4 == high * 2 + low / 4;
  }

  datatype Option<+T> = None | Some(value: T)

  // ---- requests and replies, apart from their bytes ----------------------------------------

  datatype Command = ReadReg(address: Word) | WriteReg(address: Word, value: Word)
  {
    function Code(): Half { if ReadReg? then READREG_CMD else WRITEREG_CMD }
    function AckCode(): Half { if ReadReg? then READREG_ACK else WRITEREG_ACK }
  }

  /** A reply carries the first `length` bytes of `value`, and announces some number of bytes in its
      size field. */
  datatype Reply = Reply(status: Half, value: Word, length: nat, announced: Half)

  // ---- fields ------------------------------------------------------------------------------

  /** The conversion to a byte. */
  function ByteOf(n: nat): byte { n % 256 }

  // A shift by 24 is written as three shifts by 8.
  function WordBytes(v: Word): (p: Packet)
    ensures |p| == 4
  {
    [ByteOf(v / 256 / 256 / 256), ByteOf(v / 256 / 256), ByteOf(v / 256), ByteOf(v)]
  }

  function ExtractWord(p: Packet): Word
    requires |p| >= 4
  {
    ((p[0] as int * 256 + p[1]) * 256 + p[2]) * 256 + p[3]
  }

  lemma {:induction false} ShiftedByte(n: nat, b: byte)
    ensures (n * 256 + b) / 256 == n && ByteOf(n * 256 + b) == b
  {
  }

  lemma {:induction false} WordRoundTrip(v: Word, p: Packet)
    ensures ExtractWord(WordBytes(v)) == v
    ensures |p| == 4 ==> WordBytes(ExtractWord(p)) == p
  {
    if |p| == 4 {
      ShiftedByte(0, p[0]);
      ShiftedByte(p[0], p[1]);
      ShiftedByte(p[0] as int * 256 + p[1], p[2]);
      ShiftedByte((p[0] as int * 256 + p[1]) * 256 + p[2], p[3]);
    }
  }

  function Hi(v: Half): byte { ByteOf(v / 256) }
  function Lo(v: Half): byte { ByteOf(v) }
  function Join(hi: byte, lo: byte): Half { hi as int * 256 + lo }

  lemma {:induction false} HalfRoundTrip(v: Half)
    ensures Join(Hi(v), Lo(v)) == v
  {
  }

  /** The size field of a header. */
  function SizeField(p: Packet): nat
    requires |p| >= 6
  {
    p[4] as int * 256 + p[5]
  }

  // ---- the bytes of a request --------------------------------------------------------------

  function Payload(c: Command): Packet {
    if c.ReadReg? then WordBytes(c.address) else WordBytes(c.address) + WordBytes(c.value)
  }

  /** How a device reads a request; anything else it ignores. The size field counts what follows
      the header. */
  function ParseRequest(p: Packet): Option<Command> {
    if |p| < 12 || p[0] != 0x42 || p[1] % 2 == 0 then None
    else if Join(p[2], p[3]) == READREG_CMD && p[4] == 0 && p[5] == 4 && |p| == 12 then
      Some(ReadReg(ExtractWord(p[8..])))
    else if Join(p[2], p[3]) == WRITEREG_CMD && p[4] == 0 && p[5] == 8 && |p| == 16 then
      Some(WriteReg(ExtractWord(p[8..12]), ExtractWord(p[12..])))
    else None
  }

  /** The header in front of the payload of `c`, with these id bytes. */
  function RequestHeader(c: Command, hi: byte, lo: byte): Packet {
    [0x42, 0x01, Hi(c.Code()), Lo(c.Code()), 0, if c.ReadReg? then 4 else 8, hi, lo]
  }

  /** The datagram that asks for `c`, byte by byte: 0x42, the flag that requests an acknowledge,
      READREG or WRITEREG, the size, the id, and the numbers with their high bytes first. */
  predicate AsksFor(p: Packet, c: Command, hi: byte, lo: byte) {
    match c
    case ReadReg(a) =>
      |p| == 12 && p[..8] == [0x42, 0x01, 0x00, 0x80, 0x00, 0x04, hi, lo] && IsNumber(p[8..], a)
    case WriteReg(a, v) =>
      && |p| == 16 && p[..8] == [0x42, 0x01, 0x00, 0x82, 0x00, 0x08, hi, lo]
      && IsNumber(p[8..12], a) && IsNumber(p[12..], v)
  }

  predicate IsNumber(p: Packet, n: Word)
    requires |p| == 4
  {
    n == p[0] as int * 0x1_000_000 + p[1] as int * 0x1_0000 + p[2] as int * 0x100 + p[3]
  }

  lemma {:induction false} WordBytesSpell(v: Word)
    ensures IsNumber(WordBytes(v), v)
  {
    WordRoundTrip(v, []);
  }

  lemma {:induction false} RequestInBytes(c: Command, hi: byte, lo: byte)
    ensures AsksFor(RequestHeader(c, hi, lo) + Payload(c), c, hi, lo)
  {
    hide WordBytes, IsNumber;
    var p := RequestHeader(c, hi, lo) + Payload(c);
    WordBytesSpell(c.address);
    if c.ReadReg? {
      assert p[8..] == WordBytes(c.address);
    } else {
      WordBytesSpell(c.value);
      assert p[8..12] == WordBytes(c.address) && p[12..] == WordBytes(c.value);
    }
    assert p[..8] == RequestHeader(c, hi, lo);
  }

  lemma {:induction false} ParseInvertsRequest(c: Command, hi: byte, lo: byte)
    ensures ParseRequest(RequestHeader(c, hi, lo) + Payload(c)) == Some(c)
    ensures AsksFor(RequestHeader(c, hi, lo) + Payload(c), c, hi, lo)
  {
    RequestInBytes(c, hi, lo);
    hide WordBytes, ExtractWord, Hi, Lo, Join, AsksFor;
    var p := RequestHeader(c, hi, lo) + Payload(c);
    HalfRoundTrip(c.Code());
    WordRoundTrip(c.address, []);
    if c.ReadReg? {
      assert p[8..] == WordBytes(c.address);
    } else {
      WordRoundTrip(c.value, []);
      assert p[8..12] == WordBytes(c.address);
      assert p[12..] == WordBytes(c.value);
    }
  }

  // ---- the bytes of a reply ----------------------------------------------------------------

  /** What follows the header. */
  function ReplyPayload(r: Reply): (p: Packet)
    ensures |p| == if r.length < 4 then r.length else 4
  {
    if r.length < 4 then WordBytes(r.value)[..r.length] else WordBytes(r.value)
  }

  /** As many bytes follow as are announced. */
  predicate IsWhole(r: Reply) {
    r.announced <= |ReplyPayload(r)|
  }

  /** The part of the payload that is announced. */
  function Announced(r: Reply): (p: Packet)
    ensures IsWhole(r) ==> |p| == r.announced
  {
    if IsWhole(r) then ReplyPayload(r)[..r.announced] else ReplyPayload(r)
  }

  /** The acknowledge to a request that came with these id bytes. */
  function Acknowledge(c: Command, hi: byte, lo: byte, r: Reply): Packet {
    [Hi(r.status), Lo(r.status), Hi(c.AckCode()), Lo(c.AckCode()), Hi(r.announced), Lo(r.announced), hi, lo]
    + ReplyPayload(r)
  }

  /** READREG and WRITEREG are acknowledged with READREG_ACK and WRITEREG_ACK. */
  lemma {:induction false} AcknowledgeInBytes(c: Command, hi: byte, lo: byte, r: Reply)
    ensures c.Code() == if c.ReadReg? then 0x0080 else 0x0082
    ensures c.AckCode() == if c.ReadReg? then 0x0081 else 0x0083
    ensures var a := Acknowledge(c, hi, lo, r);
      && |a| >= 8 && r.status == a[0] as int * 256 + a[1] && r.announced == a[4] as int * 256 + a[5]
      && a[2] == 0 && a[3] == (if c.ReadReg? then 0x81 else 0x83) && a[6] == hi && a[7] == lo
    ensures |ReplyPayload(r)| == 4 ==> IsNumber(Acknowledge(c, hi, lo, r)[8..], r.value)
  {
    hide ReplyPayload;
    var a := Acknowledge(c, hi, lo, r);
    assert a[8..] == ReplyPayload(r);
    if |ReplyPayload(r)| == 4 {
      WordBytesSpell(r.value);
      assert ReplyPayload(r) == WordBytes(r.value) by {
        PayloadOfFour(r);
      }
    }
  }

  lemma {:induction false} PayloadOfFour(r: Reply)
    requires |ReplyPayload(r)| == 4
    ensures ReplyPayload(r) == WordBytes(r.value)
  {
  }

  lemma {:induction false} AcknowledgeFields(c: Command, hi: byte, lo: byte, r: Reply)
    ensures var a := Acknowledge(c, hi, lo, r);
      && |a| == 8 + |ReplyPayload(r)| && SizeField(a) == r.announced
      && Join(a[0], a[1]) == r.status && Join(a[2], a[3]) == c.AckCode() && a[6] == hi && a[7] == lo
      && (IsWhole(r) ==> a[8..8 + SizeField(a)] == Announced(r))
  {
    HalfRoundTrip(r.status);
    HalfRoundTrip(c.AckCode());
    HalfRoundTrip(r.announced);
    hide Hi, Lo, Join, ReplyPayload, IsWhole;
    var a := Acknowledge(c, hi, lo, r);
    SizeIsJoined(a);
    assert a[8..] == ReplyPayload(r);
    if IsWhole(r) {
      WholePayload(a, r);
    }
  }

  lemma {:induction false} SizeIsJoined(a: Packet)
    requires |a| >= 6
    ensures SizeField(a) == Join(a[4], a[5])
  {
  }

  lemma {:induction false} WholePayload(a: Packet, r: Reply)
    requires |a| >= 8 && a[8..] == ReplyPayload(r) && IsWhole(r)
    ensures 8 + r.announced <= |a| && a[8..8 + r.announced] == Announced(r)
  {
    hide ReplyPayload;
    assert a[8..8 + r.announced] == a[8..][..r.announced];
  }

  // ---- the device --------------------------------------------------------------------------

  /** `ccp` is the control channel privilege register; while `foreign` holds, another client has
      it. `regs` are all other registers. */
  datatype Device = Device(ccp: Word, foreign: bool, regs: map<Word, Word>)
  {
    predicate Controlled() { !foreign && ccp != 0 }
  }

  datatype Response = Response(device: Device, reply: Reply)

  /** The device's rule: control access is needed to write. A write is acknowledged with four
      bytes, the count of registers written among them; the client does not look at these. */
  function Serve(d: Device, c: Command): Response {
    match c
    case ReadReg(a) =>
      if a == GEV_CCP then Response(d, Reply(0, d.ccp, 4, 4))
      else if a in d.regs then Response(d, Reply(0, d.regs[a], 4, 4))
      else Response(d, Reply(STATUS_INVALID_ADDRESS, 0, 0, 0))
    case WriteReg(a, v) =>
      if a == GEV_CCP then
        if d.foreign then Response(d, Reply(GEV_STATUS_ACCESS_DENIED, 0, 0, 0))
        else Response(d.(ccp := v), Reply(0, 1, 4, 4))
      else if !d.Controlled() then Response(d, Reply(GEV_STATUS_ACCESS_DENIED, 0, 0, 0))
      else if a in d.regs then Response(d.(regs := d.regs[a := v]), Reply(0, 1, 4, 4))
      else Response(d, Reply(STATUS_INVALID_ADDRESS, 0, 0, 0))
  }

  /** The same, register by register: 0xA00 gives and takes control, 0x8006 is the refusal. */
  lemma {:induction false} ServeInNumbers(d: Device, c: Command)
    ensures var d', r := Serve(d, c).device, Serve(d, c).reply;
      && d'.foreign == d.foreign
      && (c.WriteReg? && d.foreign ==> d' == d && r.status == 0x8006)
      && (c.WriteReg? && c.address == 0xA00 && !d.foreign ==> d' == d.(ccp := c.value) && r.status == 0)
      && (c.WriteReg? && c.address != 0xA00 && !d.foreign && d.ccp == 0 ==> d' == d && r.status == 0x8006)
      && (c.WriteReg? && c.address != 0xA00 && !d.foreign && d.ccp != 0 ==>
            if c.address in d.regs then d' == d.(regs := d.regs[c.address := c.value]) && r.status == 0
            else d' == d && r.status != 0 && r.status != 0x8006)
      && (c.ReadReg? ==> d' == d && r.status != 0x8006)
      && (c.ReadReg? && c.address != 0xA00 ==> (r.status == 0 <==> c.address in d.regs))
      && (c.ReadReg? && r.status == 0 ==>
            r.length == 4 && r.announced == 4 && (c.address != 0xA00 ==> r.value == d.regs[c.address]))
  {
  }

  /** Repeating a request repeats the reply and changes nothing more. */
  lemma {:induction false} ServeIdempotent(d: Device, c: Command)
    ensures Serve(Serve(d, c).device, c) == Serve(d, c)
  {
  }
}
