/** The device-level meaning of writeConfig and readConfig: every request carried out once, in
    order, the first failure ending the body. Over a responsive path the client achieves just that;
    over an adversarial one, at most that. */
module GvcpConfigure {
  import opened RequestCounter
  import opened GvcpMessages
  import opened GvcpNetwork
  import opened GvcpResponsive
  import opened GvcpSessions
  import opened GvcpAtomicity

  datatype Performed = Performed(device: Device, thrown: Option<Error>)

  function Failure(c: Command, reply: Reply): Option<Error> {
    match Conclude(c, reply)
    case Throw(e) => Some(e)
    case Ok(r) => if c.ReadReg? && r.announced < 4 then Some(InvalidResponse) else None
  }

  function Perform(d: Device, cs: seq<Command>): Performed
    decreases cs
  {
    if cs == [] then Performed(d, None)
    else
      var r := Serve(d, cs[0]);
      if Failure(cs[0], r.reply).Some? then Performed(r.device, Failure(cs[0], r.reply))
      else Perform(r.device, cs[1..])
  }

  function Configure(d: Device, c: IPConfig): Performed {
    var claimed := Serve(d, CLAIM);
    if Failure(CLAIM, claimed.reply).Some? then Performed(claimed.device, Failure(CLAIM, claimed.reply))
    else
      var body := Perform(claimed.device, Body(c, ModeIn(d.regs)));
      Performed(Serve(body.device, RELEASE).device, body.thrown)
  }

  predicate HasRegister(d: Device, a: Word) {
    a in d.regs
  }

  predicate HasAddresses(d: Device) {
    HasRegister(d, GEV_PERSISTENT_IP_ADDRESS) && HasRegister(d, GEV_PERSISTENT_SUBNET_MASK)
    && HasRegister(d, GEV_PERSISTENT_DEFAULT_GATEWAY)
  }

  function RegisterOf(d: Device, a: Word): Word
    requires HasRegister(d, a)
  {
    d.regs[a]
  }

  /** What readConfig finds on a device that has the registers. */
  function Stored(d: Device): IPConfig
    requires HasAddresses(d) && HasRegister(d, GEV_CURRENT_IP_CONFIGURATION)
  {
    var mode := RegisterOf(d, GEV_CURRENT_IP_CONFIGURATION);
    IPConfig(HasBit(mode, IPCONFIG_PERSISTENT_IP_BIT), HasBit(mode, IPCONFIG_DHCP_BIT),
             RegisterOf(d, GEV_PERSISTENT_IP_ADDRESS), RegisterOf(d, GEV_PERSISTENT_SUBNET_MASK),
             RegisterOf(d, GEV_PERSISTENT_DEFAULT_GATEWAY))
  }

  function NoSuchRegister(a: Word): Result<IPConfig> {
    Throw(DeviceStatus(STATUS_INVALID_ADDRESS, READREG_CMD, a))
  }

  /** What readConfig returns or throws. */
  function ReadBack(d: Device): Result<IPConfig> {
    if !HasRegister(d, GEV_CURRENT_IP_CONFIGURATION) then NoSuchRegister(GEV_CURRENT_IP_CONFIGURATION)
    else if !HasRegister(d, GEV_PERSISTENT_IP_ADDRESS) then NoSuchRegister(GEV_PERSISTENT_IP_ADDRESS)
    else if !HasRegister(d, GEV_PERSISTENT_SUBNET_MASK) then NoSuchRegister(GEV_PERSISTENT_SUBNET_MASK)
    else if !HasRegister(d, GEV_PERSISTENT_DEFAULT_GATEWAY) then NoSuchRegister(GEV_PERSISTENT_DEFAULT_GATEWAY)
    else Ok(Stored(d))
  }

  /** Updates of registers that exist all succeed once control is held. */
  lemma {:induction false} PerformUpdates(d: Device, ws: seq<Command>)
    requires d.Controlled() && AllUpdates(ws) && forall i | 0 <= i < |ws| :: HasRegister(d, ws[i].address)
    ensures Perform(d, ws) == Performed(d.(regs := Updated(d.regs, ws)), None)
    decreases |ws|
  {
    if ws != [] {
      var r := Serve(d, ws[0]).device;
      PerformUpdates(r, ws[1..]);
      UpdatedFromFront(d.regs, ws);
    }
  }

  lemma {:induction false} UpdatedFromFront(regs: map<Word, Word>, ws: seq<Command>)
    requires ws != [] && AllUpdates(ws)
    ensures Updated(regs, ws) == Updated(regs[ws[0].address := ws[0].value], ws[1..])
    decreases |ws|
  {
    if |ws| > 1 {
      UpdatedFromFront(regs, ws[..|ws| - 1]);
      assert ws[1..][..|ws| - 2] == ws[..|ws| - 1][1..];
    }
  }

  lemma {:induction false} PerformConcat(d: Device, a: seq<Command>, b: seq<Command>)
    ensures Perform(d, a + b) ==
            if Perform(d, a).thrown.Some? then Perform(d, a) else Perform(Perform(d, a).device, b)
    decreases |a|
  {
    if a == [] {
      assert a + b == b;
    } else {
      assert (a + b)[1..] == a[1..] + b;
      PerformConcat(Serve(d, a[0]).device, a[1..], b);
    }
  }

  /** The registers that a configuration needs. */
  predicate Supports(d: Device, c: IPConfig) {
    HasRegister(d, GEV_CURRENT_IP_CONFIGURATION) && (c.persistentIpEnabled ==> HasAddresses(d))
  }

  lemma {:induction false} PerformOne(d: Device, c: Command)
    ensures Perform(d, [c]) == Performed(Serve(d, c).device, Failure(c, Serve(d, c).reply))
  {
  }

  /** If an address register is missing, the updates in front of it are carried out and no more. */
  lemma {:induction false} AddressesNeedRegisters(d: Device, c: IPConfig)
    requires d.Controlled() && c.persistentIpEnabled && !HasAddresses(d)
    ensures Perform(d, AddressUpdates(c)).thrown.Some? && Perform(d, AddressUpdates(c)).device.Controlled()
  {
    var ws := AddressUpdates(c);
    assert ws[1..][1..] == ws[2..] && ws[2..] == [ws[2]] && ws[1..] == [ws[1]] + ws[2..];
    PerformConcat(d, [ws[0]], ws[1..]);
    assert ws == [ws[0]] + ws[1..];
    PerformOne(d, ws[0]);
    var d1 := Serve(d, ws[0]).device;
    PerformConcat(d1, [ws[1]], ws[2..]);
    PerformOne(d1, ws[1]);
    PerformOne(Serve(d1, ws[1]).device, ws[2]);
  }

  lemma {:induction false} BodyOutcome(d: Device, c: IPConfig)
    requires d.Controlled()
    ensures var body := Perform(d, Body(c, ModeIn(d.regs)));
      && !body.device.foreign
      && (body.thrown == None <==> Supports(d, c))
      && (Supports(d, c) ==> body.device.regs == Updated(d.regs, ConfigUpdates(c, ModeIn(d.regs))))
  {
    hide NewMode;
    var a, m := AddressUpdates(c), ModeUpdate(c, ModeIn(d.regs));
    UpdatesInBody(c, ModeIn(d.regs), 0);
    assert Body(c, ModeIn(d.regs)) == a + ([READ_MODE] + [m]);
    PerformConcat(d, a, [READ_MODE] + [m]);
    ConfigUpdatesAreDistinct(c, 0);
    if c.persistentIpEnabled && !HasAddresses(d) {
      AddressesNeedRegisters(d, c);
    } else {
      PerformUpdates(d, a);
      var d1 := Perform(d, a).device;
      UpdatedElsewhere(d.regs, a, GEV_CURRENT_IP_CONFIGURATION);
      PerformConcat(d1, [READ_MODE], [m]);
      PerformOne(d1, READ_MODE);
      PerformOne(d1, m);
      assert ConfigUpdates(c, ModeIn(d.regs))[..|a|] == a;
    }
  }

  /** Configuring succeeds exactly if no other client holds the device and the registers exist; a
      device held by another client is not touched; any other one is released. */
  lemma {:induction false} ConfigureOutcome(d: Device, c: IPConfig)
    ensures Configure(d, c).thrown == None <==> !d.foreign && Supports(d, c)
    ensures d.foreign ==> Configure(d, c) == Performed(d, Some(AccessDenied(WRITEREG_CMD, GEV_CCP)))
    ensures !d.foreign ==> Configure(d, c).device.ccp == 0 && !Configure(d, c).device.foreign
    ensures Configure(d, c).thrown == None ==>
              Configure(d, c).device.regs == Updated(d.regs, ConfigUpdates(c, ModeIn(d.regs)))
  {
    if !d.foreign {
      BodyOutcome(d.(ccp := 1), c);
    }
  }

  /** What writeConfig is asked to do, register by register: in the mode register, 0x14, bit 2 is
      set, bits 0 and 1 say whether persistent IP and DHCP are on, and the other twenty-nine are
      kept; with persistent IP, 0x64C, 0x65C and 0x66C have the address, subnet and gateway; nothing
      else changes. */
  predicate IsConfigured(before: map<Word, Word>, after: map<Word, Word>, c: IPConfig) {
    && after.Keys == before.Keys && 0x14 in before
    && after[0x14] % 8 == 4 + (if c.persistentIpEnabled then 1 else 0) + (if c.dhcpEnabled then 2 else 0)
    && after[0x14] / 8 == before[0x14] / 8
    && (c.persistentIpEnabled ==>
          && 0x64C in before && 0x65C in before && 0x66C in before
          && after[0x64C] == c.persistentIp && after[0x65C] == c.persistentSubnet
          && after[0x66C] == c.persistentGateway)
    && (forall r <- before ::
          r != 0x14 && !(c.persistentIpEnabled && (r == 0x64C || r == 0x65C || r == 0x66C)) ==> after[r] == before[r])
  }

  /** All updates together do it, where the registers exist. */
  lemma {:induction false} UpdatedIsConfigured(regs: map<Word, Word>, c: IPConfig)
    requires 0x14 in regs && (c.persistentIpEnabled ==> 0x64C in regs && 0x65C in regs && 0x66C in regs)
    ensures IsConfigured(regs, Updated(regs, ConfigUpdates(c, ModeIn(regs))), c)
  {
    hide ModifiedMode;
    ModifiedModeBits(ModeIn(regs), c.persistentIpEnabled, c.dhcpEnabled);
    var a, ws := AddressUpdates(c), ConfigUpdates(c, ModeIn(regs));
    assert ws[..|ws| - 1] == a;
    AddressesUpdated(regs, c);
  }

  lemma {:induction false} AddressesUpdated(regs: map<Word, Word>, c: IPConfig)
    ensures Updated(regs, AddressUpdates(c)) ==
      if c.persistentIpEnabled then
        regs[GEV_PERSISTENT_IP_ADDRESS := c.persistentIp]
            [GEV_PERSISTENT_SUBNET_MASK := c.persistentSubnet]
            [GEV_PERSISTENT_DEFAULT_GATEWAY := c.persistentGateway]
      else regs
  {
    if c.persistentIpEnabled {
      var ws := AddressUpdates(c);
      assert ws[..2][..1] == ws[..1] && ws[..1][..0] == [];
      assert Updated(regs, ws[..1]) == regs[GEV_PERSISTENT_IP_ADDRESS := c.persistentIp];
      assert Updated(regs, ws[..2]) == Updated(regs, ws[..1])[GEV_PERSISTENT_SUBNET_MASK := c.persistentSubnet];
    }
  }

  /** Exactly when configuring succeeds, and that it then does what it is asked to. */
  lemma {:induction false} ConfigureTakesEffect(d: Device, c: IPConfig)
    ensures Configure(d, c).thrown == None <==>
      && !d.foreign && 0x14 in d.regs
      && (c.persistentIpEnabled ==> 0x64C in d.regs && 0x65C in d.regs && 0x66C in d.regs)
    ensures Configure(d, c).thrown == None ==> IsConfigured(d.regs, Configure(d, c).device.regs, c)
  {
    hide Configure, Updated, ConfigUpdates, IsConfigured;
    ConfigureOutcome(d, c);
    if Configure(d, c).thrown == None {
      UpdatedIsConfigured(d.regs, c);
    }
  }

  /** What readConfig reports, register by register. */
  predicate IsReport(regs: map<Word, Word>, c: IPConfig) {
    && 0x14 in regs && 0x64C in regs && 0x65C in regs && 0x66C in regs
    && c.persistentIpEnabled == (regs[0x14] % 2 == 1) && c.dhcpEnabled == (regs[0x14] / 2 % 2 == 1)
    && c.persistentIp == regs[0x64C] && c.persistentSubnet == regs[0x65C] && c.persistentGateway == regs[0x66C]
  }

  /** It reports what the device holds, and throws exactly if a register is missing. */
  lemma {:induction false} ReadBackReports(d: Device)
    ensures ReadBack(d).Ok? <==> 0x14 in d.regs && 0x64C in d.regs && 0x65C in d.regs && 0x66C in d.regs
    ensures ReadBack(d).Ok? ==> IsReport(d.regs, ReadBack(d).value)
  {
    hide HasBit;
    if ReadBack(d).Ok? {
      ModifiedModeBits(RegisterOf(d, GEV_CURRENT_IP_CONFIGURATION), false, false);
    }
  }

  /** What is configured is read back; addresses that are not configured keep their old values. */
  lemma {:induction false} ConfigureRoundTrip(d: Device, c: IPConfig)
    requires !d.foreign && HasAddresses(d) && HasRegister(d, GEV_CURRENT_IP_CONFIGURATION)
    ensures ReadBack(Configure(d, c).device) ==
            if c.persistentIpEnabled then Ok(c)
            else Ok(Stored(d).(persistentIpEnabled := false, dhcpEnabled := c.dhcpEnabled))
  {
    hide Configure, ReadBack;
    ConfigureTakesEffect(d, c);
    ReadBackReports(d);
    ReadBackReports(Configure(d, c).device);
    LowBits(d.regs[0x14] / 8, Configure(d, c).device.regs[0x14] % 8);
  }
}
