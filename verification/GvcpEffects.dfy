/** What runs of writeConfig and readConfig come to, in the register numbers and bits of the GigE
    Vision standard, over a responsive path and over an adversarial one. */
module GvcpEffects {
  import opened RequestCounter
  import opened GvcpMessages
  import opened GvcpNetwork
  import opened GvcpResponsive
  import opened GvcpSessions
  import opened GvcpAtomicity
  import opened GvcpConfigure
  import opened GvcpProgress

  // ---- a device has the registers it has ---------------------------------------------------

  lemma {:induction false} EventKeepsKeys(s: Net, e: Event)
    requires Enabled(s, e)
    ensures Apply(s, e).device.regs.Keys == s.device.regs.Keys
  {
  }

  lemma {:induction false} StepsKeepKeys(h: seq<Net>, first: nat, last: nat, n: nat, p: Option<Command>)
    requires Steps(h, first, last, n, p)
    ensures h[last].device.regs.Keys == h[first].device.regs.Keys
    decreases last
  {
    hide Enabled, Apply;
    if first < last {
      assert StepAt(h, last - 1, n, p);
      var e :| Enabled(h[last - 1], e) && h[last] == Apply(h[last - 1], e);
      EventKeepsKeys(h[last - 1], e);
      StepsKeepKeys(h, first, last - 1, n, p);
    }
  }

  lemma {:induction false} ChainKeepsKeys(h: seq<Net>, qs: seq<Transaction>, first: nat, last: nat)
    requires Chain(h, qs, first, last)
    ensures first <= last < |h| && h[last].device.regs.Keys == h[first].device.regs.Keys
    decreases |qs|
  {
    hide Steps, WellFormed;
    if qs != [] {
      var q := qs[|qs| - 1];
      ChainFront(h, qs, first, last);
      assert IsTransaction(h, q);
      StepsKeepKeys(h, q.first, q.last, q.serial, Some(q.command));
      ChainKeepsKeys(h, qs[..|qs| - 1], first, q.first);
    }
  }

  // ---- writeConfig -------------------------------------------------------------------------

  /** The requests of a run, in order: 0xA00 is claimed; 0x64C, 0x65C and 0x66C are written if
      persistent IP is wanted; 0x14 is read and written back with its three lowest bits changed;
      the first failure ends this; and 0xA00 is released. */
  lemma {:induction false} RunInNumbers(h: seq<Net>, qs: seq<Transaction>, first: nat, last: nat, c: IPConfig,
      mode: Word, thrown: Option<Error>)
    returns (k: nat, mode': Word)
    requires ConfigRun(h, qs, first, last, c, mode, thrown)
    ensures mode' % 8 == 4 + (if c.persistentIpEnabled then 1 else 0) + (if c.dhcpEnabled then 2 else 0)
    ensures mode' / 8 == mode / 8
    ensures var body :=
        (if c.persistentIpEnabled then
           [WriteReg(0x64C, c.persistentIp), WriteReg(0x65C, c.persistentSubnet), WriteReg(0x66C, c.persistentGateway)]
         else []) + [ReadReg(0x14), WriteReg(0x14, mode')];
      && 0 < k <= |body|
      && (Verdict(qs[0]).Some? ==> Commands(qs) == [WriteReg(0xA00, 1)])
      && (Verdict(qs[0]) == None ==> Commands(qs) == [WriteReg(0xA00, 1)] + body[..k] + [WriteReg(0xA00, 0)])
      && (thrown == None ==> Verdict(qs[0]) == None && k == |body|)
  {
    hide Chain, NewMode;
    mode' := NewMode(mode, c);
    k := if Verdict(qs[0]).Some? then 1 else |qs| - 2;
    assert mode' == ModifiedMode(mode, c.persistentIpEnabled, c.dhcpEnabled) by {
      NewModeIsModified(mode, c);
    }
    ModifiedModeBits(mode, c.persistentIpEnabled, c.dhcpEnabled);
    if Verdict(qs[0]) == None {
      var body := qs[1..|qs| - 1];
      forall m | 0 <= m < |body| ensures Commands(qs)[m + 1] == Body(c, mode)[m] {
        assert qs[m + 1] == body[m];
      }
      assert Commands(qs) == [CLAIM] + Body(c, mode)[..k] + [RELEASE];
    }
  }

  /** The updates that a run carries out a prefix of. */
  lemma {:induction false} UpdatesInNumbers(c: IPConfig, mode: Word) returns (mode': Word)
    ensures mode' % 8 == 4 + (if c.persistentIpEnabled then 1 else 0) + (if c.dhcpEnabled then 2 else 0)
    ensures mode' / 8 == mode / 8
    ensures ConfigUpdates(c, mode) ==
      (if c.persistentIpEnabled then
         [WriteReg(0x64C, c.persistentIp), WriteReg(0x65C, c.persistentSubnet), WriteReg(0x66C, c.persistentGateway)]
       else []) + [WriteReg(0x14, mode')]
  {
    mode' := NewMode(mode, c);
    ModifiedModeBits(mode, c.persistentIpEnabled, c.dhcpEnabled);
    NewModeIsModified(mode, c);
    hide NewMode, ModifiedMode;
  }

  lemma {:induction false} NewModeIsModified(mode: Word, c: IPConfig)
    ensures NewMode(mode, c) == ModifiedMode(mode, c.persistentIpEnabled, c.dhcpEnabled)
  {
  }

  lemma {:induction false} CompletedIsConfigured(base: map<Word, Word>, regs: map<Word, Word>, c: IPConfig)
    requires regs == Updated(base, ConfigUpdates(c, ModeIn(base))) && regs.Keys == base.Keys
    ensures IsConfigured(base, regs, c)
  {
    hide NewMode, IsConfigured, Updated;
    var ws := ConfigUpdates(c, ModeIn(base));
    ConfigUpdatesAreDistinct(c, ModeIn(base));
    UpdatedAt(base, ws, |ws| - 1);
    if c.persistentIpEnabled {
      UpdatedAt(base, ws, 0);
      UpdatedAt(base, ws, 1);
      UpdatedAt(base, ws, 2);
    }
    UpdatedIsConfigured(base, c);
  }

  /** In the adversarial network: after a run that throws nothing the device is configured, and
      stays so whatever is still delivered. */
  lemma {:induction false} RunTakesEffect(h: seq<Net>, qs: seq<Transaction>, first: nat, last: nat, c: IPConfig,
      mode: Word, oldest: nat, end: nat)
    requires ConfigRun(h, qs, first, last, c, mode, None) && Undisturbed(h, first, last, oldest)
    requires Quiet(h, last, end)
    ensures IsConfigured(h[first].device.regs, h[end].device.regs, c)
  {
    assert Chain(h, qs, first, last);
    hide ConfigRun, Undisturbed, ConfigUpdates, Updated, IsConfigured, IsPrefixState, Chain, Quiet, Steps;
    LateDuplicatesAreHarmless(h, qs, first, last, c, mode, None, oldest, end);
    ChainKeepsKeys(h, qs, first, last);
    QuietIsSteps(h, last, end, 0, None);
    StepsKeepKeys(h, last, end, 0, None);
    CompletedIsConfigured(h[first].device.regs, h[end].device.regs, c);
  }

  ghost predicate TakesEffect(h: seq<Net>, first: nat, last: nat, c: IPConfig) {
    forall oldest: nat :: Undisturbed(h, first, last, oldest) ==>
      IsConfigured(h[first].device.regs, h[last].device.regs, c)
  }

  lemma {:induction false} RunsTakeEffect(h: seq<Net>, qs: seq<Transaction>, first: nat, last: nat, c: IPConfig,
      mode: Word, thrown: Option<Error>)
    requires ConfigRun(h, qs, first, last, c, mode, thrown)
    ensures thrown == None ==> TakesEffect(h, first, last, c)
  {
    assert Chain(h, qs, first, last);
    hide ConfigRun, Undisturbed, IsConfigured, Chain;
    ChainOrder(h, qs, first, last);
    forall oldest: nat | thrown == None && Undisturbed(h, first, last, oldest)
      ensures IsConfigured(h[first].device.regs, h[last].device.regs, c)
    {
      RunTakesEffect(h, qs, first, last, c, mode, oldest, last);
    }
  }

  /** Over a settled responsive path, exactly when a run throws nothing, and that it then does what
      it is asked to. */
  ghost predicate RemoteEffect(s: Net, d: Device, c: IPConfig, thrown: Option<Error>)
    requires WellFormed(s)
  {
    && (thrown == None <==>
          && Backlog(s) <= 2 && !s.device.foreign && 0x14 in s.device.regs
          && (c.persistentIpEnabled ==>
                0x64C in s.device.regs && 0x65C in s.device.regs && 0x66C in s.device.regs))
    && (thrown == None ==> IsConfigured(s.device.regs, d.regs, c))
  }

  lemma {:induction false} RemoteRunTakesEffect(s: Net, d: Device, c: IPConfig, thrown: Option<Error>)
    requires WellFormed(s) && RemotelyConfigured(s, d, c, thrown)
    ensures RemoteEffect(s, d, c, thrown)
  {
    hide Configure, IsConfigured;
    ConfigureTakesEffect(s.device, c);
  }

  /** The same as a consequence of what is known of a run. */
  lemma {:induction false} EffectIfSettled(s: Net, t: Net, c: IPConfig, thrown: Option<Error>, responsive: bool)
    requires WellFormed(s) && (responsive && Settled(s) ==> RemotelyConfigured(s, t.device, c, thrown))
    ensures responsive && Settled(s) ==> RemoteEffect(s, t.device, c, thrown)
  {
    hide Settled, RemotelyConfigured, RemoteEffect;
    if responsive && Settled(s) {
      RemoteRunTakesEffect(s, t.device, c, thrown);
    }
  }

  // ---- readConfig --------------------------------------------------------------------------

  /** Register `a` of the device holds `v` at some moment from `first` to `last`. */
  ghost predicate HeldDuring(h: seq<Net>, first: nat, last: nat, a: Word, v: Word) {
    exists i :: first <= i <= last < |h| && a in h[i].device.regs && h[i].device.regs[a] == v
  }

  /** The flags and addresses of `c` come from values that 0x14, 0x64C, 0x65C and 0x66C held. */
  ghost predicate ReportedDuring(h: seq<Net>, first: nat, last: nat, c: IPConfig, mode: Word) {
    && HeldDuring(h, first, last, 0x14, mode)
    && c.persistentIpEnabled == (mode % 2 == 1) && c.dhcpEnabled == (mode / 2 % 2 == 1)
    && HeldDuring(h, first, last, 0x64C, c.persistentIp) && HeldDuring(h, first, last, 0x65C, c.persistentSubnet)
    && HeldDuring(h, first, last, 0x66C, c.persistentGateway)
  }

  /** Nothing older than draw `oldest` is on its way or queued, and fewer than 65535 ids are drawn
      from there to the end. */
  ghost predicate Unmistakable(h: seq<Net>, first: nat, last: nat, oldest: nat) {
    && first <= last < |h| && WellFormed(h[first])
    && NothingOlder(h[first], oldest, h[first].popped) && oldest <= h[first].draws + 1
    && h[last].draws < oldest + MAX_ID
  }

  lemma {:induction false} ChainKeepsProvenance(h: seq<Net>, qs: seq<Transaction>, first: nat, last: nat, oldest: nat,
      popped: nat)
    requires Chain(h, qs, first, last) && first < |h| && WellFormed(h[first])
    requires NothingOlder(h[first], oldest, popped) && oldest <= h[first].draws + 1
    ensures first <= last < |h| && WellFormed(h[last]) && NothingOlder(h[last], oldest, popped)
    ensures Later(h[first], h[last])
    decreases |qs|
  {
    hide NothingOlder, WellFormed, Steps;
    if qs != [] {
      var q := qs[|qs| - 1];
      ChainFront(h, qs, first, last);
      assert IsTransaction(h, q);
      ChainKeepsProvenance(h, qs[..|qs| - 1], first, q.first, oldest, popped);
      CallEnds(h, q);
      DrawsGrow(h[first], h[q.first]);
      CallKeepsProvenance(h, q, oldest, popped);
      LaterTwice(h[first], h[q.first], h[q.last]);
    } else {
      LaterSelf(h[first]);
    }
  }

  lemma {:induction false} LaterSelf(s: Net)
    ensures Later(s, s)
  {
  }

  /** The `m`-th value read in a chain of reads was held by its register during the chain. */
  lemma {:induction false} ReadInChain(h: seq<Net>, qs: seq<Transaction>, first: nat, last: nat, oldest: nat, m: nat)
    requires Chain(h, qs, first, last) && Unmistakable(h, first, last, oldest) && m < |qs|
    requires qs[m].command.ReadReg? && qs[m].command.address != 0xA00 && Verdict(qs[m]) == None
    ensures HeldDuring(h, first, last, qs[m].command.address, qs[m].result.value.value)
  {
    hide NothingOlder, WellFormed, Steps, Chain, IsTransaction, Later;
    var q := qs[m];
    ChainPrefix(h, qs, first, last, m);
    ChainKeepsProvenance(h, qs[..m], first, q.first, oldest, h[first].popped);
    DrawsGrow(h[first], h[q.first]);
    var i := ReadsAreAuthentic(h, q, oldest, h[first].popped);
  }

  /** The four registers were read in this order, and the flags and addresses of `c` come from the
      replies. */
  predicate ReportsReplies(qs: seq<Transaction>, c: IPConfig) {
    && Commands(qs) == [ReadReg(0x14), ReadReg(0x64C), ReadReg(0x65C), ReadReg(0x66C)]
    && |qs| == 4 && (forall m | 0 <= m < 4 :: Verdict(qs[m]) == None)
    && c.persistentIpEnabled == (qs[0].result.value.value % 2 == 1)
    && c.dhcpEnabled == (qs[0].result.value.value / 2 % 2 == 1)
    && c.persistentIp == qs[1].result.value.value && c.persistentSubnet == qs[2].result.value.value
    && c.persistentGateway == qs[3].result.value.value
  }

  lemma {:induction false} ReadsInNumbers(h: seq<Net>, qs: seq<Transaction>, first: nat, last: nat, r: Result<IPConfig>)
    requires ReadRun(h, qs, first, last, r) && r.Ok?
    ensures ReportsReplies(qs, r.value)
  {
    hide Chain, HasBit;
    ModifiedModeBits(qs[0].result.value.value, false, false);
  }

  /** In the adversarial network what readConfig returns are values that the device's registers held
      during the run. */
  lemma {:induction false} ReadRunIsAuthentic(h: seq<Net>, qs: seq<Transaction>, first: nat, last: nat,
      r: Result<IPConfig>, oldest: nat) returns (mode: Word)
    requires ReadRun(h, qs, first, last, r) && r.Ok? && Unmistakable(h, first, last, oldest)
    ensures ReportedDuring(h, first, last, r.value, mode)
  {
    assert Chain(h, qs, first, last);
    ReadsInNumbers(h, qs, first, last, r);
    hide Chain, ReadRun, Unmistakable, HeldDuring, Verdict;
    forall m | 0 <= m < 4 ensures qs[m].command == Commands(qs)[m] {}
    ReadInChain(h, qs, first, last, oldest, 0);
    ReadInChain(h, qs, first, last, oldest, 1);
    ReadInChain(h, qs, first, last, oldest, 2);
    ReadInChain(h, qs, first, last, oldest, 3);
    mode := qs[0].result.value.value;
  }

  ghost predicate ReadsAreHeld(h: seq<Net>, first: nat, last: nat, c: IPConfig) {
    forall oldest: nat :: Unmistakable(h, first, last, oldest) ==>
      exists mode :: ReportedDuring(h, first, last, c, mode)
  }

  lemma {:induction false} ReadRunsAreAuthentic(h: seq<Net>, qs: seq<Transaction>, first: nat, last: nat,
      r: Result<IPConfig>)
    requires ReadRun(h, qs, first, last, r)
    ensures r.Ok? ==> ReadsAreHeld(h, first, last, r.value)
  {
    hide Unmistakable, ReportedDuring, ReadRun;
    forall oldest: nat | r.Ok? && Unmistakable(h, first, last, oldest)
      ensures exists mode :: ReportedDuring(h, first, last, r.value, mode)
    {
      var mode := ReadRunIsAuthentic(h, qs, first, last, r, oldest);
    }
  }

  /** Over a settled responsive path readConfig succeeds exactly if the backlog is short and the
      device has the four registers, and then reports what they hold. */
  ghost predicate RemoteReport(s: Net, r: Result<IPConfig>) {
    var regs := s.device.regs;
    && (r.Ok? <==> Backlog(s) <= 2 && 0x14 in regs && 0x64C in regs && 0x65C in regs && 0x66C in regs)
    && (r.Ok? ==> IsReport(regs, r.value))
  }

  lemma {:induction false} RemoteReads(s: Net, t: Net, r: Result<IPConfig>)
    requires ReadRemotely(s, t, r)
    ensures Settled(s) ==> RemoteReport(s, r)
  {
    hide Settled, ReadBack, IsReport;
    ReadBackReports(s.device);
  }
  /** All that the end of a run of readConfig tells. */
  lemma {:induction false} ReadEnds(s: Net, h: seq<Net>, qs: seq<Transaction>, first: nat, r: Result<IPConfig>,
      responsive: bool)
    requires first < |h| && s == h[first] && ReadRun(h, qs, first, |h| - 1, r)
    requires responsive ==> ReadRemotely(s, h[|h| - 1], r)
    ensures responsive && Settled(s) ==> RemoteReport(s, r)
    ensures r.Ok? ==> ReadsAreHeld(h, first, |h| - 1, r.value)
    ensures r.Ok? ==> ReportsReplies(qs, r.value)
  {
    hide ReadRun, ReadRemotely, RemoteReport, ReadsAreHeld, ReportsReplies, Settled;
    ReadRunsAreAuthentic(h, qs, first, |h| - 1, r);
    if responsive {
      RemoteReads(s, h[|h| - 1], r);
    }
    if r.Ok? {
      ReadsInNumbers(h, qs, first, |h| - 1, r);
    }
  }

  lemma {:induction false} ReadFails(s: Net, h: seq<Net>, qs: seq<Transaction>, first: nat, e: Error, responsive: bool)
    requires first < |h| && s == h[first] && (responsive ==> ReadRemotely(s, h[|h| - 1], Throw(e)))
    ensures responsive && Settled(s) ==> RemoteReport(s, Throw(e))
  {
    if responsive {
      RemoteReads(s, h[|h| - 1], Throw(e));
    }
  }
}
