/** Bookkeeping for the proof of writeConfig: where its run has got to, call by call. */
module GvcpProgress {
  import opened RequestCounter
  import opened GvcpMessages
  import opened GvcpNetwork
  import opened GvcpResponsive
  import opened GvcpSessions
  import opened GvcpAtomicity
  import opened GvcpConfigure

  const LONGEST_BACKLOG := 3 * (MAX_ID - 1)

  /** Stale datagrams may be queued, but none that could be mistaken for an acknowledge. */
  ghost predicate Settled(s: Net) {
    WellFormed(s) && Stale(s) && Backlog(s) <= LONGEST_BACKLOG
  }

  /** Over a responsive path a call is the device's service, unless the backlog is too long. */
  ghost predicate Remote(s: Net, t: Net, c: Command, result: Result<Reply>) {
    Settled(s) ==>
      && Settled(t) && Backlog(t) == Backlog(s) && t.device == Serve(s.device, c).device
      && result == if Backlog(s) <= 2 then Conclude(c, Serve(s.device, c).reply) else Unanswered(c)
  }

  lemma {:induction false} CallIsRemote(s: Net, c: Command)
    requires WellFormed(s)
    ensures Remote(s, Call(s, c).net, c, Call(s, c).result)
  {
    if Settled(s) {
      BacklogLaw(s, c);
    }
  }

  /** Settled, and with so short a backlog that requests succeed. */
  ghost predicate Calm(s: Net) {
    Settled(s) && Backlog(s) <= 2
  }

  lemma {:induction false} CalmCall(s: Net, t: Net, q: Transaction)
    requires Calm(s) && Remote(s, t, q.command, q.result)
    ensures Calm(t) && Backlog(t) == Backlog(s) && t.device == Serve(s.device, q.command).device
    ensures Verdict(q) == Failure(q.command, Serve(s.device, q.command).reply)
    ensures Verdict(q) == None ==> q.result.value == Serve(s.device, q.command).reply
  {
  }

  /** After the claim, the body's first |body| requests have succeeded. */
  ghost predicate Progress(start: Net, h: seq<Net>, claim: Transaction, body: seq<Transaction>, c: IPConfig,
      mode: Word, responsive: bool)
  {
    && h != [] && Chain(h, [claim] + body, claim.first, |h| - 1)
    && |body| <= |Body(c, mode)|
    && (forall m | 0 <= m < |body| :: body[m].command == Body(c, mode)[m] && Verdict(body[m]) == None)
    && (forall m | 0 <= m < |body| && body[m].command.ReadReg? :: body[m].result.value.value == mode)
    && (responsive && Calm(start) ==>
          && Calm(h[|h| - 1]) && Backlog(h[|h| - 1]) == Backlog(start)
          && mode == ModeIn(start.device.regs)
          && Perform(start.device, Body(c, mode)[..|body|]) == Performed(h[|h| - 1].device, None))
  }

  /** The body has come to its end, or a request of it has failed. */
  ghost predicate Finished(start: Net, h: seq<Net>, claim: Transaction, body: seq<Transaction>, c: IPConfig,
      mode: Word, thrown: Option<Error>, responsive: bool)
  {
    && h != [] && Chain(h, [claim] + body, claim.first, |h| - 1)
    && BodyRun(body, c, mode, thrown)
    && (responsive && Calm(start) ==>
          && Calm(h[|h| - 1]) && Backlog(h[|h| - 1]) == Backlog(start)
          && mode == ModeIn(start.device.regs)
          && Perform(start.device, Body(c, mode)) == Performed(h[|h| - 1].device, thrown))
  }

  lemma {:induction false} ProgressStart(h: seq<Net>, claim: Transaction, c: IPConfig, mode: Word, responsive: bool)
    requires h != [] && IsTransaction(h, claim) && claim.last == |h| - 1
    requires mode == ModeIn(h[|h| - 1].device.regs)
    ensures Progress(h[|h| - 1], h, claim, [], c, mode, responsive)
  {
  }

  /** Nothing that has been requested depends on the mode before it was read. */
  lemma {:induction false} ProgressMode(start: Net, h: seq<Net>, claim: Transaction, body: seq<Transaction>,
      c: IPConfig, mode: Word, mode': Word, responsive: bool)
    requires Progress(start, h, claim, body, c, mode, responsive) && |body| <= |AddressUpdates(c)|
    requires responsive && Calm(start) ==> mode' == mode
    ensures Progress(start, h, claim, body, c, mode', responsive)
  {
    UpdatesInBody(c, mode, 0);
    UpdatesInBody(c, mode', 0);
    assert Body(c, mode)[..|body|] == AddressUpdates(c)[..|body|] == Body(c, mode')[..|body|];
    forall m | 0 <= m < |body| ensures Body(c, mode)[m] == Body(c, mode')[m] {
      assert Body(c, mode)[m] == AddressUpdates(c)[m];
    }
  }

  lemma {:induction false} PerformStep(d: Device, b: seq<Command>, k: nat)
    requires k < |b| && Perform(d, b[..k]).thrown == None
    ensures var r := Serve(Perform(d, b[..k]).device, b[k]);
      && (Failure(b[k], r.reply) == None ==> Perform(d, b[..k + 1]) == Performed(r.device, None))
      && (Failure(b[k], r.reply).Some? ==> Perform(d, b) == Performed(r.device, Failure(b[k], r.reply)))
  {
    assert b[..k + 1] == b[..k] + [b[k]];
    assert b == b[..k + 1] + b[k + 1..];
    PerformConcat(d, b[..k], [b[k]]);
    PerformOne(Perform(d, b[..k]).device, b[k]);
    PerformConcat(d, b[..k + 1], b[k + 1..]);
  }

  ghost predicate NextCall(h: seq<Net>, h': seq<Net>, q: Transaction, responsive: bool) {
    && h != [] && h <= h' && IsTransaction(h', q) && q.first == |h| - 1 && q.last == |h'| - 1
    && (responsive ==> Remote(h[|h| - 1], h'[|h'| - 1], q.command, q.result))
  }

  lemma {:induction false} ProgressStep(start: Net, h: seq<Net>, h': seq<Net>, claim: Transaction,
      body: seq<Transaction>, q: Transaction, c: IPConfig, mode: Word, responsive: bool)
    requires Progress(start, h, claim, body, c, mode, responsive) && NextCall(h, h', q, responsive)
    requires |body| < |Body(c, mode)| && q.command == Body(c, mode)[|body|]
    requires q.command.ReadReg? && Verdict(q) == None ==> q.result.value.value == mode
    ensures Verdict(q) == None ==> Progress(start, h', claim, body + [q], c, mode, responsive)
    ensures Verdict(q).Some? ==> Finished(start, h', claim, body + [q], c, mode, Verdict(q), responsive)
  {
    hide Chain, IsTransaction, Body, Perform, Calm, Remote, Serve;
    ChainAppend(h, h', [claim] + body, claim.first, q);
    assert [claim] + body + [q] == [claim] + (body + [q]);
    if responsive && Calm(start) {
      CalmCall(h[|h| - 1], h'[|h'| - 1], q);
      PerformStep(start.device, Body(c, mode), |body|);
    }
  }

  lemma {:induction false} ProgressEnd(start: Net, h: seq<Net>, claim: Transaction, body: seq<Transaction>,
      c: IPConfig, mode: Word, responsive: bool)
    requires Progress(start, h, claim, body, c, mode, responsive) && |body| == |Body(c, mode)|
    ensures Finished(start, h, claim, body, c, mode, None, responsive)
  {
    assert Body(c, mode)[..|body|] == Body(c, mode);
  }

  lemma {:induction false} UpdatesKeepMode(d: Device, ws: seq<Command>)
    requires forall w <- ws :: w.WriteReg? && w.address != GEV_CURRENT_IP_CONFIGURATION && w.address != GEV_CCP
    ensures ModeIn(Perform(d, ws).device.regs) == ModeIn(d.regs)
    ensures HasRegister(Perform(d, ws).device, GEV_CURRENT_IP_CONFIGURATION)
        == HasRegister(d, GEV_CURRENT_IP_CONFIGURATION)
    decreases |ws|
  {
    if ws != [] {
      assert ws[0] in ws;
      UpdatesKeepMode(Serve(d, ws[0]).device, ws[1..]);
    }
  }

  /** Over a responsive path the mode that is read is the one before the run. */
  lemma {:induction false} ModeRead(start: Net, h: seq<Net>, h': seq<Net>, claim: Transaction, body: seq<Transaction>,
      q: Transaction, c: IPConfig, mode: Word, responsive: bool)
    requires Progress(start, h, claim, body, c, mode, responsive) && |body| == |AddressUpdates(c)|
    requires NextCall(h, h', q, responsive) && q.command == READ_MODE && Verdict(q) == None
    requires responsive && Calm(start)
    ensures q.result.value.value == mode
  {
    CalmCall(h[|h| - 1], h'[|h'| - 1], q);
    UpdatesInBody(c, mode, 0);
    assert Body(c, mode)[..|body|] == AddressUpdates(c);
    ConfigUpdatesAreDistinct(c, mode);
    forall w <- AddressUpdates(c) ensures w.WriteReg? && w.address != GEV_CCP {}
    UpdatesKeepMode(start.device, AddressUpdates(c));
  }

  /** The two requests that follow the addresses. */
  lemma {:induction false} ModeRequests(c: IPConfig, mode: Word, n: nat)
    requires n == |AddressUpdates(c)|
    ensures |Body(c, mode)| == n + 2
    ensures Body(c, mode)[n] == READ_MODE && Body(c, mode)[n + 1] == ModeUpdate(c, mode)
  {
  }

  /** What a run of writeConfig over a settled responsive path achieves: with a short backlog the
      device is configured as if at first hand; with a longer one the claim is not heard back. */
  ghost predicate RemotelyConfigured(s: Net, d: Device, c: IPConfig, thrown: Option<Error>)
    requires WellFormed(s)
  {
    if Backlog(s) <= 2 then Performed(d, thrown) == Configure(s.device, c)
    else d == Serve(s.device, CLAIM).device && thrown == Some(NoResponse(WRITEREG_CMD, GEV_CCP))
  }

  /** A device that no other client holds is left released exactly if the backlog is short. With
      three or more stale datagrams the claim reaches the device, but the client gives up on it and
      never releases it. */
  lemma {:induction false} ReleasedIffBacklogShort(s: Net, d: Device, c: IPConfig, thrown: Option<Error>)
    requires WellFormed(s) && RemotelyConfigured(s, d, c, thrown) && !s.device.foreign
    ensures d.ccp == 0 <==> Backlog(s) <= 2
  {
    hide Configure;
    ConfigureOutcome(s.device, c);
  }

  lemma {:induction false} ReleasedIfCalm(s: Net, t: Net, c: IPConfig, thrown: Option<Error>, responsive: bool)
    requires WellFormed(s) && (responsive && Settled(s) ==> RemotelyConfigured(s, t.device, c, thrown))
    ensures responsive && Settled(s) && !s.device.foreign ==> (t.device.ccp == 0 <==> Backlog(s) <= 2)
  {
    hide Settled, RemotelyConfigured;
    if responsive && Settled(s) && !s.device.foreign {
      ReleasedIffBacklogShort(s, t.device, c, thrown);
    }
  }

  lemma {:induction false} FailedClaim(h: seq<Net>, h': seq<Net>, claim: Transaction, c: IPConfig, responsive: bool)
    requires NextCall(h, h', claim, responsive) && claim.command == CLAIM && Verdict(claim).Some?
    ensures ConfigRun(h', [claim], |h| - 1, |h'| - 1, c, 0, Verdict(claim))
    ensures responsive && Settled(h[|h| - 1]) ==>
      && Settled(h'[|h'| - 1]) && Backlog(h'[|h'| - 1]) == Backlog(h[|h| - 1])
      && RemotelyConfigured(h[|h| - 1], h'[|h'| - 1].device, c, Verdict(claim))
  {
  }

  lemma {:induction false} Released(h0: seq<Net>, h1: seq<Net>, h2: seq<Net>, h3: seq<Net>, claim: Transaction,
      body: seq<Transaction>, release: Transaction, c: IPConfig, mode: Word, thrown: Option<Error>, responsive: bool)
    requires NextCall(h0, h1, claim, responsive) && claim.command == CLAIM && Verdict(claim) == None
    requires h1 <= h2 && Finished(h1[|h1| - 1], h2, claim, body, c, mode, thrown, responsive)
    requires NextCall(h2, h3, release, responsive) && release.command == RELEASE
    ensures ConfigRun(h3, [claim] + body + [release], |h0| - 1, |h3| - 1, c, mode, thrown)
    ensures responsive && Settled(h0[|h0| - 1]) ==>
      && Settled(h3[|h3| - 1]) && Backlog(h3[|h3| - 1]) == Backlog(h0[|h0| - 1])
      && RemotelyConfigured(h0[|h0| - 1], h3[|h3| - 1].device, c, thrown)
  {
    hide IsTransaction, Chain, Body, Perform;
    ChainAppend(h2, h3, [claim] + body, claim.first, release);
    var qs := [claim] + body + [release];
    assert qs[1..|qs| - 1] == body;
    if responsive && Settled(h0[|h0| - 1]) {
      assert Backlog(h0[|h0| - 1]) <= 2;
      CalmCall(h0[|h0| - 1], h1[|h1| - 1], claim);
      CalmCall(h2[|h2| - 1], h3[|h3| - 1], release);
    }
  }

  // ---- readConfig --------------------------------------------------------------------------

  const READS := [READ_MODE, ReadReg(GEV_PERSISTENT_IP_ADDRESS), ReadReg(GEV_PERSISTENT_SUBNET_MASK),
                  ReadReg(GEV_PERSISTENT_DEFAULT_GATEWAY)]

  function ConfigFromReads(qs: seq<Transaction>): Result<IPConfig>
    requires |qs| == 4 && forall m | 0 <= m < 4 :: qs[m].result.Ok?
  {
    var mode := qs[0].result.value.value;
    Ok(IPConfig(HasBit(mode, IPCONFIG_PERSISTENT_IP_BIT), HasBit(mode, IPCONFIG_DHCP_BIT),
                qs[1].result.value.value, qs[2].result.value.value, qs[3].result.value.value))
  }

  /** A run of readConfig: the four reads in order, up to the first that fails; what is returned
      are the values that the reads were answered with. */
  ghost predicate ReadRun(h: seq<Net>, qs: seq<Transaction>, first: nat, last: nat, r: Result<IPConfig>) {
    && Chain(h, qs, first, last)
    && 0 < |qs| <= 4 && (forall m | 0 <= m < |qs| :: qs[m].command == READS[m])
    && (forall m | 0 <= m < |qs| - 1 :: Verdict(qs[m]) == None)
    && if Verdict(qs[|qs| - 1]).Some? then r == Throw(Verdict(qs[|qs| - 1]).value)
       else |qs| == 4 && (forall m | 0 <= m < 4 :: qs[m].result.Ok?) && r == ConfigFromReads(qs)
  }

  /** Over a settled responsive path readConfig returns what the device stores. */
  ghost predicate ReadRemotely(s: Net, t: Net, r: Result<IPConfig>) {
    Settled(s) ==>
      && Settled(t) && Backlog(t) == Backlog(s) && t.device == s.device
      && r == if Backlog(s) <= 2 then ReadBack(s.device)
              else Throw(NoResponse(READREG_CMD, GEV_CURRENT_IP_CONFIGURATION))
  }

  ghost predicate ReadsSoFar(start: Net, h: seq<Net>, qs: seq<Transaction>, first: nat, responsive: bool) {
    && h != [] && Chain(h, qs, first, |h| - 1) && |qs| <= 4
    && (forall m | 0 <= m < |qs| :: qs[m].command == READS[m] && Verdict(qs[m]) == None)
    && (responsive && Settled(start) ==>
          && Settled(h[|h| - 1]) && Backlog(h[|h| - 1]) == Backlog(start) && h[|h| - 1].device == start.device
          && (qs != [] ==> Backlog(start) <= 2)
          && forall m | 0 <= m < |qs| :: HasRegister(start.device, READS[m].address)
               && qs[m].result.value.value == RegisterOf(start.device, READS[m].address))
  }

  lemma {:induction false} ReadsStart(h: seq<Net>, responsive: bool)
    requires h != []
    ensures ReadsSoFar(h[|h| - 1], h, [], |h| - 1, responsive)
  {
  }

  lemma {:induction false} ReadsNext(start: Net, h: seq<Net>, h': seq<Net>, qs: seq<Transaction>, first: nat,
      q: Transaction, responsive: bool)
    requires ReadsSoFar(start, h, qs, first, responsive) && NextCall(h, h', q, responsive)
    requires |qs| < 4 && q.command == READS[|qs|]
    ensures h' != []
    ensures Verdict(q) == None ==> ReadsSoFar(start, h', qs + [q], first, responsive)
    ensures Verdict(q).Some? ==> ReadRun(h', qs + [q], first, |h'| - 1, Throw(Verdict(q).value))
    ensures Verdict(q).Some? && responsive ==> ReadRemotely(start, h'[|h'| - 1], Throw(Verdict(q).value))
  {
    hide Chain, IsTransaction;
    ChainAppend(h, h', qs, first, q);
    if responsive && Settled(start) && Backlog(start) <= 2 {
      CalmCall(h[|h| - 1], h'[|h'| - 1], q);
      forall m | 0 <= m < |qs| ensures HasRegister(start.device, READS[m].address) {}
      assert |qs| > 0 ==> HasRegister(start.device, READS[0].address);
      assert |qs| > 1 ==> HasRegister(start.device, READS[1].address);
      assert |qs| > 2 ==> HasRegister(start.device, READS[2].address);
    }
  }

  lemma {:induction false} ReadsEnd(start: Net, h: seq<Net>, qs: seq<Transaction>, first: nat, responsive: bool)
    requires ReadsSoFar(start, h, qs, first, responsive) && |qs| == 4
    ensures forall m | 0 <= m < 4 :: qs[m].result.Ok?
    ensures ReadRun(h, qs, first, |h| - 1, ConfigFromReads(qs))
    ensures responsive ==> ReadRemotely(start, h[|h| - 1], ConfigFromReads(qs))
  {
  }
}
