/** Runs that do take place: a configuration over a path that answers each request once, after which
    copies of the claim may still be in flight; and a request whose answers all come too late. */
module GvcpRuns {
  import opened RequestCounter
  import opened GvcpMessages
  import opened GvcpNetwork
  import opened GvcpResponsive
  import opened GvcpSessions
  import opened GvcpAtomicity
  import opened GvcpConfigure
  import opened GvcpProgress
  import opened GvcpRelease

  // ---- histories, event by event -----------------------------------------------------------

  /** `h` goes on from its position `first` with the client transmitting nothing but request `n`. */
  ghost predicate OnTheWay(h: seq<Net>, first: nat, n: nat, c: Command) {
    first < |h| && WellFormed(h[|h| - 1]) && Steps(h, first, |h| - 1, n, Some(c))
  }

  lemma {:induction false} Append(h: seq<Net>, e: Event, first: nat, n: nat, c: Command)
    requires OnTheWay(h, first, n, c) && Enabled(h[|h| - 1], e)
    requires e.Transmit? ==> e.serial == n && e.command == Some(c)
    ensures OnTheWay(h + [Apply(h[|h| - 1], e)], first, n, c)
  {
    hide WellFormed;
    var s := h[|h| - 1];
    StepKeepsWellFormed(s, e);
    assert StepOf(s, Apply(s, e), n, Some(c));
    StepsAppend(h, Apply(s, e), first, n, Some(c));
  }

  lemma {:induction false} AppendAll(h: seq<Net>, es: seq<Event>, first: nat, n: nat,
      c: Command) returns (h': seq<Net>)
    requires OnTheWay(h, first, n, c) && CanDo(h[|h| - 1], es)
    requires forall e <- es :: e.Transmit? ==> e.serial == n && e.command == Some(c)
    ensures h <= h' && OnTheWay(h', first, n, c) && h'[|h'| - 1] == DoAll(h[|h| - 1], es)
    decreases es
  {
    hide Apply, Enabled, WellFormed, Steps;
    h' := h;
    if es != [] {
      Append(h, es[0], first, n, c);
      h' := AppendAll(h + [Apply(h[|h| - 1], es[0])], es[1..], first, n, c);
    }
  }

  predicate CanDo(s: Net, es: seq<Event>)
    decreases es
  {
    es == [] || (Enabled(s, es[0]) && CanDo(Apply(s, es[0]), es[1..]))
  }

  function DoAll(s: Net, es: seq<Event>): Net
    requires CanDo(s, es)
    decreases es
  {
    if es == [] then s else DoAll(Apply(s, es[0]), es[1..])
  }

  // ---- one request, answered once and in time ----------------------------------------------

  /** The next request is drawn, transmitted, carried out and answered, and the answer is taken. */
  function Answering(s: Net, c: Command): seq<Event> {
    var n := s.draws + 1;
    [Draw, Transmit(n, Some(c)), Deliver(n, Plain), Arrive(|s.served|), Pop]
  }

  lemma {:induction false} AnsweringDoes(s: Net, c: Command)
    requires WellFormed(s) && Backlog(s) == 0
    ensures CanDo(s, Answering(s, c))
    ensures DoAll(s, Answering(s, c)) == Round(Apply(s, Draw), c, s.draws + 1)
  {
    hide Serve;
    var n := s.draws + 1;
    var s1 := Apply(s, Draw);
    assert n !in s.issued;
    var s2 := Apply(s1, Transmit(n, Some(c)));
    var s3 := Apply(s2, Deliver(n, Plain));
    var s4 := Apply(s3, Arrive(|s.served|));
    var es := Answering(s, c);
    assert es[1..][1..] == es[2..] && es[2..][1..] == es[3..] && es[3..][1..] == es[4..] && es[4..][1..] == [];
    var s5 := Apply(s4, Pop);
    assert Exchange(s1, n, Some(c)) == s4 && Round(s1, c, n) == s5;
    hide Apply, Round, Exchange;
    assert CanDo(s4, es[4..]) && DoAll(s4, es[4..]) == s5;
    assert CanDo(s3, es[3..]) && DoAll(s3, es[3..]) == s5;
    assert CanDo(s2, es[2..]) && DoAll(s2, es[2..]) == s5;
    assert CanDo(s1, es[1..]) && DoAll(s1, es[1..]) == s5;
  }

  /** The state after it. */
  lemma {:induction false} AnsweredState(s: Net, c: Command)
    requires WellFormed(s) && Backlog(s) == 0
    ensures CanDo(s, Answering(s, c))
    ensures var n := s.draws + 1; var t := DoAll(s, Answering(s, c));
      && WellFormed(t) && Later(s, t) && t.draws == n && Backlog(t) == 0 && t.popped == s.popped + 1
      && t.device == Serve(s.device, c).device && t.sent == s.sent + [n]
      && s.commands <= t.commands && InFlight(t, n, c)
      && t.arrived[s.popped] == |s.served| && t.served == s.served + [Served(n, Serve(s.device, c).reply)]
  {
    var n, s1 := s.draws + 1, Apply(s, Draw);
    StepKeepsWellFormed(s, Draw);
    AnsweringDoes(s, c);
    RoundFacts(s1, c, n);
    assert s.commands <= Round(s1, c, n).commands && n in Round(s1, c, n).commands by {
      hide Serve;
    }
  }

  lemma {:induction false} ServedPlainly(d: Device, c: Command)
    ensures IsWhole(Serve(d, c).reply)
  {
  }

  lemma {:induction false} IsAnswered(h: seq<Net>, h': seq<Net>, c: Command, q: Transaction)
    requires h != [] && h <= h' && WellFormed(h[|h| - 1]) && Backlog(h[|h| - 1]) == 0
    requires OnTheWay(h', |h| - 1, h[|h| - 1].draws + 1, c)
    requires CanDo(h[|h| - 1], Answering(h[|h| - 1], c)) && h'[|h'| - 1] == DoAll(h[|h| - 1], Answering(h[|h| - 1], c))
    requires var s := h[|h| - 1];
      q == Transaction(c, s.draws + 1, 1, Conclude(c, Serve(s.device, c).reply), |h| - 1, |h'| - 1)
    ensures IsTransaction(h', q)
  {
    var s, t := h[|h| - 1], h'[|h'| - 1];
    AnsweredState(s, c);
    ServedPlainly(s.device, c);
    hide Steps, Serve, DoAll, Answering, IsWhole;
    assert Repeat(q.serial, 1) == [q.serial];
    assert t.served[|s.served|] == Served(q.serial, Serve(s.device, c).reply);
    assert AcceptedAt(s, t, q, s.popped) by {
      assert GenuineReply(t, t.served[|s.served|]);
    }
  }

  ghost predicate StillInFlight(s: Net, t: Net) {
    forall n, c | InFlight(s, n, c) :: InFlight(t, n, c)
  }

  lemma {:induction false} OrdinaryCall(h: seq<Net>, c: Command) returns (h': seq<Net>, q: Transaction)
    requires h != [] && WellFormed(h[|h| - 1]) && Backlog(h[|h| - 1]) == 0
    ensures NextCall(h, h', q, true) && q.command == c && Verdict(q) == Failure(c, Serve(h[|h| - 1].device, c).reply)
    ensures h' != [] && WellFormed(h'[|h'| - 1]) && Backlog(h'[|h'| - 1]) == 0
    ensures h'[|h'| - 1].device == Serve(h[|h| - 1].device, c).device
    ensures InFlight(h'[|h'| - 1], q.serial, c)
    ensures StillInFlight(h[|h| - 1], h'[|h'| - 1])
  {
    var s := h[|h| - 1];
    AnsweredState(s, c);
    hide Serve, DoAll, Answering, CanDo;
    h' := AppendEvents(h, c);
    q := Transaction(c, s.draws + 1, 1, Conclude(c, Serve(s.device, c).reply), |h| - 1, |h'| - 1);
    IsAnswered(h, h', c, q);
    hide IsTransaction, WellFormed, Steps;
    assert Remote(s, h'[|h'| - 1], c, q.result);
  }

  lemma {:induction false} AppendEvents(h: seq<Net>, c: Command) returns (h': seq<Net>)
    requires h != [] && WellFormed(h[|h| - 1]) && CanDo(h[|h| - 1], Answering(h[|h| - 1], c))
    ensures h <= h' && OnTheWay(h', |h| - 1, h[|h| - 1].draws + 1, c)
    ensures h'[|h'| - 1] == DoAll(h[|h| - 1], Answering(h[|h| - 1], c))
  {
    h' := AppendAll(h, Answering(h[|h| - 1], c), |h| - 1, h[|h| - 1].draws + 1, c);
  }

  // ---- a whole run -------------------------------------------------------------------------

  /** A request of the body that reads is the read of the mode. */
  lemma {:induction false} BodyReads(c: IPConfig, mode: Word, k: nat)
    requires k < |Body(c, mode)| && Body(c, mode)[k].ReadReg?
    ensures k == |AddressUpdates(c)| && Body(c, mode)[k] == READ_MODE
  {
    BodyParts(c, mode);
    hide Body, AddressUpdates;
    var a := AddressUpdates(c);
    assert forall i | 0 <= i < |a| :: IsUpdate((a + [READ_MODE] + [ModeUpdate(c, mode)])[i]);
  }

  /** The requests of the body, up to the end or to the first that fails. */
  lemma {:induction false} OrdinaryBody(start: Net, h: seq<Net>, claim: Transaction, body: seq<Transaction>,
      c: IPConfig, mode: Word) returns (h': seq<Net>, body': seq<Transaction>, thrown: Option<Error>)
    requires Progress(start, h, claim, body, c, mode, true) && Calm(start) && Backlog(start) == 0
    ensures h <= h' && Finished(start, h', claim, body', c, mode, thrown, true)
    ensures StillInFlight(h[|h| - 1], h'[|h'| - 1])
    decreases |Body(c, mode)| - |body|
  {
    hide Body, Chain, IsTransaction, Perform, Settled, WellFormed, Serve;
    var k := |body|;
    if k == |Body(c, mode)| {
      ProgressEnd(start, h, claim, body, c, mode, true);
      h', body', thrown := h, body, None;
    } else {
      CalmIsWellFormed(h[|h| - 1]);
      var h1, q := OrdinaryCall(h, Body(c, mode)[k]);
      if q.command.ReadReg? && Verdict(q) == None {
        BodyReads(c, mode, k);
        ModeRead(start, h, h1, claim, body, q, c, mode, true);
      }
      ProgressStep(start, h, h1, claim, body, q, c, mode, true);
      if Verdict(q) == None {
        h', body', thrown := OrdinaryBody(start, h1, claim, body + [q], c, mode);
      } else {
        h', body', thrown := h1, body + [q], Verdict(q);
      }
    }
  }

  lemma {:induction false} CalmIsWellFormed(s: Net)
    requires Calm(s)
    ensures WellFormed(s)
  {
  }

  lemma {:induction false} IdleIsCalm(s: Net)
    requires WellFormed(s) && Backlog(s) == 0
    ensures Calm(s) && Settled(s)
  {
  }

  lemma {:induction false} Succeeds(d: Device)
    requires !d.foreign
    ensures Failure(CLAIM, Serve(d, CLAIM).reply) == None && Failure(RELEASE, Serve(d, RELEASE).reply) == None
    ensures Serve(d, CLAIM).device == d.(ccp := 1) && Serve(d, RELEASE).device == d.(ccp := 0)
  {
  }

  lemma {:induction false} ClaimedBody(s: Net, h1: seq<Net>, claim: Transaction, c: IPConfig)
      returns (h: seq<Net>, body: seq<Transaction>, mode: Word, thrown: Option<Error>)
    requires NextCall([s], h1, claim, true) && claim.command == CLAIM && Verdict(claim) == None
    requires WellFormed(h1[|h1| - 1]) && Backlog(h1[|h1| - 1]) == 0
    ensures h1 <= h && Finished(h1[|h1| - 1], h, claim, body, c, mode, thrown, true)
    ensures StillInFlight(h1[|h1| - 1], h[|h| - 1])
    ensures Calm(h1[|h1| - 1]) && Calm(h[|h| - 1]) && Backlog(h[|h| - 1]) == 0
    ensures h[|h| - 1].device == Perform(h1[|h1| - 1].device, Body(c, mode)).device
  {
    var start := h1[|h1| - 1];
    mode := ModeIn(start.device.regs);
    IdleIsCalm(start);
    ProgressStart(h1, claim, c, mode, true);
    hide Body, Chain, IsTransaction, Perform, Progress, WellFormed;
    h, body, thrown := OrdinaryBody(start, h1, claim, [], c, mode);
  }

  lemma {:induction false} BodyKeepsForeign(d: Device, cs: seq<Command>)
    ensures Perform(d, cs).device.foreign == d.foreign
    decreases |cs|
  {
    if cs != [] {
      BodyKeepsForeign(Serve(d, cs[0]).device, cs[1..]);
    }
  }

  /** From any idle state there is a run of writeConfig in which each request is answered once. */
  lemma {:induction false} OrdinaryRun(s: Net, c: IPConfig)
      returns (h: seq<Net>, qs: seq<Transaction>, mode: Word, thrown: Option<Error>)
    requires WellFormed(s) && Backlog(s) == 0 && !s.device.foreign
    ensures h != [] && h[0] == s && ConfigRun(h, qs, 0, |h| - 1, c, mode, thrown)
    ensures qs != [] && Verdict(qs[0]) == None && Verdict(qs[|qs| - 1]) == None
    ensures RemotelyConfigured(s, h[|h| - 1].device, c, thrown)
    ensures InFlight(h[|h| - 1], qs[0].serial, CLAIM)
  {
    IdleIsCalm(s);
    Succeeds(s.device);
    var h1, claim := OrdinaryCall([s], CLAIM);
    hide Body, Chain, IsTransaction, Perform, WellFormed, Finished;
    hide RemotelyConfigured, Settled, Serve, NextCall, ConfigRun;
    var h2, body;
    h2, body, mode, thrown := ClaimedBody(s, h1, claim, c);
    BodyKeepsForeign(h1[|h1| - 1].device, Body(c, mode));
    CalmIsWellFormed(h2[|h2| - 1]);
    Succeeds(h2[|h2| - 1].device);
    var h3, release := OrdinaryCall(h2, RELEASE);
    Released([s], h1, h2, h3, claim, body, release, c, mode, thrown, true);
    h, qs := h3, [claim] + body + [release];
    StartsThere(h, s, h1, h2);
  }

  lemma {:induction false} StartsThere(h: seq<Net>, s: Net, h1: seq<Net>, h2: seq<Net>)
    requires [s] <= h1 <= h2 <= h
    ensures h != [] && h[0] == s
  {
    assert h1[0] == s && h2[0] == s;
  }

  /** A device that no other client holds ends up as configured at first hand, and released, the
      release being acknowledged; and yet the network may deliver a copy of the claim once more, and
      control is taken again. So it is for every idle state and every configuration. */
  lemma {:induction false} ReleasedRunLeavesClaim(s: Net, c: IPConfig)
      returns (h: seq<Net>, qs: seq<Transaction>, mode: Word, thrown: Option<Error>)
    requires WellFormed(s) && Backlog(s) == 0 && !s.device.foreign
    ensures h != [] && h[0] == s && ConfigRun(h, qs, 0, |h| - 1, c, mode, thrown)
    ensures thrown == None <==> Supports(s.device, c)
    ensures Verdict(qs[0]) == None && Verdict(qs[|qs| - 1]) == None
    ensures Performed(h[|h| - 1].device, thrown) == Configure(s.device, c) && h[|h| - 1].device.ccp == 0
    ensures Enabled(h[|h| - 1], Deliver(qs[0].serial, Plain))
    ensures Apply(h[|h| - 1], Deliver(qs[0].serial, Plain)).device.ccp == 1
  {
    hide ConfigRun, Configure, WellFormed, Supports;
    h, qs, mode, thrown := OrdinaryRun(s, c);
    ConfigureOutcome(s.device, c);
    assert !h[|h| - 1].device.foreign && h[|h| - 1].device.ccp == 0;
    Succeeds(h[|h| - 1].device);
  }

  // ---- a request whose answers come too late -----------------------------------------------

  lemma {:induction false} AppendAllQuietly(h: seq<Net>, es: seq<Event>, first: nat) returns (h': seq<Net>)
    requires h != [] && Quiet(h, first, |h| - 1) && WellFormed(h[|h| - 1]) && CanDo(h[|h| - 1], es)
    requires forall e <- es :: !e.Transmit? && !e.Pop?
    ensures h <= h' && Quiet(h', first, |h'| - 1) && WellFormed(h'[|h'| - 1]) && h'[|h'| - 1] == DoAll(h[|h| - 1], es)
    decreases es
  {
    hide Apply, Enabled, WellFormed, Quiet;
    h' := h;
    if es != [] {
      var t := Apply(h[|h| - 1], es[0]);
      StepKeepsWellFormed(h[|h| - 1], es[0]);
      assert QuietStep(h[|h| - 1], t);
      QuietAppend(h, t, first);
      h' := AppendAllQuietly(h + [t], es[1..], first);
    }
  }

  /** Three transmissions, and the device's answers to them, as they arrive later. */
  function Sending(s: Net, c: Command): seq<Event> {
    var t := Transmit(s.draws + 1, Some(c));
    [Draw, t, t, t]
  }

  function Arriving(n: nat, served: nat): seq<Event> {
    [Deliver(n, Plain), Deliver(n, Plain), Deliver(n, Plain), Arrive(served), Arrive(served + 1), Arrive(served + 2)]
  }

  lemma {:induction false} SendingDoes(s: Net, c: Command)
    requires WellFormed(s)
    ensures CanDo(s, Sending(s, c))
    ensures var t := DoAll(s, Sending(s, c)); var n := s.draws + 1;
      && t.draws == n && t.sent == s.sent + Repeat(n, 3) && t.popped == s.popped && t.arrived == s.arrived
      && t.served == s.served && InFlight(t, n, c) && t.device == s.device
  {
    var n, es := s.draws + 1, Sending(s, c);
    assert n !in s.issued;
    hide WellFormed;
    var s1 := Apply(s, Draw);
    var s2 := Apply(s1, es[1]);
    var s3 := Apply(s2, es[2]);
    var s4 := Apply(s3, es[3]);
    assert s4.sent == s.sent + Repeat(n, 3) && s4.issued[n] == Some(c) && n in s4.commands;
    assert es[1..][1..] == es[2..] && es[2..][1..] == es[3..] && es[3..][1..] == [];
    assert CanDo(s3, es[3..]) && DoAll(s3, es[3..]) == s4;
    assert CanDo(s2, es[2..]) && DoAll(s2, es[2..]) == s4;
    assert CanDo(s1, es[1..]) && DoAll(s1, es[1..]) == s4;
  }

  lemma {:induction false} DeliverDoes(s: Net, n: nat, c: Command)
    requires InFlight(s, n, c)
    ensures Enabled(s, Deliver(n, Plain))
    ensures var t := Apply(s, Deliver(n, Plain));
      && t.draws == s.draws && t.popped == s.popped && t.arrived == s.arrived && InFlight(t, n, c)
      && t.served == s.served + [Served(n, Serve(s.device, c).reply)] && t.replies == s.replies + {|s.served|}
      && t.device == Serve(s.device, c).device
  {
    hide Serve;
  }

  lemma {:induction false} ArrivingDoes(s: Net, n: nat, c: Command)
    requires InFlight(s, n, c)
    ensures CanDo(s, Arriving(n, |s.served|))
    ensures var t := DoAll(s, Arriving(n, |s.served|)); var k := |s.served|;
      && t.draws == s.draws && t.popped == s.popped && t.arrived == s.arrived + [k, k + 1, k + 2]
      && |t.served| == k + 3 && t.served[k].serial == t.served[k + 1].serial == t.served[k + 2].serial == n
      && t.device.foreign == s.device.foreign
  {
    var k := |s.served|;
    var es := Arriving(n, k);
    DeliverDoes(s, n, c);
    var s1 := Apply(s, es[0]);
    DeliverDoes(s1, n, c);
    var s2 := Apply(s1, es[1]);
    DeliverDoes(s2, n, c);
    var s3 := Apply(s2, es[2]);
    ForeignKept(s.device, c);
    ForeignKept(s1.device, c);
    ForeignKept(s2.device, c);
    hide Serve, InFlight;
    ThreeArrive(s3, k, es[3..]);
    assert es[1..][1..] == es[2..] && es[2..][1..] == es[3..];
    hide Apply;
    assert CanDo(s2, es[2..]) && DoAll(s2, es[2..]) == DoAll(s3, es[3..]);
    assert CanDo(s1, es[1..]) && DoAll(s1, es[1..]) == DoAll(s3, es[3..]);
  }

  lemma {:induction false} ForeignKept(d: Device, c: Command)
    ensures Serve(d, c).device.foreign == d.foreign
  {
  }

  lemma {:induction false} ThreeArrive(s: Net, k: nat, es: seq<Event>)
    requires k in s.replies && k + 1 in s.replies && k + 2 in s.replies
    requires es == [Arrive(k), Arrive(k + 1), Arrive(k + 2)]
    ensures CanDo(s, es)
    ensures DoAll(s, es) == s.(arrived := s.arrived + [k, k + 1, k + 2])
  {
    assert es[1..][1..] == es[2..] && es[2..][1..] == [];
    var s1 := Apply(s, es[0]);
    var s2 := Apply(s1, es[1]);
    var s3 := Apply(s2, es[2]);
    assert s3.arrived == s.arrived + [k, k + 1, k + 2];
    assert CanDo(s2, es[2..]) && DoAll(s2, es[2..]) == s3;
    assert CanDo(s1, es[1..]) && DoAll(s1, es[1..]) == s3;
  }

  /** A backlog of three comes from one request. From any idle state, and for every request: it is
      transmitted three times and given up, and then its three answers arrive. */
  lemma {:induction false} BacklogArises(s: Net, c: Command) returns (h: seq<Net>, q: Transaction)
    requires WellFormed(s) && Backlog(s) == 0
    ensures h != [] && h[0] == s && IsTransaction(h, q) && q.first == 0 && q.command == c
    ensures q.copies == 3 && q.result == Unanswered(c) && Quiet(h, q.last, |h| - 1)
    ensures Settled(h[|h| - 1]) && Backlog(h[|h| - 1]) == 3 && h[|h| - 1].device.foreign == s.device.foreign
  {
    var n := s.draws + 1;
    SendingDoes(s, c);
    assert OnTheWay([s], 0, n, c);
    hide Apply, Enabled, Sending, Arriving, DoAll, CanDo, WellFormed;
    SendsOnly(s, c);
    var h1 := AppendAll([s], Sending(s, c), 0, n, c);
    var t := h1[|h1| - 1];
    assert h1[0] == s;
    q := Transaction(c, n, 3, Unanswered(c), 0, |h1| - 1);
    assert IsTransaction(h1, q);
    ArrivingDoes(t, n, c);
    ArrivesOnly(n, |t.served|);
    h := AppendAllQuietly(h1, Arriving(n, |t.served|), |h1| - 1);
    hide IsTransaction, Quiet;
    IsTransactionExtends(h1, h, q);
    assert h[0] == s;
  }

  lemma {:induction false} SendsOnly(s: Net, c: Command)
    ensures forall e <- Sending(s, c) :: e.Transmit? ==> e.serial == s.draws + 1 && e.command == Some(c)
  {
  }

  lemma {:induction false} ArrivesOnly(n: nat, served: nat)
    ensures forall e <- Arriving(n, served) :: !e.Transmit? && !e.Pop?
  {
  }
}
