/** The same socket over a responsive first-in-first-out path: every transmission is answered
    once, in order, before the wait of the client is over, and no other thread draws ids. */
module GvcpResponsive {
  import opened RequestCounter
  import opened GvcpMessages
  import opened GvcpNetwork

  predicate MayTransmit(s: Net, n: nat, p: Option<Command>) {
    Enabled(s, Transmit(n, p))
  }

  /** The path's three steps, when the client transmits request `n`. */
  function Exchange(s: Net, n: nat, p: Option<Command>): Net
    requires MayTransmit(s, n, p)
  {
    var a := Apply(s, Transmit(n, p));
    if p.None? then a
    else Apply(Apply(a, Deliver(n, Plain)), Arrive(|a.served|))
  }

  lemma {:induction false} ExchangeAnswers(s: Net, c: Command, n: nat)
    requires WellFormed(s) && MayTransmit(s, n, Some(c))
    ensures var t := Exchange(s, n, Some(c)); var Response(d, r) := Serve(s.device, c);
      && WellFormed(t)
      && t.draws == s.draws && t.popped == s.popped && t.device == d
      && t.issued == s.issued[n := Some(c)] && t.sent == s.sent + [n]
      && t.served == s.served + [Served(n, r)] && t.arrived == s.arrived + [|s.served|]
      && t.issued[n] == Some(c)
  {
  }

  /** One round: transmit request `n`, take the datagram at the head of the queue. */
  function Round(s: Net, c: Command, n: nat): Net
    requires MayTransmit(s, n, Some(c)) && s.popped <= |s.arrived|
  {
    var a := Exchange(s, n, Some(c));
    Apply(a, Pop)
  }

  /** The position in `served` of the datagram that a round takes. */
  function Taken(s: Net): nat
    requires s.popped <= |s.arrived|
  {
    (s.arrived + [|s.served|])[s.popped]
  }

  lemma {:induction false} RoundFacts(s: Net, c: Command, n: nat)
    requires WellFormed(s) && MayTransmit(s, n, Some(c))
    ensures var t := Round(s, c, n);
      && WellFormed(t) && Later(s, t) && t.draws == s.draws
      && t.device == Serve(s.device, c).device && t.sent == s.sent + [n]
      && t.popped == s.popped + 1 && t.arrived == s.arrived + [|s.served|]
      && t.served == s.served + [Served(n, Serve(s.device, c).reply)]
      && MayTransmit(t, n, Some(c)) && n in t.issued && t.issued[n] == Some(c)
      && Taken(s) < |t.served| && t.arrived[s.popped] == Taken(s)
      && GenuineReply(t, t.served[Taken(s)])
  {
    ExchangeAnswers(s, c, n);
    StepKeepsWellFormed(Exchange(s, n, Some(c)), Pop);
  }

  datatype Called = Called(net: Net, result: Result<Reply>)

  function Unanswered(c: Command): Result<Reply> {
    Throw(NoResponse(c.Code(), c.address))
  }

  /** Up to `left` further rounds of transmitting request `n` and looking at one datagram. */
  ghost function Attempts(s: Net, c: Command, n: nat, left: nat): Called
    requires WellFormed(s) && MayTransmit(s, n, Some(c))
    decreases left
  {
    if left == 0 then
      Called(s, Unanswered(c))
    else
      RoundFacts(s, c, n);
      var t := Round(s, c, n);
      if Matches(t, Taken(s), c, n) then Called(t, Conclude(c, t.served[Taken(s)].reply))
      else Attempts(t, c, n, left - 1)
  }

  /** A whole request. */
  ghost function Call(s: Net, c: Command): Called
    requires WellFormed(s)
  {
    StepKeepsWellFormed(s, Draw);
    Attempts(Apply(s, Draw), c, s.draws + 1, 3)
  }

  function Backlog(s: Net): int {
    |s.arrived| - s.popped
  }

  /** The datagram now `k` places from the head of the queue is looked at k / 3 requests after the
      next one; until then its id must not come round again. */
  ghost predicate Stale(s: Net)
    requires WellFormed(s)
  {
    forall i | s.popped <= i < |s.arrived| ::
      s.draws + (i - s.popped) / 3 + 1 < s.served[s.arrived[i]].serial + MAX_ID
  }

  lemma {:induction false} StaleDoesNotMatch(s: Net, c: Command, i: nat)
    requires WellFormed(s) && Stale(s) && s.popped <= i < |s.arrived|
    ensures !Matches(s, s.arrived[i], c, s.draws + 1)
  {
  }

  /** The queue holds `x` datagrams that cannot pass for the acknowledge, then only answers to
      request `n` itself. */
  ghost predicate QueueSplit(s: Net, c: Command, n: nat, x: nat, reply: Reply)
    requires WellFormed(s)
  {
    && s.popped + x <= |s.arrived|
    && (forall i | s.popped <= i < s.popped + x :: !Matches(s, s.arrived[i], c, n))
    && (forall i | s.popped + x <= i < |s.arrived| :: s.served[s.arrived[i]] == Served(n, reply))
  }

  ghost predicate OnlyAnswersAdded(s: Net, t: Net, n: nat, reply: Reply)
    requires WellFormed(t)
  {
    && Later(s, t) && s.draws == t.draws
    && forall i | |s.arrived| <= i < |t.arrived| :: t.served[t.arrived[i]] == Served(n, reply)
  }

  lemma {:induction false} RoundOnStaleHead(s: Net, c: Command, n: nat, x: nat, reply: Reply)
    requires WellFormed(s) && MayTransmit(s, n, Some(c))
    requires Serve(s.device, c).reply == reply && QueueSplit(s, c, n, x, reply) && x > 0
    ensures var t := Round(s, c, n);
      && WellFormed(t) && Taken(s) < |t.served| && GenuineReply(t, t.served[Taken(s)])
      && !Matches(t, Taken(s), c, n)
      && QueueSplit(t, c, n, x - 1, reply) && OnlyAnswersAdded(s, t, n, reply)
  {
    RoundFacts(s, c, n);
    var t := Round(s, c, n);
    forall i | s.popped <= i < s.popped + x
      ensures GenuineReply(t, t.served[t.arrived[i]]) && !Matches(t, t.arrived[i], c, n)
    {
      assert t.arrived[i] == s.arrived[i] && t.served[t.arrived[i]] == s.served[s.arrived[i]];
      assert GenuineReply(s, s.served[s.arrived[i]]);
      assert !Matches(s, s.arrived[i], c, n);
    }
  }

  lemma {:induction false} RoundOnAnswer(s: Net, c: Command, n: nat, reply: Reply)
    requires WellFormed(s) && MayTransmit(s, n, Some(c))
    requires Serve(s.device, c).reply == reply && QueueSplit(s, c, n, 0, reply)
    ensures var t := Round(s, c, n);
      && WellFormed(t) && Taken(s) < |t.served| && GenuineReply(t, t.served[Taken(s)])
      && Matches(t, Taken(s), c, n) && t.served[Taken(s)].reply == reply
      && OnlyAnswersAdded(s, t, n, reply)
  {
    RoundFacts(s, c, n);
    assert Round(s, c, n).served[Taken(s)] == Served(n, reply);
  }

  /** `t` is `s` after that many rounds of request `n`, all answered with `reply`. */
  ghost predicate AfterRounds(s: Net, t: Net, c: Command, n: nat, reply: Reply, rounds: nat) {
    && WellFormed(t) && OnlyAnswersAdded(s, t, n, reply)
    && t.popped == s.popped + rounds && |t.arrived| == |s.arrived| + rounds
    && t.sent == s.sent + Repeat(n, rounds)
    && t.device == (if rounds == 0 then s.device else Serve(s.device, c).device)
  }

  lemma {:induction false} OneRound(s: Net, c: Command, n: nat)
    requires WellFormed(s) && MayTransmit(s, n, Some(c))
    ensures AfterRounds(s, Round(s, c, n), c, n, Serve(s.device, c).reply, 1)
  {
    RoundFacts(s, c, n);
    assert [n] == Repeat(n, 1);
  }

  lemma {:induction false} MoreRounds(s: Net, b: Net, t: Net, c: Command, n: nat, reply: Reply, rounds: nat)
    requires AfterRounds(s, b, c, n, reply, 1) && AfterRounds(b, t, c, n, reply, rounds)
    requires Serve(s.device, c).reply == reply
    ensures AfterRounds(s, t, c, n, reply, rounds + 1)
  {
  }

  lemma {:induction false} AttemptsSucceed(s: Net, c: Command, n: nat, left: nat, x: nat, reply: Reply)
    requires WellFormed(s) && MayTransmit(s, n, Some(c)) && x < left
    requires Serve(s.device, c).reply == reply && QueueSplit(s, c, n, x, reply)
    ensures AfterRounds(s, Attempts(s, c, n, left).net, c, n, reply, x + 1)
    ensures Attempts(s, c, n, left).result == Conclude(c, reply)
    decreases left
  {
    hide Round, Exchange, WellFormed;
    OneRound(s, c, n);
    if x == 0 {
      RoundOnAnswer(s, c, n, reply);
    } else {
      var b := Round(s, c, n);
      RoundFacts(s, c, n);
      RoundOnStaleHead(s, c, n, x, reply);
      ServeIdempotent(s.device, c);
      AttemptsSucceed(b, c, n, left - 1, x - 1, reply);
      MoreRounds(s, b, Attempts(b, c, n, left - 1).net, c, n, reply, x);
    }
  }

  lemma {:induction false} AttemptsFail(s: Net, c: Command, n: nat, left: nat, x: nat, reply: Reply)
    requires WellFormed(s) && MayTransmit(s, n, Some(c)) && left <= x
    requires Serve(s.device, c).reply == reply && QueueSplit(s, c, n, x, reply)
    ensures AfterRounds(s, Attempts(s, c, n, left).net, c, n, reply, left)
    ensures Attempts(s, c, n, left).result == Unanswered(c)
    decreases left
  {
    hide Round, Exchange, WellFormed;
    if left == 0 {
      assert s.sent + Repeat(n, 0) == s.sent;
    } else {
      OneRound(s, c, n);
      var b := Round(s, c, n);
      RoundFacts(s, c, n);
      RoundOnStaleHead(s, c, n, x, reply);
      ServeIdempotent(s.device, c);
      AttemptsFail(b, c, n, left - 1, x - 1, reply);
      MoreRounds(s, b, Attempts(b, c, n, left - 1).net, c, n, reply, left - 1);
    }
  }

  lemma {:induction false} StillStale(s: Net, t: Net, c: Command, reply: Reply)
    requires WellFormed(s) && Stale(s) && Backlog(s) <= 3 * (MAX_ID - 1)
    requires AfterRounds(s.(draws := s.draws + 1), t, c, s.draws + 1, reply,
        if Backlog(s) <= 2 then Backlog(s) + 1 else 3)
    ensures Stale(t)
  {
  }

  /** With at most two stale datagrams queued a request succeeds, after one more transmission than
      there are stale datagrams; with three or more it fails. Either way the device has carried it
      out, and the queue is as long as before. */
  lemma {:induction false} BacklogLaw(s: Net, c: Command)
    requires WellFormed(s) && Stale(s)
    ensures WellFormed(Call(s, c).net)
    ensures Call(s, c).net.draws == s.draws + 1
    ensures Call(s, c).net.device == Serve(s.device, c).device
    ensures Backlog(Call(s, c).net) == Backlog(s)
    ensures Call(s, c).net.sent == s.sent + Repeat(s.draws + 1, if Backlog(s) <= 2 then Backlog(s) + 1 else 3)
    ensures Call(s, c).result == if Backlog(s) <= 2 then Conclude(c, Serve(s.device, c).reply) else Unanswered(c)
    ensures Backlog(s) <= 3 * (MAX_ID - 1) ==> Stale(Call(s, c).net)
  {
    hide Attempts, Serve;
    var n := s.draws + 1;
    var a := Apply(s, Draw);
    StepKeepsWellFormed(s, Draw);
    var reply := Serve(s.device, c).reply;
    assert QueueSplit(a, c, n, Backlog(s), reply) by {
      forall i | a.popped <= i < |a.arrived| ensures !Matches(a, a.arrived[i], c, n) {
        StaleDoesNotMatch(s, c, i);
        assert GenuineReply(s, s.served[s.arrived[i]]);
      }
    }
    if Backlog(s) <= 2 {
      AttemptsSucceed(a, c, n, 3, Backlog(s), reply);
    } else {
      AttemptsFail(a, c, n, 3, Backlog(s), reply);
    }
    if Backlog(s) <= 3 * (MAX_ID - 1) {
      StillStale(s, Call(s, c).net, c, reply);
    }
  }

  /** The queue after a sequence of requests. */
  ghost function Calls(s: Net, cs: seq<Command>): Net
    requires WellFormed(s) && Stale(s) && Backlog(s) <= 3 * (MAX_ID - 1)
    decreases cs
  {
    if cs == [] then s
    else
      BacklogLaw(s, cs[0]);
      Calls(Call(s, cs[0]).net, cs[1..])
  }

  function ServeAll(d: Device, cs: seq<Command>): Device
    decreases cs
  {
    if cs == [] then d else ServeAll(Serve(d, cs[0]).device, cs[1..])
  }

  /** No sequence of requests ever works a backlog off, or adds to it, and the device carries out
      every request whether or not the client hears of it. */
  lemma {:induction false} BacklogNeverChanges(s: Net, cs: seq<Command>)
    requires WellFormed(s) && Stale(s) && Backlog(s) <= 3 * (MAX_ID - 1)
    ensures Backlog(Calls(s, cs)) == Backlog(s)
    ensures Calls(s, cs).device == ServeAll(s.device, cs)
    decreases cs
  {
    if cs != [] {
      BacklogLaw(s, cs[0]);
      BacklogNeverChanges(Call(s, cs[0]).net, cs[1..]);
    }
  }
}
