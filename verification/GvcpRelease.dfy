/** Control access after a run of writeConfig: when the release is final and when it is not, and how
    a backlog comes about that keeps the device from being released. */
module GvcpRelease {
  import opened RequestCounter
  import opened GvcpMessages
  import opened GvcpNetwork
  import opened GvcpResponsive
  import opened GvcpSessions
  import opened GvcpAtomicity
  import opened GvcpConfigure
  import opened GvcpProgress

  // ---- when a released device stays released -----------------------------------------------

  predicate IsControlWrite(c: Command) {
    c.WriteReg? && c.address == GEV_CCP
  }

  ghost predicate InFlight(s: Net, n: nat, c: Command) {
    n in s.commands && n in s.issued && s.issued[n] == Some(c)
  }

  ghost predicate ClaimInFlight(s: Net) {
    exists n :: InFlight(s, n, CLAIM)
  }

  /** Whatever is under way to the control register is a claim or a release. */
  ghost predicate ControlWritesAreOurs(s: Net) {
    forall n, c | InFlight(s, n, c) && IsControlWrite(c) :: c == CLAIM || c == RELEASE
  }

  ghost predicate ReleasedForGood(s: Net) {
    WellFormed(s) && ControlWritesAreOurs(s) && !ClaimInFlight(s) && s.device.ccp == 0
  }

  lemma {:induction false} AnswerKeepsReleased(d: Device, c: Command, mood: Mood)
    requires d.ccp == 0 && (!IsControlWrite(c) || c == RELEASE)
    ensures Answer(d, c, mood).device.ccp == 0
  {
  }

  lemma {:induction false} StaysReleasedStep(s: Net, e: Event)
    requires ReleasedForGood(s) && Enabled(s, e) && (e.Transmit? ==> e.command == Some(RELEASE))
    ensures ReleasedForGood(Apply(s, e))
  {
    StepKeepsWellFormed(s, e);
    hide WellFormed, Answer;
    var t := Apply(s, e);
    forall n, c | InFlight(t, n, c) ensures InFlight(s, n, c) || c == RELEASE {}
    if e.Deliver? && s.issued[e.serial].Some? {
      assert InFlight(s, e.serial, s.issued[e.serial].value);
      AnswerKeepsReleased(s.device, s.issued[e.serial].value, e.mood);
    }
  }

  lemma {:induction false} StaysReleased(h: seq<Net>, first: nat, last: nat, n: nat)
    requires Steps(h, first, last, n, Some(RELEASE)) && ReleasedForGood(h[first])
    ensures forall i | first <= i <= last :: ReleasedForGood(h[i])
    decreases last
  {
    hide ReleasedForGood;
    if first < last {
      StaysReleased(h, first, last - 1, n);
      assert StepAt(h, last - 1, n, Some(RELEASE));
      var e :| Enabled(h[last - 1], e) && h[last] == Apply(h[last - 1], e)
               && (e.Transmit? ==> e.serial == n && e.command == Some(RELEASE));
      StaysReleasedStep(h[last - 1], e);
    }
  }

  /** `h` goes on from `s` without the client. */
  ghost predicate Continues(h: seq<Net>, s: Net) {
    h != [] && h[0] == s && Quiet(h, 0, |h| - 1)
  }

  /** The network and the device can go on from `s` to a state in which control is held. */
  lemma {:induction false} ClaimReopens(s: Net) returns (h: seq<Net>)
    requires WellFormed(s) && ClaimInFlight(s)
    ensures Continues(h, s) && h[|h| - 1].device.ccp == 1
  {
    var n :| InFlight(s, n, CLAIM);
    hide WellFormed;
    h := [s];
    if s.device.foreign {
      h := AppendQuiet(h, OtherClientReleases);
    }
    h := AppendQuiet(h, Deliver(n, Plain));
  }

  lemma {:induction false} AppendQuiet(h: seq<Net>, e: Event) returns (h': seq<Net>)
    requires h != [] && Quiet(h, 0, |h| - 1) && Enabled(h[|h| - 1], e) && !e.Transmit? && !e.Pop?
    ensures h' == h + [Apply(h[|h| - 1], e)] && Quiet(h', 0, |h'| - 1)
  {
    h' := h + [Apply(h[|h| - 1], e)];
    assert QuietStep(h[|h| - 1], Apply(h[|h| - 1], e));
    QuietAppend(h, Apply(h[|h| - 1], e), 0);
  }

  /** A released device stays released, whatever the network does, exactly if no copy of a claim is
      in flight. */
  lemma {:induction false} ReleaseIsFinalIff(s: Net)
    requires WellFormed(s) && ControlWritesAreOurs(s) && s.device.ccp == 0
    ensures (forall h: seq<Net> | Continues(h, s) :: h[|h| - 1].device.ccp == 0) <==> !ClaimInFlight(s)
  {
    if ClaimInFlight(s) {
      var h := ClaimReopens(s);
    } else {
      assert ReleasedForGood(s);
      hide ReleasedForGood;
      forall h: seq<Net> | Continues(h, s) ensures h[|h| - 1].device.ccp == 0 {
        QuietIsSteps(h, 0, |h| - 1, 0, Some(RELEASE));
        StaysReleased(h, 0, |h| - 1, 0);
        ReleasedMeans(h[|h| - 1]);
      }
    }
  }

  lemma {:induction false} ReleasedMeans(s: Net)
    requires ReleasedForGood(s)
    ensures s.device.ccp == 0
  {
  }

  // ---- the release of a run ----------------------------------------------------------------

  lemma {:induction false} StepsKeepControlWrites(h: seq<Net>, first: nat, last: nat, n: nat, c: Command)
    requires Steps(h, first, last, n, Some(c)) && ControlWritesAreOurs(h[first])
    requires IsControlWrite(c) ==> c == CLAIM || c == RELEASE
    ensures ControlWritesAreOurs(h[last])
    decreases last
  {
    if first < last {
      StepsKeepControlWrites(h, first, last - 1, n, c);
      assert StepAt(h, last - 1, n, Some(c));
      var e :| Enabled(h[last - 1], e) && h[last] == Apply(h[last - 1], e)
               && (e.Transmit? ==> e.serial == n && e.command == Some(c));
      hide Answer;
      forall m, x | InFlight(h[last], m, x) ensures InFlight(h[last - 1], m, x) || x == c {}
    }
  }

  lemma {:induction false} ChainKeepsControlWrites(h: seq<Net>, qs: seq<Transaction>, first: nat, last: nat)
    requires Chain(h, qs, first, last) && ControlWritesAreOurs(h[first])
    requires forall m | 0 <= m < |qs| && IsControlWrite(qs[m].command) ::
               qs[m].command == CLAIM || qs[m].command == RELEASE
    ensures first <= last < |h| && ControlWritesAreOurs(h[last])
    decreases |qs|
  {
    hide ControlWritesAreOurs;
    if qs != [] {
      var q := qs[|qs| - 1];
      ChainFront(h, qs, first, last);
      assert IsTransaction(h, q);
      CallEnds(h, q);
      ChainKeepsControlWrites(h, qs[..|qs| - 1], first, q.first);
      StepsKeepControlWrites(h, q.first, q.last, q.serial, q.command);
    }
  }

  lemma {:induction false} RunCommands(h: seq<Net>, qs: seq<Transaction>, first: nat, last: nat, c: IPConfig,
      mode: Word, thrown: Option<Error>, m: nat)
    requires ConfigRun(h, qs, first, last, c, mode, thrown) && m < |qs|
    ensures qs[m].command == CLAIM || qs[m].command == RELEASE || !IsControlWrite(qs[m].command)
  {
    BodyParts(c, mode);
    hide Chain, Body;
    if 0 < m < |qs| - 1 {
      var body := qs[1..|qs| - 1];
      assert qs[m] == body[m - 1] && body[m - 1].command == Body(c, mode)[m - 1];
    }
  }

  /** The device that a run leaves released stays released, whatever the network still delivers,
      exactly if no copy of the claim is left in flight. */
  lemma {:induction false} ReleaseOfRunIsFinalIff(h: seq<Net>, qs: seq<Transaction>, first: nat, last: nat,
      c: IPConfig, mode: Word, thrown: Option<Error>)
    requires ConfigRun(h, qs, first, last, c, mode, thrown) && first < |h| && ControlWritesAreOurs(h[first])
    requires last < |h| && h[last].device.ccp == 0
    ensures (forall h': seq<Net> | Continues(h', h[last]) :: h'[|h'| - 1].device.ccp == 0) <==> !ClaimInFlight(h[last])
  {
    forall m | 0 <= m < |qs| && IsControlWrite(qs[m].command)
      ensures qs[m].command == CLAIM || qs[m].command == RELEASE
    {
      RunCommands(h, qs, first, last, c, mode, thrown, m);
    }
    ChainKeepsControlWrites(h, qs, first, last);
    assert IsTransaction(h, qs[|qs| - 1]);
    CallEnds(h, qs[|qs| - 1]);
    hide Chain, IsTransaction, ConfigRun, WellFormed, Continues, ClaimInFlight, ControlWritesAreOurs;
    ReleaseIsFinalIff(h[last]);
  }

  lemma {:induction false} ChainKeepsProvenance(h: seq<Net>, qs: seq<Transaction>, first: nat, last: nat, oldest: nat,
      popped: nat)
    requires Chain(h, qs, first, last) && WellFormed(h[first]) && oldest <= h[first].draws + 1
    requires NothingOlder(h[first], oldest, popped)
    ensures first <= last < |h| && WellFormed(h[last]) && NothingOlder(h[last], oldest, popped)
    ensures Later(h[first], h[last])
    decreases |qs|
  {
    hide NothingOlder;
    if qs != [] {
      var q := qs[|qs| - 1];
      ChainFront(h, qs, first, last);
      assert IsTransaction(h, q);
      CallEnds(h, q);
      hide IsTransaction, WellFormed, Chain;
      ChainKeepsProvenance(h, qs[..|qs| - 1], first, q.first, oldest, popped);
      CallKeepsProvenance(h, q, oldest, popped);
      LaterTwice(h[first], h[q.first], h[q.last]);
    }
  }

  /** Step `i` is the device carrying out the release that the client was acknowledged. */
  lemma {:induction false} AcknowledgedRelease(h: seq<Net>, q: Transaction, oldest: nat) returns (i: nat)
    requires IsTransaction(h, q) && q.command == RELEASE && Verdict(q) == None
    requires NothingOlder(h[q.first], oldest, h[q.first].popped)
    requires oldest <= h[q.first].draws + 1 && h[q.last].draws < oldest + MAX_ID
    ensures q.first <= i < q.last && h[i + 1].device.ccp == 0
    ensures |h[i].served| < |h[i + 1].served| && h[i + 1].served[|h[i].served|].serial == q.serial
    ensures h[i + 1].served[|h[i].served|].reply.status == 0
  {
    var reply;
    i, reply := AcknowledgesAreAuthentic(h, q, oldest);
    hide IsTransaction, WellFormed;
  }

  /** If the release of a run is acknowledged, the device was released at some moment of this
      call. */
  lemma {:induction false} ReleaseTakesEffect(h: seq<Net>, qs: seq<Transaction>, first: nat, last: nat, c: IPConfig,
      mode: Word, thrown: Option<Error>, oldest: nat) returns (i: nat)
    requires ConfigRun(h, qs, first, last, c, mode, thrown) && Undisturbed(h, first, last, oldest)
    requires Verdict(qs[0]) == None && Verdict(qs[|qs| - 1]) == None
    ensures qs[|qs| - 1].first <= i < qs[|qs| - 1].last == last < |h| && h[i + 1].device.ccp == 0
    ensures |h[i].served| < |h[i + 1].served| && h[i + 1].served[|h[i].served|].serial == qs[|qs| - 1].serial
    ensures h[i + 1].served[|h[i].served|].reply.status == 0
  {
    var q := qs[|qs| - 1];
    ChainFront(h, qs, first, last);
    assert IsTransaction(h, q);
    hide IsTransaction, WellFormed, Chain, NothingOlder, Body;
    ChainKeepsProvenance(h, qs[..|qs| - 1], first, q.first, oldest, h[first].popped);
    DrawsGrow(h[first], h[q.first]);
    NothingOlderLater(h[q.first], oldest, h[first].popped, h[q.first].popped);
    i := AcknowledgedRelease(h, q, oldest);
  }

  // ---- a path that does not reorder --------------------------------------------------------

  /** What the device has answered since position `from` it received in the order of transmission:
      datagrams may have been lost or repeated, but none has overtaken a later request. */
  ghost predicate ServedInOrder(s: Net, from: nat) {
    forall p, q | from <= p < q < |s.served| :: s.served[p].serial <= s.served[q].serial
  }

  /** The newest request is `n`. */
  ghost predicate NothingNewer(s: Net, n: nat) {
    forall m <- s.issued :: m <= n
  }

  lemma {:induction false} StepsKeepNewest(h: seq<Net>, first: nat, last: nat, n: nat, c: Command)
    requires Steps(h, first, last, n, Some(c)) && NothingNewer(h[first], n)
    ensures NothingNewer(h[last], n)
    decreases last
  {
    if first < last {
      StepsKeepNewest(h, first, last - 1, n, c);
      assert StepAt(h, last - 1, n, Some(c));
    }
  }

  /** From its position `p` on the device has carried out nothing but the release `n`. */
  lemma {:induction false} ReleasePersists(h: seq<Net>, first: nat, last: nat, n: nat, p: nat)
    requires Steps(h, first, last, n, Some(RELEASE)) && Reserved(h[first], n, RELEASE) && |h[first].served| <= p
    requires p < |h[last].served| ==> h[last].served[p].reply.status == 0
    requires forall q | p <= q < |h[last].served| :: h[last].served[q].serial == n
    ensures p < |h[last].served| ==> h[last].device.ccp == 0
    decreases last
  {
    if first < last {
      assert StepAt(h, last - 1, n, Some(RELEASE));
      var s, t := h[last - 1], h[last];
      var e :| Enabled(s, e) && t == Apply(s, e) && (e.Transmit? ==> e.serial == n && e.command == Some(RELEASE));
      hide Answer;
      assert s.served <= t.served;
      assert forall q | 0 <= q < |s.served| :: t.served[q] == s.served[q];
      ReleasePersists(h, first, last - 1, n, p);
      StepsKeepReserved(h, first, last - 1, n, RELEASE);
      ReleaseStep(s, e, n, p);
    }
  }

  lemma {:induction false} ReleaseStep(s: Net, e: Event, n: nat, p: nat)
    requires Enabled(s, e) && Reserved(s, n, RELEASE)
    requires p < |s.served| ==> s.device.ccp == 0
    requires var t := Apply(s, e);
      (forall q | p <= q < |t.served| :: t.served[q].serial == n) && (p < |t.served| ==> t.served[p].reply.status == 0)
    ensures p < |Apply(s, e).served| ==> Apply(s, e).device.ccp == 0
  {
    if e.Deliver? && s.issued[e.serial].Some? {
      var t := Apply(s, e);
      if p < |t.served| {
        assert t.served[|s.served|].serial == e.serial;
      }
    }
  }

  lemma {:induction false} ServedIsIssued(s: Net, q: nat, n: nat)
    requires WellFormed(s) && NothingNewer(s, n) && q < |s.served|
    ensures s.served[q].serial <= n
  {
    assert GenuineReply(s, s.served[q]);
  }

  /** If the claim succeeds, then, however the run ends, and over a path that may lose and repeat but
      does not reorder, the device is released at the end, and as long as nothing else is sent, once
      it has carried out the release: at position `p` of what it answered. */
  lemma {:induction false} ControlIsReleased(h: seq<Net>, qs: seq<Transaction>, first: nat, last: nat, c: IPConfig,
      mode: Word, thrown: Option<Error>, end: nat, p: nat)
    requires ConfigRun(h, qs, first, last, c, mode, thrown) && Verdict(qs[0]) == None
    requires Quiet(h, last, end) && first < |h| && ServedInOrder(h[end], |h[first].served|)
    requires |h[first].served| <= p < |h[end].served| && h[end].served[p].serial == qs[|qs| - 1].serial
    requires h[end].served[p].reply.status == 0
    ensures h[end].device.ccp == 0
  {
    var r := qs[|qs| - 1];
    var n := r.serial;
    ChainFront(h, qs, first, last);
    assert IsTransaction(h, r);
    CallEnds(h, r);
    hide IsTransaction, Chain, Body, Quiet;
    QuietIsSteps(h, last, end, n, Some(RELEASE));
    StepsJoin(h, h, r.first, last, end, n, Some(RELEASE));
    hide ConfigRun;
    ReleaseOverOrderedPath(h, r.first, end, n, |h[first].served|, p);
  }

  /** From just before the release `n` is first transmitted. */
  lemma {:induction false} ReleaseOverOrderedPath(h: seq<Net>, first: nat, end: nat, n: nat, from: nat, p: nat)
    requires Steps(h, first, end, n, Some(RELEASE)) && WellFormed(h[first]) && h[first].draws < n
    requires ServedInOrder(h[end], from) && from <= p < |h[end].served| && h[end].served[p].serial == n
    requires h[end].served[p].reply.status == 0
    ensures h[end].device.ccp == 0
  {
    StepsKeepWellFormed(h, first, end, n, Some(RELEASE));
    assert forall m <- h[first].issued :: m <= h[first].draws;
    StepsKeepNewest(h, first, end, n, RELEASE);
    assert p >= |h[first].served| by {
      forall q | 0 <= q < |h[first].served| ensures h[end].served[q].serial != n {
        assert h[end].served[q] == h[first].served[q];
        assert GenuineReply(h[first], h[first].served[q]);
      }
    }
    forall q | p <= q < |h[end].served| ensures h[end].served[q].serial == n {
      ServedIsIssued(h[end], q, n);
    }
    hide WellFormed;
    ReleasePersists(h, first, end, n, p);
  }

  lemma {:induction false} LaterToEnd(h: seq<Net>, i: nat, last: nat, end: nat, q: Transaction)
    requires IsTransaction(h, q) && q.first <= i <= q.last == last && Quiet(h, last, end)
    ensures h[i].served <= h[end].served
  {
    QuietIsSteps(h, last, end, q.serial, Some(q.command));
    StepsJoin(h, h, q.first, last, end, q.serial, Some(q.command));
    hide Quiet, IsTransaction;
    ServedGrows(h, q.first, i, end, q.serial, q.command);
  }

  lemma {:induction false} ServedGrows(h: seq<Net>, first: nat, i: nat, last: nat, n: nat, c: Command)
    requires Steps(h, first, last, n, Some(c)) && first <= i <= last
    ensures h[i].served <= h[last].served
    decreases last
  {
    if i < last {
      ServedGrows(h, first, i, last - 1, n, c);
      assert StepAt(h, last - 1, n, Some(c));
      hide Answer;
      assert h[last - 1].served <= h[last].served;
    }
  }

  /** What is answered during the last call of a chain comes after what was answered before the chain,
      and is never taken back. */
  lemma {:induction false} AnsweredInBetween(h: seq<Net>, qs: seq<Transaction>, first: nat, last: nat, end: nat,
      i: nat)
    requires Chain(h, qs, first, last) && qs != [] && Quiet(h, last, end) && qs[|qs| - 1].first <= i < last
    ensures first <= last <= end < |h|
    ensures |h[first].served| <= |h[i].served| && h[i + 1].served <= h[end].served
  {
    var r := qs[|qs| - 1];
    ChainFront(h, qs, first, last);
    assert IsTransaction(h, r);
    CallEnds(h, r);
    hide Chain, WellFormed;
    LaterToEnd(h, i + 1, last, end, r);
    hide IsTransaction, Quiet;
    ChainServedGrows(h, qs[..|qs| - 1], first, r.first);
    StepsShorten(h, r.first, i, last, r.serial, r.command);
    ServedGrows(h, r.first, r.first, i, r.serial, r.command);
  }

  /** So over such a path an acknowledged release is final. */
  lemma {:induction false} AcknowledgedReleaseIsFinal(h: seq<Net>, qs: seq<Transaction>, first: nat, last: nat,
      c: IPConfig, mode: Word, thrown: Option<Error>, oldest: nat, end: nat)
    requires ConfigRun(h, qs, first, last, c, mode, thrown) && Undisturbed(h, first, last, oldest)
    requires Verdict(qs[0]) == None && Verdict(qs[|qs| - 1]) == None
    requires Quiet(h, last, end) && ServedInOrder(h[end], |h[first].served|)
    ensures h[end].device.ccp == 0
  {
    assert Chain(h, qs, first, last);
    hide ConfigRun, Chain, Undisturbed, WellFormed, Quiet, Verdict, ServedInOrder;
    var i := ReleaseTakesEffect(h, qs, first, last, c, mode, thrown, oldest);
    AnsweredInBetween(h, qs, first, last, end, i);
    ControlIsReleased(h, qs, first, last, c, mode, thrown, end, |h[i].served|);
  }

  lemma {:induction false} StepsShorten(h: seq<Net>, first: nat, i: nat, last: nat, n: nat, c: Command)
    requires Steps(h, first, last, n, Some(c)) && first <= i <= last
    ensures Steps(h, first, i, n, Some(c))
  {
  }

  lemma {:induction false} ChainServedGrows(h: seq<Net>, qs: seq<Transaction>, first: nat, last: nat)
    requires Chain(h, qs, first, last)
    ensures first <= last < |h| && h[first].served <= h[last].served
    decreases |qs|
  {
    if qs != [] {
      var q := qs[|qs| - 1];
      ChainFront(h, qs, first, last);
      assert IsTransaction(h, q);
      CallEnds(h, q);
      hide IsTransaction, Chain;
      ChainServedGrows(h, qs[..|qs| - 1], first, q.first);
    }
  }
}
