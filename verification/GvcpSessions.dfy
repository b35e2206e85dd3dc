/** What a run of writeConfig does to the device when the network is adversarial. */
module GvcpSessions {
  import opened RequestCounter
  import opened GvcpMessages
  import opened GvcpNetwork

  datatype IPConfig = IPConfig(
    persistentIpEnabled: bool, dhcpEnabled: bool,
    persistentIp: Word, persistentSubnet: Word, persistentGateway: Word)

  /** The mode register after read-modify-write. */
  function NewMode(mode: Word, c: IPConfig): Word {
    ModifiedMode(mode, c.persistentIpEnabled, c.dhcpEnabled)
  }

  const CLAIM := WriteReg(GEV_CCP, 1)
  const RELEASE := WriteReg(GEV_CCP, 0)

  /** The requests between claim and release, if the mode register reads `mode`. */
  function Body(c: IPConfig, mode: Word): seq<Command> {
    (if c.persistentIpEnabled then
       [WriteReg(GEV_PERSISTENT_IP_ADDRESS, c.persistentIp),
        WriteReg(GEV_PERSISTENT_SUBNET_MASK, c.persistentSubnet),
        WriteReg(GEV_PERSISTENT_DEFAULT_GATEWAY, c.persistentGateway)]
     else [])
    + [ReadReg(GEV_CURRENT_IP_CONFIGURATION), WriteReg(GEV_CURRENT_IP_CONFIGURATION, NewMode(mode, c))]
  }

  // ---- acknowledges are authentic ----------------------------------------------------------

  /** Nothing on its way from or to the socket belongs to a draw before `oldest`. */
  ghost predicate NothingOlder(s: Net, oldest: nat, popped: nat)
    requires WellFormed(s)
  {
    && (forall n <- s.commands :: oldest <= n)
    && (forall j <- s.replies :: oldest <= s.served[j].serial)
    && (forall i | popped <= i < |s.arrived| :: oldest <= s.served[s.arrived[i]].serial)
  }

  /** Request `serial` is `c` and no other. */
  ghost predicate Reserved(s: Net, serial: nat, c: Command) {
    serial in s.issued ==> s.issued[serial] == Some(c)
  }

  lemma {:induction false} EventKeepsProvenance(s: Net, e: Event, n: nat, oldest: nat, popped: nat)
    requires WellFormed(s) && Enabled(s, e) && WellFormed(Apply(s, e)) && (e.Transmit? ==> e.serial == n) && oldest <= n
    requires NothingOlder(s, oldest, popped)
    ensures NothingOlder(Apply(s, e), oldest, popped)
  {
  }

  lemma {:induction false} StepKeepsProvenance(s: Net, t: Net, n: nat, c: Command, oldest: nat, popped: nat)
    requires WellFormed(s) && StepOf(s, t, n, Some(c)) && oldest <= n
    requires NothingOlder(s, oldest, popped) && Reserved(s, n, c)
    ensures WellFormed(t) && NothingOlder(t, oldest, popped) && Reserved(t, n, c)
  {
    hide WellFormed, NothingOlder;
    StepOfKeepsWellFormed(s, t, n, Some(c));
    var e :| Enabled(s, e) && t == Apply(s, e) && (e.Transmit? ==> e.serial == n && e.command == Some(c));
    EventKeepsProvenance(s, e, n, oldest, popped);
  }

  lemma {:induction false} StepsKeepProvenance(h: seq<Net>, first: nat, last: nat, n: nat, c: Command, oldest: nat,
      popped: nat)
    requires Steps(h, first, last, n, Some(c)) && WellFormed(h[first]) && oldest <= n
    requires NothingOlder(h[first], oldest, popped) && Reserved(h[first], n, c)
    ensures WellFormed(h[last]) && NothingOlder(h[last], oldest, popped) && Reserved(h[last], n, c)
    decreases last
  {
    if first < last {
      StepsKeepProvenance(h, first, last - 1, n, c, oldest, popped);
      assert StepAt(h, last - 1, n, Some(c));
      StepKeepsProvenance(h[last - 1], h[last], n, c, oldest, popped);
    }
  }

  /** Step `i` of the history is the device answering request `serial` with `reply`. */
  ghost predicate AnsweredIn(h: seq<Net>, i: nat, serial: nat, c: Command, reply: Reply) {
    && i + 1 < |h|
    && exists mood :: h[i + 1].device == Answer(h[i].device, c, mood).device
                   && reply == Answer(h[i].device, c, mood).reply
                   && h[i + 1].served == h[i].served + [Served(serial, reply)]
  }

  /** Everything in the device's log was put there by a step. */
  lemma {:induction false} ServedWhen(h: seq<Net>, first: nat, last: nat, n: nat, c: Command, j: nat)
    returns (i: nat)
    requires Steps(h, first, last, n, Some(c)) && WellFormed(h[first]) && Reserved(h[first], n, c)
    requires |h[first].served| <= j < |h[last].served|
    requires h[last].served[j].serial == n
    ensures first <= i < last && AnsweredIn(h, i, n, c, h[last].served[j].reply)
    decreases last
  {
    assert first < last;
    var s, t := h[last - 1], h[last];
    assert StepAt(h, last - 1, n, Some(c));
    var e :| Enabled(s, e) && t == Apply(s, e) && (e.Transmit? ==> e.serial == n && e.command == Some(c));
    if j < |s.served| {
      i := ServedWhen(h, first, last - 1, n, c, j);
    } else {
      StepsKeepReserved(h, first, last - 1, n, c);
      i := last - 1;
      assert e.Deliver? && t.served == s.served + [Served(n, Answer(s.device, c, e.mood).reply)];
    }
  }

  lemma {:induction false} StepsKeepReserved(h: seq<Net>, first: nat, last: nat, n: nat, c: Command)
    requires Steps(h, first, last, n, Some(c)) && Reserved(h[first], n, c)
    ensures Reserved(h[last], n, c)
    decreases last
  {
    if first < last {
      StepsKeepReserved(h, first, last - 1, n, c);
      assert StepAt(h, last - 1, n, Some(c));
    }
  }

  predicate Answered(q: Transaction) {
    q.result.Ok? || q.result.error.AccessDenied? || q.result.error.DeviceStatus?
  }

  /** Whatever the network does, a result comes from the device's own answer to that very request,
      given during the call, provided that fewer than 65535 ids have been drawn since anything
      still in flight. */
  lemma {:induction false} AcknowledgesAreAuthentic(h: seq<Net>, q: Transaction,
      oldest: nat) returns (i: nat, reply: Reply)
    requires IsTransaction(h, q) && Answered(q)
    requires NothingOlder(h[q.first], oldest, h[q.first].popped)
    requires oldest <= h[q.first].draws + 1 && h[q.last].draws < oldest + MAX_ID
    ensures q.first <= i < q.last
    ensures AnsweredIn(h, i, q.serial, q.command, reply) && q.result == Conclude(q.command, reply)
  {
    var s, t := h[q.first], h[q.last];
    assert Reserved(s, q.serial, q.command);
    StepsKeepProvenance(h, q.first, q.last, q.serial, q.command, oldest, s.popped);
    var k: nat :| AcceptedAt(s, t, q, k);
    var j := t.arrived[k];
    assert GenuineReply(t, t.served[j]);
    IdsDistinctInWindow(t.served[j].serial, q.serial);
    StepsKeepWellFormed(h, q.first, q.last, q.serial, Some(q.command));
    assert j >= |s.served| by {
      assert forall i | 0 <= i < |s.served| :: GenuineReply(s, s.served[i]) && s.served[i] == t.served[i];
    }
    i := ServedWhen(h, q.first, q.last, q.serial, q.command, j);
    reply := t.served[j].reply;
  }

  function Queue(s: Net): seq<nat>
    requires s.popped <= |s.arrived|
  {
    s.arrived[s.popped..]
  }

  /** The queue is first-in-first-out: a call appends what arrives and takes at most one datagram
      per transmission from the front. */
  lemma {:induction false} QueueConservation(h: seq<Net>, q: Transaction) returns (arrivals: seq<nat>, pops: nat)
    requires IsTransaction(h, q)
    ensures h[q.last].arrived == h[q.first].arrived + arrivals
    ensures pops <= q.copies <= 3 && pops <= |Queue(h[q.first]) + arrivals|
    ensures Queue(h[q.last]) == (Queue(h[q.first]) + arrivals)[pops..]
  {
    var s, t := h[q.first], h[q.last];
    StepsKeepWellFormed(h, q.first, q.last, q.serial, Some(q.command));
    arrivals, pops := t.arrived[|s.arrived|..], t.popped - s.popped;
    assert t.arrived == s.arrived + arrivals;
    assert Queue(t) == (Queue(s) + arrivals)[pops..];
  }

  // ---- sequences of calls ------------------------------------------------------------------

  /** The calls `qs`, one after the other, make up the history from `first` to `last`. */
  ghost predicate Chain(h: seq<Net>, qs: seq<Transaction>, first: nat, last: nat) {
    && (forall m | 0 <= m < |qs| :: IsTransaction(h, qs[m]))
    && (forall m | 0 < m < |qs| :: qs[m - 1].last == qs[m].first)
    && (if qs == [] then first == last < |h| else qs[0].first == first && qs[|qs| - 1].last == last)
  }

  lemma {:induction false} ChainAppend(h: seq<Net>, h': seq<Net>, qs: seq<Transaction>, first: nat, q: Transaction)
    requires h <= h' && h != [] && Chain(h, qs, first, |h| - 1)
    requires IsTransaction(h', q) && q.first == |h| - 1 && q.last == |h'| - 1
    ensures Chain(h', qs + [q], first, |h'| - 1)
  {
    hide IsTransaction;
    forall m | 0 <= m < |qs| + 1 ensures IsTransaction(h', (qs + [q])[m]) {
      if m < |qs| {
        IsTransactionExtends(h, h', qs[m]);
      }
    }
  }

  lemma {:induction false} ChainFront(h: seq<Net>, qs: seq<Transaction>, first: nat, last: nat)
    requires Chain(h, qs, first, last) && qs != []
    ensures var q := qs[|qs| - 1]; q.last == last && Chain(h, qs[..|qs| - 1], first, q.first)
  {
  }

  /** What readRegister or writeRegister throws after the call, if anything. */
  function Verdict(q: Transaction): Option<Error> {
    match q.result
    case Throw(e) => Some(e)
    case Ok(reply) => if q.command.ReadReg? && reply.announced < 4 then Some(InvalidResponse) else None
  }

  /** A run of writeConfig that throws `thrown`, or nothing: claim; if the claim succeeds, the
      requests of the body in order, up to the end or to the first one that fails; then exactly one
      release, whatever happened in between. */
  ghost predicate ConfigRun(h: seq<Net>, qs: seq<Transaction>, first: nat, last: nat, c: IPConfig, mode: Word,
      thrown: Option<Error>)
  {
    && Chain(h, qs, first, last)
    && qs != [] && qs[0].command == CLAIM
    && if Verdict(qs[0]).Some? then
         |qs| == 1 && thrown == Verdict(qs[0])
       else
         && 3 <= |qs| && qs[|qs| - 1].command == RELEASE
         && BodyRun(qs[1..|qs| - 1], c, mode, thrown)
  }

  ghost predicate BodyRun(body: seq<Transaction>, c: IPConfig, mode: Word, thrown: Option<Error>) {
    && 0 < |body| <= |Body(c, mode)|
    && (forall m | 0 <= m < |body| :: body[m].command == Body(c, mode)[m])
    && (forall m | 0 <= m < |body| - 1 :: Verdict(body[m]) == None)
    && thrown == Verdict(body[|body| - 1])
    && (thrown == None ==> |body| == |Body(c, mode)|)
    && (forall m | 0 <= m < |body| && body[m].command.ReadReg? && Verdict(body[m]) == None ::
          body[m].result.value.value == mode)
  }

  // ---- the device passes through prefixes only ---------------------------------------------

  predicate IsUpdate(c: Command) {
    c.WriteReg? && c.address != GEV_CCP
  }

  predicate AllUpdates(ws: seq<Command>) {
    forall i | 0 <= i < |ws| :: IsUpdate(ws[i])
  }

  function Updated(regs: map<Word, Word>, ws: seq<Command>): map<Word, Word>
    requires AllUpdates(ws)
  {
    if ws == [] then regs else Updated(regs, ws[..|ws| - 1])[ws[|ws| - 1].address := ws[|ws| - 1].value]
  }

  ghost predicate DistinctUpdates(ws: seq<Command>) {
    && AllUpdates(ws)
    && (forall i, j | 0 <= i < j < |ws| :: ws[i].address != ws[j].address)
  }

  lemma {:induction false} UpdatedAt(regs: map<Word, Word>, ws: seq<Command>, i: nat)
    requires DistinctUpdates(ws) && i < |ws|
    ensures var r := ws[i].address; r in Updated(regs, ws) && Updated(regs, ws)[r] == ws[i].value
  {
    if i < |ws| - 1 {
      assert ws[i].address != ws[|ws| - 1].address && ws[..|ws| - 1][i] == ws[i];
      UpdatedAt(regs, ws[..|ws| - 1], i);
    }
  }

  /** Every update in flight is one of `ws`, with its draw number. */
  ghost predicate OnlyThese(s: Net, serials: seq<nat>, ws: seq<Command>)
    requires |serials| == |ws|
  {
    forall n | n in s.commands && n in s.issued && s.issued[n].Some? && IsUpdate(s.issued[n].value) ::
      Among(n, s.issued[n].value, serials, ws)
  }

  ghost predicate Among(n: nat, c: Command, serials: seq<nat>, ws: seq<Command>)
    requires |serials| == |ws|
  {
    exists i :: 0 <= i < |ws| && serials[i] == n && ws[i] == c
  }

  /** All of `ws` has been carried out. */
  ghost predicate Complete(s: Net, base: map<Word, Word>, serials: seq<nat>, ws: seq<Command>) {
    && |serials| == |ws| && WellFormed(s) && DistinctUpdates(ws) && OnlyThese(s, serials, ws)
    && s.device.regs == Updated(base, ws)
  }

  /** All of `ws` has been carried out, or all but the last. */
  ghost predicate Stage(s: Net, base: map<Word, Word>, serials: seq<nat>, ws: seq<Command>) {
    && |serials| == |ws| && WellFormed(s) && DistinctUpdates(ws) && OnlyThese(s, serials, ws)
    && (s.device.regs == Updated(base, ws) || (ws != [] && s.device.regs == Updated(base, ws[..|ws| - 1])))
  }

  lemma {:induction false} AnswerUpdates(d: Device, c: Command, mood: Mood, base: map<Word, Word>, serials: seq<nat>,
      ws: seq<Command>, i: nat)
    requires |serials| == |ws| && DistinctUpdates(ws) && i < |ws| && ws[i] == c
    ensures d.regs == Updated(base, ws) ==> Answer(d, c, mood).device.regs == d.regs
    ensures ws != [] && d.regs == Updated(base, ws[..|ws| - 1]) ==>
              Answer(d, c, mood).device.regs == d.regs || Answer(d, c, mood).device.regs == Updated(base, ws)
  {
    if d.regs == Updated(base, ws) {
      UpdatedAt(base, ws, i);
      assert d.regs[c.address := c.value] == d.regs;
    } else if i < |ws| - 1 && d.regs == Updated(base, ws[..|ws| - 1]) {
      assert ws[..|ws| - 1][i] == ws[i];
      UpdatedAt(base, ws[..|ws| - 1], i);
      assert d.regs[c.address := c.value] == d.regs;
    }
  }

  lemma {:induction false} AnswerKeepsRegs(d: Device, c: Command, mood: Mood)
    requires !IsUpdate(c)
    ensures Answer(d, c, mood).device.regs == d.regs
  {
  }

  lemma {:induction false} StageStep(s: Net, e: Event, n: nat, c: Command, base: map<Word, Word>, serials: seq<nat>,
      ws: seq<Command>)
    requires Enabled(s, e) && (e.Transmit? ==> e.serial == n && e.command == Some(c))
    requires Stage(s, base, serials, ws) && (IsUpdate(c) ==> Among(n, c, serials, ws))
    ensures Stage(Apply(s, e), base, serials, ws)
    ensures Complete(s, base, serials, ws) ==> Complete(Apply(s, e), base, serials, ws)
  {
    StepKeepsWellFormed(s, e);
    if e.Deliver? && s.issued[e.serial].Some? {
      var w := s.issued[e.serial].value;
      if IsUpdate(w) {
        assert Among(e.serial, w, serials, ws);
        var i :| 0 <= i < |ws| && serials[i] == e.serial && ws[i] == w;
        AnswerUpdates(s.device, w, e.mood, base, serials, ws, i);
      } else {
        AnswerKeepsRegs(s.device, w, e.mood);
      }
    }
  }

  lemma {:induction false} StageSteps(h: seq<Net>, first: nat, last: nat, n: nat, c: Command, base: map<Word, Word>,
      serials: seq<nat>, ws: seq<Command>)
    requires Steps(h, first, last, n, Some(c))
    requires Stage(h[first], base, serials, ws) && (IsUpdate(c) ==> Among(n, c, serials, ws))
    ensures forall i | first <= i <= last :: Stage(h[i], base, serials, ws)
    ensures Complete(h[first], base, serials, ws) ==> Complete(h[last], base, serials, ws)
    decreases last
  {
    if first < last {
      StageSteps(h, first, last - 1, n, c, base, serials, ws);
      assert StepAt(h, last - 1, n, Some(c));
      var e :| Enabled(h[last - 1], e) && h[last] == Apply(h[last - 1], e)
               && (e.Transmit? ==> e.serial == n && e.command == Some(c));
      StageStep(h[last - 1], e, n, c, base, serials, ws);
    }
  }

  /** The updates among the calls, in order, and their draw numbers. */
  function Updates(qs: seq<Transaction>): (ws: seq<Command>)
    ensures AllUpdates(ws)
  {
    if qs == [] then [] else
      Updates(qs[..|qs| - 1]) + if IsUpdate(qs[|qs| - 1].command) then [qs[|qs| - 1].command] else []
  }

  function Serials(qs: seq<Transaction>): (ns: seq<nat>)
    ensures |ns| == |Updates(qs)|
  {
    if qs == [] then [] else
      Serials(qs[..|qs| - 1]) + if IsUpdate(qs[|qs| - 1].command) then [qs[|qs| - 1].serial] else []
  }

  /** No update is requested while an earlier one is not acknowledged. */
  ghost predicate OneAtATime(qs: seq<Transaction>) {
    forall m, m' | 0 <= m < m' < |qs| && IsUpdate(qs[m].command) && IsUpdate(qs[m'].command) ::
      Verdict(qs[m]) == None
  }

  ghost predicate AllAcknowledged(qs: seq<Transaction>) {
    forall m | 0 <= m < |qs| && IsUpdate(qs[m].command) :: Verdict(qs[m]) == None
  }

  ghost predicate IsPrefixState(regs: map<Word, Word>, base: map<Word, Word>, ws: seq<Command>)
    requires AllUpdates(ws)
  {
    exists k :: 0 <= k <= |ws| && regs == Updated(base, ws[..k])
  }

  lemma {:induction false} StageIsPrefix(s: Net, base: map<Word, Word>, serials: seq<nat>, ws: seq<Command>)
    requires Stage(s, base, serials, ws)
    ensures IsPrefixState(s.device.regs, base, ws)
  {
    assert ws[..|ws|] == ws;
  }

  lemma {:induction false} LongerPrefix(regs: map<Word, Word>, base: map<Word, Word>, ws: seq<Command>,
      more: seq<Command>)
    requires AllUpdates(ws) && AllUpdates(more) && IsPrefixState(regs, base, ws)
    ensures AllUpdates(ws + more) && IsPrefixState(regs, base, ws + more)
  {
    var k :| 0 <= k <= |ws| && regs == Updated(base, ws[..k]);
    assert (ws + more)[..k] == ws[..k];
  }

  lemma {:induction false} AcceptedUpdate(d: Device, c: Command, mood: Mood)
    requires IsUpdate(c) && Answer(d, c, mood).reply.status == 0
    ensures Answer(d, c, mood).device.regs == d.regs[c.address := c.value]
  {
  }

  /** The last update is on its way: what was complete is now one short of complete. */
  lemma {:induction false} NextStage(s: Net, base: map<Word, Word>, serials: seq<nat>, ws: seq<Command>, n: nat,
      c: Command)
    requires Complete(s, base, serials, ws) && DistinctUpdates(ws + [c])
    ensures Stage(s, base, serials + [n], ws + [c]) && Among(n, c, serials + [n], ws + [c])
  {
    assert (ws + [c])[..|ws|] == ws;
    assert (serials + [n])[|ws|] == n && (ws + [c])[|ws|] == c;
    forall m | m in s.commands && m in s.issued && s.issued[m].Some? && IsUpdate(s.issued[m].value)
      ensures Among(m, s.issued[m].value, serials + [n], ws + [c])
    {
      assert Among(m, s.issued[m].value, serials, ws);
      var i :| 0 <= i < |ws| && serials[i] == m && ws[i] == s.issued[m].value;
      assert (serials + [n])[i] == m && (ws + [c])[i] == s.issued[m].value;
    }
  }

  /** An acknowledged update has been carried out. */
  lemma {:induction false} UpdateCompletes(h: seq<Net>, q: Transaction, oldest: nat, base: map<Word, Word>,
      serials: seq<nat>, ws: seq<Command>)
    requires IsTransaction(h, q) && IsUpdate(q.command) && Verdict(q) == None
    requires NothingOlder(h[q.first], oldest, h[q.first].popped)
    requires oldest <= h[q.first].draws + 1 && h[q.last].draws < oldest + MAX_ID
    requires ws != [] && ws[|ws| - 1] == q.command && |serials| == |ws| && serials[|ws| - 1] == q.serial
    requires Stage(h[q.first], base, serials, ws)
    ensures Complete(h[q.last], base, serials, ws)
  {
    assert Among(q.serial, q.command, serials, ws);
    StageSteps(h, q.first, q.last, q.serial, q.command, base, serials, ws);
    var i, reply := AcknowledgesAreAuthentic(h, q, oldest);
    var mood :| h[i + 1].device == Answer(h[i].device, q.command, mood).device
                && reply == Answer(h[i].device, q.command, mood).reply
                && h[i + 1].served == h[i].served + [Served(q.serial, reply)];
    AcceptedUpdate(h[i].device, q.command, mood);
    assert Stage(h[i], base, serials, ws) && Stage(h[i + 1], base, serials, ws);
    UpdatedAt(base, ws, |ws| - 1);
    assert h[i + 1].device.regs == Updated(base, ws);
    StageSteps(h, i + 1, q.last, q.serial, q.command, base, serials, ws);
  }
}
