/** Prefix atomicity of writeConfig, and what happens to control access, when the network is
    adversarial. */
module GvcpAtomicity {
  import opened RequestCounter
  import opened GvcpMessages
  import opened GvcpNetwork
  import opened GvcpSessions

  /** Nobody else's update can reach the device, nothing on its way is older than draw `oldest`,
      and fewer than 65535 ids are drawn from there to the end. */
  ghost predicate Undisturbed(h: seq<Net>, first: nat, last: nat, oldest: nat) {
    && first <= last < |h| && WellFormed(h[first])
    && NothingOlder(h[first], oldest, h[first].popped) && oldest <= h[first].draws + 1
    && h[last].draws < oldest + MAX_ID
    && OnlyThese(h[first], [], [])
  }

  /** What holds at the end of a chain of calls that began with the registers `base`. */
  ghost predicate ChainEnd(h: seq<Net>, qs: seq<Transaction>, first: nat, last: nat, base: map<Word, Word>,
      oldest: nat) {
    && first <= last < |h| && WellFormed(h[first]) && WellFormed(h[last]) && Later(h[first], h[last])
    && NothingOlder(h[last], oldest, h[first].popped)
    && Stage(h[last], base, Serials(qs), Updates(qs))
    && (AllAcknowledged(qs) ==> Complete(h[last], base, Serials(qs), Updates(qs)))
    && forall i | first <= i <= last :: IsPrefixState(h[i].device.regs, base, Updates(qs))
  }

  lemma {:induction false} CallKeepsProvenance(h: seq<Net>, q: Transaction, oldest: nat, popped: nat)
    requires IsTransaction(h, q) && oldest <= q.serial
    requires NothingOlder(h[q.first], oldest, popped)
    ensures NothingOlder(h[q.last], oldest, popped) && Later(h[q.first], h[q.last])
  {
    assert Reserved(h[q.first], q.serial, q.command);
    StepsKeepProvenance(h, q.first, q.last, q.serial, q.command, oldest, popped);
    StepsKeepWellFormed(h, q.first, q.last, q.serial, Some(q.command));
  }

  lemma {:induction false} UpdatesSnoc(front: seq<Transaction>, q: Transaction)
    ensures Updates(front + [q]) == Updates(front) + if IsUpdate(q.command) then [q.command] else []
    ensures Serials(front + [q]) == Serials(front) + if IsUpdate(q.command) then [q.serial] else []
    ensures AllAcknowledged(front + [q]) <==>
              AllAcknowledged(front) && (IsUpdate(q.command) ==> Verdict(q) == None)
  {
  }

  lemma {:induction false} CallEnds(h: seq<Net>, q: Transaction)
    requires IsTransaction(h, q)
    ensures q.first <= q.last < |h| && WellFormed(h[q.first]) && WellFormed(h[q.last])
    ensures h[q.first].draws < q.serial <= h[q.last].draws
    ensures Steps(h, q.first, q.last, q.serial, Some(q.command))
    ensures Later(h[q.first], h[q.last])
  {
    StepsKeepWellFormed(h, q.first, q.last, q.serial, Some(q.command));
  }

  lemma {:induction false} LaterTwice(r: Net, s: Net, t: Net)
    requires Later(r, s) && Later(s, t)
    ensures Later(r, t)
  {
  }

  /** One more call that is no update. */
  lemma {:induction false} CallWithoutUpdate(h: seq<Net>, front: seq<Transaction>, q: Transaction, first: nat,
      base: map<Word, Word>, oldest: nat)
    requires ChainEnd(h, front, first, q.first, base, oldest) && IsTransaction(h, q) && !IsUpdate(q.command)
    requires oldest <= h[first].draws + 1
    ensures ChainEnd(h, front + [q], first, q.last, base, oldest)
  {
    CallEnds(h, q);
    LaterTwice(h[first], h[q.first], h[q.last]);
    DrawsGrow(h[first], h[q.first]);
    hide IsTransaction, Steps, Stage, Complete, Updates, Serials;
    hide Later, NothingOlder, IsPrefixState, WellFormed, AllAcknowledged;
    CallKeepsProvenance(h, q, oldest, h[first].popped);
    var ws, ns := Updates(front), Serials(front);
    UpdatesSnoc(front, q);
    assert ws + [] == ws && ns + [] == ns;
    StageSteps(h, q.first, q.last, q.serial, q.command, base, ns, ws);
    forall i | first <= i <= q.last ensures IsPrefixState(h[i].device.regs, base, ws) {
      if q.first <= i { StageIsPrefix(h[i], base, ns, ws); }
    }
  }

  /** One more update, all earlier ones being acknowledged. */
  lemma {:induction false} CallWithUpdate(h: seq<Net>, front: seq<Transaction>, q: Transaction, first: nat,
      base: map<Word, Word>, oldest: nat)
    requires ChainEnd(h, front, first, q.first, base, oldest) && IsTransaction(h, q) && IsUpdate(q.command)
    requires oldest <= h[first].draws + 1 && h[q.last].draws < oldest + MAX_ID
    requires AllAcknowledged(front) && DistinctUpdates(Updates(front) + [q.command])
    ensures ChainEnd(h, front + [q], first, q.last, base, oldest)
  {
    CallEnds(h, q);
    LaterTwice(h[first], h[q.first], h[q.last]);
    DrawsGrow(h[first], h[q.first]);
    hide IsTransaction, Steps, Stage, Complete, Updates, Serials;
    hide Later, NothingOlder, IsPrefixState, WellFormed, AllAcknowledged;
    hide DistinctUpdates;
    CallKeepsProvenance(h, q, oldest, h[first].popped);
    var ws, ns := Updates(front), Serials(front);
    var ws', ns' := ws + [q.command], ns + [q.serial];
    UpdatesSnoc(front, q);
    NextStage(h[q.first], base, ns, ws, q.serial, q.command);
    StageSteps(h, q.first, q.last, q.serial, q.command, base, ns', ws');
    if Verdict(q) == None {
      NothingOlderLater(h[q.first], oldest, h[first].popped, h[q.first].popped);
      UpdateCompletes(h, q, oldest, base, ns', ws');
    }
    forall i | first <= i <= q.last ensures IsPrefixState(h[i].device.regs, base, ws') {
      if q.first <= i {
        StageIsPrefix(h[i], base, ns', ws');
      } else {
        LongerPrefix(h[i].device.regs, base, ws, [q.command]);
      }
    }
  }

  lemma {:induction false} DrawsGrow(s: Net, t: Net)
    requires Later(s, t)
    ensures s.draws <= t.draws && s.popped <= t.popped
  {
  }

  lemma {:induction false} NothingOlderLater(s: Net, oldest: nat, popped: nat, later: nat)
    requires WellFormed(s) && NothingOlder(s, oldest, popped) && popped <= later
    ensures NothingOlder(s, oldest, later)
  {
  }

  /** Any chain of calls that requests one update at a time takes the device through prefixes of
      its updates only. */
  lemma {:induction false} ChainPassesThroughPrefixes(h: seq<Net>, qs: seq<Transaction>, first: nat, last: nat,
      oldest: nat)
    requires Chain(h, qs, first, last) && Undisturbed(h, first, last, oldest)
    requires OneAtATime(qs) && DistinctUpdates(Updates(qs))
    ensures ChainEnd(h, qs, first, last, h[first].device.regs, oldest)
    decreases |qs|
  {
    var base := h[first].device.regs;
    if qs == [] {
      assert Updated(base, []) == base;
      StageIsPrefix(h[first], base, [], []);
    } else {
      var q, front := qs[|qs| - 1], qs[..|qs| - 1];
      assert qs == front + [q];
      ChainFront(h, qs, first, last);
      assert IsTransaction(h, q);
      CallDraws(h, q);
      FrontOfUpdates(qs);
      ChainOrder(h, front, first, q.first);
      ChainPassesThroughPrefixes(h, front, first, q.first, oldest);
      if IsUpdate(q.command) {
        CallWithUpdate(h, front, q, first, base, oldest);
      } else {
        CallWithoutUpdate(h, front, q, first, base, oldest);
      }
    }
  }

  lemma {:induction false} CallDraws(h: seq<Net>, q: Transaction)
    requires IsTransaction(h, q)
    ensures q.first <= q.last < |h| && h[q.first].draws <= h[q.last].draws
  {
  }

  lemma {:induction false} ChainOrder(h: seq<Net>, qs: seq<Transaction>, first: nat, last: nat)
    requires Chain(h, qs, first, last)
    ensures first <= last < |h|
    decreases |qs|
  {
    if qs != [] {
      ChainFront(h, qs, first, last);
      assert IsTransaction(h, qs[|qs| - 1]);
      ChainOrder(h, qs[..|qs| - 1], first, qs[|qs| - 1].first);
    }
  }

  lemma {:induction false} FrontOfUpdates(qs: seq<Transaction>)
    requires qs != [] && OneAtATime(qs) && DistinctUpdates(Updates(qs))
    ensures var front := qs[..|qs| - 1];
      && OneAtATime(front) && DistinctUpdates(Updates(front))
      && (IsUpdate(qs[|qs| - 1].command) ==> AllAcknowledged(front))
  {
    var front, q := qs[..|qs| - 1], qs[|qs| - 1];
    var all, ws := Updates(qs), Updates(front);
    assert all == ws + if IsUpdate(q.command) then [q.command] else [];
    forall i, j | 0 <= i < j < |ws| ensures ws[i].address != ws[j].address {
      assert all[i] == ws[i] && all[j] == ws[j];
    }
    forall m | 0 <= m < |front| && IsUpdate(q.command) && IsUpdate(front[m].command) ensures Verdict(front[m]) == None {
      assert qs[m] == front[m];
    }
  }

  // ---- the updates of writeConfig ----------------------------------------------------------

  function AddressUpdates(c: IPConfig): seq<Command> {
    if c.persistentIpEnabled then
      [WriteReg(GEV_PERSISTENT_IP_ADDRESS, c.persistentIp),
       WriteReg(GEV_PERSISTENT_SUBNET_MASK, c.persistentSubnet),
       WriteReg(GEV_PERSISTENT_DEFAULT_GATEWAY, c.persistentGateway)]
    else []
  }

  function ModeUpdate(c: IPConfig, mode: Word): Command {
    WriteReg(GEV_CURRENT_IP_CONFIGURATION, NewMode(mode, c))
  }

  const READ_MODE := ReadReg(GEV_CURRENT_IP_CONFIGURATION)

  /** The addresses first, the mode last. */
  function ConfigUpdates(c: IPConfig, mode: Word): (ws: seq<Command>)
    ensures AllUpdates(ws)
  {
    AddressUpdates(c) + [ModeUpdate(c, mode)]
  }

  lemma {:induction false} ConfigUpdatesAreDistinct(c: IPConfig, mode: Word)
    ensures DistinctUpdates(ConfigUpdates(c, mode))
    ensures DistinctUpdates(AddressUpdates(c))
    ensures forall w <- AddressUpdates(c) :: w.WriteReg? && w.address != GEV_CURRENT_IP_CONFIGURATION
  {
  }

  function UpdatesIn(cs: seq<Command>): seq<Command> {
    if cs == [] then [] else
      UpdatesIn(cs[..|cs| - 1]) + if IsUpdate(cs[|cs| - 1]) then [cs[|cs| - 1]] else []
  }

  function Commands(qs: seq<Transaction>): seq<Command> {
    seq(|qs|, i requires 0 <= i < |qs| => qs[i].command)
  }

  lemma {:induction false} UpdatesOfCommands(qs: seq<Transaction>)
    ensures Updates(qs) == UpdatesIn(Commands(qs))
  {
    if qs != [] {
      UpdatesOfCommands(qs[..|qs| - 1]);
      assert Commands(qs)[..|qs| - 1] == Commands(qs[..|qs| - 1]);
    }
  }

  lemma {:induction false} UpdatesInConcat(a: seq<Command>, b: seq<Command>)
    ensures UpdatesIn(a + b) == UpdatesIn(a) + UpdatesIn(b)
    decreases |b|
  {
    if b == [] {
      assert a + b == a;
    } else {
      UpdatesInConcat(a, b[..|b| - 1]);
      assert (a + b)[..|a + b| - 1] == a + b[..|b| - 1];
    }
  }

  lemma {:induction false} UpdatesInUpdates(ws: seq<Command>)
    requires AllUpdates(ws)
    ensures UpdatesIn(ws) == ws
  {
    if ws != [] {
      UpdatesInUpdates(ws[..|ws| - 1]);
      assert ws == ws[..|ws| - 1] + [ws[|ws| - 1]];
    }
  }

  lemma {:induction false} BodyParts(c: IPConfig, mode: Word)
    ensures Body(c, mode) == AddressUpdates(c) + [READ_MODE] + [ModeUpdate(c, mode)]
    ensures |Body(c, mode)| == |AddressUpdates(c)| + 2
    ensures AllUpdates(AddressUpdates(c)) && IsUpdate(ModeUpdate(c, mode))
  {
  }

  lemma {:induction false} UpdatesInParts(a: seq<Command>, read: Command, write: Command, k: nat)
    requires AllUpdates(a) && !IsUpdate(read) && IsUpdate(write) && k <= |a| + 2
    ensures UpdatesIn((a + [read] + [write])[..k])
         == if k <= |a| then a[..k] else if k == |a| + 1 then a else a + [write]
  {
    var b := a + [read] + [write];
    if k <= |a| {
      assert b[..k] == a[..k];
      UpdatesInUpdates(a[..k]);
    } else {
      UpdatesInUpdates(a);
      assert (a + [read])[..|a|] == a;
      assert UpdatesIn(a + [read]) == a + [] == a;
      if k == |a| + 1 {
        assert b[..k] == a + [read];
      } else {
        assert b[..k] == b && b[..|a| + 1] == a + [read];
      }
    }
  }

  /** How far the body got decides which updates were requested. */
  lemma {:induction false} UpdatesInBody(c: IPConfig, mode: Word, k: nat)
    requires k <= |Body(c, mode)|
    ensures Body(c, mode) == AddressUpdates(c) + [READ_MODE] + [ModeUpdate(c, mode)]
    ensures UpdatesIn(Body(c, mode)[..k]) ==
            if k <= |AddressUpdates(c)| then AddressUpdates(c)[..k]
            else if k < |Body(c, mode)| then AddressUpdates(c)
            else ConfigUpdates(c, mode)
  {
    BodyParts(c, mode);
    hide Body, AddressUpdates, ModeUpdate, UpdatesIn;
    UpdatesInParts(AddressUpdates(c), READ_MODE, ModeUpdate(c, mode), k);
  }

  /** The calls of a run, the claim first; `closed` tells whether it was released again. */
  lemma {:induction false} UpdatesOfRun(qs: seq<Transaction>, c: IPConfig, mode: Word, k: nat, closed: bool)
    requires k <= |Body(c, mode)| && |qs| == 1 + k + (if closed then 1 else 0)
    requires qs[0].command == CLAIM && (closed ==> qs[|qs| - 1].command == RELEASE)
    requires forall m | 0 <= m < k :: qs[m + 1].command == Body(c, mode)[m]
    ensures Updates(qs) == UpdatesIn(Body(c, mode)[..k])
  {
    UpdatesOfCommands(qs);
    var b := Body(c, mode)[..k];
    var tail := if closed then [RELEASE] else [];
    assert Commands(qs) == [CLAIM] + b + tail;
    UpdatesInConcat([CLAIM] + b, tail);
    UpdatesInConcat([CLAIM], b);
    assert UpdatesIn([CLAIM]) == [] && UpdatesIn(tail) == [];
  }

  lemma {:induction false} ChainPrefix(h: seq<Net>, qs: seq<Transaction>, first: nat, last: nat, k: nat)
    requires Chain(h, qs, first, last) && k < |qs|
    ensures IsTransaction(h, qs[k]) && Chain(h, qs[..k], first, qs[k].first)
    ensures first <= qs[k].first <= qs[k].last <= last < |h| && h[qs[k].last].draws <= h[last].draws
    decreases |qs|
  {
    var q, front := qs[|qs| - 1], qs[..|qs| - 1];
    ChainFront(h, qs, first, last);
    assert IsTransaction(h, q);
    CallDraws(h, q);
    hide IsTransaction;
    ChainOrder(h, front, first, q.first);
    if k < |front| {
      ChainPrefix(h, front, first, q.first, k);
      assert front[..k] == qs[..k];
    }
  }

  lemma {:induction false} PrefixOfDistinct(ws: seq<Command>, k: nat)
    requires DistinctUpdates(ws) && k <= |ws|
    ensures DistinctUpdates(ws[..k])
  {
  }

  /** A run of writeConfig requests its updates one at a time. */
  lemma {:induction false} RunIsOneAtATime(h: seq<Net>, qs: seq<Transaction>, first: nat, last: nat, c: IPConfig,
      mode: Word, thrown: Option<Error>)
    requires ConfigRun(h, qs, first, last, c, mode, thrown)
    ensures OneAtATime(qs) && (thrown == None ==> AllAcknowledged(qs))
  {
    hide Chain, Body;
    var closed := Verdict(qs[0]) == None;
    var body := if closed then qs[1..|qs| - 1] else [];
    forall m | 0 <= m < |qs| && IsUpdate(qs[m].command)
      ensures 0 < m <= |body| && (m < |body| || thrown == None ==> Verdict(qs[m]) == None)
    {
      if 0 < m <= |body| {
        assert qs[m] == body[m - 1];
      }
    }
  }

  /** It requests them in order. */
  lemma {:induction false} RunUpdates(h: seq<Net>, qs: seq<Transaction>, first: nat, last: nat, c: IPConfig,
      mode: Word, thrown: Option<Error>)
    returns (k: nat)
    requires ConfigRun(h, qs, first, last, c, mode, thrown)
    ensures k <= |ConfigUpdates(c, mode)| && Updates(qs) == ConfigUpdates(c, mode)[..k]
    ensures DistinctUpdates(Updates(qs))
    ensures thrown == None ==> k == |ConfigUpdates(c, mode)|
    ensures k == |ConfigUpdates(c, mode)| ==> |qs| == |Body(c, mode)| + 2
  {
    BodyParts(c, mode);
    hide Chain, NewMode, UpdatesIn, Updates, Body, AddressUpdates, ModeUpdate;
    var closed := Verdict(qs[0]) == None;
    var body := if closed then qs[1..|qs| - 1] else [];
    forall m | 0 <= m < |body| ensures qs[m + 1].command == Body(c, mode)[m] {
      assert qs[m + 1] == body[m];
    }
    UpdatesOfRun(qs, c, mode, |body|, closed);
    UpdatesInBody(c, mode, |body|);
    ConfigUpdatesAreDistinct(c, mode);
    var n := |AddressUpdates(c)|;
    k := if |body| <= n then |body| else if |body| == n + 1 then n else n + 1;
    assert ConfigUpdates(c, mode)[..n] == AddressUpdates(c);
    PrefixOfDistinct(ConfigUpdates(c, mode), k);
  }

  /** A value read is the value of the device's register at some moment of the call. */
  lemma {:induction false} ReadsAreAuthentic(h: seq<Net>, q: Transaction, oldest: nat, popped: nat) returns (i: nat)
    requires IsTransaction(h, q) && q.command.ReadReg? && q.command.address != GEV_CCP && Verdict(q) == None
    requires NothingOlder(h[q.first], oldest, popped) && popped <= h[q.first].popped
    requires oldest <= h[q.first].draws + 1 && h[q.last].draws < oldest + MAX_ID
    ensures q.first <= i < q.last
    ensures var r := q.command.address; r in h[i].device.regs && h[i].device.regs[r] == q.result.value.value
  {
    NothingOlderLater(h[q.first], oldest, popped, h[q.first].popped);
    var reply;
    i, reply := AcknowledgesAreAuthentic(h, q, oldest);
  }

  lemma {:induction false} UpdatedElsewhere(base: map<Word, Word>, ws: seq<Command>, r: Word)
    requires AllUpdates(ws) && forall w <- ws :: w.WriteReg? && w.address != r
    ensures r in Updated(base, ws) <==> r in base
    ensures r in base ==> Updated(base, ws)[r] == base[r]
  {
    if ws != [] {
      assert ws[|ws| - 1] in ws;
      UpdatedElsewhere(base, ws[..|ws| - 1], r);
    }
  }

  /** The calls in front of the read of the mode register update the addresses. */
  lemma {:induction false} FrontOfRead(h: seq<Net>, qs: seq<Transaction>, first: nat, last: nat, c: IPConfig,
      mode: Word, thrown: Option<Error>)
    requires ConfigRun(h, qs, first, last, c, mode, thrown) && |qs| == |Body(c, mode)| + 2
    ensures var front := qs[..|AddressUpdates(c)| + 1];
      Updates(front) == AddressUpdates(c) && OneAtATime(front) && DistinctUpdates(Updates(front))
  {
    BodyParts(c, mode);
    hide Chain, NewMode, UpdatesIn, Updates, Body, AddressUpdates;
    var n, body := |AddressUpdates(c)|, qs[1..|qs| - 1];
    var front := qs[..n + 1];
    assert Verdict(qs[0]) == None;
    forall m | 0 <= m < n ensures front[m + 1].command == Body(c, mode)[m] && Verdict(front[m + 1]) == None {
      assert front[m + 1] == body[m];
    }
    UpdatesOfRun(front, c, mode, n, false);
    UpdatesInBody(c, mode, n);
    ConfigUpdatesAreDistinct(c, mode);
    assert AddressUpdates(c)[..n] == AddressUpdates(c);
    forall m | 0 <= m < |front| && IsUpdate(front[m].command) ensures Verdict(front[m]) == None {
      assert m > 0;
      assert front[m - 1 + 1] == front[m];
    }
  }

  /** Up to and including the read of the mode register, the run updates addresses only. */
  lemma {:induction false} AddressesUntilRead(h: seq<Net>, qs: seq<Transaction>, first: nat, last: nat, c: IPConfig,
      mode: Word, thrown: Option<Error>, oldest: nat)
    requires ConfigRun(h, qs, first, last, c, mode, thrown) && Undisturbed(h, first, last, oldest)
    requires |qs| == |Body(c, mode)| + 2
    ensures var q := qs[|AddressUpdates(c)| + 1];
      && IsTransaction(h, q) && first <= q.first && q.last <= last
      && Undisturbed(h, first, q.last, oldest)
      && ChainEnd(h, qs[..|AddressUpdates(c)| + 1], first, q.first, h[first].device.regs, oldest)
  {
    BodyParts(c, mode);
    hide Body, AddressUpdates;
    var n := |AddressUpdates(c)|;
    FrontOfRead(h, qs, first, last, c, mode, thrown);
    var q, front := qs[n + 1], qs[..n + 1];
    assert Chain(h, qs, first, last);
    ChainPrefix(h, qs, first, last, n + 1);
    CallDraws(h, q);
    hide IsTransaction, Steps, Stage, Complete, NothingOlder, WellFormed, Chain;
    hide OnlyThese, IsPrefixState, ConfigRun, Updates, NewMode;
    ChainPassesThroughPrefixes(h, front, first, q.first, oldest);
  }

  lemma {:induction false} ChainEndPrefix(h: seq<Net>, qs: seq<Transaction>, first: nat, last: nat,
      base: map<Word, Word>, oldest: nat, i: nat)
    requires ChainEnd(h, qs, first, last, base, oldest) && first <= i <= last
    ensures IsPrefixState(h[i].device.regs, base, Updates(qs))
  {
  }

  /** While the mode register is read the addresses are being updated, or have been. */
  lemma {:induction false} RegistersDuringRead(h: seq<Net>, front: seq<Transaction>, q: Transaction, first: nat,
      c: IPConfig, oldest: nat, i: nat)
    requires first < |h| && ChainEnd(h, front, first, q.first, h[first].device.regs, oldest)
    requires IsTransaction(h, q) && !IsUpdate(q.command)
    requires oldest <= h[first].draws + 1 && Updates(front) == AddressUpdates(c) && q.first <= i <= q.last
    ensures IsPrefixState(h[i].device.regs, h[first].device.regs, AddressUpdates(c))
  {
    CallWithoutUpdate(h, front, q, first, h[first].device.regs, oldest);
    hide IsTransaction, ChainEnd, Updates, AddressUpdates, IsPrefixState;
    UpdatesSnoc(front, q);
    assert AddressUpdates(c) + [] == AddressUpdates(c);
    ChainEndPrefix(h, front + [q], first, q.last, h[first].device.regs, oldest, i);
  }

  lemma {:induction false} ReadsOriginalMode(h: seq<Net>, front: seq<Transaction>, q: Transaction, first: nat,
      c: IPConfig, oldest: nat)
    requires first < |h| && ChainEnd(h, front, first, q.first, h[first].device.regs, oldest)
    requires IsTransaction(h, q) && q.command == READ_MODE && Verdict(q) == None
    requires oldest <= h[first].draws + 1 && h[q.last].draws < oldest + MAX_ID && Updates(front) == AddressUpdates(c)
    ensures GEV_CURRENT_IP_CONFIGURATION in h[first].device.regs
    ensures h[first].device.regs[GEV_CURRENT_IP_CONFIGURATION] == q.result.value.value
  {
    CallEnds(h, q);
    hide IsTransaction, ChainEnd, WellFormed, IsPrefixState, NothingOlder, Updates, AddressUpdates, Verdict;
    ChainEndGrows(h, front, first, q.first, h[first].device.regs, oldest);
    var i := ReadsAreAuthentic(h, q, oldest, h[first].popped);
    RegistersDuringRead(h, front, q, first, c, oldest, i);
    ModeBeforeItsUpdate(h[i].device.regs, h[first].device.regs, c);
  }

  /** The mode that the body was computed from is the mode before the run. */
  lemma {:induction false} ModeIsAuthentic(h: seq<Net>, qs: seq<Transaction>, first: nat, last: nat, c: IPConfig,
      mode: Word, thrown: Option<Error>, oldest: nat)
    requires ConfigRun(h, qs, first, last, c, mode, thrown) && Undisturbed(h, first, last, oldest)
    requires |qs| == |Body(c, mode)| + 2
    ensures GEV_CURRENT_IP_CONFIGURATION in h[first].device.regs
    ensures h[first].device.regs[GEV_CURRENT_IP_CONFIGURATION] == mode
  {
    BodyParts(c, mode);
    hide IsTransaction, WellFormed, Chain, ChainEnd, NothingOlder, ConfigRun, OnlyThese;
    hide Updates, AddressUpdates, Body, Verdict, DistinctUpdates;
    ReadInRun(h, qs, first, last, c, mode, thrown);
    AddressesUntilRead(h, qs, first, last, c, mode, thrown, oldest);
    FrontOfRead(h, qs, first, last, c, mode, thrown);
    var n := |AddressUpdates(c)|;
    ReadsOriginalMode(h, qs[..n + 1], qs[n + 1], first, c, oldest);
  }

  lemma {:induction false} ChainEndGrows(h: seq<Net>, qs: seq<Transaction>, first: nat, last: nat,
      base: map<Word, Word>, oldest: nat)
    requires ChainEnd(h, qs, first, last, base, oldest)
    ensures first <= last < |h| && h[first].draws <= h[last].draws && h[first].popped <= h[last].popped
    ensures WellFormed(h[last]) && NothingOlder(h[last], oldest, h[first].popped)
  {
  }

  lemma {:induction false} ReadInRun(h: seq<Net>, qs: seq<Transaction>, first: nat, last: nat, c: IPConfig,
      mode: Word, thrown: Option<Error>)
    requires ConfigRun(h, qs, first, last, c, mode, thrown) && |qs| == |Body(c, mode)| + 2
    ensures var q := qs[|AddressUpdates(c)| + 1];
      q.command == READ_MODE && Verdict(q) == None && q.result.value.value == mode
  {
    hide Chain, NewMode;
    var n, body := |AddressUpdates(c)|, qs[1..|qs| - 1];
    assert Verdict(qs[0]) == None;
    assert body[n] == qs[n + 1] && body[n].command == Body(c, mode)[n];
    assert Body(c, mode)[n] == READ_MODE;
  }

  lemma {:induction false} ModeBeforeItsUpdate(regs: map<Word, Word>, base: map<Word, Word>, c: IPConfig)
    requires IsPrefixState(regs, base, AddressUpdates(c))
    ensures var r := GEV_CURRENT_IP_CONFIGURATION;
      (r in regs <==> r in base) && (r in base ==> regs[r] == base[r])
  {
    var j :| 0 <= j <= |AddressUpdates(c)| && regs == Updated(base, AddressUpdates(c)[..j]);
    ConfigUpdatesAreDistinct(c, 0);
    UpdatedElsewhere(base, AddressUpdates(c)[..j], GEV_CURRENT_IP_CONFIGURATION);
  }

  function ModeIn(regs: map<Word, Word>): Word {
    if GEV_CURRENT_IP_CONFIGURATION in regs then regs[GEV_CURRENT_IP_CONFIGURATION] else 0
  }

  /** The updates requested are those computed from the mode before the run. */
  lemma {:induction false} RunUpdatesActual(h: seq<Net>, qs: seq<Transaction>, first: nat, last: nat, c: IPConfig,
      mode: Word, thrown: Option<Error>, oldest: nat) returns (k: nat)
    requires ConfigRun(h, qs, first, last, c, mode, thrown) && Undisturbed(h, first, last, oldest)
    ensures var ws := ConfigUpdates(c, ModeIn(h[first].device.regs));
      k <= |ws| && Updates(qs) == ws[..k] && (thrown == None ==> k == |ws|)
    ensures DistinctUpdates(Updates(qs))
  {
    hide ConfigRun, Undisturbed, NewMode, Updates, DistinctUpdates;
    k := RunUpdates(h, qs, first, last, c, mode, thrown);
    if k == |ConfigUpdates(c, mode)| {
      ModeIsAuthentic(h, qs, first, last, c, mode, thrown, oldest);
    }
  }

  /** In every state of the run, whether or not it throws, the device's registers are the original
      ones with a prefix of [address, subnet, gateway, mode] carried out; so the mode never changes
      before all three addresses have. A run that throws nothing has carried out all of it. */
  lemma {:induction false} PrefixAtomicity(h: seq<Net>, qs: seq<Transaction>, first: nat, last: nat, c: IPConfig,
      mode: Word, thrown: Option<Error>, oldest: nat)
    requires ConfigRun(h, qs, first, last, c, mode, thrown) && Undisturbed(h, first, last, oldest)
    ensures var base := h[first].device.regs; var ws := ConfigUpdates(c, ModeIn(base));
      && (forall i | first <= i <= last :: IsPrefixState(h[i].device.regs, base, ws))
      && (thrown == None ==> h[last].device.regs == Updated(base, ws))
  {
    var base := h[first].device.regs;
    var ws := ConfigUpdates(c, ModeIn(base));
    assert Chain(h, qs, first, last);
    var k := RunUpdatesActual(h, qs, first, last, c, mode, thrown, oldest);
    hide Chain, ConfigRun, ConfigUpdates, Updates, Stage, WellFormed, OnlyThese, IsPrefixState, NothingOlder, Later;
    hide DistinctUpdates, AllAcknowledged, Complete, Updated, Serials;
    RunIsOneAtATime(h, qs, first, last, c, mode, thrown);
    ChainPassesThroughPrefixes(h, qs, first, last, oldest);
    forall i | first <= i <= last ensures IsPrefixState(h[i].device.regs, base, ws) {
      PrefixOfPrefix(h[i].device.regs, base, Updates(qs), ws, k);
    }
    if thrown == None {
      assert ws[..|ws|] == ws;
      CompleteRegs(h[last], base, Serials(qs), Updates(qs));
    }
  }

  lemma {:induction false} PrefixOfPrefix(regs: map<Word, Word>, base: map<Word, Word>, front: seq<Command>,
      ws: seq<Command>, k: nat)
    requires AllUpdates(front) && AllUpdates(ws) && k <= |ws| && front == ws[..k]
    requires IsPrefixState(regs, base, front)
    ensures IsPrefixState(regs, base, ws)
  {
    assert ws[..k] + ws[k..] == ws;
    LongerPrefix(regs, base, front, ws[k..]);
  }

  lemma {:induction false} CompleteRegs(s: Net, base: map<Word, Word>, serials: seq<nat>, ws: seq<Command>)
    requires Complete(s, base, serials, ws)
    ensures AllUpdates(ws) && s.device.regs == Updated(base, ws)
  {
  }

  /** Whatever is still in flight when the run is over, copies of its own requests included, the
      device's registers stay a prefix; and complete if the run was. */
  lemma {:induction false} LateDuplicatesAreHarmless(h: seq<Net>, qs: seq<Transaction>, first: nat, last: nat,
      c: IPConfig, mode: Word, thrown: Option<Error>, oldest: nat, end: nat)
    requires ConfigRun(h, qs, first, last, c, mode, thrown) && Undisturbed(h, first, last, oldest)
    requires Quiet(h, last, end)
    ensures var base := h[first].device.regs; var ws := ConfigUpdates(c, ModeIn(base));
      && (forall i | last <= i <= end :: IsPrefixState(h[i].device.regs, base, ws))
      && (thrown == None ==> h[end].device.regs == Updated(base, ws))
  {
    var base := h[first].device.regs;
    var ws := ConfigUpdates(c, ModeIn(base));
    assert Chain(h, qs, first, last);
    var k := RunUpdatesActual(h, qs, first, last, c, mode, thrown, oldest);
    hide Chain, ConfigRun, ConfigUpdates, Updates, Stage, WellFormed, OnlyThese, IsPrefixState, NothingOlder, Later;
    hide DistinctUpdates, AllAcknowledged, Complete, Updated, Serials, Steps, Quiet;
    RunIsOneAtATime(h, qs, first, last, c, mode, thrown);
    ChainPassesThroughPrefixes(h, qs, first, last, oldest);
    QuietIsSteps(h, last, end, 0, Some(READ_MODE));
    StageSteps(h, last, end, 0, READ_MODE, base, Serials(qs), Updates(qs));
    forall i | last <= i <= end ensures IsPrefixState(h[i].device.regs, base, ws) {
      StageIsPrefix(h[i], base, Serials(qs), Updates(qs));
      PrefixOfPrefix(h[i].device.regs, base, Updates(qs), ws, k);
    }
    if thrown == None {
      assert ws[..|ws|] == ws;
      CompleteRegs(h[end], base, Serials(qs), Updates(qs));
    }
  }

  // ---- control access ----------------------------------------------------------------------

  /** The draw numbers of all transmissions, in order. */
  function Transmissions(qs: seq<Transaction>): seq<nat> {
    if qs == [] then [] else
      Transmissions(qs[..|qs| - 1]) + Repeat(qs[|qs| - 1].serial, qs[|qs| - 1].copies)
  }

  function Copies(c: Command, count: nat): seq<Command> {
    seq(count, _ => c)
  }

  /** The same transmissions, as requests. */
  function Datagrams(qs: seq<Transaction>): seq<Command> {
    if qs == [] then [] else
      Datagrams(qs[..|qs| - 1]) + Copies(qs[|qs| - 1].command, qs[|qs| - 1].copies)
  }

  /** The client transmits what its calls say and nothing else. */
  lemma {:induction false} TransmitsItsCallsOnly(h: seq<Net>, qs: seq<Transaction>, first: nat, last: nat)
    requires Chain(h, qs, first, last)
    ensures first <= last < |h| && h[last].sent == h[first].sent + Transmissions(qs)
    decreases |qs|
  {
    if qs == [] {
      assert h[first].sent + [] == h[first].sent;
    } else {
      var q, front := qs[|qs| - 1], qs[..|qs| - 1];
      ChainFront(h, qs, first, last);
      assert IsTransaction(h, q);
      CallDraws(h, q);
      TransmitsItsCallsOnly(h, front, first, q.first);
    }
  }

  /** A run whose claim fails sends nothing after it. */
  lemma {:induction false} FailedClaimEndsTheRun(h: seq<Net>, qs: seq<Transaction>, first: nat, last: nat,
      c: IPConfig, mode: Word, thrown: Option<Error>)
    requires ConfigRun(h, qs, first, last, c, mode, thrown) && Verdict(qs[0]).Some?
    ensures thrown == Verdict(qs[0]) && Datagrams(qs) == Copies(CLAIM, qs[0].copies)
    ensures h[last].sent == h[first].sent + Repeat(qs[0].serial, qs[0].copies)
  {
  }
}
