/** The path between one GVCP socket and its device, as a transition system. Nothing is forged:
    what is in flight towards the device was transmitted by this socket, what is in flight towards
    the socket was produced by the device. Apart from that the network drops, delays, duplicates
    and reorders at will. */
module GvcpNetwork {
  import opened RequestCounter
  import opened GvcpMessages

  /** The device's answer to the request with draw number `serial`. */
  datatype Served = Served(serial: nat, reply: Reply)

  /** draws      ids drawn by the whole process so far
      issued     every request of this socket, by draw number; None if no device can read it
      sent       the draw numbers in the order of transmission
      commands   requests in flight
      served     everything the device answered, oldest first
      replies    answers in flight, as positions in `served`
      arrived    answers put into the socket's queue, oldest first; the first `popped` were taken */
  datatype Net = Net(
    draws: nat,
    issued: map<nat, Option<Command>>,
    sent: seq<nat>,
    commands: set<nat>,
    served: seq<Served>,
    replies: set<nat>,
    arrived: seq<nat>,
    popped: nat,
    device: Device)

  /** A device may refuse a request, or answer with fewer bytes, and announce more or fewer. */
  datatype Mood = Plain | Refuses(status: Half) | Garbles(length: nat, announced: Half)

  datatype Event =
    // the client's own steps
    | Draw
    | Transmit(serial: nat, command: Option<Command>)
    | Pop
    // the network's and the device's
    | Deliver(serial: nat, mood: Mood)
    | LoseCommand(serial: nat)
    | Arrive(position: nat)
    | LoseReply(position: nat)
    | OtherThreadDraws
    | ControlExpires
    | OtherClientClaims
    | OtherClientReleases

  ghost predicate WellFormed(s: Net) {
    && s.popped <= |s.arrived|
    && (forall i | 0 <= i < |s.arrived| :: s.arrived[i] < |s.served|)
    && (forall j <- s.replies :: j < |s.served|)
    && (forall n <- s.commands :: n in s.issued)
    && (forall n <- s.issued :: 0 < n <= s.draws)
    && (forall j | 0 <= j < |s.served| :: GenuineReply(s, s.served[j]))
  }

  /** The answer is one to a request of this socket that can be read. */
  ghost predicate GenuineReply(s: Net, e: Served) {
    e.serial in s.issued && s.issued[e.serial].Some?
  }

  function Answer(d: Device, c: Command, mood: Mood): Response {
    match mood
    case Plain => Serve(d, c)
    case Refuses(status) => if status == 0 then Serve(d, c) else Response(d, Reply(status, 0, 0, 0))
    case Garbles(length, announced) =>
      var r := Serve(d, c);
      var sent := if length < r.reply.length then length else r.reply.length;
      r.(reply := r.reply.(length := sent, announced := announced))
  }

  predicate Enabled(s: Net, e: Event) {
    match e
    case Draw => true
    case Transmit(n, p) => 0 < n <= s.draws && (n in s.issued ==> s.issued[n] == p)
    case Pop => s.popped < |s.arrived|
    case Deliver(n, _) => n in s.commands && n in s.issued
    case LoseCommand(n) => n in s.commands
    case Arrive(j) => j in s.replies
    case LoseReply(j) => j in s.replies
    case OtherThreadDraws => true
    case ControlExpires => !s.device.foreign
    case OtherClientClaims => s.device.ccp == 0 && !s.device.foreign
    case OtherClientReleases => s.device.foreign
  }

  function Apply(s: Net, e: Event): Net
    requires Enabled(s, e)
  {
    match e
    case Draw => s.(draws := s.draws + 1)
    case Transmit(n, p) => s.(issued := s.issued[n := p], sent := s.sent + [n], commands := s.commands + {n})
    case Pop => s.(popped := s.popped + 1)
    case Deliver(n, mood) =>
      var c := s.issued[n];
      if c.None? then s
      else
        var r := Answer(s.device, c.value, mood);
        s.(device := r.device, served := s.served + [Served(n, r.reply)], replies := s.replies + {|s.served|})
    case LoseCommand(n) => s.(commands := s.commands - {n})
    case Arrive(j) => s.(arrived := s.arrived + [j])
    case LoseReply(j) => s.(replies := s.replies - {j})
    case OtherThreadDraws => s.(draws := s.draws + 1)
    case ControlExpires => s.(device := s.device.(ccp := 0))
    case OtherClientClaims => s.(device := s.device.(foreign := true))
    case OtherClientReleases => s.(device := s.device.(foreign := false))
  }

  ghost predicate Step(s: Net, t: Net) {
    exists e :: Enabled(s, e) && t == Apply(s, e)
  }

  /** A step in which the client transmits nothing but request `n`, which reads `p`. */
  ghost predicate StepOf(s: Net, t: Net, n: nat, p: Option<Command>) {
    exists e :: Enabled(s, e) && t == Apply(s, e) && (e.Transmit? ==> e.serial == n && e.command == p)
  }

  lemma {:induction false} StepKeepsWellFormed(s: Net, e: Event)
    requires WellFormed(s) && Enabled(s, e)
    ensures WellFormed(Apply(s, e))
  {
    if e.Deliver? && s.issued[e.serial].Some? {
      var t := Apply(s, e);
      assert |t.served| == |s.served| + 1;
      forall j | 0 <= j < |t.served| ensures GenuineReply(t, t.served[j]) {
        if j < |s.served| { assert t.served[j] == s.served[j]; }
      }
    }
  }

  lemma {:induction false} StepOfKeepsWellFormed(s: Net, t: Net, n: nat, p: Option<Command>)
    requires WellFormed(s) && StepOf(s, t, n, p)
    ensures WellFormed(t) && Later(s, t)
  {
    var e :| Enabled(s, e) && t == Apply(s, e) && (e.Transmit? ==> e.serial == n && e.command == p);
    StepKeepsWellFormed(s, e);
  }

  /** What no step takes back. */
  ghost predicate Later(s: Net, t: Net) {
    && s.draws <= t.draws && s.popped <= t.popped
    && s.served <= t.served && s.arrived <= t.arrived
    && (forall n <- s.issued :: n in t.issued && t.issued[n] == s.issued[n])
  }

  // ---- runs -------------------------------------------------------------------------------

  ghost predicate StepAt(h: seq<Net>, i: nat, n: nat, p: Option<Command>) {
    i + 1 < |h| && StepOf(h[i], h[i + 1], n, p)
  }

  /** From `first` to `last` the history `h` consists of the network's steps, draws, pops, and
      transmissions of request `n`. */
  ghost predicate Steps(h: seq<Net>, first: nat, last: nat, n: nat, p: Option<Command>) {
    first <= last < |h| && forall i | first <= i < last :: StepAt(h, i, n, p)
  }

  lemma {:induction false} StepsExtend(h: seq<Net>, h': seq<Net>, first: nat, last: nat, n: nat, p: Option<Command>)
    requires h <= h' && Steps(h, first, last, n, p)
    ensures Steps(h', first, last, n, p)
  {
    forall i | first <= i < last ensures StepAt(h', i, n, p) {
      assert StepAt(h, i, n, p);
    }
  }

  lemma {:induction false} StepsAppend(h: seq<Net>, t: Net, first: nat, n: nat, p: Option<Command>)
    requires h != [] && Steps(h, first, |h| - 1, n, p) && StepOf(h[|h| - 1], t, n, p)
    ensures Steps(h + [t], first, |h|, n, p)
  {
    StepsExtend(h, h + [t], first, |h| - 1, n, p);
    assert StepAt(h + [t], |h| - 1, n, p);
  }

  lemma {:induction false} StepsKeepWellFormed(h: seq<Net>, first: nat, last: nat, n: nat, p: Option<Command>)
    requires Steps(h, first, last, n, p) && WellFormed(h[first])
    ensures WellFormed(h[last]) && Later(h[first], h[last])
    decreases last
  {
    if first < last {
      StepsKeepWellFormed(h, first, last - 1, n, p);
      assert StepAt(h, last - 1, n, p);
      StepOfKeepsWellFormed(h[last - 1], h[last], n, p);
    }
  }

  ghost predicate QuietStep(s: Net, t: Net) {
    exists e :: Enabled(s, e) && t == Apply(s, e) && !e.Transmit? && !e.Pop?
  }

  ghost predicate QuietAt(h: seq<Net>, i: nat) {
    i + 1 < |h| && QuietStep(h[i], h[i + 1])
  }

  /** From `first` to `last` the client neither transmits nor takes anything from its queue. */
  ghost predicate Quiet(h: seq<Net>, first: nat, last: nat) {
    first <= last < |h| && forall i | first <= i < last :: QuietAt(h, i)
  }

  lemma {:induction false} QuietAppend(h: seq<Net>, t: Net, first: nat)
    requires h != [] && Quiet(h, first, |h| - 1) && QuietStep(h[|h| - 1], t)
    ensures Quiet(h + [t], first, |h|)
  {
    forall i | first <= i < |h| ensures QuietAt(h + [t], i) {
      if i < |h| - 1 { assert QuietAt(h, i); }
    }
  }

  lemma {:induction false} QuietIsSteps(h: seq<Net>, first: nat, last: nat, n: nat, p: Option<Command>)
    requires Quiet(h, first, last)
    ensures Steps(h, first, last, n, p)
    ensures h[last].sent == h[first].sent && h[last].popped == h[first].popped
    ensures h[last].issued == h[first].issued
    decreases last
  {
    forall i | first <= i < last ensures StepAt(h, i, n, p) {
      assert QuietAt(h, i);
    }
    if first < last {
      assert QuietAt(h, last - 1);
      QuietIsSteps(h, first, last - 1, n, p);
    }
  }

  lemma {:induction false} StepsJoin(h: seq<Net>, h': seq<Net>, first: nat, middle: nat, last: nat, n: nat,
      p: Option<Command>)
    requires h <= h' && Steps(h, first, middle, n, p) && Steps(h', middle, last, n, p)
    ensures Steps(h', first, last, n, p)
  {
    StepsExtend(h, h', first, middle, n, p);
  }

  // ---- one request and what became of it --------------------------------------------------

  datatype Error =
    | AccessDenied(code: Half, address: Word)
    | DeviceStatus(status: Half, code: Half, address: Word)
    | NoResponse(code: Half, address: Word)
    | InvalidResponse
    | SendFailed

  datatype Result<+T> = Ok(value: T) | Throw(error: Error)

  /** The result of the request `c` once `reply` is accepted as its acknowledge. */
  function Conclude(c: Command, reply: Reply): Result<Reply> {
    if reply.status == 0 then Ok(reply)
    else if reply.status == GEV_STATUS_ACCESS_DENIED then Throw(AccessDenied(c.Code(), c.address))
    else Throw(DeviceStatus(reply.status, c.Code(), c.address))
  }

  function Repeat(n: nat, count: nat): seq<nat> {
    seq(count, _ => n)
  }

  /** A call of sendAndReceive: the request, its draw number, how often it was transmitted, the
      outcome, and the positions in the history where the call began and ended. */
  datatype Transaction = Transaction(
    command: Command, serial: nat, copies: nat, result: Result<Reply>, first: nat, last: nat)

  /** The datagram at position `j` passes the tests on command, id and size that stand between the
      socket and the caller. */
  ghost predicate Matches(s: Net, j: nat, c: Command, serial: nat)
    requires j < |s.served| && GenuineReply(s, s.served[j])
  {
    && s.issued[s.served[j].serial].value.AckCode() == c.AckCode()
    && IdOf(s.served[j].serial) == IdOf(serial)
    && (s.served[j].reply.status != 0 || IsWhole(s.served[j].reply))
  }

  /** Between `s` and `t` the datagram at queue position `i` was taken, and it was accepted as the
      acknowledge to `q`. */
  ghost predicate AcceptedAt(s: Net, t: Net, q: Transaction, i: nat)
    requires WellFormed(t)
  {
    && s.popped <= i < t.popped
    && Matches(t, t.arrived[i], q.command, q.serial)
    && q.result == Conclude(q.command, t.served[t.arrived[i]].reply)
  }

  ghost predicate IsTransaction(h: seq<Net>, q: Transaction) {
    && q.first <= q.last < |h| && WellFormed(h[q.first]) && WellFormed(h[q.last])
    && h[q.first].draws < q.serial <= h[q.last].draws
    && Steps(h, q.first, q.last, q.serial, Some(q.command))
    && q.copies <= 3 && h[q.last].sent == h[q.first].sent + Repeat(q.serial, q.copies)
    && h[q.last].popped <= h[q.first].popped + q.copies
    && match q.result {
         case Throw(NoResponse(code, a)) => q.copies == 3 && code == q.command.Code() && a == q.command.address
         case Throw(InvalidResponse) => false
         case Throw(SendFailed) => q.copies < 3
         case _ => q.copies > 0 && exists i :: AcceptedAt(h[q.first], h[q.last], q, i)
       }
  }

  lemma {:induction false} IsTransactionExtends(h: seq<Net>, h': seq<Net>, q: Transaction)
    requires h <= h' && IsTransaction(h, q)
    ensures IsTransaction(h', q)
  {
    StepsExtend(h, h', q.first, q.last, q.serial, Some(q.command));
  }
}
