/** Request ids (rcdiscover/gige_request_counter.cc): one process-wide 16-bit counter, advanced by
    compare-and-swap from any number of threads, that skips 0 when it wraps. */
module RequestCounter {

  type byte = x: int | 0 <= x < 256

  const MAX_ID := 65535

  /** What one turn of the loop computes from the value it loaded. */
  function NextId(current: nat): nat
    requires current <= MAX_ID
  {
    if current == MAX_ID then 1 else current + 1
  }

  /** The value of the counter after `draws` successful calls. */
  function IdOf(draws: nat): (id: nat)
    ensures id <= MAX_ID
    ensures id == 0 <==> draws == 0
  {
    if draws == 0 then 0 else (draws - 1) % MAX_ID + 1
  }

  /** The two bytes in which an id travels, high byte first. */
  function IdBytes(id: nat): (byte, byte)
    requires id <= MAX_ID
  {
    (id / 256, id % 256)
  }

  /** Nothing of an id is lost in its two bytes. */
  lemma {:induction false} IdBytesInjective(a: nat, b: nat)
    requires a <= MAX_ID && b <= MAX_ID
    requires IdBytes(a) == IdBytes(b)
    ensures a == b
  {
  }

  /** Two draws have the same id exactly if they are a multiple of 65535 apart. */
  lemma {:induction false} SameIdIff(m: nat, n: nat)
    requires 0 < m && 0 < n
    ensures IdOf(m) == IdOf(n) <==> (m - n) % 65535 == 0
  {
  }

  /** So two draws less than 65535 apart have different ids. */
  lemma {:induction false} IdsDistinctInWindow(m: nat, n: nat)
    requires 0 < m && 0 < n
    requires m < n + MAX_ID && n < m + MAX_ID
    requires IdOf(m) == IdOf(n)
    ensures m == n
  {
  }

  lemma {:induction false} NextIdIsNextDraw(draws: nat)
    ensures NextId(IdOf(draws)) == IdOf(draws + 1)
  {
  }

  // ---- every interleaving of every caller -------------------------------------------------

  type Thread = nat

  /** The shared counter, what each thread inside the loop has loaded, and the ids handed out in
      the order in which their compare-and-swap succeeded. */
  datatype Shared = Shared(counter: nat, loaded: map<Thread, nat>, handedOut: seq<nat>)

  const Initially := Shared(0, map[], [])

  /** `Load` is `current = counter`; `Swap` is one compare_exchange_weak, which may also fail
      although the values agree. */
  datatype Access = Load(t: Thread) | Swap(t: Thread, spuriousFailure: bool)

  predicate CanAccess(s: Shared, a: Access) {
    a.Swap? ==> a.t in s.loaded
  }

  function Accessed(s: Shared, a: Access): Shared
    requires CanAccess(s, a)
    requires s.counter <= MAX_ID && forall t <- s.loaded :: s.loaded[t] <= MAX_ID
  {
    match a
    case Load(t) => s.(loaded := s.loaded[t := s.counter])
    case Swap(t, spurious) =>
      if s.loaded[t] == s.counter && !spurious then
        var id := NextId(s.loaded[t]);
        Shared(id, s.loaded - {t}, s.handedOut + [id])
      else
        s.(loaded := s.loaded - {t})
  }

  ghost predicate Consistent(s: Shared) {
    && s.counter == IdOf(|s.handedOut|)
    && (forall t <- s.loaded :: s.loaded[t] <= MAX_ID)
    && (forall i | 0 <= i < |s.handedOut| :: s.handedOut[i] == IdOf(i + 1))
  }

  lemma {:induction false} AccessKeepsConsistent(s: Shared, a: Access)
    requires Consistent(s) && CanAccess(s, a)
    ensures Consistent(Accessed(s, a))
  {
  }

  /** A schedule runs `accesses` from `s` and ends in `t`. */
  ghost predicate Schedule(s: Shared, accesses: seq<Access>, t: Shared)
    requires Consistent(s)
    decreases accesses
  {
    if accesses == [] then
      t == s
    else
      && CanAccess(s, accesses[0])
      && (AccessKeepsConsistent(s, accesses[0]);
          Schedule(Accessed(s, accesses[0]), accesses[1..], t))
  }

  /** Whatever the schedule, spurious failures and wrap-arounds between a load and its swap
      included, the n-th id handed out is ((n - 1) mod 65535) + 1. */
  lemma {:induction false} HandedOutInOrder(s: Shared, accesses: seq<Access>, t: Shared)
    requires Consistent(s) && Schedule(s, accesses, t)
    ensures Consistent(t)
    ensures forall i | 0 <= i < |t.handedOut| :: t.handedOut[i] == i % 65535 + 1
    decreases accesses
  {
    if accesses != [] {
      AccessKeepsConsistent(s, accesses[0]);
      HandedOutInOrder(Accessed(s, accesses[0]), accesses[1..], t);
    }
  }

  /** From the program's start no id is 0, and any 65535 consecutive ones are distinct. */
  lemma {:induction false} IdsFromStart(accesses: seq<Access>, t: Shared)
    requires Schedule(Initially, accesses, t)
    ensures forall i | 0 <= i < |t.handedOut| :: t.handedOut[i] == i % 65535 + 1 && t.handedOut[i] != 0
    ensures forall i, j | 0 <= i < j < |t.handedOut| && j - i < 65535 :: t.handedOut[i] != t.handedOut[j]
  {
    HandedOutInOrder(Initially, accesses, t);
    forall i, j | 0 <= i < j < |t.handedOut| && j - i < MAX_ID
      ensures t.handedOut[i] != t.handedOut[j]
    {
      if t.handedOut[i] == t.handedOut[j] {
        IdsDistinctInWindow(i + 1, j + 1);
      }
    }
  }

  /** The counter as the caller of getNext sees it. `draws` counts the successful swaps of all
      threads. */
  class Counter {
    var value: nat
    var draws: nat

    ghost predicate Valid()
      reads this
    {
      value == IdOf(draws)
    }

    constructor ()
      ensures Valid() && draws == 0
    {
      value, draws := 0, 0;
    }

    /** One call completed by another thread. */
    method OtherThreadDraws()
      requires Valid()
      modifies this
      ensures Valid() && draws == old(draws) + 1
    {
      NextIdIsNextDraw(draws);
      value, draws := NextId(value), draws + 1;
    }

    method OtherThreads()
      requires Valid()
      modifies this
      ensures Valid() && old(draws) <= draws
    {
      var n: nat := *;
      while n > 0
        invariant Valid() && old(draws) <= draws
      {
        OtherThreadDraws();
        n := n - 1;
      }
    }

    /** compare_exchange_weak. */
    method CompareExchangeWeak(current: nat, newValue: nat, spuriousFailure: bool) returns (ok: bool)
      modifies this`value
      ensures ok <==> old(value) == current && !spuriousFailure
      ensures value == if ok then newValue else old(value)
    {
      ok := value == current && !spuriousFailure;
      if ok {
        value := newValue;
      }
    }

    /** One call, other threads running between its load and its swap. `turns` bounds how often
        this call's swap loses. The id is that of draw number `draw`, made during the call. */
    method GetNext(turns: nat) returns (hi: byte, lo: byte, draw: nat)
      requires Valid()
      modifies this
      ensures Valid()
      ensures old(draws) < draw == draws && (turns == 0 ==> draw == old(draws) + 1)
      ensures (hi, lo) == IdBytes(IdOf(draw)) && hi as int * 256 + lo == (draw - 1) % 65535 + 1
    {
      var left := turns;
      var done := false;
      var newValue := 0;
      while !done
        invariant Valid() && old(draws) <= draws && left <= turns
        invariant newValue <= MAX_ID && (turns == 0 && !done ==> draws == old(draws))
        invariant turns == 0 && done ==> draws == old(draws) + 1
        invariant done ==> old(draws) < draws && newValue == IdOf(draws)
        decreases left, !done
      {
        var current := value;
        newValue := if current == MAX_ID then 1 else current + 1;
        if left > 0 {
          OtherThreads();
        }
        var spurious: bool := *;
        NextIdIsNextDraw(draws);
        done := CompareExchangeWeak(current, newValue, spurious && left > 0);
        if done {
          draws := draws + 1;
        } else {
          left := left - 1;
        }
      }
      draw := draws;
      hi, lo := newValue / 256, newValue % 256;
    }
  }
}
