/** tools/rcdiscover-gui/worker.cc, discoverWorker: which cameras are taken for the left and the right
    half of the same device. */
module Pairing {

  /** `leftSerial` is the serial number of the left camera in the license that the camera holds, or
      empty. */
  datatype Camera = Camera(
    vendor: string, model: string, serial: string, userName: string, displayName: string, leftSerial: string)

  const VENDOR_MODEL := [
    ("MATRIX VISION GmbH", "mvBlueCOUGAR"), ("MATRIX VISION GmbH", "mvBlueFOX3"),
    ("Basler", "a2A2448-23gcBAS"), ("Basler", "a2A2448-23gmBAS")]

  predicate IsSupported(c: Camera) {
    exists i | 0 <= i < |VENDOR_MODEL| :: c.vendor == VENDOR_MODEL[i].0 && VENDOR_MODEL[i].1 <= c.model
  }

  /** Cameras of these vendors whose models begin like this. */
  lemma {:induction false} SupportedModels(c: Camera)
    ensures IsSupported(c) <==>
      || (c.vendor == "MATRIX VISION GmbH" && ("mvBlueCOUGAR" <= c.model || "mvBlueFOX3" <= c.model))
      || (c.vendor == "Basler" && ("a2A2448-23gcBAS" <= c.model || "a2A2448-23gmBAS" <= c.model))
  {
    ModelListed(c, VENDOR_MODEL[0], VENDOR_MODEL[1], VENDOR_MODEL[2], VENDOR_MODEL[3]);
  }

  lemma {:induction false} ModelListed(c: Camera, w: (string, string), x: (string, string), y: (string, string),
      z: (string, string))
    requires VENDOR_MODEL == [w, x, y, z]
    ensures IsSupported(c) <==>
      || (c.vendor == w.0 && w.1 <= c.model) || (c.vendor == x.0 && x.1 <= c.model)
      || (c.vendor == y.0 && y.1 <= c.model) || (c.vendor == z.0 && z.1 <= c.model)
  {
    assert VENDOR_MODEL[0] == w && VENDOR_MODEL[1] == x && VENDOR_MODEL[2] == y && VENDOR_MODEL[3] == z;
  }

  function Name(c: Camera): string {
    if c.userName == "" then c.displayName else c.userName
  }

  // ---- collecting --------------------------------------------------------------------------

  function Supported(cs: seq<Camera>): seq<Camera> {
    if cs == [] then []
    else Supported(cs[..|cs| - 1]) + if IsSupported(cs[|cs| - 1]) then [cs[|cs| - 1]] else []
  }

  function SupportedOfAll(lists: seq<seq<Camera>>): seq<Camera> {
    if lists == [] then [] else SupportedOfAll(lists[..|lists| - 1]) + Supported(lists[|lists| - 1])
  }

  predicate DistinctSerials(cs: seq<Camera>) {
    forall i, j | 0 <= i < j < |cs| :: cs[i].serial != cs[j].serial
  }

  lemma {:induction false} SupportedOfMore(lists: seq<seq<Camera>>, i: nat, k: nat)
    requires i < |lists| && k <= |lists[i]|
    ensures SupportedOfAll(lists[..i]) + Supported(lists[i][..k]) <= SupportedOfAll(lists)
    decreases |lists|
  {
    if i == |lists| - 1 {
      SupportedPrefix(lists[i], k);
    } else {
      var front := lists[..|lists| - 1];
      assert front[..i] == lists[..i];
      SupportedOfMore(front, i, k);
    }
  }

  lemma {:induction false} SupportedPrefix(cs: seq<Camera>, k: nat)
    requires k <= |cs|
    ensures Supported(cs[..k]) <= Supported(cs)
    decreases |cs|
  {
    if k < |cs| {
      assert cs[..|cs| - 1][..k] == cs[..k];
      SupportedPrefix(cs[..|cs| - 1], k);
    } else {
      assert cs[..k] == cs;
    }
  }

  lemma {:induction false} PrefixNotDistinct(a: seq<Camera>, b: seq<Camera>)
    requires a <= b && !DistinctSerials(a)
    ensures !DistinctSerials(b)
  {
  }

  /** The cameras behind all interfaces, unless two of them have the same serial number. An interface
      that fails contributes what it listed before. */
  method CollectCameras(lists: seq<seq<Camera>>) returns (devices: seq<Camera>, multipleInterfaces: bool)
    ensures multipleInterfaces <==> !DistinctSerials(SupportedOfAll(lists))
    ensures !multipleInterfaces ==> devices == SupportedOfAll(lists)
  {
    hide IsSupported;
    devices, multipleInterfaces := [], false;
    var i := 0;
    while i < |lists| && !multipleInterfaces
      invariant 0 <= i <= |lists|
      invariant !multipleInterfaces ==> devices == SupportedOfAll(lists[..i]) && DistinctSerials(devices)
      invariant multipleInterfaces ==> !DistinctSerials(SupportedOfAll(lists))
    {
      assert lists[..i + 1][..i] == lists[..i];
      var list := lists[i];
      var k := 0;
      while k < |list| && !multipleInterfaces
        invariant 0 <= k <= |list| && (!multipleInterfaces ==> DistinctSerials(devices))
        invariant devices == SupportedOfAll(lists[..i]) + Supported(list[..k])
        invariant multipleInterfaces ==> !DistinctSerials(devices)
      {
        assert list[..k + 1][..k] == list[..k];
        if IsSupported(list[k]) {
          multipleInterfaces := SerialExists(devices, list[k].serial);
          if multipleInterfaces {
            var j :| 0 <= j < |devices| && devices[j].serial == list[k].serial;
            assert (devices + [list[k]])[j].serial == (devices + [list[k]])[|devices|].serial;
          }
          devices := devices + [list[k]];
        }
        k := k + 1;
      }
      SupportedOfMore(lists, i, k);
      if multipleInterfaces {
        PrefixNotDistinct(devices, SupportedOfAll(lists));
      } else {
        assert list[..k] == list;
      }
      i := i + 1;
    }
    assert !multipleInterfaces ==> lists[..i] == lists;
  }

  method SerialExists(devices: seq<Camera>, sn: string) returns (found: bool)
    ensures found <==> exists j :: 0 <= j < |devices| && devices[j].serial == sn
  {
    found := false;
    var j := 0;
    while j < |devices|
      invariant 0 <= j <= |devices| && !found
      invariant forall m | 0 <= m < j :: devices[m].serial != sn
    {
      if devices[j].serial == sn {
        found := true;
        break;
      }
      j := j + 1;
    }
  }

  // ---- entries and pairs -------------------------------------------------------------------

  /** A shared pointer; the code resets it when the camera has been paired. */
  datatype Entry = Reset | Live(camera: Camera)

  /** A row of the table: positions of the left and the right camera, and how they were found. */
  datatype Pair = Pair(left: nat, right: nat, byName: bool)

  predicate IsIn(x: nat, p: Pair) {
    x == p.left || x == p.right
  }

  ghost predicate Paired(x: nat, pairs: seq<Pair>) {
    exists p :: 0 <= p < |pairs| && IsIn(x, pairs[p])
  }

  /** A camera is reset exactly if it is in a pair, and it is in one pair at most. */
  ghost predicate Consistent(devices: seq<Camera>, all: seq<Entry>, pairs: seq<Pair>) {
    && |all| == |devices|
    && (forall i | 0 <= i < |all| && all[i].Live? :: all[i].camera == devices[i])
    && (forall i | 0 <= i < |all| :: all[i].Reset? <==> Paired(i, pairs))
    && (forall p | 0 <= p < |pairs| :: pairs[p].left < |all| && pairs[p].right < |all|)
    && (forall p | 0 <= p < |pairs| :: pairs[p].left != pairs[p].right)
    && (forall p, q | 0 <= p < q < |pairs| :: !IsIn(pairs[p].left, pairs[q]) && !IsIn(pairs[p].right, pairs[q]))
    && Left(all) + 2 * |pairs| == |devices|
  }

  /** How many are left. */
  function Left(all: seq<Entry>): nat {
    if all == [] then 0 else Left(all[..|all| - 1]) + if all[|all| - 1].Live? then 1 else 0
  }

  lemma {:induction false} LeftAfterReset(all: seq<Entry>, i: nat)
    requires i < |all| && all[i].Live?
    ensures Left(all[i := Reset]) == Left(all) - 1
    decreases |all|
  {
    var front := all[..|all| - 1];
    if i < |all| - 1 {
      assert all[i := Reset][..|all| - 1] == front[i := Reset];
      LeftAfterReset(front, i);
    } else {
      assert all[i := Reset][..|all| - 1] == front;
    }
  }

  lemma {:induction false} LeftInitially(devices: seq<Camera>)
    ensures Left(Entries(devices)) == |devices|
  {
    if devices != [] {
      assert Entries(devices)[..|devices| - 1] == Entries(devices[..|devices| - 1]);
      LeftInitially(devices[..|devices| - 1]);
    }
  }

  function Entries(devices: seq<Camera>): (all: seq<Entry>)
    ensures |all| == |devices|
  {
    seq(|devices|, i requires 0 <= i < |devices| => Live(devices[i]))
  }

  lemma {:induction false} MorePairs(pairs: seq<Pair>, p: Pair, x: nat)
    ensures Paired(x, pairs + [p]) <==> Paired(x, pairs) || IsIn(x, p)
  {
    var more := pairs + [p];
    assert more[|pairs|] == p;
    if Paired(x, pairs) {
      var q :| 0 <= q < |pairs| && IsIn(x, pairs[q]);
      assert IsIn(x, more[q]);
    }
  }

  /** Adding a pair of two cameras that are both still there. */
  lemma {:induction false} PairKeepsConsistent(devices: seq<Camera>, all: seq<Entry>, pairs: seq<Pair>, p: Pair)
    requires Consistent(devices, all, pairs) && p.left < |all| && p.right < |all| && p.left != p.right
    requires all[p.left].Live? && all[p.right].Live?
    ensures Consistent(devices, all[p.left := Reset][p.right := Reset], pairs + [p])
  {
    hide IsIn, Paired;
    LeftAfterReset(all, p.left);
    LeftAfterReset(all[p.left := Reset], p.right);
    forall x | 0 <= x < |all| ensures Paired(x, pairs + [p]) <==> Paired(x, pairs) || x == p.left || x == p.right {
      MorePairs(pairs, p, x);
      InPair(x, p);
    }
    forall q | 0 <= q < |pairs| ensures !IsIn(pairs[q].left, p) && !IsIn(pairs[q].right, p) {
      InPair(pairs[q].left, p);
      InPair(pairs[q].right, p);
      PairedBy(pairs, q);
    }
  }

  lemma {:induction false} InPair(x: nat, p: Pair)
    ensures IsIn(x, p) <==> x == p.left || x == p.right
  {
  }

  lemma {:induction false} PairedBy(pairs: seq<Pair>, q: nat)
    requires q < |pairs|
    ensures Paired(pairs[q].left, pairs) && Paired(pairs[q].right, pairs)
  {
  }

  lemma {:induction false} ConsistentInitially(devices: seq<Camera>)
    ensures Consistent(devices, Entries(devices), [])
  {
    LeftInitially(devices);
  }

  // ---- pairs by name -----------------------------------------------------------------------

  /** The names differ only in the last letter, L on the left and R on the right. */
  predicate LeftRight(l: string, r: string) {
    && l != [] && l[|l| - 1] == 'L' && |l| == |r| && r[|r| - 1] == 'R' && l[..|l| - 1] == r[..|r| - 1]
  }

  lemma {:induction false} LeftRightInjective(l: string, r: string, l': string, r': string)
    requires LeftRight(l, r) && LeftRight(l', r')
    ensures l == l' <==> r == r'
    ensures l != r'
  {
  }

  /** No third camera has one of the two names. */
  ghost predicate NamesUnique(devices: seq<Camera>, i: nat, k: nat)
    requires i < |devices| && k < |devices|
  {
    forall j | 0 <= j < |devices| && j != i && j != k ::
      Name(devices[j]) != Name(devices[i]) && Name(devices[j]) != Name(devices[k])
  }

  /** The cameras that belong together by their names. */
  ghost predicate NamePair(devices: seq<Camera>, i: nat, k: nat) {
    && i < |devices| && k < |devices|
    && LeftRight(Name(devices[i]), Name(devices[k])) && devices[i].model == devices[k].model
    && NamesUnique(devices, i, k)
  }

  /** Two cameras of one model, named the same but for a final L and R, neither name being that of a
      third camera; a camera without a name of its own has its display name. */
  lemma {:induction false} NamePairInWords(devices: seq<Camera>, i: nat, k: nat)
    requires i < |devices| && k < |devices|
    ensures var names := seq(|devices|, j requires 0 <= j < |devices| =>
          if devices[j].userName == "" then devices[j].displayName else devices[j].userName);
      NamePair(devices, i, k) <==>
        && (exists stem :: names[i] == stem + "L" && names[k] == stem + "R")
        && devices[i].model == devices[k].model
        && (forall j | 0 <= j < |devices| && j != i && j != k :: names[j] != names[i] && names[j] != names[k])
  {
    var names := seq(|devices|, j requires 0 <= j < |devices| =>
      if devices[j].userName == "" then devices[j].displayName else devices[j].userName);
    forall j | 0 <= j < |devices| ensures Name(devices[j]) == names[j] {}
    hide Name;
    LeftRightStem(names[i], names[k]);
    hide LeftRight;
  }

  lemma {:induction false} LeftRightStem(l: string, r: string)
    ensures LeftRight(l, r) <==> exists stem :: l == stem + "L" && r == stem + "R"
  {
    if LeftRight(l, r) {
      assert l == l[..|l| - 1] + "L" && r == l[..|l| - 1] + "R";
    }
  }

  /** A camera belongs to one other at most. */
  lemma {:induction false} NamePairDetermined(devices: seq<Camera>, i: nat, k: nat, a: nat, b: nat)
    requires NamePair(devices, i, k) && NamePair(devices, a, b)
    ensures i != b && (i == a <==> k == b) && i != k
  {
  }

  ghost predicate OnlyNamePairs(devices: seq<Camera>, pairs: seq<Pair>) {
    forall p | 0 <= p < |pairs| :: pairs[p].byName && NamePair(devices, pairs[p].left, pairs[p].right)
  }

  /** Every pair up to `i`, `k` in the order of the loops is in the table. */
  ghost predicate FoundUpTo(devices: seq<Camera>, pairs: seq<Pair>, i: nat, k: nat) {
    forall a: nat, b: nat | NamePair(devices, a, b) && (a < i || (a == i && b < k)) :: Pair(a, b, true) in pairs
  }

  /** A reset camera that belongs to another is in the table with it. */
  lemma {:induction false} ResetIsFound(devices: seq<Camera>, all: seq<Entry>, pairs: seq<Pair>, i: nat, k: nat)
    requires Consistent(devices, all, pairs) && OnlyNamePairs(devices, pairs) && NamePair(devices, i, k)
    requires all[i].Reset? || all[k].Reset?
    ensures Pair(i, k, true) in pairs
  {
    var x := if all[i].Reset? then i else k;
    assert Paired(x, pairs);
    var p :| 0 <= p < |pairs| && IsIn(x, pairs[p]);
    NamePairDetermined(devices, i, k, pairs[p].left, pairs[p].right);
    NamePairDetermined(devices, pairs[p].left, pairs[p].right, i, k);
    hide NamePair, Consistent, Paired;
    assert pairs[p] == Pair(i, k, true);
  }

  lemma {:induction false} LiveIsUnpaired(devices: seq<Camera>, all: seq<Entry>, pairs: seq<Pair>, i: nat, p: nat)
    requires Consistent(devices, all, pairs) && i < |all| && all[i].Live? && p < |pairs|
    ensures !IsIn(i, pairs[p])
  {
  }

  /** What is reset has no name in common with what is left. */
  lemma {:induction false} ResetNamesDiffer(devices: seq<Camera>, all: seq<Entry>, pairs: seq<Pair>, i: nat, j: nat)
    requires Consistent(devices, all, pairs) && OnlyNamePairs(devices, pairs)
    requires i < |all| && j < |all| && all[i].Live? && all[j].Reset?
    ensures Name(devices[i]) != Name(devices[j])
  {
    assert Paired(j, pairs);
    var p :| 0 <= p < |pairs| && IsIn(j, pairs[p]);
    assert NamePair(devices, pairs[p].left, pairs[p].right);
    LiveIsUnpaired(devices, all, pairs, i, p);
    hide LeftRight, Consistent, Paired;
  }

  lemma {:induction false} NoPartnerLeft(devices: seq<Camera>, all: seq<Entry>, pairs: seq<Pair>, i: nat, k: nat)
    requires Consistent(devices, all, pairs) && OnlyNamePairs(devices, pairs)
    requires i < |all| && k < |all| && all[i].Reset? && all[k].Live?
    ensures !LeftRight(Name(devices[i]), Name(devices[k]))
  {
    assert Paired(i, pairs);
    var p :| 0 <= p < |pairs| && IsIn(i, pairs[p]);
    var a, b := pairs[p].left, pairs[p].right;
    assert NamePair(devices, a, b);
    assert all[b].Reset? by { PairedBy(pairs, p); }
    ResetNamesDiffer(devices, all, pairs, k, b);
    if LeftRight(Name(devices[i]), Name(devices[k])) {
      LeftRightInjective(Name(devices[i]), Name(devices[k]), Name(devices[a]), Name(devices[b]));
    }
  }

  /** A match is never found for a camera that was paired in the same turn. */
  lemma {:induction false} LeftIsThere(devices: seq<Camera>, all: seq<Entry>, pairs: seq<Pair>, i: nat, k: nat)
    requires Consistent(devices, all, pairs) && OnlyNamePairs(devices, pairs)
    requires i < |all| && k < |all| && all[k].Live? && LeftRight(Name(devices[i]), Name(devices[k]))
    ensures all[i].Live?
  {
    hide LeftRight, Consistent, OnlyNamePairs;
    if all[i].Reset? {
      NoPartnerLeft(devices, all, pairs, i, k);
    }
  }

  /** Whether a third camera that is still there has one of the names. */
  method NameExists(all: seq<Entry>, i: nat, k: nat, lname: string, rname: string) returns (found: bool)
    requires i < |all| && k < |all|
    ensures found <==> exists j :: 0 <= j < |all| && HasName(all, j, i, k, lname, rname)
  {
    found := false;
    var j := 0;
    while !found && j < |all|
      invariant 0 <= j <= |all|
      invariant found <==> exists m :: 0 <= m < j && HasName(all, m, i, k, lname, rname)
    {
      if all[j].Live? && j != i && j != k {
        var name := Name(all[j].camera);
        if name == lname || name == rname {
          assert HasName(all, j, i, k, lname, rname);
          found := true;
        }
      }
      j := j + 1;
    }
  }

  predicate HasName(all: seq<Entry>, j: nat, i: nat, k: nat, lname: string, rname: string)
    requires j < |all|
  {
    all[j].Live? && j != i && j != k && (Name(all[j].camera) == lname || Name(all[j].camera) == rname)
  }

  lemma {:induction false} UniqueAmongLive(devices: seq<Camera>, all: seq<Entry>, pairs: seq<Pair>, i: nat, k: nat)
    requires Consistent(devices, all, pairs) && OnlyNamePairs(devices, pairs)
    requires i < |all| && k < |all| && all[i].Live? && all[k].Live?
    ensures NamesUnique(devices, i, k) <==>
              !exists j :: 0 <= j < |all| && HasName(all, j, i, k, Name(devices[i]), Name(devices[k]))
  {
    if NamesUnique(devices, i, k) {
    } else {
      var j :| 0 <= j < |devices| && j != i && j != k
               && (Name(devices[j]) == Name(devices[i]) || Name(devices[j]) == Name(devices[k]));
      if all[j].Reset? {
        ResetNamesDiffer(devices, all, pairs, i, j);
        ResetNamesDiffer(devices, all, pairs, k, j);
      }
      assert HasName(all, j, i, k, Name(devices[i]), Name(devices[k]));
    }
  }

  /** The first search. `i` and `k` are what the code compares; what it takes for a match is a match,
      and what belongs together by name is taken. */
  method PairByName(devices: seq<Camera>) returns (all: seq<Entry>, pairs: seq<Pair>)
    ensures Consistent(devices, all, pairs)
    ensures OnlyNamePairs(devices, pairs)
    ensures forall i: nat, k: nat | NamePair(devices, i, k) :: Pair(i, k, true) in pairs
  {
    hide Consistent, NamePair, LeftRight;
    all, pairs := Entries(devices), [];
    ConsistentInitially(devices);
    var i := 0;
    while i < |all|
      invariant 0 <= i <= |all| == |devices|
      invariant Consistent(devices, all, pairs) && OnlyNamePairs(devices, pairs) && FoundUpTo(devices, pairs, i, 0)
    {
      all, pairs := PairLeft(devices, all, pairs, i);
      i := i + 1;
    }
    AllFound(devices, pairs);
  }

  lemma {:induction false} AllFound(devices: seq<Camera>, pairs: seq<Pair>)
    requires FoundUpTo(devices, pairs, |devices|, 0)
    ensures forall i: nat, k: nat | NamePair(devices, i, k) :: Pair(i, k, true) in pairs
  {
  }

  lemma {:induction false} EntryIsDevice(devices: seq<Camera>, all: seq<Entry>, pairs: seq<Pair>, i: nat)
    requires Consistent(devices, all, pairs) && i < |all|
    ensures |all| == |devices| && (all[i].Live? ==> all[i].camera == devices[i])
  {
  }

  lemma {:induction false} FoundNext(devices: seq<Camera>, pairs0: seq<Pair>, pairs: seq<Pair>, i: nat, k: nat)
    requires FoundUpTo(devices, pairs0, i, k) && pairs0 <= pairs
    requires NamePair(devices, i, k) ==> Pair(i, k, true) in pairs
    ensures FoundUpTo(devices, pairs, i, k + 1)
  {
  }

  lemma {:induction false} TurnEnds(devices: seq<Camera>, pairs: seq<Pair>, i: nat)
    requires FoundUpTo(devices, pairs, i, |devices|)
    ensures FoundUpTo(devices, pairs, i + 1, 0)
  {
  }

  /** A camera that is reset, or whose name does not end with L, has nothing left to find. */
  lemma {:induction false} NothingToFind(devices: seq<Camera>, all: seq<Entry>, pairs: seq<Pair>, i: nat)
    requires Consistent(devices, all, pairs) && OnlyNamePairs(devices, pairs) && FoundUpTo(devices, pairs, i, 0)
    requires i < |all|
    requires all[i].Reset? || (var l := Name(devices[i]); l == [] || l[|l| - 1] != 'L')
    ensures FoundUpTo(devices, pairs, i + 1, 0)
  {
    forall a: nat, b: nat | NamePair(devices, a, b) && a < i + 1 ensures Pair(a, b, true) in pairs {
      if a == i {
        ResetIsFound(devices, all, pairs, a, b);
      }
    }
  }

  lemma {:induction false} OneMoreNamePair(devices: seq<Camera>, pairs: seq<Pair>, i: nat, k: nat)
    requires OnlyNamePairs(devices, pairs) && NamePair(devices, i, k)
    ensures OnlyNamePairs(devices, pairs + [Pair(i, k, true)])
  {
  }

  lemma {:induction false} ByNameMeansUnique(devices: seq<Camera>, i: nat, k: nat)
    requires i < |devices| && k < |devices|
    ensures NamePair(devices, i, k) ==> LeftRight(Name(devices[i]), Name(devices[k])) && i != k
    ensures NamePair(devices, i, k) <==>
              (LeftRight(Name(devices[i]), Name(devices[k])) && devices[i].model == devices[k].model
                  && NamesUnique(devices, i, k))
  {
  }

  /** One turn of the inner loop. */
  method PairLeftRight(devices: seq<Camera>, all0: seq<Entry>, pairs0: seq<Pair>, i: nat, k: nat, lname: string)
      returns (all: seq<Entry>, pairs: seq<Pair>)
    requires i < |devices| == |all0| && k < |devices| && lname == Name(devices[i]) && lname != []
    requires lname[|lname| - 1] == 'L'
    requires Consistent(devices, all0, pairs0) && OnlyNamePairs(devices, pairs0) && FoundUpTo(devices, pairs0, i, k)
    ensures |all| == |devices|
    ensures Consistent(devices, all, pairs) && OnlyNamePairs(devices, pairs) && FoundUpTo(devices, pairs, i, k + 1)
  {
    hide Consistent, NamePair, Name, FoundUpTo, OnlyNamePairs, NamesUnique;
    all, pairs := all0, pairs0;
    EntryIsDevice(devices, all, pairs, i);
    EntryIsDevice(devices, all, pairs, k);
    ByNameMeansUnique(devices, i, k);
    var rname := "";
    if all[k].Live? {
      rname := Name(all[k].camera);
    }
    if |lname| == |rname| && rname[|rname| - 1] == 'R' && lname[..|lname| - 1] == rname[..|lname| - 1] {
      LeftIsThere(devices, all, pairs, i, k);
      if all[i].camera.model == all[k].camera.model {
        UniqueAmongLive(devices, all, pairs, i, k);
        var found := NameExists(all, i, k, lname, rname);
        if !found {
          PairKeepsConsistent(devices, all, pairs, Pair(i, k, true));
          OneMoreNamePair(devices, pairs, i, k);
          pairs := pairs + [Pair(i, k, true)];
          all := all[i := Reset];
          all := all[k := Reset];
        }
      }
    } else if all[k].Reset? {
      MaybeFound(devices, all, pairs, i, k);
    }
    FoundNext(devices, pairs0, pairs, i, k);
  }

  lemma {:induction false} MaybeFound(devices: seq<Camera>, all: seq<Entry>, pairs: seq<Pair>, i: nat, k: nat)
    requires Consistent(devices, all, pairs) && OnlyNamePairs(devices, pairs) && k < |all| && all[k].Reset?
    ensures NamePair(devices, i, k) ==> Pair(i, k, true) in pairs
  {
    if NamePair(devices, i, k) {
      ResetIsFound(devices, all, pairs, i, k);
    }
  }

  /** One turn of the outer loop. */
  method PairLeft(devices: seq<Camera>, all0: seq<Entry>, pairs0: seq<Pair>,
      i: nat) returns (all: seq<Entry>, pairs: seq<Pair>)
    requires i < |devices| == |all0|
    requires Consistent(devices, all0, pairs0) && OnlyNamePairs(devices, pairs0) && FoundUpTo(devices, pairs0, i, 0)
    ensures |all| == |devices|
    ensures Consistent(devices, all, pairs) && OnlyNamePairs(devices, pairs) && FoundUpTo(devices, pairs, i + 1, 0)
  {
    hide Consistent, NamePair, LeftRight, Name, FoundUpTo, OnlyNamePairs;
    all, pairs := all0, pairs0;
    var lname := "";
    if all[i].Live? {
      EntryIsDevice(devices, all, pairs, i);
      lname := Name(all[i].camera);
    }
    if |lname| >= 1 && lname[|lname| - 1] == 'L' {
      var k := 0;
      while k < |all|
        invariant 0 <= k <= |all| == |devices| && lname == Name(devices[i])
        invariant Consistent(devices, all, pairs) && OnlyNamePairs(devices, pairs) && FoundUpTo(devices, pairs, i, k)
      {
        all, pairs := PairLeftRight(devices, all, pairs, i, k, lname);
        k := k + 1;
      }
      TurnEnds(devices, pairs, i);
    } else {
      NothingToFind(devices, all, pairs, i);
    }
  }

  // ---- pairs by license --------------------------------------------------------------------

  /** The license of camera `k` names camera `i` as the left one. */
  predicate LicensePair(devices: seq<Camera>, i: nat, k: nat) {
    i < |devices| && k < |devices| && i != k && devices[k].leftSerial != ""
    && devices[i].serial == devices[k].leftSerial
  }

  /** What the second search has added to `named`. */
  ghost predicate Extends(devices: seq<Camera>, named: seq<Pair>, pairs: seq<Pair>) {
    && named <= pairs
    && forall p | |named| <= p < |pairs| :: !pairs[p].byName && LicensePair(devices, pairs[p].left, pairs[p].right)
  }

  /** No camera up to `k` has its left camera still there. */
  ghost predicate NoneLeftUpTo(devices: seq<Camera>, all: seq<Entry>, k: nat)
    requires |all| == |devices|
  {
    forall i, k' | 0 <= i < |all| && 0 <= k' < k && k' < |all| && all[i].Live? && all[k'].Live? ::
      !LicensePair(devices, i, k')
  }

  /** The second search. That serial numbers are distinct is what keeps a camera from being used after
      it was reset. */
  method PairByLicense(devices: seq<Camera>, all0: seq<Entry>, named: seq<Pair>)
      returns (all: seq<Entry>, pairs: seq<Pair>)
    requires DistinctSerials(devices) && Consistent(devices, all0, named)
    ensures Consistent(devices, all, pairs) && Extends(devices, named, pairs)
    ensures |all| == |devices| && NoneLeftUpTo(devices, all, |devices|)
  {
    hide Consistent, LicensePair, DistinctSerials;
    all, pairs := all0, named;
    SameLength(devices, all, pairs);
    var k := 0;
    while k < |all|
      invariant 0 <= k <= |all| == |devices|
      invariant Consistent(devices, all, pairs) && Extends(devices, named, pairs) && NoneLeftUpTo(devices, all, k)
    {
      all, pairs := PairRight(devices, all, pairs, named, k);
      k := k + 1;
    }
  }

  lemma {:induction false} SameLength(devices: seq<Camera>, all: seq<Entry>, pairs: seq<Pair>)
    requires Consistent(devices, all, pairs)
    ensures |all| == |devices|
  {
  }

  /** The code goes on comparing after it has found the left camera; no other one has its serial
      number, so that the reset entry `all[k]` is not used again. */
  method PairRight(devices: seq<Camera>, all0: seq<Entry>, pairs0: seq<Pair>, ghost named: seq<Pair>, k: nat)
      returns (all: seq<Entry>, pairs: seq<Pair>)
    requires DistinctSerials(devices) && k < |devices| == |all0|
    requires Consistent(devices, all0, pairs0) && Extends(devices, named, pairs0) && NoneLeftUpTo(devices, all0, k)
    ensures |all| == |devices|
    ensures Consistent(devices, all, pairs) && Extends(devices, named, pairs) && NoneLeftUpTo(devices, all, k + 1)
  {
    hide Consistent;
    all, pairs := all0, pairs0;
    EntryIsDevice(devices, all, pairs, k);
    if all[k].Live? {
      var lsn := all[k].camera.leftSerial;
      if |lsn| > 0 {
        var i := 0;
        while i < |all|
          invariant 0 <= i <= |all| == |devices|
          invariant Consistent(devices, all, pairs) && Extends(devices, named, pairs)
          invariant forall x | 0 <= x < |all| && all[x].Live? :: all0[x].Live?
          invariant all[k].Live? ==> forall x | 0 <= x < i && all[x].Live? :: !LicensePair(devices, x, k)
          invariant all[k].Reset? ==> exists x :: 0 <= x < i && x != k && devices[x].serial == lsn
        {
          EntryIsDevice(devices, all, pairs, i);
          if all[i].Live? && i != k && all[i].camera.serial == lsn {
            EntryIsDevice(devices, all, pairs, k);
            assert all[k].Live?;
            assert all[k].camera.serial == devices[k].serial;
            PairKeepsConsistent(devices, all, pairs, Pair(i, k, false));
            pairs := pairs + [Pair(i, k, false)];
            all := all[i := Reset];
            all := all[k := Reset];
          }
          i := i + 1;
        }
      }
    }
  }

  // ---- leftovers ---------------------------------------------------------------------------

  /** The cameras that are still there, in their order. */
  function Leftovers(all: seq<Entry>): seq<Camera> {
    if all == [] then []
    else Leftovers(all[..|all| - 1]) + if all[|all| - 1].Live? then [all[|all| - 1].camera] else []
  }

  lemma {:induction false} LeftoversConcat(a: seq<Entry>, b: seq<Entry>)
    ensures Leftovers(a + b) == Leftovers(a) + Leftovers(b)
    decreases |b|
  {
    if b == [] {
      assert a + b == a;
    } else {
      assert (a + b)[..|a + b| - 1] == a + b[..|b| - 1];
      LeftoversConcat(a, b[..|b| - 1]);
    }
  }

  lemma {:induction false} LeftoversCount(all: seq<Entry>)
    ensures |Leftovers(all)| == Left(all)
  {
    if all != [] {
      LeftoversCount(all[..|all| - 1]);
    }
  }

  /** The loop that erases what was reset. */
  method Compact(all0: seq<Entry>) returns (all: seq<Entry>)
    ensures forall e <- all :: e.Live?
    ensures |all| == |Leftovers(all0)| && forall i | 0 <= i < |all| :: all[i] == Live(Leftovers(all0)[i])
  {
    all := all0;
    var i := 0;
    while i < |all|
      invariant 0 <= i <= |all| && Leftovers(all) == Leftovers(all0)
      invariant forall j | 0 <= j < i :: all[j].Live?
      decreases |all| - i
    {
      if all[i].Live? {
        i := i + 1;
      } else {
        Erased(all, i);
        all := all[..i] + all[i + 1..];
      }
    }
    AllLive(all);
  }

  lemma {:induction false} Erased(all: seq<Entry>, i: nat)
    requires i < |all| && all[i].Reset?
    ensures Leftovers(all[..i] + all[i + 1..]) == Leftovers(all)
  {
    assert all == all[..i] + [all[i]] + all[i + 1..];
    LeftoversConcat(all[..i] + [all[i]], all[i + 1..]);
    LeftoversConcat(all[..i], [all[i]]);
    LeftoversConcat(all[..i], all[i + 1..]);
    assert Leftovers([all[i]]) == [];
  }

  lemma {:induction false} AllLive(all: seq<Entry>)
    requires forall i | 0 <= i < |all| :: all[i].Live?
    ensures |Leftovers(all)| == |all| && forall i | 0 <= i < |all| :: all[i] == Live(Leftovers(all)[i])
  {
    if all != [] {
      AllLive(all[..|all| - 1]);
    }
  }

  /** All of it, for cameras with distinct serial numbers. Every camera is in one pair or among the
      leftovers; the pairs by name are exactly those whose names fit and are used by no third
      camera; and no leftover camera's license names another leftover. */
  method FindPairs(devices: seq<Camera>) returns (pairs: seq<Pair>, leftovers: seq<Entry>)
    requires DistinctSerials(devices)
    ensures |devices| == 2 * |pairs| + |leftovers|
    ensures exists all ::
              Consistent(devices, all, pairs) && NoneLeftUpTo(devices, all, |devices|) && IsCompact(leftovers, all)
    ensures forall i: nat, k: nat :: NamePair(devices, i, k) <==> Pair(i, k, true) in pairs
    ensures forall p | 0 <= p < |pairs| && !pairs[p].byName :: LicensePair(devices, pairs[p].left, pairs[p].right)
    ensures forall a | 0 <= a < |leftovers| :: leftovers[a].Live?
    ensures forall a, b | 0 <= a < |leftovers| && 0 <= b < |leftovers| && a != b ::
              leftovers[b].camera.leftSerial == "" || leftovers[a].camera.serial != leftovers[b].camera.leftSerial
  {
    hide Consistent, NamePair, LicensePair, DistinctSerials;
    var all, named := PairByName(devices);
    all, pairs := PairByLicense(devices, all, named);
    LeftoversCount(all);
    leftovers := Compact(all);
    NamedStay(devices, named, pairs);
    assert IsCompact(leftovers, all);
    NoLicenseLeft(devices, all, pairs, leftovers);
    HalvesAndRest(devices, all, pairs);
  }

  lemma {:induction false} HalvesAndRest(devices: seq<Camera>, all: seq<Entry>, pairs: seq<Pair>)
    requires Consistent(devices, all, pairs)
    ensures Left(all) + 2 * |pairs| == |devices|
  {
  }

  /** Where a leftover is among the entries: behind as many that are still there as are in front of
      it. */
  lemma {:induction false} LeftoverAt(all: seq<Entry>, a: nat) returns (i: nat)
    requires a < |Leftovers(all)|
    ensures i < |all| && all[i] == Live(Leftovers(all)[a]) && Left(all[..i]) == a
  {
    var front := all[..|all| - 1];
    if a < |Leftovers(front)| {
      i := LeftoverAt(front, a);
      assert all[..i] == front[..i];
    } else {
      i := |all| - 1;
      LeftoversCount(front);
    }
  }

  lemma {:induction false} NoLicenseLeft(devices: seq<Camera>, all: seq<Entry>, pairs: seq<Pair>, leftovers: seq<Entry>)
    requires Consistent(devices, all, pairs) && |all| == |devices| && NoneLeftUpTo(devices, all, |devices|)
    requires IsCompact(leftovers, all)
    ensures forall a | 0 <= a < |leftovers| :: leftovers[a].Live?
    ensures forall a, b | 0 <= a < |leftovers| && 0 <= b < |leftovers| && a != b ::
              leftovers[b].camera.leftSerial == "" || leftovers[a].camera.serial != leftovers[b].camera.leftSerial
  {
    hide Consistent, LicensePair;
    forall a, b | 0 <= a < |leftovers| && 0 <= b < |leftovers| && a != b
      ensures leftovers[b].camera.leftSerial == "" || leftovers[a].camera.serial != leftovers[b].camera.leftSerial
    {
      var i := LeftoverAt(all, a);
      var k := LeftoverAt(all, b);
      EntryIsDevice(devices, all, pairs, i);
      EntryIsDevice(devices, all, pairs, k);
      assert !LicensePair(devices, i, k);
      LicenseNamesLeft(devices, i, k);
    }
  }

  /** A license names the left camera by its serial number. */
  lemma {:induction false} LicenseNamesLeft(devices: seq<Camera>, i: nat, k: nat)
    requires i < |devices| && k < |devices|
    ensures LicensePair(devices, i, k) <==>
              i != k && devices[k].leftSerial != "" && devices[i].serial == devices[k].leftSerial
  {
  }

  ghost predicate IsCompact(leftovers: seq<Entry>, all: seq<Entry>) {
    |leftovers| == |Leftovers(all)| && forall i | 0 <= i < |leftovers| :: leftovers[i] == Live(Leftovers(all)[i])
  }

  lemma {:induction false} NamedStay(devices: seq<Camera>, named: seq<Pair>, pairs: seq<Pair>)
    requires OnlyNamePairs(devices, named) && Extends(devices, named, pairs)
    requires forall i: nat, k: nat | NamePair(devices, i, k) :: Pair(i, k, true) in named
    ensures forall i: nat, k: nat :: NamePair(devices, i, k) <==> Pair(i, k, true) in pairs
  {
  }
}
