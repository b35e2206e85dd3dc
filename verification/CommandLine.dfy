/** tools/rcdiscover-cli/cli_utils.cc: sorting out duplicates, filtering, and printing one row for each
    device. */
module CommandLine {
  import opened RequestCounter
  import opened Addresses
  import opened DeviceInfo
  import opened StableIndex
  import opened Wildcard

  // ---- sort and unique ---------------------------------------------------------------------

  /** operator <. */
  predicate Under(a: Info, b: Info) {
    a.mac < b.mac || (a.mac == b.mac && Less(a.iface, b.iface))
  }

  predicate SameKey(a: Info, b: Info) {
    a.mac == b.mac && a.iface == b.iface
  }

  lemma {:induction false} UnderIsOrder(a: Info, b: Info, c: Info)
    ensures !Under(a, a)
    ensures Under(a, b) && Under(b, c) ==> Under(a, c)
    ensures Under(a, b) || SameKey(a, b) || Under(b, a)
    ensures SameKey(a, b) ==> !Under(a, b)
    ensures Under(a, b) && SameKey(b, c) ==> Under(a, c)
  {
    if Less(a.iface, a.iface) { LessAsymmetric(a.iface, a.iface); }
    if Less(a.iface, b.iface) && Less(b.iface, c.iface) { LessTransitive(a.iface, b.iface, c.iface); }
    LessTotal(a.iface, b.iface);
  }

  lemma {:induction false} IncreasingInWords(s: seq<Info>)
    requires Increasing(s)
    ensures forall i, j | 0 <= i < j < |s| ::
              s[i].mac < s[j].mac || (s[i].mac == s[j].mac && exists n: nat :: LessAt(s[i].iface, s[j].iface, n))
  {
    hide Less, LessAt;
    forall i, j | 0 <= i < j < |s|
      ensures s[i].mac < s[j].mac || (s[i].mac == s[j].mac && exists n: nat :: LessAt(s[i].iface, s[j].iface, n))
    {
      assert Under(s[i], s[j]);
      LessInLetters(s[i].iface, s[j].iface);
    }
  }

  /** The key is address and interface. */
  lemma {:induction false} HasKeyInWords(s: seq<Info>, x: Info)
    ensures HasKey(s, x) <==> exists i :: 0 <= i < |s| && s[i].mac == x.mac && s[i].iface == x.iface
  {
    if i :| 0 <= i < |s| && s[i].mac == x.mac && s[i].iface == x.iface {
      assert SameKey(s[i], x);
    }
  }

  /** What std::sort promises about the order. */
  ghost predicate InOrder(s: seq<Info>) {
    forall i, j | 0 <= i < j < |s| :: !Under(s[j], s[i])
  }

  ghost predicate Increasing(s: seq<Info>) {
    forall i, j | 0 <= i < j < |s| :: Under(s[i], s[j])
  }

  /** std::unique keeps an element if it differs from the last one that was kept. */
  function Unique(s: seq<Info>): seq<Info> {
    if s == [] then []
    else
      var kept, x := Unique(s[..|s| - 1]), s[|s| - 1];
      if kept != [] && SameKey(kept[|kept| - 1], x) then kept else kept + [x]
  }

  ghost predicate HasKey(s: seq<Info>, x: Info) {
    exists i :: 0 <= i < |s| && SameKey(s[i], x)
  }

  lemma {:induction false} UniqueEnds(s: seq<Info>)
    requires s != []
    ensures Unique(s) != [] && SameKey(Unique(s)[|Unique(s)| - 1], s[|s| - 1])
  {
  }

  /** What is kept comes from the list and has every key of it. */
  lemma {:induction false} UniqueCovers(s: seq<Info>)
    ensures forall x <- Unique(s) :: x in s
    ensures forall x <- s :: HasKey(Unique(s), x)
  {
    if s != [] {
      var front, x := s[..|s| - 1], s[|s| - 1];
      UniqueCovers(front);
      UniqueEnds(s);
      var kept, all := Unique(front), Unique(s);
      hide SameKey, Unique;
      assert s == front + [x] && kept <= all;
      assert HasKey(all, x) by { assert SameKey(all[|all| - 1], x); }
      forall z | z in s ensures HasKey(all, z) {
        if z in front {
          var i :| 0 <= i < |kept| && SameKey(kept[i], z);
          assert all[i] == kept[i];
        }
      }
    }
  }

  /** Element `p` has another address or interface than the one in front of it. */
  predicate BeginsRun(s: seq<Info>, p: nat)
    requires p < |s|
  {
    p == 0 || s[p - 1].mac != s[p].mac || s[p - 1].iface != s[p].iface
  }

  /** `kept` are the elements of `s` at the increasing positions `at`. */
  predicate Picks<T(==)>(s: seq<T>, kept: seq<T>, at: seq<nat>) {
    && |at| == |kept| && (forall k | 0 <= k < |at| :: at[k] < |s| && kept[k] == s[at[k]])
    && (forall j, k | 0 <= j < k < |at| :: at[j] < at[k])
  }

  lemma {:induction false} PicksMore<T>(front: seq<T>, x: T, kept: seq<T>, at: seq<nat>)
    requires Picks(front, kept, at)
    ensures Picks(front + [x], kept, at) && Picks(front + [x], kept + [x], at + [|front|])
    ensures |front| !in at
  {
  }

  /** The first of each run of equal keys is kept, and nothing else, in order; `at` are the positions
      of these. */
  lemma {:induction false} UniqueKeepsFirsts(s: seq<Info>) returns (at: seq<nat>)
    ensures Picks(s, Unique(s), at)
    ensures forall p | 0 <= p < |s| :: p in at <==> BeginsRun(s, p)
  {
    at := [];
    if s != [] {
      var front, n := s[..|s| - 1], |s| - 1;
      var before := UniqueKeepsFirsts(front);
      UniqueAppends(s);
      PicksMore(front, s[n], Unique(front), before);
      assert s == front + [s[n]];
      hide Unique, BeginsRun, Picks;
      at := if BeginsRun(s, n) then before + [n] else before;
      forall p | 0 <= p < |s| ensures p in at <==> BeginsRun(s, p) {
        if p < n {
          RunsOfFront(s, p);
        }
      }
    }
  }

  lemma {:induction false} RunsOfFront(s: seq<Info>, p: nat)
    requires p < |s| - 1
    ensures BeginsRun(s[..|s| - 1], p) <==> BeginsRun(s, p)
  {
  }

  lemma {:induction false} UniqueAppends(s: seq<Info>)
    requires s != []
    ensures var kept := Unique(s[..|s| - 1]);
      Unique(s) == if BeginsRun(s, |s| - 1) then kept + [s[|s| - 1]] else kept
  {
    if |s| > 1 {
      UniqueEnds(s[..|s| - 1]);
    }
  }

  /** Of a sorted list a strictly increasing one is kept. */
  lemma {:induction false} UniqueIncreases(s: seq<Info>)
    requires InOrder(s)
    ensures Increasing(Unique(s))
  {
    hide Under;
    if s != [] {
      var front := s[..|s| - 1];
      UniqueIncreases(front);
      if front != [] {
        UniqueEnds(front);
        UniqueNext(s, Unique(front));
      }
    }
  }

  lemma {:induction false} UniqueNext(s: seq<Info>, kept: seq<Info>)
    requires InOrder(s) && |s| > 1 && kept != [] && Increasing(kept)
    requires SameKey(kept[|kept| - 1], s[|s| - 2])
    ensures SameKey(kept[|kept| - 1], s[|s| - 1]) || Increasing(kept + [s[|s| - 1]])
  {
    hide Under, SameKey;
    var x, last := s[|s| - 1], kept[|kept| - 1];
    assert !Under(x, s[|s| - 2]);
    KeyOrder(last, s[|s| - 2], x);
    if Under(last, x) {
      forall i | 0 <= i < |kept| ensures Under(kept[i], x) {
        if i < |kept| - 1 { UnderIsOrder(kept[i], last, x); }
      }
    }
  }

  lemma {:induction false} KeyOrder(last: Info, previous: Info, x: Info)
    requires SameKey(last, previous) && !Under(x, previous)
    ensures SameKey(last, x) || Under(last, x)
  {
    UnderIsOrder(previous, x, x);
  }

  // ---- filtering ---------------------------------------------------------------------------

  datatype DeviceFilter = DeviceFilter(
    name: seq<string>, serial: seq<string>, mac: seq<string>, iface: seq<string>, model: seq<string>)

  function DisplayName(info: Info): string {
    if info.userName == "" then info.modelName else info.userName
  }

  function MacText(info: Info): string {
    Joined(Printed(BytesOf(info.mac, 6), false), ':')
  }

  function IpText(info: Info): string {
    Joined(Printed(BytesOf(info.ip, 4), true), '.')
  }

  /** std::any_of: it stops at the first match, and a pattern that runs past the end of the text
      ends everything. */
  function AnyMatches(text: string, patterns: seq<string>): Outcome {
    if patterns == [] then NoMatch
    else
      var first := WildcardMatch(text, patterns[0]);
      if first == NoMatch then AnyMatches(text, patterns[1..]) else first
  }

  function MatchesFilter(text: string, patterns: seq<string>): Outcome {
    if patterns == [] then Match else AnyMatches(text, patterns)
  }

  function Criteria(info: Info, f: DeviceFilter): seq<(string, seq<string>)> {
    [(DisplayName(info), f.name), (info.serialNumber, f.serial), (MacText(info), f.mac), (info.iface, f.iface),
     (info.modelName, f.model)]
  }

  function Conjunction(cs: seq<(string, seq<string>)>): Outcome {
    if cs == [] then Match
    else
      var first := MatchesFilter(cs[0].0, cs[0].1);
      if first == Match then Conjunction(cs[1..]) else first
  }

  function Test(c: (string, seq<string>)): Outcome {
    MatchesFilter(c.0, c.1)
  }

  lemma {:induction false} FiveCriteria(cs: seq<(string, seq<string>)>)
    requires |cs| == 5
    ensures Conjunction(cs) ==
      if Test(cs[0]) != Match then Test(cs[0]) else if Test(cs[1]) != Match then Test(cs[1])
      else if Test(cs[2]) != Match then Test(cs[2]) else if Test(cs[3]) != Match then Test(cs[3]) else Test(cs[4])
  {
    hide MatchesFilter;
    assert cs[1..][1..] == cs[2..] && cs[2..][1..] == cs[3..] && cs[3..][1..] == cs[4..] && cs[4..][1..] == [];
    assert Conjunction(cs[4..]) == Test(cs[4]);
    assert Conjunction(cs[3..]) == if Test(cs[3]) != Match then Test(cs[3]) else Conjunction(cs[4..]);
    assert Conjunction(cs[2..]) == if Test(cs[2]) != Match then Test(cs[2]) else Conjunction(cs[3..]);
    assert Conjunction(cs[1..]) == if Test(cs[1]) != Match then Test(cs[1]) else Conjunction(cs[2..]);
  }

  /** No pattern, or one that describes the text. */
  ghost predicate Satisfied(text: string, patterns: seq<string>) {
    patterns == [] || exists i :: 0 <= i < |patterns| && Glob(text, Effective(patterns[i]))
  }

  lemma {:induction false} AnyMatchesIsExact(text: string, patterns: seq<string>)
    requires '*' !in text && AnyMatches(text, patterns) != PastEnd
    ensures AnyMatches(text, patterns) == Match <==>
              exists i :: 0 <= i < |patterns| && Glob(text, Effective(patterns[i]))
    decreases |patterns|
  {
    hide WildcardMatch, Glob, Effective;
    if patterns != [] {
      WildcardIsExact(text, patterns[0]);
      if WildcardMatch(text, patterns[0]) == NoMatch {
        AnyMatchesIsExact(text, patterns[1..]);
        if i :| 0 <= i < |patterns| && Glob(text, Effective(patterns[i])) {
          assert patterns[1..][i - 1] == patterns[i];
        }
        if i :| 0 <= i < |patterns[1..]| && Glob(text, Effective(patterns[1..][i])) {
          assert patterns[i + 1] == patterns[1..][i];
        }
      }
    }
  }

  /** A device whose texts have no star passes exactly if each of its five texts satisfies the
      filter for it. */
  lemma {:induction false} FilterIsExact(cs: seq<(string, seq<string>)>)
    requires Conjunction(cs) != PastEnd && forall i | 0 <= i < |cs| :: '*' !in cs[i].0
    ensures Conjunction(cs) == Match <==> forall i | 0 <= i < |cs| :: Satisfied(cs[i].0, cs[i].1)
    decreases |cs|
  {
    hide AnyMatches, Glob, Effective;
    if cs != [] {
      if cs[0].1 != [] {
        AnyMatchesIsExact(cs[0].0, cs[0].1);
      }
      if MatchesFilter(cs[0].0, cs[0].1) == Match {
        FilterIsExact(cs[1..]);
        assert forall i | 0 < i < |cs| :: cs[i] == cs[1..][i - 1];
      }
    }
  }

  predicate StarFree(info: Info) {
    '*' !in info.userName && '*' !in info.modelName && '*' !in info.serialNumber && '*' !in info.iface
  }

  lemma {:induction false} MacTextHasNoStar(info: Info)
    ensures '*' !in MacText(info)
  {
    hide Joined, Printed, BytesOf;
    var text := MacText(info);
    forall i | 0 <= i < |text| ensures text[i] != '*' {
      PrintedCharacters(BytesOf(info.mac, 6), false, i);
    }
  }

  lemma {:induction false} MacTextParses(info: Info)
    ensures BytesOfString(MacText(info), 16, ':', 6) == Value(BytesOf(info.mac, 6))
  {
    hide Joined, Printed, BytesOf, BytesOfString;
    AddressRoundTrip(BytesOf(info.mac, 6), false);
  }

  lemma {:induction false} FilterInWords(info: Info, filter: DeviceFilter)
    requires StarFree(info) && Conjunction(Criteria(info, filter)) != PastEnd
    ensures Conjunction(Criteria(info, filter)) == Match <==>
      && Satisfied(if info.userName == "" then info.modelName else info.userName, filter.name)
      && Satisfied(info.serialNumber, filter.serial) && Satisfied(MacText(info), filter.mac)
      && Satisfied(info.iface, filter.iface) && Satisfied(info.modelName, filter.model)
  {
    MacTextHasNoStar(info);
    hide Conjunction, Satisfied, MacText;
    var cs := Criteria(info, filter);
    FilterIsExact(cs);
    var all := Satisfied(cs[0].0, cs[0].1) && Satisfied(cs[1].0, cs[1].1) && Satisfied(cs[2].0, cs[2].1)
      && Satisfied(cs[3].0, cs[3].1) && Satisfied(cs[4].0, cs[4].1);
    forall i | 0 <= i < |cs| && all ensures Satisfied(cs[i].0, cs[i].1) {
      if i == 0 {} else if i == 1 {} else if i == 2 {} else if i == 3 {} else {}
    }
  }

  /** The tests in the order name, serial number, address, interface, model. Where no test runs past
      the end of a text, a device without a star in its texts passes exactly if all five filters are
      satisfied; the model stands in for a missing name, and the address is a text that parses as
      the six bytes of the device's. */
  method FilterDevice(info: Info, filter: DeviceFilter) returns (r: Outcome)
    ensures r == Conjunction(Criteria(info, filter))
    ensures BytesOfString(MacText(info), 16, ':', 6) == Value(BytesOf(info.mac, 6))
    ensures StarFree(info) && r != PastEnd ==>
      (r == Match <==>
        && Satisfied(if info.userName == "" then info.modelName else info.userName, filter.name)
        && Satisfied(info.serialNumber, filter.serial) && Satisfied(MacText(info), filter.mac)
        && Satisfied(info.iface, filter.iface) && Satisfied(info.modelName, filter.model))
  {
    FiveCriteria(Criteria(info, filter));
    if StarFree(info) && Conjunction(Criteria(info, filter)) != PastEnd {
      FilterInWords(info, filter);
    }
    MacTextParses(info);
    hide MatchesFilter, Conjunction, Satisfied, MacText, BytesOfString, BytesOf, StarFree;
    r := MatchesFilter(DisplayName(info), filter.name);
    if r != Match { return; }
    r := MatchesFilter(info.serialNumber, filter.serial);
    if r != Match { return; }
    r := MatchesFilter(MacText(info), filter.mac);
    if r != Match { return; }
    r := MatchesFilter(info.iface, filter.iface);
    if r != Match { return; }
    r := MatchesFilter(info.modelName, filter.model);
  }

  /** The devices of the list that pass. */
  function Passing(s: seq<Info>, filter: DeviceFilter): seq<Info> {
    if s == [] then []
    else Passing(s[..|s| - 1], filter) + if Conjunction(Criteria(s[|s| - 1], filter)) == Match then [s[|s| - 1]] else []
  }

  ghost predicate Decided(s: seq<Info>, filter: DeviceFilter) {
    forall x <- s :: Conjunction(Criteria(x, filter)) != PastEnd
  }

  /** Behind the sort. `ok` is false if a filter runs past the end of a text. */
  method UniqueAndFiltered(sorted: seq<Info>, filter: DeviceFilter) returns (ok: bool, devices: seq<Info>)
    ensures ok <==> Decided(Unique(sorted), filter)
    ensures ok ==> devices == Passing(Unique(sorted), filter)
  {
    hide Conjunction, Unique;
    var unique := Unique(sorted);
    ok, devices := true, [];
    var i := 0;
    while i < |unique|
      invariant 0 <= i <= |unique| && ok && devices == Passing(unique[..i], filter)
      invariant Decided(unique[..i], filter)
    {
      assert unique[..i + 1][..i] == unique[..i] && unique[..i + 1] == unique[..i] + [unique[i]];
      var passes := FilterDevice(unique[i], filter);
      if passes == PastEnd {
        assert unique[i] in unique;
        return false, devices;
      }
      if passes == Match {
        devices := devices + [unique[i]];
      }
      i := i + 1;
    }
    assert unique[..i] == unique;
  }

  lemma {:induction false} PassingIsIncreasing(s: seq<Info>, filter: DeviceFilter)
    requires Increasing(s)
    ensures Increasing(Passing(s, filter))
    ensures forall x :: x in Passing(s, filter) <==> x in s && Conjunction(Criteria(x, filter)) == Match
  {
    hide Under, Conjunction;
    if s != [] {
      var front, last := s[..|s| - 1], s[|s| - 1];
      PassingIsIncreasing(front, filter);
      assert s == front + [last];
      forall i | 0 <= i < |Passing(front, filter)| ensures Under(Passing(front, filter)[i], last) {
        assert Passing(front, filter)[i] in front;
      }
    }
  }

  lemma {:induction false} PassingInWords(s: seq<Info>, filter: DeviceFilter)
    requires Increasing(s)
    ensures forall x <- s | StarFree(x) && Conjunction(Criteria(x, filter)) != PastEnd ::
              (x in Passing(s, filter) <==>
                && Satisfied(if x.userName == "" then x.modelName else x.userName, filter.name)
                && Satisfied(x.serialNumber, filter.serial) && Satisfied(MacText(x), filter.mac)
                && Satisfied(x.iface, filter.iface) && Satisfied(x.modelName, filter.model))
  {
    hide Increasing, Passing, Conjunction, Satisfied, MacText, StarFree, Criteria;
    PassingIsIncreasing(s, filter);
    forall x <- s | StarFree(x) && Conjunction(Criteria(x, filter)) != PastEnd
      ensures x in Passing(s, filter) <==>
        && Satisfied(if x.userName == "" then x.modelName else x.userName, filter.name)
        && Satisfied(x.serialNumber, filter.serial) && Satisfied(MacText(x), filter.mac)
        && Satisfied(x.iface, filter.iface) && Satisfied(x.modelName, filter.model)
    {
      FilterInWords(x, filter);
    }
  }

  /** Whatever order the sort gives to equal keys: the devices come in strictly increasing order of
      address and interface; each was reported and passes; and each key reported is represented in
      what is filtered. */
  lemma {:induction false} DevicesAreDistinct(infos: seq<Info>, sorted: seq<Info>, filter: DeviceFilter)
    requires multiset(sorted) == multiset(infos) && InOrder(sorted)
    ensures Increasing(Passing(Unique(sorted), filter))
    ensures var devices := Passing(Unique(sorted), filter);
      forall i, j | 0 <= i < j < |devices| :: devices[i].mac < devices[j].mac
        || (devices[i].mac == devices[j].mac && exists n: nat :: LessAt(devices[i].iface, devices[j].iface, n))
    ensures forall x <- Passing(Unique(sorted), filter) :: x in infos && Conjunction(Criteria(x, filter)) == Match
    ensures forall x <- infos :: HasKey(Unique(sorted), x)
  {
    hide Unique, Conjunction, Passing, Increasing, HasKey, InOrder;
    UniqueIncreases(sorted);
    UniqueCovers(sorted);
    PassingIsIncreasing(Unique(sorted), filter);
    IncreasingInWords(Passing(Unique(sorted), filter));
    forall x ensures x in sorted <==> x in infos {
      assert x in multiset(sorted) <==> x in multiset(infos);
    }
  }

  // ---- one row for each device -------------------------------------------------------------

  type TableRow = seq<string>

  function MacOf(group: seq<Info>): nat
    requires group != []
  {
    group[0].mac
  }

  /** The devices in runs of equal addresses. */
  function Groups(devices: seq<Info>): (groups: seq<seq<Info>>)
    ensures forall i | 0 <= i < |groups| :: groups[i] != []
  {
    if devices == [] then []
    else
      var groups, x := Groups(devices[..|devices| - 1]), devices[|devices| - 1];
      if groups != [] && MacOf(groups[|groups| - 1]) == x.mac
        then groups[..|groups| - 1] + [groups[|groups| - 1] + [x]] else groups + [[x]]
  }

  function Ifaces(group: seq<Info>): (ifaces: seq<string>)
    ensures |ifaces| == |group|
  {
    seq(|group|, i requires 0 <= i < |group| => group[i].iface)
  }

  function RowOf(group: seq<Info>): TableRow
    requires group != []
  {
    [DisplayName(group[0]), group[0].serialNumber, IpText(group[0]), MacText(group[0]), group[0].modelName,
     Joined(Ifaces(group), ',')]
  }

  function RowsOf(groups: seq<seq<Info>>): (rows: seq<TableRow>)
    requires forall i | 0 <= i < |groups| :: groups[i] != []
    ensures |rows| == |groups|
  {
    seq(|groups|, i requires 0 <= i < |groups| => RowOf(groups[i]))
  }

  function Flat(groups: seq<seq<Info>>): seq<Info> {
    if groups == [] then [] else Flat(groups[..|groups| - 1]) + groups[|groups| - 1]
  }

  lemma {:induction false} GroupsKeepDevices(devices: seq<Info>)
    ensures Flat(Groups(devices)) == devices
  {
    if devices != [] {
      var front, x := devices[..|devices| - 1], devices[|devices| - 1];
      GroupsKeepDevices(front);
      var groups, all := Groups(front), Groups(devices);
      assert devices == front + [x];
      if groups != [] && MacOf(groups[|groups| - 1]) == x.mac {
        assert all[..|all| - 1] == groups[..|groups| - 1];
      } else {
        assert all[..|all| - 1] == groups;
      }
    }
  }

  ghost predicate OneMac(group: seq<Info>) {
    group != [] && forall i | 0 <= i < |group| :: group[i].mac == group[0].mac
  }

  ghost predicate Grouped(groups: seq<seq<Info>>) {
    && (forall i | 0 <= i < |groups| :: OneMac(groups[i]))
    && (forall i, j | 0 <= i < j < |groups| :: MacOf(groups[i]) < MacOf(groups[j]))
  }

  lemma {:induction false} JoinsGroup(groups: seq<seq<Info>>, x: Info)
    requires Grouped(groups) && groups != [] && MacOf(groups[|groups| - 1]) == x.mac
    ensures Grouped(groups[..|groups| - 1] + [groups[|groups| - 1] + [x]])
  {
  }

  lemma {:induction false} OpensGroup(groups: seq<seq<Info>>, x: Info)
    requires Grouped(groups) && (groups != [] ==> MacOf(groups[|groups| - 1]) < x.mac)
    ensures Grouped(groups + [[x]])
  {
  }

  /** Devices in increasing order fall into exactly one group for each address, in increasing order
      of the addresses; the groups, one after the other, are the devices. */
  lemma {:induction false} OneGroupPerMac(devices: seq<Info>)
    requires Increasing(devices)
    ensures Grouped(Groups(devices))
    ensures devices != [] ==>
              Groups(devices) != [] && MacOf(Groups(devices)[|Groups(devices)| - 1]) == devices[|devices| - 1].mac
  {
    hide Grouped;
    if devices == [] {
      NoGroups();
    } else {
      var front, x := devices[..|devices| - 1], devices[|devices| - 1];
      assert front != [] ==> Under(front[|front| - 1], x);
      OneGroupPerMac(front);
      var groups := Groups(front);
      if groups != [] && MacOf(groups[|groups| - 1]) == x.mac {
        JoinsGroup(groups, x);
      } else {
        OpensGroup(groups, x);
      }
    }
  }

  lemma {:induction false} NoGroups()
    ensures Grouped([])
  {
  }

  /** The rows: one for each group, or one for each device if only one column is asked for. */
  datatype Mode = All | IpOnly | SerialOnly

  const HEADER: TableRow := ["Name", "Serial Number", "IP", "MAC", "Model", "Interface(s)"]

  function Single(mode: Mode, info: Info): TableRow {
    [if mode.IpOnly? then IpText(info) else info.serialNumber]
  }

  function Rows(devices: seq<Info>, mode: Mode): seq<TableRow> {
    if mode.All? then RowsOf(Groups(devices))
    else seq(|devices|, i requires 0 <= i < |devices| => Single(mode, devices[i]))
  }

  lemma {:induction false} RowGrows(group: seq<Info>, x: Info)
    requires group != []
    ensures RowOf(group + [x]) == RowOf(group)[5 := RowOf(group)[5] + "," + x.iface]
  {
    hide MacText, IpText, DisplayName;
    assert Ifaces(group + [x]) == Ifaces(group) + [x.iface];
    JoinedLast(Ifaces(group), x.iface, ',');
  }

  lemma {:induction false} NewRow(x: Info)
    ensures RowOf([x]) == [DisplayName(x), x.serialNumber, IpText(x), MacText(x), x.modelName, x.iface]
  {
  }

  /** The first device of the last group. */
  function LastFirst(devices: seq<Info>): seq<Info> {
    var groups := Groups(devices);
    if groups == [] then [] else [groups[|groups| - 1][0]]
  }

  lemma {:induction false} SameDevice(front: seq<Info>, x: Info)
    requires LastFirst(front) != [] && x.mac == LastFirst(front)[0].mac
    ensures var rows := Rows(front, All); rows != [] && |rows[|rows| - 1]| == 6
    ensures var rows := Rows(front, All); var last := rows[|rows| - 1];
      Rows(front + [x], All) == rows[..|rows| - 1] + [last[5 := last[5] + "," + x.iface]]
    ensures LastFirst(front + [x]) == LastFirst(front)
  {
    hide RowOf;
    assert (front + [x])[..|front|] == front;
    var groups := Groups(front);
    RowGrows(groups[|groups| - 1], x);
    SixCells(groups[|groups| - 1]);
  }

  lemma {:induction false} SixCells(group: seq<Info>)
    requires group != []
    ensures |RowOf(group)| == 6
  {
  }

  lemma {:induction false} NextDevice(front: seq<Info>, x: Info)
    requires LastFirst(front) == [] || x.mac != LastFirst(front)[0].mac
    ensures Rows(front + [x], All)
         == Rows(front, All) + [[DisplayName(x), x.serialNumber, IpText(x), MacText(x), x.modelName, x.iface]]
    ensures LastFirst(front + [x]) == [x]
  {
  }

  lemma {:induction false} NextSingle(front: seq<Info>, x: Info, mode: Mode)
    requires !mode.All?
    ensures Rows(front + [x], mode) == Rows(front, mode) + [Single(mode, x)]
  {
  }

  lemma {:induction false} SingleRows(devices: seq<Info>, mode: Mode)
    ensures !mode.All? ==> |Rows(devices, mode)| == |devices|
    ensures mode.SerialOnly? ==> forall i | 0 <= i < |devices| :: Rows(devices, mode)[i] == [devices[i].serialNumber]
    ensures mode.IpOnly? ==> forall i | 0 <= i < |devices| :: var row := Rows(devices, mode)[i];
              |row| == 1 && BytesOfString(row[0], 10, '.', 4) == Value(BytesOf(devices[i].ip, 4))
  {
    hide Joined, Printed, BytesOf, BytesOfString;
    forall i | 0 <= i < |devices|
      ensures BytesOfString(IpText(devices[i]), 10, '.', 4) == Value(BytesOf(devices[i].ip, 4))
    {
      AddressRoundTrip(BytesOf(devices[i].ip, 4), true);
    }
  }

  /** The rows to be printed. A header is never appended to. `lastInfo` is the last device that began
      a row, if any. */
  method DeviceRows(devices: seq<Info>, printHeader: bool, mode: Mode) returns (toBePrinted: seq<TableRow>)
    ensures toBePrinted == (if printHeader then [HEADER] else []) + Rows(devices, mode)
    ensures printHeader ==>
      toBePrinted != [] && toBePrinted[0] == ["Name", "Serial Number", "IP", "MAC", "Model", "Interface(s)"]
    ensures !mode.All? ==> |toBePrinted| == |devices| + if printHeader then 1 else 0
    ensures mode.SerialOnly? ==>
      forall i | 0 <= i < |devices| :: toBePrinted[if printHeader then i + 1 else i] == [devices[i].serialNumber]
    ensures mode.IpOnly? ==>
      forall i | 0 <= i < |devices| :: var row := toBePrinted[if printHeader then i + 1 else i];
        |row| == 1 && BytesOfString(row[0], 10, '.', 4) == Value(BytesOf(devices[i].ip, 4))
  {
    SingleRows(devices, mode);
    hide Rows, MacText, IpText, DisplayName, LastFirst, BytesOfString, BytesOf;
    NoRows(mode);
    toBePrinted := [];
    if printHeader {
      toBePrinted := toBePrinted + [HEADER];
    }
    ghost var header := toBePrinted;
    var lastInfo: seq<Info> := [];
    var i := 0;
    while i < |devices|
      invariant 0 <= i <= |devices| && toBePrinted == header + Rows(devices[..i], mode)
      invariant mode.All? ==> lastInfo == LastFirst(devices[..i])
    {
      var info := devices[i];
      assert devices[..i + 1] == devices[..i] + [info];
      i := i + 1;
      if lastInfo != [] && info.mac == lastInfo[0].mac && mode.All? {
        SameDevice(devices[..i - 1], info);
        var last := toBePrinted[|toBePrinted| - 1];
        toBePrinted := toBePrinted[..|toBePrinted| - 1] + [last[|last| - 1 := last[|last| - 1] + "," + info.iface]];
        continue;
      }
      var row: TableRow;
      if mode.IpOnly? {
        row := [IpText(info)];
        NextSingle(devices[..i - 1], info, mode);
      } else if mode.SerialOnly? {
        row := [info.serialNumber];
        NextSingle(devices[..i - 1], info, mode);
      } else {
        row := [DisplayName(info), info.serialNumber, IpText(info), MacText(info), info.modelName, info.iface];
        NextDevice(devices[..i - 1], info);
      }
      toBePrinted := toBePrinted + [row];
      lastInfo := [info];
    }
    assert devices[..i] == devices;
  }

  lemma {:induction false} NoRows(mode: Mode)
    ensures Rows([], mode) == [] && LastFirst([]) == []
  {
  }

  lemma {:induction false} MacTextInjective(a: Info, b: Info)
    requires a.mac < 0x1_0000_0000_0000 && b.mac < 0x1_0000_0000_0000 && MacText(a) == MacText(b)
    ensures a.mac == b.mac
  {
    hide BytesOfString, Joined, Printed, BytesOf, BigEndian;
    MacRoundTrip(a.mac);
    MacRoundTrip(b.mac);
  }

  /** The six cells of a row: the name, or the model if there is none; the serial number; texts that
      parse as the IP and the MAC address; the model; and all interfaces, joined by commas. */
  ghost predicate ShowsDevice(row: TableRow, group: seq<Info>) {
    && group != [] && |row| == 6
    && row[0] == (if group[0].userName == "" then group[0].modelName else group[0].userName)
    && row[1] == group[0].serialNumber
    && BytesOfString(row[2], 10, '.', 4) == Value(BytesOf(group[0].ip, 4))
    && BytesOfString(row[3], 16, ':', 6) == Value(BytesOf(group[0].mac, 6))
    && row[4] == group[0].modelName
    && exists names :: row[5] == Joined(names, ',') && |names| == |group|
         && forall i | 0 <= i < |group| :: names[i] == group[i].iface
  }

  lemma {:induction false} RowShowsDevice(group: seq<Info>)
    requires group != []
    ensures ShowsDevice(RowOf(group), group)
  {
    hide Joined, Printed, BytesOf, BytesOfString;
    AddressRoundTrip(BytesOf(group[0].ip, 4), true);
    AddressRoundTrip(BytesOf(group[0].mac, 6), false);
    assert RowOf(group)[5] == Joined(Ifaces(group), ',');
  }

  /** For the devices that discoverWithFilter returns: no two rows show the same address, each row
      stands for one group, and its last cell joins the interfaces of this group in their order;
      the groups, one after the other, are the devices. */
  lemma {:induction false} OneRowPerDevice(devices: seq<Info>)
    requires Increasing(devices) && forall x <- devices :: x.mac < 0x1_0000_0000_0000
    ensures Flat(Groups(devices)) == devices && |Rows(devices, All)| == |Groups(devices)|
    ensures forall g | 0 <= g < |Groups(devices)| ::
              OneMac(Groups(devices)[g]) && Rows(devices, All)[g] == RowOf(Groups(devices)[g])
    ensures forall g | 0 <= g < |Groups(devices)| :: ShowsDevice(Rows(devices, All)[g], Groups(devices)[g])
    ensures forall g, g' | 0 <= g < g' < |Groups(devices)| :: Rows(devices, All)[g][3] != Rows(devices, All)[g'][3]
  {
    hide Increasing, ShowsDevice;
    forall g | 0 <= g < |Groups(devices)| ensures ShowsDevice(Rows(devices, All)[g], Groups(devices)[g]) {
      RowShowsDevice(Groups(devices)[g]);
    }
    GroupsKeepDevices(devices);
    OneGroupPerMac(devices);
    var groups := Groups(devices);
    forall g, g' | 0 <= g < g' < |groups| ensures RowOf(groups[g])[3] != RowOf(groups[g'])[3] {
      assert OneMac(groups[g]) && OneMac(groups[g']) && MacOf(groups[g]) < MacOf(groups[g']);
      InFlat(groups, g);
      InFlat(groups, g');
      RowMac(groups[g]);
      RowMac(groups[g']);
      hide MacText, RowOf;
      if MacText(groups[g][0]) == MacText(groups[g'][0]) {
        MacTextInjective(groups[g][0], groups[g'][0]);
      }
    }
  }

  lemma {:induction false} RowMac(group: seq<Info>)
    requires group != []
    ensures |RowOf(group)| == 6 && RowOf(group)[3] == MacText(group[0])
  {
  }

  lemma {:induction false} InFlat(groups: seq<seq<Info>>, g: nat)
    requires g < |groups| && groups[g] != []
    ensures groups[g][0] in Flat(groups)
    decreases |groups|
  {
    if g < |groups| - 1 {
      InFlat(groups[..|groups| - 1], g);
    }
  }

  // ---- the printed table -------------------------------------------------------------------

  function Max(a: nat, b: nat): nat {
    if a < b then b else a
  }

  function Spaces(n: nat): (s: string)
    ensures |s| == n
  {
    seq(n, _ => ' ')
  }

  /** Every cell of the row is within the width of its column. */
  predicate RowFits(row: TableRow, width: seq<nat>) {
    |row| <= |width| && forall c | 0 <= c < |row| :: |row[c]| <= width[c]
  }

  /** The first `n` cells as printed; the last one of the row is not filled up. */
  function Line(row: TableRow, width: seq<nat>, n: nat): string
    requires RowFits(row, width) && n <= |row|
  {
    if n == 0 then ""
    else
      Line(row, width, n - 1) + row[n - 1]
      + if n < |row| then Spaces(width[n - 1] - |row[n - 1]|) + "\t" else ""
  }

  function Lines(rows: seq<TableRow>, width: seq<nat>): string
    requires forall r <- rows :: RowFits(r, width)
  {
    if rows == [] then ""
    else
      assert forall r <- rows[..|rows| - 1] :: r in rows;
      assert rows[|rows| - 1] in rows;
      Lines(rows[..|rows| - 1], width) + Line(rows[|rows| - 1], width, |rows[|rows| - 1]|) + "\n"
  }

  /** Where column `c` begins. */
  function Offset(width: seq<nat>, c: nat): nat
    requires c <= |width|
  {
    if c == 0 then 0 else Offset(width, c - 1) + width[c - 1] + 1
  }

  /** The columns are aligned: whatever the row, cell `c` begins at the offset of column `c`. */
  lemma {:induction false} ColumnsAlign(row: TableRow, width: seq<nat>, c: nat, n: nat)
    requires RowFits(row, width) && c < n <= |row|
    ensures var line := Line(row, width, n);
      Offset(width, c) + |row[c]| <= |line| && line[Offset(width, c)..Offset(width, c) + |row[c]|] == row[c]
    decreases n
  {
    if c < n - 1 {
      ColumnsAlign(row, width, c, n - 1);
    } else {
      LineLength(row, width, c);
    }
  }

  /** Behind a cell there are blanks up to one position in front of the next one, and there a tab;
      behind a line there is a line feed. */
  lemma {:induction false} BetweenCells(row: TableRow, width: seq<nat>, c: nat, n: nat)
    requires RowFits(row, width) && c + 1 < n <= |row|
    ensures var line := Line(row, width, n);
      && Offset(width, c) + |row[c]| < Offset(width, c + 1) <= |line| && line[Offset(width, c + 1) - 1] == '\t'
      && forall i | Offset(width, c) + |row[c]| <= i < Offset(width, c + 1) - 1 :: line[i] == ' '
    ensures Lines([], width) == "" && Lines([row], width) == Line(row, width, |row|) + "\n"
    decreases n
  {
    assert [row][..0] == [] && Lines([], width) == "";
    LineLength(row, width, c);
    if c + 1 < n - 1 {
      BetweenCells(row, width, c, n - 1);
    } else {
      LineLength(row, width, c + 1);
    }
  }

  lemma {:induction false} LineLength(row: TableRow, width: seq<nat>, n: nat)
    requires RowFits(row, width) && n < |row|
    ensures |Line(row, width, n)| == Offset(width, n)
    decreases n
  {
    if n > 0 {
      LineLength(row, width, n - 1);
    }
  }

  /** Each width is needed by some row. */
  ghost predicate Needed(rows: seq<TableRow>, width: seq<nat>) {
    forall c | 0 <= c < |width| && width[c] > 0 :: exists r :: r in rows && c < |r| && |r[c]| == width[c]
  }

  method ColumnWidths(rows: seq<TableRow>) returns (width: seq<nat>)
    ensures forall r <- rows :: RowFits(r, width)
    ensures Needed(rows, width)
  {
    var maxColumns: nat := 0;
    var i := 0;
    while i < |rows|
      invariant 0 <= i <= |rows| && forall k | 0 <= k < i :: |rows[k]| <= maxColumns
    {
      maxColumns := Max(maxColumns, |rows[i]|);
      i := i + 1;
    }
    width := seq(maxColumns, _ => 0);
    i := 0;
    while i < |rows|
      invariant 0 <= i <= |rows| && |width| == maxColumns
      invariant forall k | 0 <= k < i :: RowFits(rows[k], width)
      invariant Needed(rows, width)
    {
      var row := rows[i];
      var col := 0;
      while col < |row|
        invariant 0 <= col <= |row| && |width| == maxColumns
        invariant forall k | 0 <= k < i :: RowFits(rows[k], width)
        invariant forall c | 0 <= c < col :: |row[c]| <= width[c]
        invariant Needed(rows, width)
      {
        assert row in rows;
        width := width[col := Max(width[col], |row[col]|)];
        col := col + 1;
      }
      i := i + 1;
    }
  }

  /** Widths into which all rows fit, none of them wider than needed. */
  ghost predicate TightWidths(rows: seq<TableRow>, width: seq<nat>) {
    (forall r <- rows :: RowFits(r, width)) && Needed(rows, width)
  }

  lemma {:induction false} NoLines(width: seq<nat>)
    ensures Lines([], width) == ""
  {
  }

  lemma {:induction false} LinesNext(rows: seq<TableRow>, width: seq<nat>, i: nat)
    requires i < |rows| && forall r <- rows :: RowFits(r, width)
    ensures (forall r <- rows[..i] :: RowFits(r, width)) && (forall r <- rows[..i + 1] :: RowFits(r, width))
    ensures RowFits(rows[i], width)
    ensures Lines(rows[..i + 1], width) == Lines(rows[..i], width) + Line(rows[i], width, |rows[i]|) + "\n"
  {
    hide RowFits, Line;
    assert rows[..i + 1][..i] == rows[..i] && rows[i] in rows;
  }

  /** What one more cell adds. */
  lemma {:induction false} LineNext(before: string, row: TableRow, width: seq<nat>, c: nat)
    requires RowFits(row, width) && c < |row|
    ensures c < |width| && |row[c]| <= width[c]
    ensures before + Line(row, width, c + 1) == before + Line(row, width, c)
      + if c + 1 < |row| then row[c] + Spaces(width[c] - |row[c]|) + "\t" else row[c]
  {
    hide Spaces;
    var blanks := Spaces(width[c] - |row[c]|);
    if c + 1 < |row| {
      assert Line(row, width, c + 1) == Line(row, width, c) + row[c] + (blanks + "\t");
      Regrouped(before, Line(row, width, c), row[c], blanks + "\t");
      assert row[c] + (blanks + "\t") == row[c] + blanks + "\t";
    } else {
      assert Line(row, width, c + 1) == Line(row, width, c) + row[c];
      assert before + (Line(row, width, c) + row[c]) == before + Line(row, width, c) + row[c];
    }
  }

  lemma {:induction false} Regrouped(a: string, b: string, c: string, d: string)
    ensures a + (b + c + d) == a + b + (c + d)
  {
  }

  /** The inner loop, and the end of the line. */
  method PrintRow(before: string, row: TableRow, columnWidth: seq<nat>) returns (out: string)
    requires RowFits(row, columnWidth)
    ensures out == before + Line(row, columnWidth, |row|) + "\n"
  {
    hide RowFits, Line, Spaces;
    EmptyLine(before, row, columnWidth);
    out := before;
    var col := 0;
    while col < |row|
      invariant 0 <= col <= |row| && out == before + Line(row, columnWidth, col)
    {
      LineNext(before, row, columnWidth, col);
      var s := row[col];
      if col < |row| - 1 {
        s := s + Spaces(columnWidth[col] - |s|);
        s := s + "\t";
      }
      out := out + s;
      col := col + 1;
    }
    out := out + "\n";
  }

  lemma {:induction false} EmptyLine(before: string, row: TableRow, width: seq<nat>)
    requires RowFits(row, width)
    ensures before + Line(row, width, 0) == before
  {
  }

  method PrintTable(rows: seq<TableRow>) returns (out: string)
    ensures exists width: seq<nat> :: TightWidths(rows, width) && out == Lines(rows, width)
  {
    var columnWidth := ColumnWidths(rows);
    assert TightWidths(rows, columnWidth);
    hide TightWidths, Needed, RowFits, Line, Lines;
    NoLines(columnWidth);
    out := "";
    var i := 0;
    while i < |rows|
      invariant 0 <= i <= |rows| && (forall r <- rows[..i] :: RowFits(r, columnWidth))
      invariant out == Lines(rows[..i], columnWidth)
    {
      LinesNext(rows, columnWidth, i);
      out := PrintRow(out, rows[i], columnWidth);
      i := i + 1;
    }
    assert rows[..i] == rows;
  }
}
