/** What the device table says about the reports made since it was last cleared, after any run of
    its operations; its row count; and two runs in which the index goes wrong. */
module DeviceHistory {
  import opened StableIndex
  import opened DeviceTable

  // ---- merging -----------------------------------------------------------------------------

  /** The reports since the last clear. */
  function Reports(ops: seq<Op>): seq<Report> {
    if ops == [] then []
    else
      var front, op := ops[..|ops| - 1], ops[|ops| - 1];
      if op.Clear? then [] else if op.Add? then Reports(front) + [op.report] else Reports(front)
  }

  function OfMac(rs: seq<Report>, mac: string): (of: seq<Report>)
    ensures forall r <- of :: r.mac == mac
  {
    if rs == [] then []
    else OfMac(rs[..|rs| - 1], mac) + if rs[|rs| - 1].mac == mac then [rs[|rs| - 1]] else []
  }

  /** The devices in the order in which they were first reported. */
  function FirstMacs(rs: seq<Report>): seq<string> {
    if rs == [] then []
    else
      var front, mac := FirstMacs(rs[..|rs| - 1]), rs[|rs| - 1].mac;
      if mac in front then front else front + [mac]
  }

  ghost predicate Heard(rs: seq<Report>, interface: string) {
    exists i :: 0 <= i < |rs| && rs[i].interface == interface
  }

  /** Report `i` is the first one over its interface, and says reachable. */
  ghost predicate FirstReachable(rs: seq<Report>, i: nat) {
    i < |rs| && rs[i].reachable && forall j | 0 <= j < i :: rs[j].interface != rs[i].interface
  }

  ghost predicate EverReachable(rs: seq<Report>) {
    exists i :: FirstReachable(rs, i)
  }

  /** The row of a device that was reported with `rs`: names and addresses of the first report, the
      ordered set of all interfaces, and the disjunction of what the first report over each of
      these says about reachability. */
  ghost predicate Summarises(row: Row, rs: seq<Report>) {
    && rs != []
    && row.item[..INTERFACES] == [rs[0].name, rs[0].manufacturer, rs[0].model, rs[0].sn, rs[0].ip, rs[0].mac]
    && Ascending(row.interfaces) && (forall x :: x in row.interfaces <==> Heard(rs, x))
    && row.item[INTERFACES] == Join(row.interfaces)
    && (row.reachable <==> EverReachable(rs))
    && row.item[7] == (if row.reachable then "\U{E2}\U{9C}\U{93}" else "\U{E2}\U{9C}\U{97}")
  }

  function MacList(device: seq<Row>): (macs: seq<string>)
    ensures |macs| == |device|
  {
    seq(|device|, i requires 0 <= i < |device| => device[i].item[MAC])
  }

  ghost predicate Describes(device: seq<Row>, rs: seq<Report>) {
    && MacList(device) == FirstMacs(rs)
    && forall k | 0 <= k < |device| :: Summarises(device[k], OfMac(rs, device[k].item[MAC]))
  }

  lemma {:induction false} OneMoreInterface(rs: seq<Report>, r: Report)
    ensures forall x :: Heard(rs + [r], x) <==> Heard(rs, x) || x == r.interface
    ensures EverReachable(rs + [r]) <==> EverReachable(rs) || (r.reachable && !Heard(rs, r.interface))
  {
    var all := rs + [r];
    assert all[|rs|] == r;
    forall x ensures Heard(all, x) <==> Heard(rs, x) || x == r.interface {
      if Heard(rs, x) {
        var i :| 0 <= i < |rs| && rs[i].interface == x;
        assert all[i].interface == x;
      }
    }
    forall i | 0 <= i < |rs| ensures FirstReachable(rs, i) <==> FirstReachable(all, i) {
      assert forall j | 0 <= j <= i :: all[j] == rs[j];
    }
    assert FirstReachable(all, |rs|) <==> r.reachable && !Heard(rs, r.interface) by {
      assert forall j | 0 <= j < |rs| :: all[j] == rs[j];
    }
  }

  lemma {:induction false} NewRowSummarises(r: Report, previous: set<string>)
    ensures Summarises(NewRow(r, previous), [r])
  {
    OneMoreInterface([], r);
    assert [] + [r] == [r];
  }

  lemma {:induction false} MergedSummarises(row: Row, rs: seq<Report>, r: Report)
    requires Summarises(row, rs)
    ensures Summarises(Merged(row, r.interface, r.reachable), rs + [r])
  {
    hide Ascending, Heard, EverReachable, Join, Inserted;
    OneMoreInterface(rs, r);
    InsertedIsAscendingSet(row.interfaces, r.interface);
    assert (rs + [r])[0] == rs[0];
    var row' := Merged(row, r.interface, r.reachable);
    assert row'.item[..INTERFACES] == row.item[..INTERFACES];
  }

  lemma {:induction false} InsertedIsAscendingSet(s: seq<string>, x: string)
    requires Ascending(s)
    ensures Ascending(Inserted(s, x)) && forall y :: y in Inserted(s, x) <==> y in s || y == x
  {
    InsertedAscends(s, x);
    forall y ensures y in Inserted(s, x) <==> y in s || y == x {
      InsertedMembers(s, x, y);
    }
  }

  lemma {:induction false} OfMacSnoc(rs: seq<Report>, r: Report, mac: string)
    ensures OfMac(rs + [r], mac) == if r.mac == mac then OfMac(rs, mac) + [r] else OfMac(rs, mac)
    ensures mac in FirstMacs(rs + [r]) <==> mac in FirstMacs(rs) || r.mac == mac
    ensures FirstMacs(rs + [r]) == if r.mac in FirstMacs(rs) then FirstMacs(rs) else FirstMacs(rs) + [r.mac]
  {
  }

  lemma {:induction false} NotYetReported(rs: seq<Report>, mac: string)
    ensures mac in FirstMacs(rs) <==> OfMac(rs, mac) != []
  {
    if rs != [] {
      NotYetReported(rs[..|rs| - 1], mac);
      assert rs == rs[..|rs| - 1] + [rs[|rs| - 1]];
      OfMacSnoc(rs[..|rs| - 1], rs[|rs| - 1], mac);
    }
  }

  lemma {:induction false} FirstMacsDistinct(rs: seq<Report>)
    ensures forall i, j | 0 <= i < j < |FirstMacs(rs)| :: FirstMacs(rs)[i] != FirstMacs(rs)[j]
  {
    if rs != [] {
      FirstMacsDistinct(rs[..|rs| - 1]);
    }
  }

  lemma {:induction false} DescribedMac(device: seq<Row>, rs: seq<Report>, i: nat)
    requires Describes(device, rs) && i < |device|
    ensures i < |FirstMacs(rs)| && FirstMacs(rs)[i] == device[i].item[MAC]
  {
  }

  lemma {:induction false} MergeDescribes(device: seq<Row>, rs: seq<Report>, r: Report, k: nat)
    requires Describes(device, rs) && k < |device| && device[k].item[MAC] == r.mac
    ensures Describes(device[k := Merged(device[k], r.interface, r.reachable)], rs + [r])
  {
    hide Summarises, Merged, OfMac, FirstMacs;
    var row := Merged(device[k], r.interface, r.reachable);
    var device' := device[k := row];
    OfMacSnoc(rs, r, r.mac);
    FirstMacsDistinct(rs);
    DescribedMac(device, rs, k);
    MergedSummarises(device[k], OfMac(rs, r.mac), r);
    SummaryMac(row, OfMac(rs, r.mac) + [r]);
    assert MacList(device') == MacList(device);
    forall i | 0 <= i < |device'| ensures Summarises(device'[i], OfMac(rs + [r], device'[i].item[MAC])) {
      OfMacSnoc(rs, r, device'[i].item[MAC]);
      DescribedMac(device, rs, i);
    }
  }

  lemma {:induction false} AppendDescribes(device: seq<Row>, rs: seq<Report>, r: Report, previous: set<string>)
    requires Describes(device, rs) && forall i | 0 <= i < |device| :: device[i].item[MAC] != r.mac
    ensures Describes(device + [NewRow(r, previous)], rs + [r])
  {
    hide Summarises, NewRow, OfMac, FirstMacs;
    var device' := device + [NewRow(r, previous)];
    OfMacSnoc(rs, r, r.mac);
    assert r.mac !in FirstMacs(rs) by {
      forall i | 0 <= i < |device| ensures FirstMacs(rs)[i] != r.mac { DescribedMac(device, rs, i); }
    }
    NotYetReported(rs, r.mac);
    NewRowSummarises(r, previous);
    SummaryMac(NewRow(r, previous), [r]);
    assert OfMac(rs, r.mac) + [r] == [r];
    assert MacList(device') == MacList(device) + [r.mac];
    forall i | 0 <= i < |device'| ensures Summarises(device'[i], OfMac(rs + [r], device'[i].item[MAC])) {
      if i < |device| {
        assert device'[i] == device[i];
        OfMacSnoc(rs, r, device[i].item[MAC]);
      } else {
        assert device'[i] == NewRow(r, previous) && device'[i].item[MAC] == r.mac;
      }
    }
  }

  lemma {:induction false} AddDescribes(t: Table, rs: seq<Report>, r: Report)
    requires InRange(t.index, |t.device|) && Describes(t.device, rs)
    ensures Describes(AddReport(t, r).device, rs + [r])
  {
    hide Describes, Merged, NewRow, AddIndex, Visible;
    var k := Find(t.device, r.mac);
    if k < |t.device| {
      MergeDescribes(t.device, rs, r, k);
    } else {
      AppendDescribes(t.device, rs, r, t.previous);
    }
  }

  lemma {:induction false} SummaryMac(row: Row, rs: seq<Report>)
    requires Summarises(row, rs)
    ensures rs != [] && row.item[MAC] == rs[0].mac
  {
  }

  lemma {:induction false} ClickDescribes(device: seq<Row>, rs: seq<Report>)
    requires Describes(device, rs)
    ensures Describes(Clicked(device), rs)
  {
  }

  /** After any run there is one row for each address reported since the last clear, in the order of
      the first reports, and it summarises exactly the reports of that address. */
  lemma {:induction false} MergeHistory(ops: seq<Op>)
    ensures Describes(Run(ops).device, Reports(ops))
    ensures forall i, j | 0 <= i < j < |Run(ops).device| :: Run(ops).device[i].item[MAC] != Run(ops).device[j].item[MAC]
  {
    hide AddReport, Reindexed, Summarises;
    if ops != [] {
      var front, op := ops[..|ops| - 1], ops[|ops| - 1];
      MergeHistory(front);
      match op
      case Add(r) => AddDescribes(Run(front), Reports(front), r);
      case ClickCell => ClickDescribes(Run(front).device, Reports(front));
      case Clear => assert Reports(ops) == [] && Run(ops).device == [];
      case _ => ReindexKeepsDevices(Run(front), op);
    }
    FirstMacsDistinct(Reports(ops));
    forall i | 0 <= i < |Run(ops).device| ensures MacList(Run(ops).device)[i] == Run(ops).device[i].item[MAC] {}
  }

  lemma {:induction false} ReindexKeepsDevices(t: Table, op: Op)
    requires InRange(t.index, |t.device|) && Rebuilds(op) && !op.Clear?
    ensures Apply(t, op).device == t.device && Apply(t, op).previous == t.previous
    ensures Apply(t, op).newDiscovery == t.newDiscovery
  {
  }

  /** What a row says does not depend on the order in which a device's interfaces were reported. */
  lemma {:induction false} InterfacesDetermineText(row: Row, rs: seq<Report>, row': Row, rs': seq<Report>)
    requires Summarises(row, rs) && Summarises(row', rs') && forall x :: Heard(rs, x) <==> Heard(rs', x)
    ensures row.interfaces == row'.interfaces && row.item[INTERFACES] == row'.item[INTERFACES]
  {
    hide EverReachable, Ascending, Heard, Join;
    AscendingUnique(row.interfaces, row'.interfaces);
  }

  // ---- newly discovered devices ------------------------------------------------------------

  /** How many of the devices had been seen when the marks were last taken off. */
  function Seen(ops: seq<Op>): nat {
    if ops == [] then 0
    else
      var front, op := ops[..|ops| - 1], ops[|ops| - 1];
      if op.Clear? then 0 else if op.ClickCell? then |Run(front).device| else Seen(front)
  }

  /** The addresses before the last clear. */
  function Known(ops: seq<Op>): set<string> {
    if ops == [] then {}
    else
      var front, op := ops[..|ops| - 1], ops[|ops| - 1];
      if op.Clear? then Macs(Run(front).device) else Known(front)
  }

  ghost predicate MarksAgree(t: Table, seen: nat, known: set<string>) {
    && t.previous == known && seen <= |t.device|
    && (forall k | 0 <= k < |t.device| ::
          t.device[k].isNew <==> seen <= k && known != {} && t.device[k].item[MAC] !in known)
    && (t.newDiscovery <==> exists k :: 0 <= k < |t.device| && t.device[k].isNew)
  }

  lemma {:induction false} AddKeepsMarks(t: Table, r: Report, seen: nat)
    requires InRange(t.index, |t.device|) && MarksAgree(t, seen, t.previous)
    ensures MarksAgree(AddReport(t, r), seen, t.previous)
  {
    hide AddIndex, Visible, Inserted, Join, Mark;
    var k, t' := Find(t.device, r.mac), AddReport(t, r);
    if k < |t.device| {
      forall i | 0 <= i < |t.device|
        ensures t'.device[i].isNew == t.device[i].isNew && t'.device[i].item[MAC] == t.device[i].item[MAC] {}
    } else {
      assert forall i | 0 <= i < |t.device| :: t'.device[i] == t.device[i];
      assert t'.device[|t.device|] == NewRow(r, t.previous);
      if t.newDiscovery {
        var i :| 0 <= i < |t.device| && t.device[i].isNew;
        assert t'.device[i].isNew;
      }
    }
  }

  /** A device is marked as new exactly if something was known before the last clear, but not this
      device, and no cell was clicked since it appeared; the list is marked exactly if a device
      is. */
  lemma {:induction false} NewDiscoveryHistory(ops: seq<Op>)
    ensures MarksAgree(Run(ops), Seen(ops), Known(ops))
  {
    hide AddReport, Reindexed;
    if ops != [] {
      var front, op := ops[..|ops| - 1], ops[|ops| - 1];
      NewDiscoveryHistory(front);
      match op
      case Add(r) => AddKeepsMarks(Run(front), r, Seen(front));
      case ClickCell =>
      case Clear =>
      case _ => ReindexKeepsDevices(Run(front), op);
    }
  }

  /** What is known after clearing is what was reported before it, and a click takes in all that was
      reported so far. */
  lemma {:induction false} KnownWereReported(ops: seq<Op>, mac: string)
    ensures mac in Known(ops + [Clear]) <==> exists i :: 0 <= i < |Reports(ops)| && Reports(ops)[i].mac == mac
    ensures Seen(ops + [ClickCell]) == |FirstMacs(Reports(ops))|
  {
    assert (ops + [Clear])[..|ops|] == ops && (ops + [ClickCell])[..|ops|] == ops;
    hide Run, Reports, Describes, FirstMacs, Macs;
    MergeHistory(ops);
    FirstMacsAre(Reports(ops), mac);
    MacsAreReported(Run(ops).device, Reports(ops), mac);
  }

  lemma {:induction false} MacsAreReported(device: seq<Row>, rs: seq<Report>, mac: string)
    requires Describes(device, rs)
    ensures mac in Macs(device) <==> mac in FirstMacs(rs)
    ensures |device| == |FirstMacs(rs)|
  {
    hide Summarises, FirstMacs;
    forall k | 0 <= k < |device| ensures k < |FirstMacs(rs)| && FirstMacs(rs)[k] == device[k].item[MAC] {
      DescribedMac(device, rs, k);
    }
    if k :| 0 <= k < |FirstMacs(rs)| && FirstMacs(rs)[k] == mac {
      assert device[k] in device;
    }
  }

  lemma {:induction false} FirstMacsAre(rs: seq<Report>, mac: string)
    ensures mac in FirstMacs(rs) <==> exists i :: 0 <= i < |rs| && rs[i].mac == mac
  {
    if rs != [] {
      var front := rs[..|rs| - 1];
      FirstMacsAre(front, mac);
      if i :| 0 <= i < |front| && front[i].mac == mac {
        assert rs[i].mac == mac;
      }
    }
  }

  // ---- the row count -----------------------------------------------------------------------

  predicate Distinct(index: seq<nat>) {
    forall p, q | 0 <= p < q < |index| :: index[p] != index[q]
  }

  lemma {:induction false} InsertedDistinct(index: seq<nat>, p: nat, i: nat)
    requires Distinct(index) && p <= |index| && InRange(index, i)
    ensures Distinct(InsertedAt(index, p, i))
  {
  }

  lemma {:induction false} RebuiltDistinct(device: seq<Row>, view: View, n: nat)
    requires n <= |device|
    ensures Distinct(Rebuilt(device, view, n)) && InRange(Rebuilt(device, view, n), n)
  {
    hide Visible, Slot, InsertedAt, Distinct;
    RebuiltIsStableSort(device, view, n);
    var index := Rebuilt(device, view, n);
    forall p | 0 <= p < |index| ensures index[p] < n {
      assert index[p] in index;
    }
    if n == 0 {
      NothingDistinct();
    } else {
      RebuiltDistinct(device, view, n - 1);
      var front := Rebuilt(device, view, n - 1);
      InsertedDistinct(front, Slot(Keys(device, view.column), view.down, front, n - 1, 0), n - 1);
    }
  }

  lemma {:induction false} NothingDistinct()
    ensures Distinct([])
  {
  }

  /** Whatever happens, no device is listed twice. */
  lemma {:induction false} IndexIsDistinct(ops: seq<Op>)
    ensures Distinct(Run(ops).index)
  {
    hide Visible, Slot, InsertedAt, Distinct, Rebuilt;
    NothingDistinct();
    if ops != [] {
      var front, op := ops[..|ops| - 1], ops[|ops| - 1];
      var t, t' := Run(front), Run(ops);
      IndexIsDistinct(front);
      RebuiltDistinct(t.device, t'.view, |t.device|);
      if op.Add? && Find(t.device, op.report.mac) == |t.device| {
        InsertedDistinct(t.index, Slot(Keys(t'.device, t.view.column), t.view.down, t.index, |t.device|, 0),
            |t.device|);
      }
    }
  }

  function Members(s: seq<nat>): set<nat> {
    set x | x in s
  }

  lemma {:induction false} OneMoreMember(s: seq<nat>, x: nat)
    ensures Members(s + [x]) == Members(s) + {x}
  {
  }

  lemma {:induction false} DistinctSize(s: seq<nat>)
    requires Distinct(s)
    ensures |Members(s)| == |s|
  {
    if s == [] {
      assert Members(s) == {};
    } else {
      var front, x := s[..|s| - 1], s[|s| - 1];
      assert s == front + [x] && Distinct(front) && x !in Members(front);
      hide Distinct, Members;
      DistinctSize(front);
      OneMoreMember(front, x);
    }
  }

  lemma {:induction false} SameMembersSameLength(s: seq<nat>, t: seq<nat>)
    requires Distinct(s) && Distinct(t) && forall i: nat :: i in s <==> i in t
    ensures |s| == |t|
  {
    DistinctSize(s);
    DistinctSize(t);
    assert Members(s) == Members(t);
  }

  /** Without a text filter the widget's row count is the number of listed devices, and these are
      the visible ones, even after sorting, which does not tell the widget. */
  ghost predicate RowsAgree(t: Table) {
    t.view.filter == "" ==> t.rows == |t.index| && Lists(Shown(t.device, t.view), t.index)
  }

  lemma {:induction false} RebuiltLists(device: seq<Row>, view: View)
    ensures Lists(Shown(device, view), Rebuilt(device, view, |device|))
  {
    hide Visible;
    RebuiltIsStableSort(device, view, |device|);
  }

  lemma {:induction false} ReindexKeepsRows(t: Table, view: View, tell: bool)
    requires InRange(t.index, |t.device|) && Distinct(t.index)
    requires tell || (RowsAgree(t) && view.filter == t.view.filter && view.onlyRc == t.view.onlyRc)
    ensures RowsAgree(Reindexed(t, view, tell))
  {
    hide Rebuilt, Visible, Distinct;
    RebuiltLists(t.device, view);
    RebuiltDistinct(t.device, view, |t.device|);
    if !tell && view.filter == "" {
      assert Shown(t.device, view) == Shown(t.device, t.view) by { SameFilterSameShown(t.device, view, t.view); }
      SameMembersSameLength(t.index, Rebuilt(t.device, view, |t.device|));
    }
  }

  lemma {:induction false} SameFilterSameShown(device: seq<Row>, v: View, w: View)
    requires v.filter == w.filter && v.onlyRc == w.onlyRc
    ensures Shown(device, v) == Shown(device, w)
  {
  }

  lemma {:induction false} AddKeepsRows(t: Table, r: Report)
    requires InRange(t.index, |t.device|) && RowsAgree(t)
    ensures RowsAgree(AddReport(t, r))
  {
    hide Slot, InsertedAt, Inserted, Join, Mark;
    var k, t' := Find(t.device, r.mac), AddReport(t, r);
    if t.view.filter == "" {
      forall i | 0 <= i < |t.device| ensures Visible(t'.device[i], t.view) == Visible(t.device[i], t.view) {
        assert t'.device[i].item[MODEL] == t.device[i].item[MODEL];
      }
      if k < |t.device| {
        assert Shown(t'.device, t.view) == Shown(t.device, t.view);
      } else {
        assert Shown(t'.device, t.view) == Shown(t.device, t.view) + [Visible(NewRow(r, t.previous), t.view)];
        InsertedAtMembers(t.index, Slot(Keys(t'.device, t.view.column), t.view.down, t.index, |t.device|, 0),
            |t.device|);
        InsertedLength(t.index, Slot(Keys(t'.device, t.view.column), t.view.down, t.index, |t.device|, 0), |t.device|);
      }
    }
  }

  lemma {:induction false} InsertedLength(index: seq<nat>, p: nat, i: nat)
    requires p <= |index|
    ensures |InsertedAt(index, p, i)| == |index| + 1
  {
  }

  lemma {:induction false} RowCountHistory(ops: seq<Op>)
    ensures RowsAgree(Run(ops))
  {
    hide RowsAgree, AddReport, Reindexed;
    if ops == [] {
      NoRowsAgree(EMPTY);
    } else {
      var front, op := ops[..|ops| - 1], ops[|ops| - 1];
      var t := Run(front);
      RowCountHistory(front);
      IndexIsDistinct(front);
      match op
      case Clear => NoRowsAgree(Run(ops));
      case Add(r) => AddKeepsRows(t, r);
      case FilterRc(onlyRc) => ReindexKeepsRows(t, t.view.(onlyRc := onlyRc), true);
      case Filter(filter) => ReindexKeepsRows(t, t.view.(filter := filter), true);
      case SetSorting(column, down) => ReindexKeepsRows(t, t.view.(column := column, down := down), false);
      case SortColumn(column) =>
        var down := if t.view.column == column then !t.view.down else true;
        ReindexKeepsRows(t, t.view.(column := column, down := down), false);
      case ClickCell => ClickKeepsRows(t);
    }
  }

  lemma {:induction false} NoRowsAgree(t: Table)
    requires t.device == [] && t.index == [] && t.rows == 0
    ensures RowsAgree(t)
  {
  }

  lemma {:induction false} ClickKeepsRows(t: Table)
    requires InRange(t.index, |t.device|) && RowsAgree(t)
    ensures RowsAgree(Apply(t, ClickCell))
  {
  }

  /** Every merge of the run has satisfied the guard. */
  ghost predicate Guarded(ops: seq<Op>) {
    ops == [] || (Guarded(ops[..|ops| - 1]) && KeepsIndex(Run(ops[..|ops| - 1]), ops[|ops| - 1]))
  }

  predicate Resorts(op: Op) {
    op.SetSorting? || op.SortColumn?
  }

  lemma {:induction false} RebuiltLength(device: seq<Row>, v: View, w: View)
    requires v.filter == w.filter && v.onlyRc == w.onlyRc
    ensures |Rebuilt(device, v, |device|)| == |Rebuilt(device, w, |device|)|
  {
    hide Visible, StablyBefore, Rebuilt;
    SameFilterSameShown(device, v, w);
    RebuiltDistinct(device, v, |device|);
    RebuiltDistinct(device, w, |device|);
    RebuiltLists(device, v);
    RebuiltLists(device, w);
    SameMembersSameLength(Rebuilt(device, v, |device|), Rebuilt(device, w, |device|));
  }

  /** A right row count stays right exactly if the table is not sorted while a different number of
      devices is visible than listed. */
  lemma {:induction false} StepKeepsRowCountIff(t: Table, op: Op)
    requires InRange(t.index, |t.device|) && t.rows == |t.index|
    ensures Apply(t, op).rows == |Apply(t, op).index| <==>
              (Resorts(op) ==> |t.index| == |Rebuilt(t.device, t.view, |t.device|)|)
  {
    hide Visible, Rebuilt;
    if Resorts(op) {
      RebuiltLength(t.device, t.view, Apply(t, op).view);
    }
  }

  lemma {:induction false} ResortKeepsLength(t: Table, view: View)
    requires UpToDate(t) && view.filter == t.view.filter && view.onlyRc == t.view.onlyRc
    ensures |Rebuilt(t.device, view, |t.device|)| == |t.index|
  {
    hide Visible, Rebuilt;
    UpToDateIffRebuilt(t);
    RebuiltLength(t.device, view, t.view);
  }

  lemma {:induction false} StepKeepsRowCount(t: Table, op: Op)
    requires InRange(t.index, |t.device|) && UpToDate(t) && t.rows == |t.index|
    ensures Apply(t, op).rows == |Apply(t, op).index|
  {
    hide UpToDate, Visible, Rebuilt;
    match op
    case SetSorting(column, down) => ResortKeepsLength(t, Apply(t, op).view);
    case SortColumn(column) => ResortKeepsLength(t, Apply(t, op).view);
    case _ =>
  }

  /** In such a run the row count is right under any filter. */
  lemma {:induction false} GuardedRun(ops: seq<Op>)
    requires Guarded(ops)
    ensures UpToDate(Run(ops)) && Run(ops).rows == |Run(ops).index|
  {
    if ops == [] {
      UpToDateIffRebuilt(EMPTY);
    } else {
      hide UpToDate, KeepsIndex, Apply;
      var front, op := ops[..|ops| - 1], ops[|ops| - 1];
      GuardedRun(front);
      StepKeepsIndexIff(Run(front), op);
      StepKeepsRowCount(Run(front), op);
    }
  }

  // ---- two runs in which the guard is violated ---------------------------------------------

  function Camera(mac: string, interface: string): Report {
    Report("camera", "", "rc_visard", "", "", mac, interface, true)
  }

  lemma {:induction false} RunSnoc(ops: seq<Op>, op: Op)
    ensures Run(ops + [op]) == Apply(Run(ops), op)
  {
  }

  /** Sorted by column 6: the second camera is reported over another interface. */
  const SORTED_BY_INTERFACE := [SetSorting(INTERFACES, true)] + [Add(Camera("A", "b"))] + [Add(Camera("B", "c"))]
  const MERGED_OUT_OF_ORDER := SORTED_BY_INTERFACE + [Add(Camera("B", "a"))]

  lemma {:induction false} TwoCameras()
    ensures var t := Run(SORTED_BY_INTERFACE);
      && t.device == [NewRow(Camera("A", "b"), {}), NewRow(Camera("B", "c"), {})]
      && t.index == [0, 1] && t.view == View(INTERFACES, true, true, "")
  {
    var sort := [SetSorting(INTERFACES, true)];
    var one := sort + [Add(Camera("A", "b"))];
    assert [] + sort == sort;
    RunSnoc([], SetSorting(INTERFACES, true));
    RunSnoc(sort, Add(Camera("A", "b")));
    RunSnoc(one, Add(Camera("B", "c")));
    var t0, t1 := Run(sort), Run(one);
    assert t0.device == [] && t0.index == [] && t0.view == View(INTERFACES, true, true, "") && t0.previous == {};
    assert t1.device == [NewRow(Camera("A", "b"), {})] && t1.index == [0] && t1.view == t0.view && t1.previous == {};
    var keys := Keys(Run(SORTED_BY_INTERFACE).device, INTERFACES);
    assert !Before(keys[1], keys[0], true);
  }

  lemma {:induction false} JoinTwo(a: string, b: string)
    ensures Join([a, b]) == a + ", " + b
  {
  }

  lemma {:induction false} AddMerges(t: Table, r: Report, k: nat)
    requires InRange(t.index, |t.device|) && k < |t.device| && Find(t.device, r.mac) == k
    ensures AddReport(t, r) == t.(device := t.device[k := Merged(t.device[k], r.interface, r.reachable)])
  {
  }

  lemma {:induction false} OutOfOrder(t: Table)
    requires |t.device| == 2 && t.index == [0, 1] && t.view.column == INTERFACES && t.view.down
    requires t.device[0].item[INTERFACES] == "b" && t.device[1].item[INTERFACES] == "a, c"
    ensures !UpToDate(t)
  {
    var keys := Keys(t.device, INTERFACES);
    assert Less("a, c", "b") && !Less("b", "a, c");
    assert !StablyBefore(keys, true, t.index[0], t.index[1]);
  }

  lemma {:induction false} Letters()
    ensures Less("a", "b") && Less("b", "c") && Less("a", "c")
  {
  }

  lemma {:induction false} InsertLast(x: string, y: string)
    requires Less(x, y)
    ensures Inserted([x], y) == [x, y]
  {
    LessAsymmetric(x, y);
    assert [x][1..] == [];
  }

  lemma {:induction false} InsertBetween(x: string, z: string, y: string)
    requires Less(x, y) && Less(y, z)
    ensures Inserted([x, z], y) == [x, y, z]
  {
    LessAsymmetric(x, y);
    LessAsymmetric(y, z);
    assert [x, z][1..] == [z];
    assert Rank([x, z], y) == 1;
  }

  lemma {:induction false} MergedCamera()
    ensures Merged(NewRow(Camera("B", "c"), {}), "a", true).item[INTERFACES] == "a, c"
  {
  }

  /** Then the index keeps the camera where it was, although "a, c" goes in front of "b". */
  lemma {:induction false} MergeCanBreakOrder()
    ensures !UpToDate(Run(MERGED_OUT_OF_ORDER))
  {
    TwoCameras();
    MergedCamera();
    RunSnoc(SORTED_BY_INTERFACE, Add(Camera("B", "a")));
    var t := Run(SORTED_BY_INTERFACE);
    assert Find(t.device, "B") == 1;
    hide Merged, Inserted, Run, Find, AddReport, UpToDate;
    AddMerges(t, Camera("B", "a"), 1);
    OutOfOrder(Run(MERGED_OUT_OF_ORDER));
  }

  /** Filtered by "a, c", the only camera has just that in column 6; it gets another interface in
      between, and then the table is sorted. */
  const FILTERED := [Add(Camera("A", "a"))] + [Add(Camera("A", "c"))] + [Filter("a, c")]
  const SORTED_AFTER_MERGE := FILTERED + [Add(Camera("A", "b"))] + [SetSorting(0, true)]

  function CameraRow(interfaces: seq<string>): Row {
    Row(["camera", "", "rc_visard", "", "", "A", Join(interfaces), CHECK_MARK], interfaces, true, false)
  }

  lemma {:induction false} CommaInside(s: string)
    requires ',' !in s
    ensures !Contains(s, "a, c")
  {
    forall i: nat | i <= |s| ensures !OccursAt(s, "a, c", i) {
      if i + 4 <= |s| {
        assert s[i..i + 4][1] == s[i + 1];
      }
    }
  }

  lemma {:induction false} NotAdjacent()
    ensures !Contains("a, b, c", "a, c")
  {
    var s := "a, b, c";
    forall i: nat | i <= |s| ensures !OccursAt(s, "a, c", i) {
      if i + 4 <= |s| {
        assert s[i..i + 4][0] == s[i] && s[i..i + 4][3] == s[i + 3];
      }
    }
  }

  lemma {:induction false} CameraVisible(view: View)
    requires view.onlyRc && view.filter == "a, c"
    ensures Visible(CameraRow(["a", "c"]), view) && !Visible(CameraRow(["a", "b", "c"]), view)
  {
    JoinTwo("a", "c");
    JoinTwo("a", "b");
    assert ["a", "b", "c"][..2] == ["a", "b"];
    var row, row' := CameraRow(["a", "c"]), CameraRow(["a", "b", "c"]);
    assert OccursAt("a, c", "a, c", 0);
    assert row.item[INTERFACES] == "a, c" && row'.item[INTERFACES] == "a, b, c";
    assert Contains(row.item[INTERFACES], "a, c");
    NotAdjacent();
    CommaInside("camera");
    CommaInside("");
    CommaInside("rc_visard");
    CommaInside("A");
    hide Contains;
    forall k | 0 <= k < 7 ensures !Contains(row'.item[k], "a, c") {}
  }

  lemma {:induction false} IndexOfOne(t: Table, view: View, tell: bool)
    requires |t.device| == 1
    ensures Reindexed(t, view, tell).index == if Visible(t.device[0], view) then [0] else []
  {
    hide Visible;
    assert Rebuilt(t.device, view, 0) == [];
  }

  lemma {:induction false} CameraMerges()
    ensures NewRow(Camera("A", "a"), {}) == CameraRow(["a"])
    ensures Merged(CameraRow(["a"]), "c", true) == CameraRow(["a", "c"])
    ensures Merged(CameraRow(["a", "c"]), "b", true) == CameraRow(["a", "b", "c"])
  {
    Letters();
    LessAsymmetric("a", "b");
    LessAsymmetric("b", "c");
    LessAsymmetric("a", "c");
    InsertLast("a", "c");
    InsertBetween("a", "c", "b");
    assert Join(["a"]) == "a";
    hide Inserted, Join, Less;
  }

  lemma {:induction false} CameraAdded()
    ensures var t := Run([Add(Camera("A", "a"))]);
      t.device == [CameraRow(["a"])] && t.view == EMPTY.view && t.previous == {}
  {
  }

  lemma {:induction false} CameraReported(t: Table, names: seq<string>, interface: string, names': seq<string>)
    requires InRange(t.index, |t.device|) && t.device == [CameraRow(names)]
    requires Merged(CameraRow(names), interface, true) == CameraRow(names')
    ensures Apply(t, Add(Camera("A", interface))) == t.(device := [CameraRow(names')])
  {
  }

  /** The same for any letters: the device is reported again, then the filter is set. */
  lemma {:induction false} ReportThenFilter(ops: seq<Op>, a: string, c: string, text: string)
    requires Run(ops).device == [CameraRow([a])] && Run(ops).view == EMPTY.view
    requires Merged(CameraRow([a]), c, true) == CameraRow([a, c])
    requires Visible(CameraRow([a, c]), View(0, true, true, text))
    ensures var t := Run(ops + [Add(Camera("A", c))] + [Filter(text)]);
      t.device == [CameraRow([a, c])] && t.rows == 1 && t.view == View(0, true, true, text)
  {
    RunSnoc(ops, Add(Camera("A", c)));
    RunSnoc(ops + [Add(Camera("A", c))], Filter(text));
    hide Run, Merged, Visible, AddReport, Rebuilt, CameraRow, Camera;
    CameraReported(Run(ops), [a], c, [a, c]);
    IndexOfOne(Run(ops + [Add(Camera("A", c))]), View(0, true, true, text), true);
  }

  /** The device is reported once more, and the table is sorted. */
  lemma {:induction false} ReportThenSort(ops: seq<Op>, a: string, b: string, c: string, text: string)
    requires var t := Run(ops);
      t.device == [CameraRow([a, c])] && t.rows == 1 && t.view == View(0, true, true, text)
    requires Merged(CameraRow([a, c]), b, true) == CameraRow([a, b, c])
    requires !Visible(CameraRow([a, b, c]), View(0, true, true, text))
    ensures var t := Run(ops + [Add(Camera("A", b))] + [SetSorting(0, true)]);
      t.rows == 1 && t.index == []
  {
    RunSnoc(ops, Add(Camera("A", b)));
    RunSnoc(ops + [Add(Camera("A", b))], SetSorting(0, true));
    hide Run, Merged, Visible, AddReport, Rebuilt, CameraRow, Camera;
    CameraReported(Run(ops), [a, c], b, [a, b, c]);
    IndexOfOne(Run(ops + [Add(Camera("A", b))]), View(0, true, true, text), false);
  }

  /** One row is left in the widget, and nothing in the index for it to show. */
  lemma {:induction false} SortingCanLeaveRowsBehind()
    ensures Run(SORTED_AFTER_MERGE).rows == 1 && Run(SORTED_AFTER_MERGE).index == []
  {
    CameraAdded();
    CameraMerges();
    CameraVisible(View(0, true, true, "a, c"));
    hide Run, Merged, Visible, CameraRow, Camera;
    ReportThenFilter([Add(Camera("A", "a"))], "a", "c", "a, c");
    ReportThenSort(FILTERED, "a", "b", "c", "a, c");
  }
}
