/** The device table of the graphical client (tools/rcdiscover-gui/device_list.cc) as a value, its
    operations as functions, and what holds after any run of them. */
module DeviceTable {
  import opened StableIndex

  const COLUMNS := 8
  const MODEL := 2
  const MAC := 5
  const INTERFACES := 6
  const REACHABLE := 7

  // The UTF-8 bytes of a check mark and a ballot cross.
  const CHECK_MARK := "\U{E2}\U{9C}\U{93}"
  const BALLOT_X := "\U{E2}\U{9C}\U{97}"

  type Items = s: seq<string> | |s| == COLUMNS witness seq(COLUMNS, _ => "")
  type Column = c: nat | c < COLUMNS

  /** The arguments of add. */
  datatype Report = Report(
    name: string, manufacturer: string, model: string, sn: string,
    ip: string, mac: string, interface: string, reachable: bool)

  datatype Row = Row(item: Items, interfaces: seq<string>, reachable: bool, isNew: bool)

  datatype View = View(column: Column, down: bool, onlyRc: bool, filter: string)

  /** `rows` is the row count last told to the widget. */
  datatype Table = Table(
    previous: set<string>, newDiscovery: bool, device: seq<Row>, index: seq<nat>, view: View, rows: nat)

  const EMPTY := Table({}, false, [], [], View(0, true, true, ""), 0)

  datatype Op =
    | Clear
    | Add(report: Report)
    | FilterRc(onlyRc: bool)
    | Filter(filter: string)
    | SetSorting(column: Column, down: bool)
    | SortColumn(column: Column)
    | ClickCell

  // ---- rows --------------------------------------------------------------------------------

  function Mark(reachable: bool): string {
    if reachable then CHECK_MARK else BALLOT_X
  }

  function Join(names: seq<string>): string {
    if names == [] then "" else if |names| == 1 then names[0]
    else Join(names[..|names| - 1]) + ", " + names[|names| - 1]
  }

  predicate OccursAt(s: string, text: string, i: nat) {
    i + |text| <= |s| && s[i..i + |text|] == text
  }

  /** find(text) != npos */
  predicate Contains(s: string, text: string) {
    exists i: nat | i <= |s| :: OccursAt(s, text, i)
  }

  ghost predicate Inside(s: string, text: string) {
    exists a, b :: s == a + text + b
  }

  lemma {:induction false} ContainsIsInside(s: string, text: string)
    ensures Contains(s, text) <==> Inside(s, text)
  {
    if Contains(s, text) {
      var i: nat :| i <= |s| && OccursAt(s, text, i);
      assert s == s[..i] + text + s[i + |text|..];
    }
    if Inside(s, text) {
      var a, b :| s == a + text + b;
      assert OccursAt(s, text, |a|);
    }
  }

  predicate Matches(row: Row, text: string) {
    text == [] || exists k | 0 <= k < 7 :: Contains(row.item[k], text)
  }

  predicate Visible(row: Row, view: View) {
    (view.onlyRc ==> "rc_" <= row.item[MODEL]) && Matches(row, view.filter)
  }

  function NewRow(r: Report, previous: set<string>): Row {
    Row([r.name, r.manufacturer, r.model, r.sn, r.ip, r.mac, r.interface, Mark(r.reachable)],
        [r.interface], r.reachable, previous != {} && r.mac !in previous)
  }

  /** A device is reported again. */
  function Merged(row: Row, interface: string, reachable: bool): Row {
    if interface in row.interfaces then row
    else
      var names, ok := Inserted(row.interfaces, interface), row.reachable || reachable;
      Row(row.item[INTERFACES := Join(names)][REACHABLE := Mark(ok)], names, ok, row.isNew)
  }

  // ---- the index ---------------------------------------------------------------------------

  function Keys(device: seq<Row>, column: Column): (keys: seq<string>)
    ensures |keys| == |device|
  {
    seq(|device|, i requires 0 <= i < |device| => device[i].item[column])
  }

  function Shown(device: seq<Row>, view: View): (shown: seq<bool>)
    ensures |shown| == |device|
  {
    seq(|device|, i requires 0 <= i < |device| => Visible(device[i], view))
  }

  predicate InRange(index: seq<nat>, n: nat) {
    forall p | 0 <= p < |index| :: index[p] < n
  }

  /** addDeviceIndex. */
  function AddIndex(device: seq<Row>, view: View, index: seq<nat>, i: nat): (index': seq<nat>)
    requires i < |device| && InRange(index, |device|)
    ensures InRange(index', |device|)
  {
    if !Visible(device[i], view) then index
    else InsertedAt(index, Slot(Keys(device, view.column), view.down, index, i, 0), i)
  }

  /** updateDeviceIndices, up to device `n`. */
  function Rebuilt(device: seq<Row>, view: View, n: nat): (index: seq<nat>)
    requires n <= |device|
    ensures InRange(index, |device|)
  {
    if n == 0 then [] else AddIndex(device, view, Rebuilt(device, view, n - 1), n - 1)
  }

  ghost predicate IndexOf(device: seq<Row>, view: View, index: seq<nat>) {
    IsStableSort(Keys(device, view.column), Shown(device, view), view.down, index)
  }

  /** The index agrees with the devices and the view. */
  ghost predicate UpToDate(t: Table) {
    IndexOf(t.device, t.view, t.index)
  }

  // ---- the operations ----------------------------------------------------------------------

  /** The first device with this address, or the number of devices. */
  function Find(device: seq<Row>, mac: string): (k: nat)
    ensures k <= |device|
    ensures k < |device| ==> device[k].item[MAC] == mac
    ensures forall i | 0 <= i < k :: device[i].item[MAC] != mac
  {
    if device == [] || device[0].item[MAC] == mac then 0 else 1 + Find(device[1..], mac)
  }

  function Macs(device: seq<Row>): set<string> {
    set row <- device :: row.item[MAC]
  }

  function Reindexed(t: Table, view: View, tellRows: bool): Table {
    var index := Rebuilt(t.device, view, |t.device|);
    t.(view := view, index := index, rows := if tellRows then |index| else t.rows)
  }

  function AddReport(t: Table, r: Report): Table
    requires InRange(t.index, |t.device|)
  {
    var k := Find(t.device, r.mac);
    if k < |t.device| then
      t.(device := t.device[k := Merged(t.device[k], r.interface, r.reachable)])
    else
      var row := NewRow(r, t.previous);
      var device := t.device + [row];
      var index := AddIndex(device, t.view, t.index, |t.device|);
      t.(device := device, index := index, newDiscovery := t.newDiscovery || row.isNew,
         rows := if Visible(row, t.view) then |index| else t.rows)
  }

  function Clicked(device: seq<Row>): seq<Row> {
    seq(|device|, i requires 0 <= i < |device| => device[i].(isNew := false))
  }

  function Apply(t: Table, op: Op): (t': Table)
    requires InRange(t.index, |t.device|)
    ensures InRange(t'.index, |t'.device|)
  {
    match op
    case Clear => t.(previous := Macs(t.device), newDiscovery := false, device := [], index := [], rows := 0)
    case Add(r) => AddReport(t, r)
    case FilterRc(onlyRc) => Reindexed(t, t.view.(onlyRc := onlyRc), true)
    case Filter(filter) => Reindexed(t, t.view.(filter := filter), true)
    case SetSorting(column, down) => Reindexed(t, t.view.(column := column, down := down), false)
    case SortColumn(column) =>
      Reindexed(t, t.view.(column := column, down := if t.view.column == column then !t.view.down else true), false)
    case ClickCell => if t.newDiscovery then t.(newDiscovery := false, device := Clicked(t.device)) else t
  }

  function Run(ops: seq<Op>): (t: Table)
    ensures InRange(t.index, |t.device|)
  {
    if ops == [] then EMPTY else Apply(Run(ops[..|ops| - 1]), ops[|ops| - 1])
  }

  // ---- index against devices ---------------------------------------------------------------

  /** Rebuilding yields the stable sort of the visible devices. */
  lemma {:induction false} RebuiltIsStableSort(device: seq<Row>, view: View, n: nat)
    requires n <= |device|
    ensures Sorted(Keys(device, view.column), view.down, Rebuilt(device, view, n))
    ensures forall i: nat :: i in Rebuilt(device, view, n) <==> i < n && Visible(device[i], view)
  {
    hide Visible, StablyBefore, InsertedAt, Slot;
    if n > 0 {
      RebuiltIsStableSort(device, view, n - 1);
      var index := Rebuilt(device, view, n - 1);
      forall p | 0 <= p < |index| ensures index[p] < n - 1 {
        assert index[p] in index;
      }
      var keys := Keys(device, view.column);
      InsertKeepsSorted(keys, view.down, index, n - 1);
      InsertedAtMembers(index, Slot(keys, view.down, index, n - 1, 0), n - 1);
    }
  }

  lemma {:induction false} UpToDateIffRebuilt(t: Table)
    ensures UpToDate(t) <==> t.index == Rebuilt(t.device, t.view, |t.device|)
  {
    hide Sorted, Visible;
    RebuiltIsStableSort(t.device, t.view, |t.device|);
    var index := Rebuilt(t.device, t.view, |t.device|);
    assert IndexOf(t.device, t.view, index);
    if UpToDate(t) {
      StableSortUnique(Keys(t.device, t.view.column), Shown(t.device, t.view), t.view.down, t.index, index);
    }
  }

  predicate Rebuilds(op: Op) {
    op.Clear? || op.FilterRc? || op.Filter? || op.SetSorting? || op.SortColumn?
  }

  /** Clearing, filtering and sorting bring the index up to date whatever it was before. */
  lemma {:induction false} RebuildBringsUpToDate(t: Table, op: Op)
    requires InRange(t.index, |t.device|) && Rebuilds(op)
    ensures UpToDate(Apply(t, op))
  {
    hide UpToDate, Visible;
    UpToDateIffRebuilt(Apply(t, op));
  }

  /** A new device is put into its place. */
  lemma {:induction false} NewDeviceKeepsIndex(device: seq<Row>, view: View, index: seq<nat>, row: Row)
    requires IndexOf(device, view, index)
    ensures InRange(index, |device|) && IndexOf(device + [row], view, AddIndex(device + [row], view, index, |device|))
  {
    hide Visible, StablyBefore, InsertedAt, Slot;
    var all, n := device + [row], |device|;
    var keys, keys' := Keys(device, view.column), Keys(all, view.column);
    SortedPrefix(keys, keys', view.down, index);
    InsertKeepsSorted(keys', view.down, index, n);
    InsertedAtMembers(index, Slot(keys', view.down, index, n, 0), n);
    assert forall i | 0 <= i < n :: Shown(all, view)[i] == Shown(device, view)[i];
  }

  /** The guard that add leaves out: merging an interface into a listed device changes its texts in
      columns 6 and 7, so that it may have to appear, disappear or move. */
  ghost predicate KeepsIndex(t: Table, op: Op)
    requires InRange(t.index, |t.device|)
  {
    op.Add? && Find(t.device, op.report.mac) < |t.device| ==>
      var k := Find(t.device, op.report.mac);
      var row := Merged(t.device[k], op.report.interface, op.report.reachable);
      var keys := Keys(t.device, t.view.column)[k := row.item[t.view.column]];
      && Visible(row, t.view) == Visible(t.device[k], t.view)
      && forall p | 0 <= p < |t.index| && t.index[p] == k :: FitsAt(keys, t.view.down, t.index, p)
  }

  lemma {:induction false} MergeKeepsIndexIff(t: Table, r: Report)
    requires UpToDate(t) && InRange(t.index, |t.device|) && Find(t.device, r.mac) < |t.device|
    ensures UpToDate(AddReport(t, r)) <==> KeepsIndex(t, Add(r))
  {
    hide Visible, Merged, FitsAt, IsStableSort;
    var k := Find(t.device, r.mac);
    var row := Merged(t.device[k], r.interface, r.reachable);
    var device := t.device[k := row];
    var keys, shown := Keys(t.device, t.view.column), Shown(t.device, t.view);
    assert Keys(device, t.view.column) == keys[k := row.item[t.view.column]];
    assert Shown(device, t.view) == shown[k := Visible(row, t.view)];
    ChangeKeepsIndexIff(keys, shown, t.view.down, t.index, k, row.item[t.view.column], Visible(row, t.view));
  }

  /** An index that is up to date stays so exactly if that guard holds. */
  lemma {:induction false} StepKeepsIndexIff(t: Table, op: Op)
    requires UpToDate(t) && InRange(t.index, |t.device|)
    ensures UpToDate(Apply(t, op)) <==> KeepsIndex(t, op)
  {
    if Rebuilds(op) {
      hide UpToDate;
      RebuildBringsUpToDate(t, op);
    } else if op.ClickCell? {
      hide IsStableSort, Visible;
      ClickKeepsKeys(t.device, t.view);
    } else if Find(t.device, op.report.mac) < |t.device| {
      hide UpToDate, KeepsIndex;
      MergeKeepsIndexIff(t, op.report);
    } else {
      hide IsStableSort, Visible;
      NewDeviceKeepsIndex(t.device, t.view, t.index, NewRow(op.report, t.previous));
    }
  }

  lemma {:induction false} ClickKeepsKeys(device: seq<Row>, view: View)
    ensures Keys(Clicked(device), view.column) == Keys(device, view.column)
    ensures Shown(Clicked(device), view) == Shown(device, view)
  {
  }

  /** Since the index was last rebuilt every merge has satisfied the guard. */
  ghost predicate Maintained(ops: seq<Op>) {
    ops == [] ||
      var front, op := ops[..|ops| - 1], ops[|ops| - 1];
      Rebuilds(op) || (Maintained(front) && KeepsIndex(Run(front), op))
  }

  /** Then the incrementally maintained index is the one that rebuilding would yield. */
  lemma {:induction false} MaintainedIndexIsRebuilt(ops: seq<Op>)
    requires Maintained(ops)
    ensures UpToDate(Run(ops))
    ensures Run(ops).index == Rebuilt(Run(ops).device, Run(ops).view, |Run(ops).device|)
  {
    UpToDateIffRebuilt(Run(ops));
    if ops != [] {
      hide UpToDate, KeepsIndex;
      var front, op := ops[..|ops| - 1], ops[|ops| - 1];
      if Rebuilds(op) {
        RebuildBringsUpToDate(Run(front), op);
      } else {
        MaintainedIndexIsRebuilt(front);
        StepKeepsIndexIff(Run(front), op);
      }
    }
  }

  /** With no text filter, and sorting by a column that merging leaves alone, the guard always
      holds. */
  lemma {:induction false} PlainViewKeepsIndex(t: Table, op: Op)
    requires UpToDate(t) && InRange(t.index, |t.device|) && t.view.filter == "" && t.view.column < INTERFACES
    ensures KeepsIndex(t, op)
  {
    hide StablyBefore;
    if op.Add? && Find(t.device, op.report.mac) < |t.device| {
      var k := Find(t.device, op.report.mac);
      var row := Merged(t.device[k], op.report.interface, op.report.reachable);
      var keys := Keys(t.device, t.view.column);
      assert keys[k := row.item[t.view.column]] == keys;
    }
  }
}
