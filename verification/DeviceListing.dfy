/** Which devices the table lists, and in which order, in terms of what was reported, filtered and
    sorted by. */
module DeviceListing {
  import opened StableIndex
  import opened DeviceTable
  import opened DeviceHistory

  // ---- what is asked for -------------------------------------------------------------------

  /** Each operation's effect on the filters and the sorting. */
  lemma {:induction false} ViewAfter(ops: seq<Op>, op: Op)
    ensures Run([]).view.column == 0 && Run([]).view.down && Run([]).view.onlyRc && Run([]).view.filter == ""
    ensures var v, v' := Run(ops).view, Run(ops + [op]).view;
      match op
      case Filter(text) => v'.filter == text && v'.onlyRc == v.onlyRc && v'.column == v.column && v'.down == v.down
      case FilterRc(on) => v'.onlyRc == on && v'.filter == v.filter && v'.column == v.column && v'.down == v.down
      case SetSorting(c, down) => v'.column == c && v'.down == down && v'.filter == v.filter && v'.onlyRc == v.onlyRc
      case SortColumn(c) =>
        v'.column == c && (v'.down <==> !(v.column == c && v.down)) && v'.filter == v.filter && v'.onlyRc == v.onlyRc
      case _ => v' == v
  {
    RunSnoc(ops, op);
    hide AddIndex, Rebuilt, Merged, NewRow;
  }

  // ---- which devices are listed ------------------------------------------------------------

  /** One of seven texts has `text` in it: name, manufacturer, model, serial number, IP and MAC
      address of the first report, and the list of all interfaces. */
  ghost predicate Mentions(of: seq<Report>, text: string) {
    && of != []
    && (Inside(of[0].name, text) || Inside(of[0].manufacturer, text) || Inside(of[0].model, text)
        || Inside(of[0].sn, text) || Inside(of[0].ip, text) || Inside(of[0].mac, text)
        || exists names :: IsInterfaceSet(of, names) && Inside(Join(names), text))
  }

  ghost predicate IsInterfaceSet(of: seq<Report>, names: seq<string>) {
    Ascending(names) && forall x :: x in names <==> Heard(of, x)
  }

  /** The readable list of interfaces. */
  lemma {:induction false} JoinedByCommas(names: seq<string>, x: string)
    ensures Join([]) == "" && Join([x]) == x
    ensures names != [] ==> Join(names + [x]) == Join(names) + ", " + x
  {
    assert (names + [x])[..|names|] == names;
  }

  lemma {:induction false} TextOfRow(row: Row, of: seq<Report>, text: string)
    requires Summarises(row, of)
    ensures Matches(row, text) <==> text == "" || Mentions(of, text)
  {
    hide Contains, Inside, Ascending, Heard, EverReachable, Join, Mark;
    forall k | 0 <= k < 7 ensures Contains(row.item[k], text) <==> Inside(row.item[k], text) {
      ContainsIsInside(row.item[k], text);
    }
    assert row.item[0] == row.item[..INTERFACES][0] && row.item[1] == row.item[..INTERFACES][1];
    assert row.item[2] == row.item[..INTERFACES][2] && row.item[3] == row.item[..INTERFACES][3];
    assert row.item[4] == row.item[..INTERFACES][4] && row.item[5] == row.item[..INTERFACES][5];
    assert IsInterfaceSet(of, row.interfaces);
    if names :| IsInterfaceSet(of, names) && Inside(Join(names), text) {
      AscendingUnique(names, row.interfaces);
    }
  }

  lemma {:induction false} RowVisible(row: Row, of: seq<Report>, view: View)
    requires Summarises(row, of)
    ensures of != []
    ensures Visible(row, view) <==>
      (view.onlyRc ==> |of[0].model| >= 3 && of[0].model[..3] == "rc_")
      && (view.filter == "" || Mentions(of, view.filter))
  {
    TextOfRow(row, of, view.filter);
    hide Matches, Mentions, Ascending, Heard, EverReachable, Join, Mark;
    assert row.item[2] == row.item[..INTERFACES][2];
  }

  /** While the index is maintained, just those devices are listed whose model begins with "rc_", if
      this is asked for, and one of whose texts has the filter text in it, if there is one. */
  lemma {:induction false} ListedExactly(ops: seq<Op>, i: nat)
    requires Maintained(ops)
    ensures |Run(ops).device| == |FirstMacs(Reports(ops))|
    ensures i in Run(ops).index <==>
      && i < |FirstMacs(Reports(ops))|
      && var of, view := OfMac(Reports(ops), FirstMacs(Reports(ops))[i]), Run(ops).view;
      && of != []
      && (view.onlyRc ==> |of[0].model| >= 3 && of[0].model[..3] == "rc_")
      && (view.filter == "" || Mentions(of, view.filter))
  {
    var t := Run(ops);
    MaintainedIndexIsRebuilt(ops);
    MergeHistory(ops);
    hide Run, Maintained, Visible, Mentions, Summarises, Sorted, OfMac, FirstMacs, Reports;
    if i < |t.device| {
      DescribedMac(t.device, Reports(ops), i);
      RowVisible(t.device[i], OfMac(Reports(ops), t.device[i].item[MAC]), t.view);
      assert Shown(t.device, t.view)[i] == Visible(t.device[i], t.view);
    }
  }

  /** In particular after any run that ends in filtering by `text`. */
  lemma {:induction false} FilteredExactly(ops: seq<Op>, text: string, i: nat)
    ensures i in Run(ops + [Filter(text)]).index <==>
      && i < |FirstMacs(Reports(ops))|
      && var of := OfMac(Reports(ops), FirstMacs(Reports(ops))[i]);
      && of != []
      && (Run(ops).view.onlyRc ==> |of[0].model| >= 3 && of[0].model[..3] == "rc_")
      && (text == "" || Mentions(of, text))
  {
    var all := ops + [Filter(text)];
    assert all[..|ops|] == ops;
    assert Maintained(all) && Reports(all) == Reports(ops);
    ViewAfter(ops, Filter(text));
    ListedExactly(all, i);
  }

  // ---- in which order ----------------------------------------------------------------------

  /** While the index is maintained the listed devices are sorted by the text of the chosen column,
      downwards from the smallest or upwards; equal texts in the order of first reports. */
  lemma {:induction false} OrderedExactly(ops: seq<Op>, p: nat, q: nat)
    requires Maintained(ops) && p < q < |Run(ops).index|
    ensures Run(ops).index[p] < |Run(ops).device| && Run(ops).index[q] < |Run(ops).device|
    ensures var i, j, view := Run(ops).index[p], Run(ops).index[q], Run(ops).view;
      var a, b := Run(ops).device[i].item[view.column], Run(ops).device[j].item[view.column];
      || (a == b && i < j)
      || (if view.down then exists n: nat :: LessAt(a, b, n) else exists n: nat :: LessAt(b, a, n))
  {
    var t := Run(ops);
    MaintainedIndexIsRebuilt(ops);
    hide Run, Maintained, Visible, Lists, Less, LessAt;
    var keys, i, j := Keys(t.device, t.view.column), t.index[p], t.index[q];
    assert StablyBefore(keys, t.view.down, i, j);
    LessInLetters(keys[i], keys[j]);
    LessInLetters(keys[j], keys[i]);
    LessTotal(keys[i], keys[j]);
  }
}
