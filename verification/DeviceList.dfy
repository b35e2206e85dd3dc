/** tools/rcdiscover-gui/device_list.cc: the widget's data and the methods that change them. */
module DeviceList {
  import opened StableIndex
  import opened DeviceTable

  class DeviceList {
    var previousMacList: set<string>
    var newDiscovery: bool
    var device: seq<Row>
    var index: seq<nat>
    var sortCol: Column
    var sortDown: bool
    var filterRc: bool
    var filterValue: string
    var rows: nat

    ghost predicate Valid()
      reads this
    {
      InRange(index, |device|)
    }

    function State(): Table
      reads this
    {
      Table(previousMacList, newDiscovery, device, index, CurrentView(), rows)
    }

    function CurrentView(): View
      reads this
    {
      View(sortCol, sortDown, filterRc, filterValue)
    }

    constructor ()
      ensures Valid() && State() == EMPTY
      ensures sortCol == 0 && sortDown && filterRc && filterValue == "" && device == [] && index == [] && rows == 0
    {
      previousMacList, newDiscovery := {}, false;
      device, index, rows := [], [], 0;
      sortCol, sortDown, filterRc, filterValue := 0, true, true, "";
    }

    method Clear()
      requires Valid()
      modifies this
      ensures Valid() && State() == Apply(old(State()), Op.Clear)
    {
      previousMacList := {};
      var i := 0;
      while i < |device|
        invariant i <= |device| && previousMacList == Macs(device[..i])
        invariant device == old(device) && CurrentView() == old(CurrentView())
      {
        previousMacList := previousMacList + {device[i].item[MAC]};
        assert device[..i + 1] == device[..i] + [device[i]];
        i := i + 1;
      }
      assert device[..i] == device;
      newDiscovery := false;
      device := [];
      index := [];
      rows := 0;
    }

    /** The readable list of interfaces. */
    static method Readable(names: seq<string>) returns (out: string)
      ensures out == Join(names)
    {
      out := "";
      var first := true;
      var i := 0;
      while i < |names|
        invariant i <= |names| && (first <==> i == 0) && out == Join(names[..i])
      {
        assert names[..i + 1][..i] == names[..i];
        if !first {
          out := out + ", ";
        }
        out := out + names[i];
        first := false;
        i := i + 1;
      }
      assert names[..i] == names;
    }

    method FindMac(mac: string) returns (k: int)
      ensures k == if Find(device, mac) < |device| then Find(device, mac) else -1
    {
      k := -1;
      var i := 0;
      while i < |device|
        invariant i <= |device| && k == -1 && Find(device, mac) == i + Find(device[i..], mac)
      {
        if device[i].item[MAC] == mac {
          k := i;
          break;
        }
        i := i + 1;
      }
    }

    /** What add does to a device that is already listed. */
    static method MergeInterface(listed: Row, interface: string, reachable: bool) returns (data: Row)
      ensures data == Merged(listed, interface, reachable)
    {
      hide Inserted, Join;
      data := listed;
      if interface !in data.interfaces {
        data := data.(interfaces := Inserted(data.interfaces, interface));
        var out := Readable(data.interfaces);
        data := data.(item := data.item[INTERFACES := out]);
        data := data.(reachable := data.reachable || reachable);
        if data.reachable {
          data := data.(item := data.item[REACHABLE := CHECK_MARK]);
        } else {
          data := data.(item := data.item[REACHABLE := BALLOT_X]);
        }
      }
    }

    method Add(name: string, manufacturer: string, model: string, sn: string, ip: string, mac: string,
        interface: string, reachable: bool)
      requires Valid()
      modifies this
      ensures Valid()
      ensures State() == Apply(old(State()),
                               Op.Add(Report(name, manufacturer, model, sn, ip, mac, interface, reachable)))
    {
      hide Merged, AddIndex, Visible, Find;
      var k := FindMac(mac);
      if k >= 0 {
        var data := MergeInterface(device[k], interface, reachable);
        device := device[k := data];
      } else {
        var isNew := |previousMacList| > 0 && mac !in previousMacList;
        var data := Row([name, manufacturer, model, sn, ip, mac, interface, if reachable then CHECK_MARK else BALLOT_X],
                        [interface], reachable, isNew);
        newDiscovery := newDiscovery || isNew;
        device := device + [data];
        var added := AddDeviceIndex(|device| - 1);
        if added {
          rows := |index|;
        }
      }
    }

    /** Whether device `i` passes the filters. */
    method PassesFilters(i: nat) returns (passes: bool)
      requires i < |device|
      ensures passes <==> Visible(device[i], CurrentView())
      ensures passes <==>
        && (filterRc ==> |device[i].item[2]| >= 3 && device[i].item[2][..3] == "rc_")
        && (filterValue == "" || exists k, a, b :: 0 <= k < 7 && device[i].item[k] == a + filterValue + b)
    {
      forall k | 0 <= k < 7
        ensures Contains(device[i].item[k], filterValue) <==> Inside(device[i].item[k], filterValue)
      {
        ContainsIsInside(device[i].item[k], filterValue);
      }
      hide Contains;
      if filterRc && !("rc_" <= device[i].item[MODEL]) {
        return false;
      }
      if |filterValue| > 0 {
        var found := false;
        var k := 0;
        while k < 7 && !found
          invariant 0 <= k <= 7
          invariant found <==> exists j | 0 <= j < k :: Contains(device[i].item[j], filterValue)
        {
          found := Contains(device[i].item[k], filterValue);
          k := k + 1;
        }
        if !found {
          return false;
        }
      }
      return true;
    }

    method AddDeviceIndex(i: nat) returns (added: bool)
      requires Valid() && i < |device|
      modifies this`index
      ensures Valid() && index == AddIndex(device, CurrentView(), old(index), i)
      ensures added <==> Visible(device[i], CurrentView())
      ensures added <==>
        && (filterRc ==> |device[i].item[2]| >= 3 && device[i].item[2][..3] == "rc_")
        && (filterValue == "" || exists k, a, b :: 0 <= k < 7 && device[i].item[k] == a + filterValue + b)
    {
      hide Visible;
      added := PassesFilters(i);
      if !added {
        return;
      }
      var k := 0;
      ghost var keys, before := Keys(device, sortCol), index;
      ghost var slot := Slot(keys, sortDown, before, i, 0);
      while k < |index|
        invariant k <= |index| && index == before && k <= slot
      {
        assert keys[i] == device[i].item[sortCol] && keys[index[k]] == device[index[k]].item[sortCol];
        if Before(device[i].item[sortCol], device[index[k]].item[sortCol], sortDown) {
          index := index[..k] + [i] + index[k..];
          break;
        }
        k := k + 1;
      }
      if k >= |index| {
        index := index + [i];
      }
    }

    method UpdateDeviceIndices()
      modifies this`index
      ensures Valid() && index == Rebuilt(device, CurrentView(), |device|)
    {
      index := [];
      var i := 0;
      while i < |device|
        invariant i <= |device| && Valid() && index == Rebuilt(device, CurrentView(), i)
      {
        var _ := AddDeviceIndex(i);
        i := i + 1;
      }
    }

    method FilterRCDevices(onlyRc: bool)
      requires Valid()
      modifies this
      ensures Valid() && State() == Apply(old(State()), Op.FilterRc(onlyRc))
      ensures filterRc == onlyRc && rows == |index|
      ensures unchanged(`device, `filterValue, `sortCol, `sortDown, `previousMacList, `newDiscovery)
    {
      filterRc := onlyRc;
      UpdateDeviceIndices();
      rows := |index|;
    }

    method Filter(value: string)
      requires Valid()
      modifies this
      ensures Valid() && State() == Apply(old(State()), Op.Filter(value))
      ensures filterValue == value && rows == |index|
      ensures unchanged(`device, `filterRc, `sortCol, `sortDown, `previousMacList, `newDiscovery)
    {
      filterValue := value;
      UpdateDeviceIndices();
      rows := |index|;
    }

    method SetSorting(column: Column, down: bool)
      requires Valid()
      modifies this
      ensures Valid() && State() == Apply(old(State()), Op.SetSorting(column, down))
      ensures sortCol == column && sortDown == down
      ensures unchanged(`device, `filterRc, `filterValue, `previousMacList, `newDiscovery, `rows)
    {
      sortCol := column;
      sortDown := down;
      UpdateDeviceIndices();
    }

    method SortColumn(c: Column)
      requires Valid()
      modifies this
      ensures Valid() && State() == Apply(old(State()), Op.SortColumn(c))
      ensures sortCol == c && (sortDown <==> !(old(sortCol) == c && old(sortDown)))
      ensures unchanged(`device, `filterRc, `filterValue, `previousMacList, `newDiscovery, `rows)
    {
      if sortCol == c {
        sortDown := !sortDown;
      } else {
        sortCol := c;
        sortDown := true;
      }
      UpdateDeviceIndices();
    }

    /** A mouse button is pressed over a cell. */
    method ClickCell()
      requires Valid()
      modifies this
      ensures Valid() && State() == Apply(old(State()), Op.ClickCell)
    {
      if newDiscovery {
        newDiscovery := false;
        var i := 0;
        while i < |device|
          invariant i <= |device| == |old(device)|
          invariant forall j | 0 <= j < |device| ::
                      device[j] == if j < i then old(device)[j].(isNew := false) else old(device)[j]
          invariant index == old(index) && CurrentView() == old(CurrentView())
          invariant previousMacList == old(previousMacList) && rows == old(rows) && !newDiscovery
        {
          device := device[i := device[i].(isNew := false)];
          i := i + 1;
        }
        assert device == Clicked(old(device));
      }
    }
  }
}
