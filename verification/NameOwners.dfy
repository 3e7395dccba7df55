/** Names decide ownership: the device called `bus-p.q.r` hangs on the one called `bus-p.q`,
    the device called `bus-p` on the root hub of the bus. */
module NameOwners {
  import opened CStrings
  import opened UsbObjects
  import opened UsbNames
  import opened Words
  import opened Connect
  import opened ConnectInterfaces
  import opened DeviceTree
  import opened Forest

  /** Where a device is plugged in. */
  datatype Path = Path(bus: byte, ports: seq<byte>)

  function Up(p: Path): Path
    requires |p.ports| > 0
  {
    Path(p.bus, p.ports[..|p.ports| - 1])
  }

  /** The device at `p`: its name says so, its numbers are read from the name, and no port has
      number 0. */
  predicate PluggedIn(d: UsbDevice, p: Path) {
    && |p.ports| > 0 && (forall i :: 0 <= i < |p.ports| ==> p.ports[i] > 0)
    && d.name == DeviceName(p.bus, p.ports)
    && ParseName(d.name) == Parsed(d.busnum, d.parent_portnum, d.portnum)
  }

  ghost predicate AllPluggedIn(devs: seq<UsbDevice>, paths: seq<Path>) {
    && |devs| == |paths|
    && (forall i :: 0 <= i < |devs| ==> PluggedIn(devs[i], paths[i]))
    && (forall i, j :: 0 <= i < j < |paths| ==> paths[i] != paths[j])
  }

  /** One device is the parent of another exactly when its path is the other's without the last
      port. */
  lemma ParentIsUp(pd: UsbDevice, p: Path, d: UsbDevice, q: Path)
    requires PluggedIn(pd, p) && PluggedIn(d, q) && |q.ports| > 1
    ensures IsParent(pd, d) <==> p == Up(q)
  {
    hide Strtoul, Decimal, PortPath, DeviceName, Strrchr, ParseName;
    CutAtLastDot(q.bus, q.ports);
    if IsParent(pd, d) {
      NamesAreUnique(p.bus, p.ports, q.bus, Up(q).ports);
    }
    if p == Up(q) {
      PrefilterKeepsParent(q.bus, q.ports);
      if pd == d {
        NamesAreUnique(p.bus, p.ports, q.bus, q.ports);
      }
    }
  }

  /** Each device is owned by the root hub of its bus, or by the one device at the path without
      its last port; by nobody if that device is missing. */
  lemma OwnedByName(devs: seq<UsbDevice>, paths: seq<Path>, i: nat)
    requires AllPluggedIn(devs, paths) && i < |devs|
    ensures |paths[i].ports| == 1 ==> OwnerOf(devs, devs[i]) == Root(paths[i].bus)
    ensures |paths[i].ports| > 1 ==> forall j :: 0 <= j < |devs| && paths[j] == Up(paths[i]) ==> OwnerOf(devs, devs[i]) == Hub(devs[j])
    ensures |paths[i].ports| > 1 && (forall j :: 0 <= j < |devs| ==> paths[j] != Up(paths[i])) ==>
              OwnerOf(devs, devs[i]) == Nowhere
  {
    hide Strtoul, Decimal, PortPath, DeviceName, ParseName, IsParent, FirstParent;
    var d, q := devs[i], paths[i];
    NameRoundTrip(q.bus, q.ports);
    assert PluggedIn(d, q);
    if |q.ports| > 1 {
      forall j | 0 <= j < |devs| ensures IsParent(devs[j], d) <==> paths[j] == Up(q) {
        ParentIsUp(devs[j], paths[j], d, q);
      }
      if j :| 0 <= j < |devs| && paths[j] == Up(q) {
        FirstParentIs(devs, d, j);
      } else {
        NoParent(devs, d);
      }
    }
  }

  // ---- Names of devices and of root hubs ----

  lemma {:induction false} NoLeadingZero(n: nat)
    requires n > 0
    ensures Decimal(n)[0] != '0'
  {
    if n >= 10 {
      NoLeadingZero(n / 10);
    }
  }

  lemma {:induction false} PortPathStarts(ports: seq<byte>)
    requires |ports| > 0 && ports[0] > 0
    ensures |PortPath(ports)| > 0 && PortPath(ports)[0] != '0'
    decreases |ports|
  {
    hide Decimal;
    NoLeadingZero(ports[0]);
    if |ports| > 1 {
      PortPathStarts(ports[..|ports| - 1]);
    }
  }

  /** A device that is plugged in is not called like a root hub. */
  lemma PluggedInIsNoRootHub(d: UsbDevice, p: Path)
    requires PluggedIn(d, p)
    ensures !NamesRootHub(d.name)
  {
    hide Decimal, PortPath, Strtoul, ParseName;
    PortPathStarts(p.ports);
    var rest := "-" + PortPath(p.ports);
    StrtoulReadsDecimal("", p.bus, rest);
    assert "" + Decimal(p.bus) + rest == d.name;
    assert d.name[|Decimal(p.bus)| + 1] == rest[1];
  }

  lemma PluggedInAreNoRootHubs(devs: seq<UsbDevice>, paths: seq<Path>)
    requires AllPluggedIn(devs, paths)
    ensures NoDeviceNamesRootHub(devs)
  {
    hide PluggedIn, NamesRootHub;
    forall d | d in devs ensures !NamesRootHub(d.name) {
      var i :| 0 <= i < |devs| && devs[i] == d;
      PluggedInIsNoRootHub(d, paths[i]);
    }
  }

  // ---- Interfaces ----

  /** The name of interface `e` is that of device `d`, a colon, and anything behind it. */
  predicate NamedAfter(e: UsbInterface, name: string) {
    |name| < |e.name| && e.name[..|name|] == name && e.name[|name|] == ':' && ':' !in name
  }

  lemma ColonIs(e: UsbInterface, name: string)
    requires NamedAfter(e, name)
    ensures Strchr(e.name, ':') == |name|
  {
    var c := Strchr(e.name, ':');
    assert forall k :: 0 <= k < |name| ==> e.name[k] == name[k];
  }

  /** Device names are distinct and have no colon. */
  predicate NamesApart(devs: seq<UsbDevice>) {
    && (forall d :: d in devs ==> ':' !in d.name)
    && (forall d, d' :: d in devs && d' in devs && d.name == d'.name ==> d == d')
  }

  /** Each interface is owned by the device whose name stands before its colon. */
  lemma OwnedByDeviceName(devs: seq<UsbDevice>, e: UsbInterface, d: UsbDevice)
    requires NamesApart(devs) && d in devs
    ensures IfaceOwnerOf(devs, e) == OfDevice(d) <==> NamedAfter(e, d.name)
  {
    hide NamesRootHub, BusOf, FirstNamed;
    var c := Strchr(e.name, ':');
    if NamedAfter(e, d.name) {
      ColonIs(e, d.name);
    }
    if c >= 0 {
      FirstNamedIs(devs, e.name[..c]);
    }
  }

  lemma RootHubText(bus: byte)
    ensures NamesRootHub(Decimal(bus) + "-0") && BusOf(Decimal(bus) + "-0") == bus
  {
    hide Decimal, Strtoul;
    var name := Decimal(bus) + "-0";
    StrtoulReadsDecimal("", bus, "-0");
    assert "" + Decimal(bus) + "-0" == name;
    assert name[|Decimal(bus)| + 1] == '0';
  }

  /** An interface called `bus-0:...` is owned by the root hub of that bus. */
  lemma OwnedByRootHub(devs: seq<UsbDevice>, e: UsbInterface, bus: byte)
    requires NamedAfter(e, Decimal(bus) + "-0") && forall d :: d in devs ==> d.name != Decimal(bus) + "-0"
    ensures IfaceOwnerOf(devs, e) == OfRootHub(bus)
  {
    hide Decimal, NamesRootHub, BusOf, FirstNamed;
    var name := Decimal(bus) + "-0";
    RootHubText(bus);
    ColonIs(e, name);
    assert e.name[..|name|] == name;
    FirstNamedIs(devs, name);
  }

  lemma {:induction false} DigitsHaveNoColon(n: nat)
    ensures ':' !in Decimal(n)
  {
    assert forall i :: 0 <= i < |Decimal(n)| ==> IsDigit(Decimal(n)[i]);
  }

  lemma {:induction false} PortsHaveNoColon(ports: seq<byte>)
    ensures ':' !in PortPath(ports)
    decreases |ports|
  {
    hide Decimal;
    if |ports| > 0 {
      DigitsHaveNoColon(ports[|ports| - 1]);
      DigitsHaveNoColon(ports[0]);
      PortsHaveNoColon(ports[..|ports| - 1]);
    }
  }

  lemma PluggedInApart(devs: seq<UsbDevice>, paths: seq<Path>)
    requires AllPluggedIn(devs, paths)
    ensures NamesApart(devs)
  {
    hide Decimal, PortPath, ParseName;
    forall d | d in devs ensures ':' !in d.name {
      var i :| 0 <= i < |devs| && devs[i] == d;
      assert PluggedIn(devs[i], paths[i]);
      DigitsHaveNoColon(paths[i].bus);
      PortsHaveNoColon(paths[i].ports);
    }
    forall d, d' | d in devs && d' in devs && d.name == d'.name ensures d == d' {
      var i :| 0 <= i < |devs| && devs[i] == d;
      var j :| 0 <= j < |devs| && devs[j] == d';
      assert PluggedIn(devs[i], paths[i]) && PluggedIn(devs[j], paths[j]);
      NamesAreUnique(paths[i].bus, paths[i].ports, paths[j].bus, paths[j].ports);
      assert paths[i] == paths[j];
    }
  }

  // ---- Nothing is missing ----

  lemma {:induction false} RootsGrown(devs: seq<UsbDevice>, ifs: seq<UsbInterface>, s: seq<UsbDevice>, k: nat)
    requires k < |s| && forall d :: d in s ==> d in devs
    ensures s[k] in Devices(Grow(devs, ifs, s))
    decreases k
  {
    hide Grow, Devices, Height;
    GrowStep(devs, ifs, s);
    if k > 0 {
      RootsGrown(devs, ifs, s[1..], k - 1);
    }
  }

  /** Below every device of the forest hang the devices it owns. */
  lemma {:induction false} ChildrenGrown(devs: seq<UsbDevice>, ifs: seq<UsbInterface>, s: seq<UsbDevice>, p: UsbDevice, k: nat)
    requires forall d :: d in s ==> d in devs
    requires p in Devices(Grow(devs, ifs, s)) && k < |ChildrenOf(devs, p)|
    ensures ChildrenOf(devs, p)[k] in Devices(Grow(devs, ifs, s))
    decreases Height(LongestName(devs), s), |s|
  {
    hide Devices, OwnerOf, Kids;
    if |s| == 0 {
      NothingGrown(devs, ifs, s);
    } else {
      ChildrenAreLower(devs, s);
      HeightTail(LongestName(devs), s);
      hide Height, Grow;
      GrowStep(devs, ifs, s);
      if p == s[0] {
        RootsGrown(devs, ifs, ChildrenOf(devs, p), k);
      } else if p in Devices(Grow(devs, ifs, s[1..])) {
        ChildrenGrown(devs, ifs, s[1..], p, k);
      } else {
        ChildrenGrown(devs, ifs, ChildrenOf(devs, s[0]), p, k);
      }
    }
  }

  lemma NothingGrown(devs: seq<UsbDevice>, ifs: seq<UsbInterface>, s: seq<UsbDevice>)
    requires |s| == 0
    ensures Devices(Grow(devs, ifs, s)) == multiset{}
  {
  }

  /** The device at `q` is there, and so is every hub on the way to it. */
  ghost predicate HubsPresent(paths: seq<Path>, q: Path) {
    forall n :: 0 < n <= |q.ports| ==> Path(q.bus, q.ports[..n]) in paths
  }

  lemma HubsStep(paths: seq<Path>, q: Path)
    requires |q.ports| > 0
    ensures HubsPresent(paths, q) <==> q in paths && (|q.ports| > 1 ==> HubsPresent(paths, Up(q)))
  {
    var k := |q.ports|;
    assert q.ports[..k] == q.ports;
    assert forall n :: 0 < n < k ==> Up(q).ports[..n] == q.ports[..n];
    if HubsPresent(paths, q) {
      forall n | 0 < n <= |Up(q).ports| ensures Path(q.bus, Up(q).ports[..n]) in paths {
        assert Path(q.bus, q.ports[..n]) in paths;
      }
    }
    if q in paths && (k > 1 ==> HubsPresent(paths, Up(q))) {
      forall n | 0 < n <= k ensures Path(q.bus, q.ports[..n]) in paths {
        assert n < k ==> Path(q.bus, Up(q).ports[..n]) in paths;
      }
    }
  }

  /** With the hubs on the way to it present, a device is in the forest of its bus. */
  lemma {:induction false} HangsBelowHubs(devs: seq<UsbDevice>, ifs: seq<UsbInterface>, paths: seq<Path>, i: nat)
    requires AllPluggedIn(devs, paths) && i < |devs| && |paths[i].ports| > 0 && HubsPresent(paths, paths[i])
    ensures devs[i] in Devices(BusForest(devs, ifs, paths[i].bus))
    decreases |paths[i].ports|
  {
    hide Grow, Devices, OwnerOf, PluggedIn, Kids, HubsPresent;
    var d, q := devs[i], paths[i];
    var s := Kids(devs, |devs|, Root(q.bus));
    OwnedByName(devs, paths, i);
    HubsStep(paths, q);
    assert d in devs && devs[..|devs|] == devs;
    if |q.ports| == 1 {
      KidsAre(devs, |devs|, Root(q.bus));
      var k :| 0 <= k < |s| && s[k] == d;
      RootsGrown(devs, ifs, s, k);
    } else {
      HubsStep(paths, Up(q));
      var j :| 0 <= j < |paths| && paths[j] == Up(q);
      HangsBelowHubs(devs, ifs, paths, j);
      KidsAre(devs, |devs|, Hub(devs[j]));
      var kids := ChildrenOf(devs, devs[j]);
      var k :| 0 <= k < |kids| && kids[k] == d;
      ChildrenGrown(devs, ifs, s, devs[j], k);
    }
  }

  /** What descends from a device on the root hub of bus `n` is on that bus, and the hubs on the
      way to it are present. */
  lemma {:induction false} DescentHasHubs(devs: seq<UsbDevice>, paths: seq<Path>, j: nat, n: uint32, r: UsbDevice)
    requires AllPluggedIn(devs, paths) && j < |devs| && |paths[j].ports| > 0
    requires Descends(devs, devs[j], r) && OwnerOf(devs, r) == Root(n)
    ensures n == paths[j].bus && HubsPresent(paths, paths[j])
    decreases |paths[j].ports|
  {
    hide OwnerOf, PluggedIn, HubsPresent;
    OwnedByName(devs, paths, j);
    HubsStep(paths, paths[j]);
    if |paths[j].ports| > 1 {
      var k :| 0 <= k < |paths| && paths[k] == Up(paths[j]);
      DescentHasHubs(devs, paths, k, n, r);
    }
  }

  /** A device is in the forest of a bus if and only if that is its own and all hubs on the way to
      it are present. */
  lemma HangsExactly(devs: seq<UsbDevice>, ifs: seq<UsbInterface>, paths: seq<Path>, i: nat, n: uint32)
    requires AllPluggedIn(devs, paths) && i < |devs|
    ensures devs[i] in Devices(BusForest(devs, ifs, n)) <==> n == paths[i].bus && HubsPresent(paths, paths[i])
  {
    hide Grow, Devices, OwnerOf, PluggedIn, Kids, HubsPresent, Descends;
    HasPorts(devs, paths, i);
    if n == paths[i].bus && HubsPresent(paths, paths[i]) {
      HangsBelowHubs(devs, ifs, paths, i);
    }
    if devs[i] in Devices(BusForest(devs, ifs, n)) {
      GrownDescend(devs, ifs, Kids(devs, |devs|, Root(n)), devs[i]);
      var r :| r in Kids(devs, |devs|, Root(n)) && Descends(devs, devs[i], r);
      KidsAre(devs, |devs|, Root(n));
      DescentHasHubs(devs, paths, i, n, r);
    }
  }

  lemma HasPorts(devs: seq<UsbDevice>, paths: seq<Path>, j: nat)
    requires AllPluggedIn(devs, paths) && j < |devs|
    ensures |paths[j].ports| > 0
  {
    assert PluggedIn(devs[j], paths[j]);
  }

  /** Every hub that a path mentions is there. */
  ghost predicate ParentsPresent(paths: seq<Path>) {
    forall i :: 0 <= i < |paths| && |paths[i].ports| > 1 ==> exists j :: 0 <= j < |paths| && paths[j] == Up(paths[i])
  }

  lemma {:induction false} ParentsAreHubs(paths: seq<Path>, i: nat)
    requires ParentsPresent(paths) && i < |paths| && |paths[i].ports| > 0
    ensures HubsPresent(paths, paths[i])
    decreases |paths[i].ports|
  {
    hide HubsPresent;
    HubsStep(paths, paths[i]);
    if |paths[i].ports| > 1 {
      var j :| 0 <= j < |paths| && paths[j] == Up(paths[i]);
      ParentsAreHubs(paths, j);
    }
  }

  /** With the parents present, every device is in the forest of its bus. */
  lemma EveryDeviceHangs(devs: seq<UsbDevice>, ifs: seq<UsbInterface>, paths: seq<Path>, i: nat)
    requires AllPluggedIn(devs, paths) && ParentsPresent(paths) && i < |devs|
    ensures devs[i] in Devices(BusForest(devs, ifs, paths[i].bus))
  {
    hide BusForest, Devices, PluggedIn, HubsPresent, ParentsPresent;
    HasPorts(devs, paths, i);
    ParentsAreHubs(paths, i);
    HangsBelowHubs(devs, ifs, paths, i);
  }

  lemma OnePath(devs: seq<UsbDevice>, paths: seq<Path>, i: nat, j: nat)
    requires AllPluggedIn(devs, paths) && i < |devs| && j < |devs| && devs[i] == devs[j]
    ensures i == j
  {
    hide DeviceName, ParseName;
    assert PluggedIn(devs[i], paths[i]) && PluggedIn(devs[j], paths[j]);
    NamesAreUnique(paths[i].bus, paths[i].ports, paths[j].bus, paths[j].ports);
  }

  /** A device hangs on the one at the path without its last port. */
  lemma OwnerIsUp(devs: seq<UsbDevice>, paths: seq<Path>, i: nat, j: nat)
    requires AllPluggedIn(devs, paths) && i < |devs| && j < |devs|
    ensures devs[j] in ChildrenOf(devs, devs[i]) <==> |paths[j].ports| > 1 && paths[i] == Up(paths[j])
  {
    hide OwnerOf, PluggedIn, Kids;
    KidsAre(devs, |devs|, Hub(devs[i]));
    assert devs[..|devs|] == devs;
    OwnedByName(devs, paths, j);
    HasPorts(devs, paths, j);
    if k :| 0 <= k < |paths| && |paths[j].ports| > 1 && paths[k] == Up(paths[j]) {
      if devs[k] == devs[i] {
        OnePath(devs, paths, k, i);
      }
    }
  }
}
