/** What the lines of `lsusb -t` show of each device: its interfaces, its depth, and the busses
    above. */
module TreeLines {
  import opened StableSort
  import opened UsbObjects
  import opened Words
  import opened InterfaceSort
  import opened DeviceTree
  import opened Connect
  import opened ConnectInterfaces
  import opened Forest
  import opened ForestMeaning
  import opened NameOwners
  import opened PrintTree
  import opened TreeLayout

  // ---- What a forest is drawn from ----

  /** The devices, the interfaces, and the paths of the devices. */
  datatype Scene = Scene(devs: seq<UsbDevice>, ifs: seq<UsbInterface>, paths: seq<Path>)

  /** Device `d` has a path of `n` ports. */
  ghost predicate AtDepth(scene: Scene, d: UsbDevice, n: nat) {
    exists j :: 0 <= j < |scene.devs| && j < |scene.paths| && scene.devs[j] == d && |scene.paths[j].ports| == n
  }

  /** The interfaces of a device, in the order found or sorted. */
  ghost function OwnIfaces(scene: Scene, d: UsbDevice, sorted: bool): seq<UsbInterface> {
    var own := InterfacesOf(scene.devs, scene.ifs, d);
    if sorted then Sort(own, ConfigThenNumber) else own
  }

  /** Everywhere in the forest stand devices with their own interfaces, those at the roots with
      `n` ports in their paths and one more at each level. */
  ghost predicate Drawn(f: seq<Tree>, n: nat, scene: Scene, sorted: bool)
    decreases f
  {
    |f| > 0 ==>
      && AtDepth(scene, f[0].dev, n) && f[0].ifaces == OwnIfaces(scene, f[0].dev, sorted)
      && Drawn(f[0].kids, n + 1, scene, sorted) && Drawn(f[1..], n, scene, sorted)
  }

  lemma DrawnCons(t: Tree, f: seq<Tree>, n: nat, scene: Scene, sorted: bool)
    ensures Drawn([t] + f, n, scene, sorted) <==>
              && AtDepth(scene, t.dev, n) && t.ifaces == OwnIfaces(scene, t.dev, sorted)
              && Drawn(t.kids, n + 1, scene, sorted) && Drawn(f, n, scene, sorted)
  {
    assert ([t] + f)[1..] == f;
  }

  lemma {:induction false} DrawnConcat(a: seq<Tree>, b: seq<Tree>, n: nat, scene: Scene, sorted: bool)
    ensures Drawn(a + b, n, scene, sorted) <==> Drawn(a, n, scene, sorted) && Drawn(b, n, scene, sorted)
    decreases |a|
  {
    hide AtDepth, OwnIfaces;
    if |a| == 0 {
      assert a + b == b;
    } else {
      assert (a + b)[1..] == a[1..] + b;
      DrawnConcat(a[1..], b, n, scene, sorted);
    }
  }

  lemma {:induction false} DrawnInsert(t: Tree, f: seq<Tree>, n: nat, scene: Scene, sorted: bool)
    requires Drawn([t], n, scene, sorted) && Drawn(f, n, scene, sorted)
    ensures Drawn(Insert(t, f, Port), n, scene, sorted)
    decreases |f|
  {
    hide Drawn;
    if |f| == 0 || Port(t) <= Port(f[0]) {
      DrawnConcat([t], f, n, scene, sorted);
    } else {
      assert f == [f[0]] + f[1..];
      DrawnConcat([f[0]], f[1..], n, scene, sorted);
      DrawnInsert(t, f[1..], n, scene, sorted);
      DrawnConcat([f[0]], Insert(t, f[1..], Port), n, scene, sorted);
    }
  }

  lemma {:induction false} DrawnSort(f: seq<Tree>, n: nat, scene: Scene, sorted: bool)
    requires Drawn(f, n, scene, sorted)
    ensures Drawn(Sort(f, Port), n, scene, sorted)
    decreases |f|
  {
    hide Drawn;
    if |f| > 0 {
      assert f == [f[0]] + f[1..];
      DrawnConcat([f[0]], f[1..], n, scene, sorted);
      DrawnSort(f[1..], n, scene, sorted);
      DrawnInsert(f[0], Sort(f[1..], Port), n, scene, sorted);
    } else {
      assert Sort(f, Port) == f;
    }
  }

  lemma {:induction false} DrawnSettle(f: seq<Tree>, n: nat, scene: Scene)
    requires Drawn(f, n, scene, false)
    ensures Drawn(SettleAll(f), n, scene, true)
    decreases f
  {
    hide Sort, Drawn, AtDepth;
    if |f| > 0 {
      assert f == [f[0]] + f[1..];
      DrawnCons(f[0], f[1..], n, scene, false);
      DrawnSettle(f[0].kids, n + 1, scene);
      DrawnSort(SettleAll(f[0].kids), n + 1, scene, true);
      DrawnSettle(f[1..], n, scene);
      DrawnCons(Settle(f[0]), SettleAll(f[1..]), n, scene, true);
      assert Settle(f[0]).kids == Sort(SettleAll(f[0].kids), Port);
    } else {
      NothingDrawn(n, scene, true);
      assert SettleAll(f) == [];
    }
  }

  lemma NothingDrawn(n: nat, scene: Scene, sorted: bool)
    ensures Drawn([], n, scene, sorted)
  {
  }

  /** Sorting sorts the interfaces and moves no device to another depth. */
  lemma SortedIsDrawn(f: seq<Tree>, n: nat, scene: Scene)
    requires Drawn(f, n, scene, false)
    ensures Drawn(SortForest(f), n, scene, true)
  {
    DrawnSettle(f, n, scene);
    DrawnSort(SettleAll(f), n, scene, true);
  }

  lemma KidsAreDeeper(scene: Scene, p: UsbDevice, n: nat)
    requires AllPluggedIn(scene.devs, scene.paths) && AtDepth(scene, p, n)
    ensures forall d :: d in ChildrenOf(scene.devs, p) ==> AtDepth(scene, d, n + 1)
  {
    hide PluggedIn, OwnerOf, Kids;
    var i :| 0 <= i < |scene.devs| && i < |scene.paths| && scene.devs[i] == p && |scene.paths[i].ports| == n;
    forall d | d in ChildrenOf(scene.devs, p) ensures AtDepth(scene, d, n + 1) {
      KidsAre(scene.devs, |scene.devs|, Hub(p));
      var j :| 0 <= j < |scene.devs| && scene.devs[j] == d;
      OwnerIsUp(scene.devs, scene.paths, i, j);
    }
  }

  lemma {:induction false} GrownIsDrawn(scene: Scene, s: seq<UsbDevice>, n: nat)
    requires AllPluggedIn(scene.devs, scene.paths)
    requires forall d :: d in s ==> d in scene.devs && AtDepth(scene, d, n)
    ensures Drawn(Grow(scene.devs, scene.ifs, s), n, scene, false)
    decreases Height(LongestName(scene.devs), s), |s|
  {
    hide AllPluggedIn, AtDepth, Drawn, Kids, OwnerOf, Owned;
    if |s| == 0 {
      NothingDrawn(n, scene, false);
      assert s == [];
      GrowEmpty(scene.devs, scene.ifs);
    } else {
      ChildrenAreLower(scene.devs, s);
      HeightTail(LongestName(scene.devs), s);
      hide Height, Grow;
      GrowCons(scene.devs, scene.ifs, s);
      var kids := ChildrenOf(scene.devs, s[0]);
      assert s[0] in s;
      KidsAreDeeper(scene, s[0], n);
      GrownIsDrawn(scene, kids, n + 1);
      GrownIsDrawn(scene, s[1..], n);
      DrawnCons(Tree(s[0], InterfacesOf(scene.devs, scene.ifs, s[0]), Grow(scene.devs, scene.ifs, kids)),
        Grow(scene.devs, scene.ifs, s[1..]), n, scene, false);
    }
  }

  /** The sorted forest of a bus. */
  lemma BusForestIsDrawn(scene: Scene, bus: uint32)
    requires AllPluggedIn(scene.devs, scene.paths)
    ensures Drawn(SortForest(BusForest(scene.devs, scene.ifs, bus)), 1, scene, true)
  {
    hide Drawn, Grow, OwnerOf, Kids, PluggedIn, SortForest;
    var devs := scene.devs;
    KidsAre(devs, |devs|, Root(bus));
    forall d | d in Kids(devs, |devs|, Root(bus)) ensures AtDepth(scene, d, 1) {
      var j :| 0 <= j < |devs| && devs[j] == d;
      OwnedByName(devs, scene.paths, j);
      HasPorts(devs, scene.paths, j);
    }
    GrownIsDrawn(scene, Kids(devs, |devs|, Root(bus)), 1);
    SortedIsDrawn(BusForest(devs, scene.ifs, bus), 1, scene);
  }

  // ---- The interfaces on the lines of a device ----

  /** The interfaces on the lines of `d`, `null` for a line without. */
  ghost function IfacesShown(lines: seq<Line>, d: UsbDevice): seq<UsbInterface?> {
    if |lines| == 0 then [] else OnLine(lines[0], d) + IfacesShown(lines[1..], d)
  }

  ghost function OnLine(line: Line, d: UsbDevice): seq<UsbInterface?> {
    if line.DeviceLine? && line.dev == d then [line.iface] else []
  }

  lemma {:induction false} ShownJoin(a: seq<Line>, b: seq<Line>, d: UsbDevice)
    ensures IfacesShown(a + b, d) == IfacesShown(a, d) + IfacesShown(b, d)
    decreases |a|
  {
    hide OnLine;
    if |a| == 0 {
      assert a + b == b;
    } else {
      assert (a + b)[1..] == a[1..] + b;
      ShownJoin(a[1..], b, d);
    }
  }

  /** A line for each interface, or one without. */
  ghost function Sheet(s: seq<UsbInterface>): seq<UsbInterface?> { if s == [] then [null] else s }

  lemma {:induction false} ShownOfOwn(lines: seq<Line>, t: UsbDevice, sheet: seq<UsbInterface?>, d: UsbDevice)
    requires |lines| == |sheet|
    requires forall k :: 0 <= k < |lines| ==> lines[k].DeviceLine? && lines[k].dev == t && lines[k].iface == sheet[k]
    ensures IfacesShown(lines, d) == if d == t then sheet else []
    decreases |lines|
  {
    if |lines| > 0 {
      ShownOfOwn(lines[1..], t, sheet[1..], d);
    }
  }

  lemma OwnShown(t: UsbDevice, s: seq<UsbInterface>, indent: int, d: UsbDevice)
    ensures IfacesShown(DeviceLines(t, s, indent), d) == if d == t then Sheet(s) else []
  {
    hide DeviceLines, IfacesShown;
    DeviceLinesShow(t, s, indent);
    ShownOfOwn(DeviceLines(t, s, indent), t, Sheet(s), d);
  }

  lemma InOnePart(t: Tree, rest: seq<Tree>, d: UsbDevice)
    requires Unique(Devices([t] + rest))
    ensures Unique(Devices(t.kids)) && Unique(Devices(rest))
    ensures d in Devices([t] + rest) <==> d == t.dev || d in Devices(t.kids) || d in Devices(rest)
    ensures !(d == t.dev && d in Devices(t.kids)) && !(d == t.dev && d in Devices(rest))
    ensures !(d in Devices(t.kids) && d in Devices(rest))
  {
    hide Devices, Unique;
    DevicesCons(t, rest);
    UniqueParts(multiset{t.dev}, Devices(t.kids), Devices(rest));
  }

  lemma OneOfThree<T>(a: seq<T>, b: seq<T>, c: seq<T>, sheet: seq<T>, first: bool, second: bool, third: bool)
    requires a == (if first then sheet else []) && b == (if second then sheet else []) && c == (if third then sheet else [])
    requires !(first && second) && !(first && third) && !(second && third)
    ensures (a + b) + c == if first || second || third then sheet else []
  {
  }

  lemma {:induction false} ForestShown(f: seq<Tree>, n: nat, scene: Scene, indent: int, d: UsbDevice)
    requires Drawn(f, n, scene, true) && Unique(Devices(f))
    ensures IfacesShown(Preorder(f, indent), d) == if d in Devices(f) then Sheet(OwnIfaces(scene, d, true)) else []
    decreases f
  {
    hide Drawn, Sheet, OwnIfaces, IfacesShown, Unique, DeviceLines, Devices, Preorder, AtDepth;
    if f == [] {
      NothingShown(indent, d);
    } else {
      var t, rest := f[0], f[1..];
      assert f == [t] + rest;
      DrawnCons(t, rest, n, scene, true);
      InOnePart(t, rest, d);
      ForestShown(t.kids, n + 1, scene, indent + 4, d);
      ForestShown(rest, n, scene, indent, d);
      PreorderCons(t, rest, indent);
      var own, kids := DeviceLines(t.dev, t.ifaces, indent + 3), Preorder(t.kids, indent + 4);
      OwnShown(t.dev, t.ifaces, indent + 3, d);
      ShownJoin(own, kids, d);
      ShownJoin(own + kids, Preorder(rest, indent), d);
      OneOfThree(IfacesShown(own, d), IfacesShown(kids, d), IfacesShown(Preorder(rest, indent), d),
        Sheet(OwnIfaces(scene, d, true)), d == t.dev, d in Devices(t.kids), d in Devices(rest));
    }
  }

  lemma NothingShown(indent: int, d: UsbDevice)
    ensures IfacesShown(Preorder([], indent), d) == [] && Devices([]) == multiset{} && Preorder([], indent) == []
  {
  }

  /** What the lines of a device are to show: each interface named after it, once, in the order of
      configuration and number, or one line without any if there is none. */
  ghost predicate ShowsOwn(shown: seq<UsbInterface?>, ifs: seq<UsbInterface>, d: UsbDevice) {
    if exists e :: e in ifs && NamedAfter(e, d.name) then
      && (forall i :: 0 <= i < |shown| ==> shown[i] != null && shown[i] in ifs && NamedAfter(shown[i], d.name))
      && (forall e :: e in ifs && NamedAfter(e, d.name) ==> e in shown)
      && (forall i, k :: 0 <= i < k < |shown| ==>
            && shown[i] != shown[k]
            && shown[i].configuration <= shown[k].configuration && shown[i].ifnum <= shown[k].ifnum)
    else shown == [null]
  }

  lemma InterfacesNamed(devs: seq<UsbDevice>, ifs: seq<UsbInterface>, d: UsbDevice)
    requires NamesApart(devs) && d in devs
    ensures forall e :: e in InterfacesOf(devs, ifs, d) <==> e in ifs && NamedAfter(e, d.name)
  {
    hide IfaceOwnerOf, NamedAfter, NamesApart, Owned;
    OwnedAre(devs, ifs, |ifs|, OfDevice(d));
    assert ifs[..|ifs|] == ifs;
    forall e | e in ifs ensures IfaceOwnerOf(devs, e) == OfDevice(d) <==> NamedAfter(e, d.name) {
      OwnedByDeviceName(devs, e, d);
    }
  }

  lemma SheetShowsOwn(devs: seq<UsbDevice>, ifs: seq<UsbInterface>, d: UsbDevice)
    requires NamesApart(devs) && d in devs && Unique(multiset(ifs)) && SortableInterfaces(devs, ifs)
    ensures ShowsOwn(Sheet(Sort(InterfacesOf(devs, ifs, d), ConfigThenNumber)), ifs, d)
  {
    hide NamesApart, NamedAfter, Owned, IfaceOwnerOf, ConfigThenNumber, Unique, Sort, Sheet;
    var own := InterfacesOf(devs, ifs, d);
    var r := Sort(own, ConfigThenNumber);
    InterfacesNamed(devs, ifs, d);
    SortedByBothKeys(own);
    OwnedUnique(devs, ifs, |ifs|, OfDevice(d));
    SameMembers(r, own);
    Distinctly(r);
    SheetIs(r);
    if own == [] {
      assert forall e :: e in ifs ==> !NamedAfter(e, d.name);
    } else {
      assert own[0] in own;
      InOrder(r, ifs, d);
    }
  }

  lemma SheetIs(s: seq<UsbInterface>)
    ensures s == [] ==> Sheet(s) == [null]
    ensures s != [] ==> Sheet(s) == s
  {
  }

  lemma InOrder(r: seq<UsbInterface>, ifs: seq<UsbInterface>, d: UsbDevice)
    requires r != [] && Sheet(r) == r
    requires forall e :: e in r <==> e in ifs && NamedAfter(e, d.name)
    requires forall i, k :: 0 <= i < k < |r| ==>
               r[i] != r[k] && r[i].configuration <= r[k].configuration && r[i].ifnum <= r[k].ifnum
    ensures ShowsOwn(Sheet(r), ifs, d)
  {
    hide NamedAfter, Sheet;
    assert r[0] in r;
  }

  lemma SameMembers(a: seq<UsbInterface>, b: seq<UsbInterface>)
    requires multiset(a) == multiset(b)
    ensures |a| == |b| && forall e :: e in a <==> e in b
  {
    assert |multiset(a)| == |a| && |multiset(b)| == |b|;
    assert forall e :: e in a <==> e in multiset(a);
  }

  lemma Distinctly(s: seq<UsbInterface>)
    requires Unique(multiset(s))
    ensures forall i, k :: 0 <= i < k < |s| ==> s[i] != s[k]
  {
    forall i, k | 0 <= i < k < |s| ensures s[i] != s[k] {
      assert s == s[..k] + [s[k]] + s[k + 1..];
      assert multiset(s)[s[k]] == 1;
      assert s[i] == s[..k][i];
      assert multiset(s) == multiset(s[..k]) + multiset{s[k]} + multiset(s[k + 1..]);
    }
  }

  // ---- Depth ----

  /** The lines of every device are indented by four columns for each port of its path. */
  ghost predicate Indented(lines: seq<Line>, scene: Scene, indent: int)
    requires |scene.devs| == |scene.paths|
  {
    forall m, j :: 0 <= m < |lines| && lines[m].DeviceLine? && 0 <= j < |scene.devs| && lines[m].dev == scene.devs[j] ==>
      lines[m].indent == indent + 4 * |scene.paths[j].ports|
  }

  lemma IndentedJoin(a: seq<Line>, b: seq<Line>, scene: Scene, indent: int)
    requires |scene.devs| == |scene.paths| && Indented(a, scene, indent) && Indented(b, scene, indent)
    ensures Indented(a + b, scene, indent)
  {
  }

  lemma OwnIndented(lines: seq<Line>, t: UsbDevice, at: int, n: nat, scene: Scene, indent: int)
    requires AllPluggedIn(scene.devs, scene.paths) && AtDepth(scene, t, n) && Own(lines, t, at) && at == indent + 4 * n
    ensures |scene.devs| == |scene.paths| && Indented(lines, scene, indent)
  {
    hide PluggedIn;
    var i :| 0 <= i < |scene.devs| && i < |scene.paths| && scene.devs[i] == t && |scene.paths[i].ports| == n;
    forall j | 0 <= j < |scene.devs| && scene.devs[j] == t ensures i == j {
      OnePath(scene.devs, scene.paths, i, j);
    }
  }

  lemma {:induction false} ForestIndented(f: seq<Tree>, n: nat, scene: Scene, indent: int, base: int)
    requires AllPluggedIn(scene.devs, scene.paths) && Drawn(f, n, scene, true) && indent + 3 == base + 4 * n
    ensures |scene.devs| == |scene.paths| && Indented(Preorder(f, indent), scene, base)
    decreases f
  {
    hide Drawn, AtDepth, AllPluggedIn, DeviceLines, Own, Indented, OwnIfaces, Preorder;
    AsManyPaths(scene);
    if f == [] {
      PreorderNil(indent);
      NoneIndented(scene, base);
    } else {
      var t, rest := f[0], f[1..];
      assert f == [t] + rest;
      DrawnCons(t, rest, n, scene, true);
      ForestIndented(t.kids, n + 1, scene, indent + 4, base);
      ForestIndented(rest, n, scene, indent, base);
      PreorderCons(t, rest, indent);
      var own, kids := DeviceLines(t.dev, t.ifaces, indent + 3), Preorder(t.kids, indent + 4);
      DeviceLinesAre(t.dev, t.ifaces, indent + 3);
      OwnIndented(own, t.dev, indent + 3, n, scene, base);
      IndentedJoin(own, kids, scene, base);
      IndentedJoin(own + kids, Preorder(rest, indent), scene, base);
    }
  }

  lemma AsManyPaths(scene: Scene)
    requires AllPluggedIn(scene.devs, scene.paths)
    ensures |scene.devs| == |scene.paths|
  {
  }

  lemma NoneIndented(scene: Scene, indent: int)
    requires |scene.devs| == |scene.paths|
    ensures Indented([], scene, indent)
  {
  }

  // ---- Busses ----

  /** The busses on the lines, in order. */
  ghost function Headings(lines: seq<Line>): seq<UsbBus> {
    if |lines| == 0 then [] else Heading(lines[0]) + Headings(lines[1..])
  }

  ghost function Heading(line: Line): seq<UsbBus> { if line.BusLine? then [line.bus] else [] }

  lemma {:induction false} HeadingsJoin(a: seq<Line>, b: seq<Line>)
    ensures Headings(a + b) == Headings(a) + Headings(b)
    decreases |a|
  {
    hide Heading;
    if |a| == 0 {
      assert a + b == b;
    } else {
      assert (a + b)[1..] == a[1..] + b;
      HeadingsJoin(a[1..], b);
    }
  }

  lemma {:induction false} NoHeadings(lines: seq<Line>, indent: int)
    requires Deep(lines, indent)
    ensures Headings(lines) == []
    decreases |lines|
  {
    if |lines| > 0 {
      assert Deep(lines[1..], indent);
      NoHeadings(lines[1..], indent);
    }
  }
}
