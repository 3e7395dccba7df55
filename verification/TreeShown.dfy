/** `lsusb -t` from end to end: what its lines say about devices that are named after their
    ports. */
module TreeShown {
  import opened StableSort
  import opened UsbObjects
  import opened UsbNames
  import opened Words
  import opened BusList
  import opened InterfaceSort
  import opened DeviceTree
  import opened Connect
  import opened ConnectInterfaces
  import opened ConnectDevices
  import opened Forest
  import opened ForestMeaning
  import opened NameOwners
  import opened PrintTree
  import opened TreeLayout
  import opened TreeLines
  import opened LsusbTree

  // ---- Lines below a bus ----

  /** Line `h` is the nearest line above line `j` that shows a bus. */
  ghost predicate Heads(lines: seq<Line>, h: nat, j: nat) {
    h < j < |lines| && lines[h].BusLine? && forall m :: h < m <= j ==> lines[m].DeviceLine?
  }

  /** Some line of `d` stands among those of bus `b`. */
  ghost predicate ShownUnder(lines: seq<Line>, b: UsbBus, d: UsbDevice) {
    exists h: nat, j: nat :: Heads(lines, h, j) && lines[h].bus == b && lines[j].dev == d
  }

  /** Lines that start with a bus, if there are any. */
  ghost predicate StartsAnew(lines: seq<Line>) { lines != [] ==> lines[0].BusLine? }

  lemma HeadsParts(a: seq<Line>, b: seq<Line>, h: nat, j: nat)
    requires StartsAnew(b)
    ensures j < |a| ==> (Heads(a + b, h, j) <==> Heads(a, h, j))
    ensures h < |a| <= j ==> !Heads(a + b, h, j)
    ensures Heads(a + b, |a| + h, |a| + j) <==> Heads(b, h, j)
  {
    var s := a + b;
    assert forall m :: 0 <= m < |a| ==> s[m] == a[m];
    assert forall m :: 0 <= m < |b| ==> s[|a| + m] == b[m];
    if j < |a| && Heads(s, h, j) {
      forall m | h < m <= j ensures a[m].DeviceLine? { assert s[m] == a[m]; }
    }
    if Heads(s, |a| + h, |a| + j) {
      forall m | h < m <= j ensures b[m].DeviceLine? { assert s[|a| + m] == b[m]; }
    }
    if Heads(b, h, j) {
      forall m | |a| + h < m <= |a| + j ensures s[m].DeviceLine? { assert s[m] == b[m - |a|]; }
    }
  }

  lemma UnderConcat(a: seq<Line>, b: seq<Line>, bus: UsbBus, d: UsbDevice)
    requires StartsAnew(b)
    ensures ShownUnder(a + b, bus, d) <==> ShownUnder(a, bus, d) || ShownUnder(b, bus, d)
  {
    var s := a + b;
    if ShownUnder(s, bus, d) {
      var h: nat, j: nat :| Heads(s, h, j) && s[h].bus == bus && s[j].dev == d;
      HeadsParts(a, b, h, j);
      if h >= |a| {
        HeadsParts(a, b, h - |a|, j - |a|);
      }
    }
    if ShownUnder(a, bus, d) {
      var h: nat, j: nat :| Heads(a, h, j) && a[h].bus == bus && a[j].dev == d;
      HeadsParts(a, b, h, j);
    }
    if ShownUnder(b, bus, d) {
      var h: nat, j: nat :| Heads(b, h, j) && b[h].bus == bus && b[j].dev == d;
      HeadsParts(a, b, h, j);
    }
  }

  /** One bus and the lines below it. */
  lemma UnderOne(x: UsbBus, lines: seq<Line>, indent: int, bus: UsbBus, d: UsbDevice)
    requires Deep(lines, indent)
    ensures ShownUnder([BusLine(x)] + lines, bus, d) <==> bus == x && Shows(lines, d)
  {
    var s := [BusLine(x)] + lines;
    assert forall m :: 0 <= m < |lines| ==> s[m + 1] == lines[m];
    if ShownUnder(s, bus, d) {
      var h: nat, j: nat :| Heads(s, h, j) && s[h].bus == bus && s[j].dev == d;
      assert s[j] == lines[j - 1];
    }
    if bus == x && Shows(lines, d) {
      var j :| 0 <= j < |lines| && lines[j].DeviceLine? && lines[j].dev == d;
      forall m | 0 < m <= j + 1 ensures s[m].DeviceLine? { assert s[m] == lines[m - 1]; }
      assert Heads(s, 0, j + 1) && s[j + 1].dev == d;
    }
  }

  lemma BelowOne(x: UsbBus, lines: seq<Line>, p: UsbDevice, d: UsbDevice)
    ensures PrintedBelow([BusLine(x)] + lines, p, d) <==> PrintedBelow(lines, p, d)
  {
    BelowConcat([BusLine(x)], lines, p, d);
  }

  // ---- All busses ----

  lemma BusLinesStart(busses: seq<UsbBus>, shown: seq<seq<Tree>>, k: nat, indent: int)
    requires k <= |busses| == |shown|
    ensures StartsAnew(BusLines(busses, shown, k, indent))
  {
    hide Preorder;
  }

  /** The lines of bus `m` show what hangs on bus `m`. */
  lemma {:induction false} BusLinesShow(busses: seq<UsbBus>, shown: seq<seq<Tree>>, k: nat, indent: int, b: UsbBus, d: UsbDevice)
    requires k <= |busses| == |shown|
    ensures ShownUnder(BusLines(busses, shown, k, indent), b, d) <==>
              exists m :: k <= m < |busses| && busses[m] == b && d in Devices(shown[m])
    decreases |busses| - k
  {
    hide ShownUnder, Preorder, Devices, Deep, BusLines, StartsAnew, Shows;
    if k < |busses| {
      var own, rest := Preorder(shown[k], indent + 4), BusLines(busses, shown, k + 1, indent);
      BusLinesStep(busses, shown, k, indent);
      PreorderIsDeep(shown[k], indent + 4);
      PreorderShowsEveryDevice(shown[k], indent + 4, d);
      UnderOne(busses[k], own, indent + 7, b, d);
      BusLinesStart(busses, shown, k + 1, indent);
      UnderConcat([BusLine(busses[k])] + own, rest, b, d);
      BusLinesShow(busses, shown, k + 1, indent, b, d);
    } else {
      BusLinesEnd(busses, shown, indent);
      NothingUnder(b, d);
    }
  }

  lemma NothingUnder(b: UsbBus, d: UsbDevice)
    ensures !ShownUnder([], b, d) && ByPort([])
  {
  }

  lemma AnewIsBarrier(a: seq<Line>, b: seq<Line>)
    requires StartsAnew(b)
    ensures Barrier(a, b)
  {
  }

  lemma {:induction false} BusLinesBelow(busses: seq<UsbBus>, shown: seq<seq<Tree>>, k: nat, indent: int, p: UsbDevice, d: UsbDevice)
    requires k <= |busses| == |shown|
    ensures PrintedBelow(BusLines(busses, shown, k, indent), p, d) <==>
              exists m :: k <= m < |busses| && (p, d) in Links(shown[m], null)
    decreases |busses| - k
  {
    hide PrintedBelow, Preorder, Links, BusLines, StartsAnew, Barrier;
    if k < |busses| {
      var own, rest := Preorder(shown[k], indent + 4), BusLines(busses, shown, k + 1, indent);
      BusLinesStep(busses, shown, k, indent);
      LinesShowParents(shown[k], indent + 4, p, d);
      BelowOne(busses[k], own, p, d);
      BusLinesStart(busses, shown, k + 1, indent);
      AnewIsBarrier([BusLine(busses[k])] + own, rest);
      BelowConcat([BusLine(busses[k])] + own, rest, p, d);
      BusLinesBelow(busses, shown, k + 1, indent, p, d);
    } else {
      BusLinesEnd(busses, shown, indent);
      NothingPrinted(indent, p, d);
    }
  }

  lemma LevelsApart(a: seq<Line>, b: seq<Line>)
    requires StartsAnew(b)
    ensures forall i: nat, j: nat :: i < |a| <= j ==> !SameLevel(a + b, i, j)
  {
    forall i: nat, j: nat | i < |a| <= j ensures !SameLevel(a + b, i, j) {
      assert b != [] ==> (a + b)[|a|] == b[0];
    }
  }

  lemma ByPortBelow(x: UsbBus, lines: seq<Line>)
    requires ByPort(lines)
    ensures ByPort([BusLine(x)] + lines)
  {
    var s := [BusLine(x)] + lines;
    forall i: nat, j: nat | i < 1 <= j ensures !SameLevel(s, i, j) {
      assert s[0] == BusLine(x);
    }
    ByPortConcat([BusLine(x)], lines);
  }

  lemma {:induction false} BusLinesByPort(busses: seq<UsbBus>, shown: seq<seq<Tree>>, k: nat, indent: int)
    requires k <= |busses| == |shown|
    requires forall m :: 0 <= m < |shown| ==> Sorted(shown[m], Port) && Orderly(shown[m])
    ensures ByPort(BusLines(busses, shown, k, indent))
    decreases |busses| - k
  {
    hide Preorder, BusLines, StartsAnew, ByPort, SameLevel, Sorted, Orderly;
    if k < |busses| {
      var own, rest := Preorder(shown[k], indent + 4), BusLines(busses, shown, k + 1, indent);
      BusLinesStep(busses, shown, k, indent);
      LinesAreByPort(shown[k], indent + 4);
      ByPortBelow(busses[k], own);
      BusLinesStart(busses, shown, k + 1, indent);
      BusLinesByPort(busses, shown, k + 1, indent);
      LevelsApart([BusLine(busses[k])] + own, rest);
      JoinByPort([BusLine(busses[k])] + own, rest);
    } else {
      BusLinesEnd(busses, shown, indent);
      NoneByPort();
    }
  }

  lemma JoinByPort(a: seq<Line>, b: seq<Line>)
    requires ByPort(a) && ByPort(b) && forall i: nat, j: nat :: i < |a| <= j ==> !SameLevel(a + b, i, j)
    ensures ByPort(a + b)
  {
    ByPortConcat(a, b);
  }

  /** The headings are the busses. */
  lemma {:induction false} BusLinesHeadings(busses: seq<UsbBus>, shown: seq<seq<Tree>>, k: nat, indent: int)
    requires k <= |busses| == |shown|
    ensures Headings(BusLines(busses, shown, k, indent)) == busses[k..]
    decreases |busses| - k
  {
    hide Preorder, BusLines, Deep;
    if k < |busses| {
      var own, rest := Preorder(shown[k], indent + 4), BusLines(busses, shown, k + 1, indent);
      BusLinesStep(busses, shown, k, indent);
      PreorderIsDeep(shown[k], indent + 4);
      NoHeadings(own, indent + 7);
      BusLinesHeadings(busses, shown, k + 1, indent);
      HeadingsJoin([BusLine(busses[k])] + own, rest);
      HeadingsJoin([BusLine(busses[k])], own);
      OneHeading(busses[k]);
      assert busses[k..] == [busses[k]] + busses[k + 1..];
    } else {
      BusLinesEnd(busses, shown, indent);
      NoHeadings([], 0);
    }
  }

  lemma OneHeading(b: UsbBus)
    ensures Headings([BusLine(b)]) == [b]
    ensures forall d :: IfacesShown([BusLine(b)], d) == []
  {
    assert [BusLine(b)][1..] == [] && Headings([]) == [];
    forall d ensures IfacesShown([BusLine(b)], d) == [] {
      assert IfacesShown([], d) == [];
    }
  }

  lemma {:induction false} BusLinesIndented(busses: seq<UsbBus>, shown: seq<seq<Tree>>, k: nat, indent: int, scene: Scene)
    requires k <= |busses| == |shown| && |scene.devs| == |scene.paths|
    requires forall m :: 0 <= m < |shown| ==> Indented(Preorder(shown[m], indent + 4), scene, indent + 3)
    ensures Indented(BusLines(busses, shown, k, indent), scene, indent + 3)
    decreases |busses| - k
  {
    hide Preorder, BusLines, Indented;
    if k < |busses| {
      var own, rest := Preorder(shown[k], indent + 4), BusLines(busses, shown, k + 1, indent);
      BusLinesStep(busses, shown, k, indent);
      BusLinesIndented(busses, shown, k + 1, indent, scene);
      HeadingIndented(busses[k], scene, indent + 3);
      IndentedJoin([BusLine(busses[k])], own, scene, indent + 3);
      IndentedJoin([BusLine(busses[k])] + own, rest, scene, indent + 3);
    } else {
      BusLinesEnd(busses, shown, indent);
      NoneIndented(scene, indent + 3);
    }
  }

  lemma HeadingIndented(b: UsbBus, scene: Scene, indent: int)
    requires |scene.devs| == |scene.paths|
    ensures Indented([BusLine(b)], scene, indent)
  {
  }

  /** The device is in forest `k` or a later one. */
  ghost predicate InLater(shown: seq<seq<Tree>>, k: nat, d: UsbDevice) {
    exists m :: k <= m < |shown| && d in Devices(shown[m])
  }

  lemma InLaterStep(shown: seq<seq<Tree>>, k: nat, d: UsbDevice)
    requires k < |shown|
    requires forall m, m' :: 0 <= m < m' < |shown| ==> !(d in Devices(shown[m]) && d in Devices(shown[m']))
    ensures InLater(shown, k, d) <==> d in Devices(shown[k]) || InLater(shown, k + 1, d)
    ensures !(d in Devices(shown[k]) && InLater(shown, k + 1, d))
  {
    hide Devices;
  }

  lemma OnlyOnce<T>(a: seq<T>, b: seq<T>, c: seq<T>, sheet: seq<T>, first: bool, later: bool)
    requires a == [] && !(first && later) && b == (if first then sheet else []) && c == (if later then sheet else [])
    ensures (a + b) + c == if first || later then sheet else []
  {
  }

  /** The interfaces on the lines of a device that is in at most one of the forests. */
  lemma {:induction false} BusLinesIfaces(
      busses: seq<UsbBus>, shown: seq<seq<Tree>>, k: nat, indent: int, d: UsbDevice, sheet: seq<UsbInterface?>)
    requires k <= |busses| == |shown|
    requires forall m :: 0 <= m < |shown| ==>
               IfacesShown(Preorder(shown[m], indent + 4), d) == if d in Devices(shown[m]) then sheet else []
    requires forall m, m' :: 0 <= m < m' < |shown| ==> !(d in Devices(shown[m]) && d in Devices(shown[m']))
    ensures IfacesShown(BusLines(busses, shown, k, indent), d) == if InLater(shown, k, d) then sheet else []
    decreases |busses| - k
  {
    hide Preorder, BusLines, Devices, IfacesShown, InLater;
    if k < |busses| {
      var own, rest := Preorder(shown[k], indent + 4), BusLines(busses, shown, k + 1, indent);
      BusLinesStep(busses, shown, k, indent);
      BusLinesIfaces(busses, shown, k + 1, indent, d, sheet);
      OneHeading(busses[k]);
      ShownJoin([BusLine(busses[k])], own, d);
      ShownJoin([BusLine(busses[k])] + own, rest, d);
      InLaterStep(shown, k, d);
      OnlyOnce(IfacesShown([BusLine(busses[k])], d), IfacesShown(own, d), IfacesShown(rest, d), sheet,
        d in Devices(shown[k]), InLater(shown, k + 1, d));
    } else {
      BusLinesEnd(busses, shown, indent);
      NothingShown(indent, d);
      PreorderNil(indent);
      NoneLater(shown, d);
    }
  }

  lemma NoneLater(shown: seq<seq<Tree>>, d: UsbDevice)
    ensures !InLater(shown, |shown|, d)
  {
  }

  // ---- Names ----

  lemma {:induction false} RootsOfGrown(devs: seq<UsbDevice>, ifs: seq<UsbInterface>, s: seq<UsbDevice>)
    requires forall d :: d in s ==> d in devs
    ensures Roots(Grow(devs, ifs, s)) == s
    decreases |s|
  {
    hide Grow;
    if |s| > 0 {
      GrowCons(devs, ifs, s);
      RootsOfGrown(devs, ifs, s[1..]);
      var t, f := Grow(devs, ifs, s)[0], Grow(devs, ifs, s[1..]);
      assert ([t] + f)[1..] == f;
    }
  }

  /** What hangs on a device of the forest are the devices it owns. */
  lemma {:induction false} LinksOfGrown(devs: seq<UsbDevice>, ifs: seq<UsbInterface>, s: seq<UsbDevice>, p: UsbDevice, d: UsbDevice)
    requires forall x :: x in s ==> x in devs
    ensures (p, d) in Links(Grow(devs, ifs, s), null) <==> p in Devices(Grow(devs, ifs, s)) && d in ChildrenOf(devs, p)
    decreases Height(LongestName(devs), s), |s|
  {
    hide Devices, Links, OwnerOf, Kids, Roots;
    if |s| == 0 {
      NothingGrown(devs, ifs, s);
      NoLinks(null);
      assert Grow(devs, ifs, s) == [];
    } else {
      ChildrenAreLower(devs, s);
      HeightTail(LongestName(devs), s);
      hide Height, Grow;
      GrowStep(devs, ifs, s);
      GrowCons(devs, ifs, s);
      var kids := ChildrenOf(devs, s[0]);
      RootsOfGrown(devs, ifs, kids);
      LinksStep(Tree(s[0], InterfacesOf(devs, ifs, s[0]), Grow(devs, ifs, kids)), Grow(devs, ifs, s[1..]), p, d);
      LinksOfGrown(devs, ifs, kids, p, d);
      LinksOfGrown(devs, ifs, s[1..], p, d);
    }
  }

  // ---- The output as a whole ----

  ghost predicate Listed(busses: seq<UsbBus>, n: uint32) { exists b :: b in busses && b.busnum == n }

  /** What the lines tell: a device stands below a bus exactly when the bus has the number in its
      name and all hubs on the way to the device are present; by the indentation, a device hangs
      on another exactly when that is the one at its path without the last port and is shown
      itself; the indentation grows by four columns with each port; and devices on one level come
      in the order of their ports. */
  ghost predicate TellsTree(lines: seq<Line>, devs: seq<UsbDevice>, paths: seq<Path>, busses: seq<UsbBus>, indent: int)
    requires |devs| == |paths|
  {
    && (forall j, b :: 0 <= j < |devs| && b in busses ==>
          (ShownUnder(lines, b, devs[j]) <==> b.busnum == paths[j].bus && HubsPresent(paths, paths[j])))
    && (forall i, j :: 0 <= i < |devs| && 0 <= j < |devs| ==>
          (PrintedBelow(lines, devs[i], devs[j]) <==>
           && |paths[j].ports| > 1 && paths[i] == Up(paths[j])
           && Listed(busses, paths[j].bus) && HubsPresent(paths, paths[j])))
    && (forall m, j :: 0 <= m < |lines| && lines[m].DeviceLine? && 0 <= j < |devs| && lines[m].dev == devs[j] ==>
          lines[m].indent == indent + 3 + 4 * |paths[j].ports|)
    && ByPort(lines)
  }

  /** The lines of every device that is shown show its interfaces. */
  ghost predicate ShowsInterfaces(
      lines: seq<Line>, devs: seq<UsbDevice>, ifs: seq<UsbInterface>, paths: seq<Path>, busses: seq<UsbBus>)
    requires |devs| == |paths|
  {
    forall j :: 0 <= j < |devs| ==>
      if Listed(busses, paths[j].bus) && HubsPresent(paths, paths[j]) then
        ShowsOwn(IfacesShown(lines, devs[j]), ifs, devs[j])
      else IfacesShown(lines, devs[j]) == []
  }

  /** Each bus has one heading, and they come in the order of their numbers. */
  ghost predicate HeadedInOrder(lines: seq<Line>, busses: seq<UsbBus>) {
    var hs := Headings(lines);
    multiset(hs) == multiset(busses) && forall i, k :: 0 <= i < k < |hs| ==> hs[i].busnum <= hs[k].busnum
  }

  lemma UnderItsBus(devs: seq<UsbDevice>, ifs: seq<UsbInterface>, paths: seq<Path>, busses: seq<UsbBus>, indent: int, j: nat, b: UsbBus)
    requires AllPluggedIn(devs, paths) && j < |devs| && b in busses
    ensures ShownUnder(BusLines(busses, Arranged(devs, ifs, busses), 0, indent), b, devs[j]) <==>
              b.busnum == paths[j].bus && HubsPresent(paths, paths[j])
  {
    hide ShownUnder, BusLines, BusForest, SortForest, Devices, AllPluggedIn, HubsPresent;
    BusLinesShow(busses, Arranged(devs, ifs, busses), 0, indent, b, devs[j]);
    HangsExactly(devs, ifs, paths, j, b.busnum);
    SortForestKeeps(BusForest(devs, ifs, b.busnum));
    var m :| 0 <= m < |busses| && busses[m] == b;
    assert Arranged(devs, ifs, busses)[m] == SortForest(BusForest(devs, ifs, b.busnum));
  }

  lemma BelowItsHub(devs: seq<UsbDevice>, ifs: seq<UsbInterface>, paths: seq<Path>, busses: seq<UsbBus>, indent: int, i: nat, j: nat)
    requires AllPluggedIn(devs, paths) && i < |devs| && j < |devs|
    ensures PrintedBelow(BusLines(busses, Arranged(devs, ifs, busses), 0, indent), devs[i], devs[j]) <==>
              && |paths[j].ports| > 1 && paths[i] == Up(paths[j])
              && Listed(busses, paths[j].bus) && HubsPresent(paths, paths[j])
  {
    hide PrintedBelow, BusLines, BusForest, SortForest, AllPluggedIn, HubsPresent, Links, ChildrenOf;
    SameNumber(devs, paths);
    BusLinesBelow(busses, Arranged(devs, ifs, busses), 0, indent, devs[i], devs[j]);
    OwnerIsUp(devs, paths, i, j);
    HasPorts(devs, paths, j);
    HubsStep(paths, paths[j]);
    assert paths[j] in paths;
    forall m | 0 <= m < |busses|
      ensures (devs[i], devs[j]) in Links(Arranged(devs, ifs, busses)[m], null) <==>
                && busses[m].busnum == paths[i].bus && HubsPresent(paths, paths[i])
                && devs[j] in ChildrenOf(devs, devs[i])
    {
      LinksOnBus(devs, ifs, busses[m].busnum, devs[i], devs[j]);
      HangsExactly(devs, ifs, paths, i, busses[m].busnum);
    }
  }

  lemma LinksOnBus(devs: seq<UsbDevice>, ifs: seq<UsbInterface>, n: uint32, p: UsbDevice, d: UsbDevice)
    ensures (p, d) in Links(SortForest(BusForest(devs, ifs, n)), null) <==>
              p in Devices(BusForest(devs, ifs, n)) && d in ChildrenOf(devs, p)
  {
    hide SortForest, Links, ChildrenOf, Grow, Devices, Kids;
    SortingKeepsLinks(BusForest(devs, ifs, n), null);
    LinksOfGrown(devs, ifs, Kids(devs, |devs|, Root(n)), p, d);
  }

  lemma ArrangedIsOrderly(devs: seq<UsbDevice>, ifs: seq<UsbInterface>, busses: seq<UsbBus>)
    ensures forall m :: 0 <= m < |busses| ==>
              Sorted(Arranged(devs, ifs, busses)[m], Port) && Orderly(Arranged(devs, ifs, busses)[m])
  {
    hide SortForest, BusForest, Sorted, Orderly;
    forall m | 0 <= m < |busses|
      ensures Sorted(Arranged(devs, ifs, busses)[m], Port) && Orderly(Arranged(devs, ifs, busses)[m])
    {
      SortedAtEveryDepth(BusForest(devs, ifs, busses[m].busnum));
    }
  }

  /** The lines of devices that are named after their ports tell the tree. */
  lemma LinesTellTree(devs: seq<UsbDevice>, ifs: seq<UsbInterface>, paths: seq<Path>, busses: seq<UsbBus>, indent: int)
    requires AllPluggedIn(devs, paths)
    ensures TellsTree(BusLines(busses, Arranged(devs, ifs, busses), 0, indent), devs, paths, busses, indent)
  {
    hide Indented, ShownUnder, PrintedBelow, BusLines, ByPort, PluggedIn, HubsPresent, Listed, Arranged;
    var lines := BusLines(busses, Arranged(devs, ifs, busses), 0, indent);
    forall j, b | 0 <= j < |devs| && b in busses
      ensures ShownUnder(lines, b, devs[j]) <==> b.busnum == paths[j].bus && HubsPresent(paths, paths[j])
    {
      UnderItsBus(devs, ifs, paths, busses, indent, j, b);
    }
    forall i, j | 0 <= i < |devs| && 0 <= j < |devs|
      ensures PrintedBelow(lines, devs[i], devs[j]) <==>
                && |paths[j].ports| > 1 && paths[i] == Up(paths[j])
                && Listed(busses, paths[j].bus) && HubsPresent(paths, paths[j])
    {
      BelowItsHub(devs, ifs, paths, busses, indent, i, j);
    }
    ArrangedIsOrderly(devs, ifs, busses);
    BusLinesByPort(busses, Arranged(devs, ifs, busses), 0, indent);
    ArrangedIsIndented(Scene(devs, ifs, paths), busses, indent);
    IndentedMeans(lines, Scene(devs, ifs, paths), indent + 3);
  }

  lemma IndentedMeans(lines: seq<Line>, scene: Scene, indent: int)
    requires |scene.devs| == |scene.paths| && Indented(lines, scene, indent)
    ensures forall m, j :: 0 <= m < |lines| && lines[m].DeviceLine? && 0 <= j < |scene.devs| && lines[m].dev == scene.devs[j] ==>
              lines[m].indent == indent + 4 * |scene.paths[j].ports|
  {
  }

  lemma ArrangedIsIndented(scene: Scene, busses: seq<UsbBus>, indent: int)
    requires AllPluggedIn(scene.devs, scene.paths)
    ensures |scene.devs| == |scene.paths|
    ensures Indented(BusLines(busses, Arranged(scene.devs, scene.ifs, busses), 0, indent), scene, indent + 3)
  {
    hide AllPluggedIn, Drawn, Indented, BusForest, SortForest, BusLines, Preorder;
    AsManyPaths(scene);
    var shown := Arranged(scene.devs, scene.ifs, busses);
    forall m | 0 <= m < |shown| ensures Indented(Preorder(shown[m], indent + 4), scene, indent + 3) {
      BusForestIsDrawn(scene, busses[m].busnum);
      ForestIndented(shown[m], 1, scene, indent + 4, indent + 3);
    }
    BusLinesIndented(busses, shown, 0, indent, scene);
  }

  /** The lines of each device show its interfaces. */
  lemma LinesShowInterfaces(devs: seq<UsbDevice>, ifs: seq<UsbInterface>, paths: seq<Path>, busses: seq<UsbBus>, indent: int)
    requires AllPluggedIn(devs, paths) && DistinctBusses(busses) && SortableInterfaces(devs, ifs)
    requires Unique(multiset(devs)) && Unique(multiset(ifs))
    ensures ShowsInterfaces(BusLines(busses, Arranged(devs, ifs, busses), 0, indent), devs, ifs, paths, busses)
  {
    hide Listed, HubsPresent, ShowsOwn, IfacesShown, AllPluggedIn, DistinctBusses, SortableInterfaces, Unique, BusLines,
      Arranged;
    SameNumber(devs, paths);
    var lines := BusLines(busses, Arranged(devs, ifs, busses), 0, indent);
    forall j: nat | j < |devs|
      ensures if Listed(busses, paths[j].bus) && HubsPresent(paths, paths[j]) then
                ShowsOwn(IfacesShown(lines, devs[j]), ifs, devs[j])
              else IfacesShown(lines, devs[j]) == []
    {
      DeviceShowsInterfaces(devs, ifs, paths, busses, indent, j);
    }
    AllShowInterfaces(lines, devs, ifs, paths, busses);
  }

  lemma AllShowInterfaces(lines: seq<Line>, devs: seq<UsbDevice>, ifs: seq<UsbInterface>, paths: seq<Path>, busses: seq<UsbBus>)
    requires |devs| == |paths|
    requires forall j: nat :: j < |devs| ==>
               if Listed(busses, paths[j].bus) && HubsPresent(paths, paths[j]) then
                 ShowsOwn(IfacesShown(lines, devs[j]), ifs, devs[j])
               else IfacesShown(lines, devs[j]) == []
    ensures ShowsInterfaces(lines, devs, ifs, paths, busses)
  {
    hide Listed, HubsPresent, ShowsOwn, IfacesShown;
  }

  lemma DeviceShowsInterfaces(
      devs: seq<UsbDevice>, ifs: seq<UsbInterface>, paths: seq<Path>, busses: seq<UsbBus>, indent: int, j: nat)
    requires AllPluggedIn(devs, paths) && DistinctBusses(busses) && SortableInterfaces(devs, ifs)
    requires Unique(multiset(devs)) && Unique(multiset(ifs)) && j < |devs| == |paths|
    ensures var lines := BusLines(busses, Arranged(devs, ifs, busses), 0, indent);
      if Listed(busses, paths[j].bus) && HubsPresent(paths, paths[j]) then
        ShowsOwn(IfacesShown(lines, devs[j]), ifs, devs[j])
      else IfacesShown(lines, devs[j]) == []
  {
    hide AllPluggedIn, SortableInterfaces, Unique, Drawn, BusForest, SortForest, BusLines, Preorder, Devices, HubsPresent,
      ShowsOwn, IfacesShown, OwnIfaces, Tidy, Sheet;
    var d, scene, shown := devs[j], Scene(devs, ifs, paths), Arranged(devs, ifs, busses);
    var sheet := Sheet(OwnIfaces(scene, d, true));
    forall m | 0 <= m < |shown|
      ensures IfacesShown(Preorder(shown[m], indent + 4), d) == if d in Devices(shown[m]) then sheet else []
      ensures d in Devices(shown[m]) <==> busses[m].busnum == paths[j].bus && HubsPresent(paths, paths[j])
    {
      BusForestIsDrawn(scene, busses[m].busnum);
      ArrangedIsUnique(devs, ifs, busses[m].busnum);
      ForestShown(shown[m], 1, scene, indent + 4, d);
      SortForestKeeps(BusForest(devs, ifs, busses[m].busnum));
      HangsExactly(devs, ifs, paths, j, busses[m].busnum);
    }
    BusLinesIfaces(busses, shown, 0, indent, d, sheet);
    PluggedInApart(devs, paths);
    SheetShowsOwn(devs, ifs, d);
    SortedOwn(scene, d);
  }

  lemma SortedOwn(scene: Scene, d: UsbDevice)
    ensures OwnIfaces(scene, d, true) == Sort(InterfacesOf(scene.devs, scene.ifs, d), ConfigThenNumber)
  {
  }

  lemma ArrangedIsUnique(devs: seq<UsbDevice>, ifs: seq<UsbInterface>, n: uint32)
    requires Unique(multiset(devs)) && Unique(multiset(ifs)) && SortableInterfaces(devs, ifs)
    ensures Unique(Devices(SortForest(BusForest(devs, ifs, n))))
  {
    hide BusForest, SortForest, Devices, Unique, SortableInterfaces, Interfaces, AllCompatible;
    BusForestIsTidy(devs, ifs, n);
    SortForestKeeps(BusForest(devs, ifs, n));
  }

  lemma SameBusses(
      lines: seq<Line>, devs: seq<UsbDevice>, paths: seq<Path>, busses: seq<UsbBus>, busses': seq<UsbBus>, indent: int)
    requires |devs| == |paths| && multiset(busses) == multiset(busses') && TellsTree(lines, devs, paths, busses, indent)
    ensures TellsTree(lines, devs, paths, busses', indent)
    ensures forall ifs :: ShowsInterfaces(lines, devs, ifs, paths, busses) ==> ShowsInterfaces(lines, devs, ifs, paths, busses')
  {
    hide ShownUnder, PrintedBelow, ByPort, ShowsOwn, HubsPresent, IfacesShown;
    assert forall b :: b in busses' <==> b in multiset(busses);
    forall n: uint32 ensures Listed(busses, n) <==> Listed(busses', n) {
      if Listed(busses, n) {
        var b :| b in busses && b.busnum == n;
        assert b in multiset(busses);
      }
      if Listed(busses', n) {
        var b :| b in busses' && b.busnum == n;
        assert b in multiset(busses);
      }
    }
  }

  /** The whole of `lsusb -t` on devices that are named after their ports: from objects that are
      not linked at all to lines that tell the tree. */
  method ShowPluggedIn(devs: seq<UsbDevice>, ifs: seq<UsbInterface>, table: BusTable, screen: Screen, ghost paths: seq<Path>)
    requires table.Valid() && DistinctBusses(table.Busses) && Loose(devs, ifs, table.Busses)
    requires SortableInterfaces(devs, ifs) && AllPluggedIn(devs, paths)
    modifies table.Busses`first_child, table.Busses`first_interface, table, table.Repr`next
    modifies DevMembers(devs)`next, DevMembers(devs)`first_child, DevMembers(devs)`parent
    modifies DevMembers(devs)`first_interface, Members(ifs)`next, Members(ifs)`parent, screen`indent, screen`out
    ensures old(screen.out) <= screen.out && screen.indent == old(screen.indent)
    ensures var lines, busses := screen.out[|old(screen.out)|..], old(table.Busses);
      && TellsTree(lines, devs, paths, busses, screen.indent)
      && ShowsInterfaces(lines, devs, ifs, paths, busses)
      && HeadedInOrder(lines, busses)
  {
    hide *;
    ghost var busses, before := table.Busses, screen.out;
    PluggedInAreNoRootHubs(devs, paths);
    SameNumber(devs, paths);
    LooseUnique(devs, ifs, busses);
    ShowTree(devs, ifs, table, screen);
    ghost var lines := BusLines(Sort(busses, BusNumber), Arranged(devs, ifs, Sort(busses, BusNumber)), 0, screen.indent);
    LinesTellTree(devs, ifs, paths, Sort(busses, BusNumber), screen.indent);
    SortPermutes(busses, BusNumber);
    DistinctPermuted(busses, Sort(busses, BusNumber));
    LinesShowInterfaces(devs, ifs, paths, Sort(busses, BusNumber), screen.indent);
    SameBusses(lines, devs, paths, Sort(busses, BusNumber), busses, screen.indent);
    LinesAreHeaded(devs, ifs, busses, screen.indent);
    assert screen.out[|before|..] == lines;
  }

  lemma BussesInOrder(busses: seq<UsbBus>)
    ensures var order := Sort(busses, BusNumber);
      && multiset(order) == multiset(busses)
      && forall i, k :: 0 <= i < k < |order| ==> order[i].busnum <= order[k].busnum
  {
    hide Sort, Sorted;
    var order := Sort(busses, BusNumber);
    SortPermutes(busses, BusNumber);
    SortSorts(busses, BusNumber);
    forall i, k | 0 <= i < k < |order| ensures order[i].busnum <= order[k].busnum {
      SortedPairs(order, BusNumber, i, k);
    }
  }

  lemma LinesAreHeaded(devs: seq<UsbDevice>, ifs: seq<UsbInterface>, busses: seq<UsbBus>, indent: int)
    ensures var order := Sort(busses, BusNumber);
      HeadedInOrder(BusLines(order, Arranged(devs, ifs, order), 0, indent), busses)
  {
    hide Sort, BusLines, Arranged, Headings, BusNumber;
    var order := Sort(busses, BusNumber);
    BussesInOrder(busses);
    BusLinesHeadings(order, Arranged(devs, ifs, order), 0, indent);
    assert order[0..] == order;
  }

  lemma DistinctPermuted(a: seq<UsbBus>, b: seq<UsbBus>)
    requires DistinctBusses(a) && multiset(a) == multiset(b)
    ensures DistinctBusses(b)
  {
    forall i, j | 0 <= i < j < |b| ensures b[i] != b[j] && b[i].busnum != b[j].busnum {
      assert b[i] in multiset(a) && b[j] in multiset(a);
      var k :| 0 <= k < |a| && a[k] == b[i];
      var m :| 0 <= m < |a| && a[m] == b[j];
      if k == m {
        OnceOnly(a, k);
        TwiceThere(b, i, j);
      }
    }
  }

  lemma OnceOnly(a: seq<UsbBus>, k: nat)
    requires DistinctBusses(a) && k < |a|
    ensures multiset(a)[a[k]] == 1
  {
    assert a == a[..k] + [a[k]] + a[k + 1..];
    assert a[k] !in a[..k] && a[k] !in a[k + 1..];
    assert multiset(a) == multiset(a[..k]) + multiset{a[k]} + multiset(a[k + 1..]);
  }

  lemma TwiceThere(b: seq<UsbBus>, i: nat, j: nat)
    requires i < j < |b| && b[i] == b[j]
    ensures multiset(b)[b[i]] >= 2
  {
    assert b == b[..j] + [b[j]] + b[j + 1..];
    assert b[..j][i] == b[i];
    assert multiset(b) == multiset(b[..j]) + multiset{b[j]} + multiset(b[j + 1..]);
  }

  lemma SameNumber(devs: seq<UsbDevice>, paths: seq<Path>)
    requires AllPluggedIn(devs, paths)
    ensures |devs| == |paths|
  {
  }
}
