/** `lsusb -t` from the flat lists to the screen: connect, sort, print. */
module LsusbTree {
  import opened StableSort
  import opened UsbObjects
  import opened Words
  import opened BusList
  import opened InterfaceSort
  import opened DeviceTree
  import opened DeviceSort
  import opened Connect
  import opened ConnectInterfaces
  import opened ConnectDevices
  import opened Forest
  import opened PrintTree

  // ---- Sorting what hangs on every bus ----

  /** The forests of the busses, the first `k` of them sorted. */
  ghost function SortedUpTo(f: seq<seq<Tree>>, k: nat): (r: seq<seq<Tree>>)
    ensures |r| == |f|
    ensures forall m :: 0 <= m < |f| ==> r[m] == if m < k then SortForest(f[m]) else f[m]
  {
    seq(|f|, m requires 0 <= m < |f| => if m < k then SortForest(f[m]) else f[m])
  }

  /** Forests without anything in common, each fit for sorting. */
  ghost predicate Separate(f: seq<seq<Tree>>) {
    && (forall m :: 0 <= m < |f| ==> Tidy(f[m]))
    && (forall k, m :: 0 <= k < |f| && 0 <= m < |f| && k != m ==>
          DevSet(f[k]) !! DevSet(f[m]) && IfaceSet(f[k]) !! IfaceSet(f[m]))
  }

  ghost predicate Within(f: seq<seq<Tree>>, ds: set<UsbDevice>, es: set<UsbInterface>) {
    forall m :: 0 <= m < |f| ==> DevSet(f[m]) <= ds && IfaceSet(f[m]) <= es
  }

  /** Sort below one bus. */
  method SortBelow(b: UsbBus, ghost t: seq<Tree>)
    requires Tidy(t) && Segment(b.first_child, t, null)
    modifies b`first_child, DevSet(t)`next, DevSet(t)`first_child, DevSet(t)`first_interface, IfaceSet(t)`next
    ensures Segment(b.first_child, SortForest(t), null)
  {
    hide *;
    HeadOf(b.first_child, t);
    NothingHangs();
    if b.first_child != null {
      var head := SortDevSiblings(b.first_child, t);
      SortKeepsSets(t);
      Exists(SortForest(t));
      b.first_child := head;
    }
  }

  lemma OthersSets(f: seq<seq<Tree>>, k: nat, m: nat)
    requires k < |f| && m < |f| && k != m && Separate(f)
    ensures DevSet(SortedUpTo(f, k)[m]) !! DevSet(f[k]) && IfaceSet(SortedUpTo(f, k)[m]) !! IfaceSet(f[k])
    ensures SortedUpTo(f, k + 1)[m] == SortedUpTo(f, k)[m]
  {
    hide SortForest, DevSet, IfaceSet, Tidy;
    SortKeepsSets(f[m]);
  }

  /** Sort below the bus at position `k`. */
  method SortBus(b: UsbBus, ghost busses: seq<UsbBus>, ghost f: seq<seq<Tree>>, ghost k: nat,
                 ghost ds: set<UsbDevice>, ghost es: set<UsbInterface>)
    requires k < |busses| == |f| && b == busses[k] && DistinctBusses(busses)
    requires Separate(f) && Within(f, ds, es) && BussesHold(busses, SortedUpTo(f, k))
    modifies b`first_child, ds`next, ds`first_child, ds`first_interface, es`next
    ensures BussesHold(busses, SortedUpTo(f, k + 1))
  {
    hide SortForest, Segment, DevSet, IfaceSet, Tidy;
    ghost var now := SortedUpTo(f, k);
    AllExist(now);
    assert now[k] == f[k] && Tidy(f[k]);
    SortBelow(b, f[k]);
    ghost var then_ := SortedUpTo(f, k + 1);
    forall m | 0 <= m < |f| ensures Segment(busses[m].first_child, then_[m], null) {
      if m != k {
        OthersSets(f, k, m);
        assert busses[m] != b;
        assert old(Segment(busses[m].first_child, now[m], null));
      }
    }
  }

  /** `sort_devices`. */
  method SortDevices(table: BusTable, ghost f: seq<seq<Tree>>, ghost ds: set<UsbDevice>, ghost es: set<UsbInterface>)
    requires table.Valid() && DistinctBusses(table.Busses) && |f| == |table.Busses|
    requires Separate(f) && Within(f, ds, es) && BussesHold(table.Busses, f)
    modifies table.Busses`first_child, ds`next, ds`first_child, ds`first_interface, es`next
    ensures table.Valid() && BussesHold(table.Busses, SortedUpTo(f, |f|))
  {
    hide *;
    ghost var busses := table.Busses;
    StartUnsorted(f);
    BussesExist(f);
    var b := table.First();
    ghost var k := 0;
    while b != null
      invariant 0 <= k <= |f| && b == (if k < |f| then busses[k] else null)
      invariant table.Valid() && table.Busses == busses
      invariant BussesHold(busses, SortedUpTo(f, k))
      decreases |f| - k
    {
      SortBus(b, busses, f, k, ds, es);
      SetsExist(SortedUpTo(f, k + 1));
      b := table.Following(b, k);
      k := k + 1;
    }
  }

  lemma BussesExist(f: seq<seq<Tree>>)
    ensures forall d :: d in DevsOf(f) ==> allocated(d)
    ensures forall e :: e in IfacesOf(f) ==> allocated(e)
  {
    SetsExist(f);
  }

  lemma StartUnsorted(f: seq<seq<Tree>>)
    ensures SortedUpTo(f, 0) == f
  {
    hide SortForest;
  }

  // ---- The whole of `lsusb -t` ----

  /** What hangs on each of the busses once connected, and once sorted. */
  ghost function Hanging(devs: seq<UsbDevice>, ifs: seq<UsbInterface>, busses: seq<UsbBus>): (f: seq<seq<Tree>>)
    ensures |f| == |busses|
    ensures forall k :: 0 <= k < |f| ==> f[k] == BusForest(devs, ifs, busses[k].busnum)
  {
    seq(|busses|, k requires 0 <= k < |busses| => BusForest(devs, ifs, busses[k].busnum))
  }

  ghost function Arranged(devs: seq<UsbDevice>, ifs: seq<UsbInterface>, busses: seq<UsbBus>): (f: seq<seq<Tree>>)
    ensures |f| == |busses|
    ensures forall k :: 0 <= k < |f| ==> f[k] == SortForest(BusForest(devs, ifs, busses[k].busnum))
  {
    seq(|busses|, k requires 0 <= k < |busses| => SortForest(BusForest(devs, ifs, busses[k].busnum)))
  }

  lemma ConnectedHanging(devs: seq<UsbDevice>, ifs: seq<UsbInterface>, busses: seq<UsbBus>)
    requires Unique(multiset(devs)) && Unique(multiset(ifs)) && SortableInterfaces(devs, ifs) && DistinctBusses(busses)
    requires DevLists(devs, busses, |devs|) && IfaceLists(devs, busses, ifs, |devs|, 0)
    ensures var f := Hanging(devs, ifs, busses);
            Separate(f) && Within(f, DevMembers(devs), Members(ifs)) && BussesHold(busses, f)
  {
    hide DevLists, IfaceLists, BusForest, Unique, SortableInterfaces, Tidy, Segment, DevSet, IfaceSet, DevMembers, Members;
    var f := Hanging(devs, ifs, busses);
    forall k | 0 <= k < |f|
      ensures Tidy(f[k]) && DevSet(f[k]) <= DevMembers(devs) && IfaceSet(f[k]) <= Members(ifs)
      ensures Segment(busses[k].first_child, f[k], null)
    {
      BusForestIsTidy(devs, ifs, busses[k].busnum);
      BusForestWithin(devs, ifs, busses[k].busnum);
      BusHoldsForest(devs, busses, ifs, busses[k]);
    }
    forall k, m | 0 <= k < |f| && 0 <= m < |f| && k != m
      ensures DevSet(f[k]) !! DevSet(f[m]) && IfaceSet(f[k]) !! IfaceSet(f[m])
    {
      assert busses[k].busnum != busses[m].busnum by {
        if k < m { assert busses[k] != busses[m]; } else { assert busses[m] != busses[k]; }
      }
      BusForestsApart(devs, ifs, busses[k].busnum, busses[m].busnum);
    }
  }

  lemma BusForestWithin(devs: seq<UsbDevice>, ifs: seq<UsbInterface>, n: uint32)
    ensures DevSet(BusForest(devs, ifs, n)) <= DevMembers(devs) && IfaceSet(BusForest(devs, ifs, n)) <= Members(ifs)
  {
    hide Grow, DevSet, IfaceSet;
    GrownFrom(devs, ifs, Kids(devs, |devs|, Root(n)));
  }

  lemma AllSorted(devs: seq<UsbDevice>, ifs: seq<UsbInterface>, busses: seq<UsbBus>)
    ensures SortedUpTo(Hanging(devs, ifs, busses), |busses|) == Arranged(devs, ifs, busses)
  {
    hide SortForest, BusForest;
  }

  /** The order of the busses does not matter to what hangs on them. */
  lemma HoldInAnyOrder(devs: seq<UsbDevice>, ifs: seq<UsbInterface>, busses: seq<UsbBus>, busses': seq<UsbBus>)
    requires multiset(busses) == multiset(busses') && BussesHold(busses, Arranged(devs, ifs, busses))
    ensures BussesHold(busses', Arranged(devs, ifs, busses'))
  {
    hide SortForest, BusForest, Segment;
    forall m | 0 <= m < |busses'| ensures Segment(busses'[m].first_child, Arranged(devs, ifs, busses')[m], null) {
      assert busses'[m] in multiset(busses);
      var k :| 0 <= k < |busses| && busses[k] == busses'[m];
    }
  }

  /** Sort below the busses, and then the busses themselves. */
  method SortAll(devs: seq<UsbDevice>, ifs: seq<UsbInterface>, table: BusTable)
    requires table.Valid() && DistinctBusses(table.Busses)
    requires Unique(multiset(devs)) && Unique(multiset(ifs)) && SortableInterfaces(devs, ifs)
    requires DevLists(devs, table.Busses, |devs|) && IfaceLists(devs, table.Busses, ifs, |devs|, 0)
    modifies table.Busses`first_child, DevMembers(devs)`next, DevMembers(devs)`first_child
    modifies DevMembers(devs)`first_interface, Members(ifs)`next, table, table.Repr`next
    ensures table.Valid() && table.Busses == Sort(old(table.Busses), BusNumber)
    ensures BussesHold(table.Busses, Arranged(devs, ifs, table.Busses))
  {
    hide *;
    ghost var busses := table.Busses;
    ConnectedHanging(devs, ifs, busses);
    AllSorted(devs, ifs, busses);
    SortDevices(table, Hanging(devs, ifs, busses), DevMembers(devs), Members(ifs));
    SetsExist(Arranged(devs, ifs, busses));
    assert BussesHold(busses, Arranged(devs, ifs, busses));
    table.SortBusses();
    assert BussesHold(busses, Arranged(devs, ifs, busses));
    SortPermutes(busses, BusNumber);
    HoldInAnyOrder(devs, ifs, busses, table.Busses);
  }

  /** From objects that are not linked at all to the lines on the screen: the busses in
      order of number; below each, in preorder and sorted by port at every depth, the
      devices whose names place them there; beside each device its interfaces. */
  method ShowTree(devs: seq<UsbDevice>, ifs: seq<UsbInterface>, table: BusTable, screen: Screen)
    requires table.Valid() && DistinctBusses(table.Busses) && Loose(devs, ifs, table.Busses)
    requires NoDeviceNamesRootHub(devs) && SortableInterfaces(devs, ifs)
    modifies table.Busses`first_child, table.Busses`first_interface, table, table.Repr`next
    modifies DevMembers(devs)`next, DevMembers(devs)`first_child, DevMembers(devs)`parent
    modifies DevMembers(devs)`first_interface, Members(ifs)`next, Members(ifs)`parent, screen`indent, screen`out
    ensures var busses := Sort(old(table.Busses), BusNumber);
            screen.out == old(screen.out) + BusLines(busses, Arranged(devs, ifs, busses), 0, screen.indent)
    ensures screen.indent == old(screen.indent)
  {
    hide *;
    assert forall d :: d in devs ==> d in DevMembers(devs) by { MembersAre(devs); }
    LooseUnique(devs, ifs, table.Busses);
    ConnectAll(devs, ifs, table);
    SortAll(devs, ifs, table);
    screen.PrintTree(table, Arranged(devs, ifs, table.Busses));
  }

  lemma MembersAre(devs: seq<UsbDevice>)
    ensures forall d :: d in devs <==> d in DevMembers(devs)
  {
  }

  lemma LooseUnique(devs: seq<UsbDevice>, ifs: seq<UsbInterface>, busses: seq<UsbBus>)
    requires Loose(devs, ifs, busses)
    ensures Unique(multiset(devs)) && Unique(multiset(ifs))
  {
  }
}
