/** `connect_devices`: the two halves together. */
module ConnectDevices {
  import opened UsbObjects
  import opened BusList
  import opened Connect
  import opened ConnectInterfaces

  /** What the scan of sysfs leaves: distinct objects, none linked anywhere. */
  ghost predicate Loose(devs: seq<UsbDevice>, ifs: seq<UsbInterface>, busses: seq<UsbBus>)
    reads devs, ifs, busses
  {
    && Unique(multiset(devs)) && Unique(multiset(ifs))
    && (forall d :: d in devs ==> d.next == null && d.first_child == null && d.first_interface == null && d.parent == null)
    && (forall e :: e in ifs ==> e.next == null && e.parent == null)
    && (forall b :: b in busses ==> b.first_child == null && b.first_interface == null)
  }

  lemma NothingLinked(devs: seq<UsbDevice>, ifs: seq<UsbInterface>, busses: seq<UsbBus>)
    requires Loose(devs, ifs, busses)
    ensures DevLists(devs, busses, 0) && IfaceLists(devs, busses, ifs, 0, 0) && ParentsSet(devs, 0)
    ensures Unique(multiset(devs)) && Unique(multiset(ifs))
  {
    forall o ensures Offered(devs, ifs, 0, 0, o) == 0 { }
  }

  /** The parent every device has been given. */
  ghost predicate ParentsSet(devs: seq<UsbDevice>, n: nat)
    requires n <= |devs|
    reads DevMembers(devs)`parent
  {
    forall k :: 0 <= k < |devs| ==>
      devs[k].parent == match OwnerOf(devs, devs[k]) case Hub(p) => if k < n then p else null case _ => null
  }

  lemma NumbersDistinct(busses: seq<UsbBus>)
    requires DistinctBusses(busses)
    ensures DistinctNumbers(busses)
  {
  }

  lemma ParentsNext(devs: seq<UsbDevice>, n: nat)
    requires n < |devs| && Unique(multiset(devs))
    ensures forall k :: 0 <= k < |devs| && k != n ==> devs[k] != devs[n]
  {
    forall k | 0 <= k < |devs| && k != n ensures devs[k] != devs[n] {
      if k < n { Connect.NotYetSeen(devs, n); assert devs[k] in devs[..n]; }
      else { Connect.NotYetSeen(devs, k); assert devs[n] in devs[..k]; }
    }
  }

  /** Device `i` finds its place. */
  method PlaceDevice(d: UsbDevice, devs: seq<UsbDevice>, table: BusTable, ghost i: nat)
    requires i < |devs| && d == devs[i] && Unique(multiset(devs))
    requires table.Valid() && DistinctBusses(table.Busses)
    requires DevLists(devs, table.Busses, i) && ParentsSet(devs, i)
    modifies DevMembers(devs)`next, DevMembers(devs)`first_child, DevMembers(devs)`parent
    modifies table.Busses`first_child
    ensures table.Valid() && DevLists(devs, table.Busses, i + 1) && ParentsSet(devs, i + 1)
  {
    hide FirstParent, DevLists, Kids, Linked;
    ParentsNext(devs, i);
    if d.parent_portnum != 0 {
      AssignDevToParent(d, devs, table.Busses, i);
    } else {
      AssignDevToBus(d, table, devs, i);
    }
  }

  /** The pass of device `i` over all interfaces. */
  method OfferInterfaces(d: UsbDevice, devs: seq<UsbDevice>, ifs: seq<UsbInterface>, table: BusTable, ghost i: nat)
    requires i < |devs| && d == devs[i] && Unique(multiset(devs)) && Unique(multiset(ifs))
    requires NoDeviceNamesRootHub(devs)
    requires table.Valid() && DistinctBusses(table.Busses)
    requires IfaceLists(devs, table.Busses, ifs, i, 0)
    modifies Members(ifs)`next, Members(ifs)`parent, d`first_interface, table.Busses`first_interface
    ensures table.Valid() && IfaceLists(devs, table.Busses, ifs, i + 1, 0)
  {
    hide IfaceOwnerOf, IfaceLists, DistinctBusses, DistinctNumbers, NoDeviceNamesRootHub;
    NumbersDistinct(table.Busses);
    var j := 0;
    while j < |ifs|
      invariant j <= |ifs| && table.Valid()
      invariant IfaceLists(devs, table.Busses, ifs, i, j)
    {
      var e := ifs[j];
      if e.parent == null {
        AssignInterfaceToParent(d, e, table, devs, ifs, i, j);
      } else {
        TestsTell(devs, table.Busses, ifs, i, j);
        NotTaken(devs, table.Busses, ifs, i, j);
      }
      j := j + 1;
    }
    NextPass(devs, table.Busses, ifs, i);
  }

  /** Placing a device leaves the interface lists alone. */
  method PlaceStep(d: UsbDevice, devs: seq<UsbDevice>, ghost ifs: seq<UsbInterface>, table: BusTable, ghost i: nat)
    requires i < |devs| && d == devs[i] && Unique(multiset(devs))
    requires table.Valid() && DistinctBusses(table.Busses)
    requires DevLists(devs, table.Busses, i) && ParentsSet(devs, i) && IfaceLists(devs, table.Busses, ifs, i, 0)
    modifies DevMembers(devs)`next, DevMembers(devs)`first_child, DevMembers(devs)`parent
    modifies table.Busses`first_child
    ensures table.Valid() && DevLists(devs, table.Busses, i + 1) && ParentsSet(devs, i + 1)
    ensures IfaceLists(devs, table.Busses, ifs, i, 0)
  {
    hide *;
    ghost var busses := table.Busses;
    MembersExist(ifs);
    PlaceDevice(d, devs, table, i);
    assert busses == table.Busses;
  }

  /** Offering interfaces leaves the device lists alone. */
  method OfferStep(d: UsbDevice, devs: seq<UsbDevice>, ifs: seq<UsbInterface>, table: BusTable, ghost i: nat)
    requires i < |devs| && d == devs[i] && Unique(multiset(devs)) && Unique(multiset(ifs))
    requires NoDeviceNamesRootHub(devs) && table.Valid() && DistinctBusses(table.Busses)
    requires DevLists(devs, table.Busses, i + 1) && ParentsSet(devs, i + 1)
    requires IfaceLists(devs, table.Busses, ifs, i, 0)
    modifies Members(ifs)`next, Members(ifs)`parent, d`first_interface, table.Busses`first_interface
    ensures table.Valid() && DevLists(devs, table.Busses, i + 1) && ParentsSet(devs, i + 1)
    ensures IfaceLists(devs, table.Busses, ifs, i + 1, 0)
  {
    hide *;
    ghost var busses := table.Busses;
    DevMembersExist(devs);
    OfferInterfaces(d, devs, ifs, table, i);
    assert busses == table.Busses;
  }

  /** What everything is linked to in the end, list by list. */
  ghost predicate Connected(devs: seq<UsbDevice>, ifs: seq<UsbInterface>, busses: seq<UsbBus>)
    reads DevMembers(devs)`next, DevMembers(devs)`first_child, DevMembers(devs)`first_interface, DevMembers(devs)`parent
    reads Members(ifs)`next, Members(ifs)`parent, busses`first_child, busses`first_interface
  {
    && (forall p :: p in devs ==> DevChain(p.first_child, Kids(devs, |devs|, Hub(p)), null))
    && (forall b :: b in busses ==> DevChain(b.first_child, Kids(devs, |devs|, Root(b.busnum)), null))
    && (forall d :: d in devs ==> IfaceSegment(d.first_interface, Owned(devs, ifs, |ifs|, OfDevice(d)), null))
    && (devs != [] ==> forall b :: b in busses ==>
          IfaceSegment(b.first_interface, Owned(devs, ifs, |ifs|, OfRootHub(b.busnum)), null))
    && (forall d :: d in devs ==> d.parent == if OwnerOf(devs, d).Hub? then OwnerOf(devs, d).hub else null)
    && (forall e :: e in ifs ==> e.parent == if IfaceOwnerOf(devs, e).OfDevice? then IfaceOwnerOf(devs, e).dev else null)
  }

  lemma AllConnected(devs: seq<UsbDevice>, ifs: seq<UsbInterface>, busses: seq<UsbBus>)
    requires DevLists(devs, busses, |devs|) && ParentsSet(devs, |devs|) && IfaceLists(devs, busses, ifs, |devs|, 0)
    ensures Connected(devs, ifs, busses)
  {
    hide DevChain, IfaceSegment, Kids, Owned, OwnerOf, IfaceOwnerOf;
    assert devs[..|devs|] == devs;
    forall d | d in devs ensures Offered(devs, ifs, |devs|, 0, OfDevice(d)) == |ifs| { }
    forall e | e in ifs ensures e.parent == if IfaceOwnerOf(devs, e).OfDevice? then IfaceOwnerOf(devs, e).dev else null {
      var k :| 0 <= k < |ifs| && ifs[k] == e;
      OwnerIsThere(devs, e);
    }
    forall d | d in devs ensures d.parent == if OwnerOf(devs, d).Hub? then OwnerOf(devs, d).hub else null {
      var k :| 0 <= k < |devs| && devs[k] == d;
    }
  }

  /** After the call every list of children and every list of interfaces is the
      selection of its owner from the flat lists, in their order, and every device and
      interface that hangs on a device points back to it. */
  method ConnectAll(devs: seq<UsbDevice>, ifs: seq<UsbInterface>, table: BusTable)
    requires table.Valid() && DistinctBusses(table.Busses) && Loose(devs, ifs, table.Busses)
    requires NoDeviceNamesRootHub(devs)
    modifies DevMembers(devs)`next, DevMembers(devs)`first_child, DevMembers(devs)`parent, devs`first_interface
    modifies Members(ifs)`next, Members(ifs)`parent, table.Busses`first_child, table.Busses`first_interface
    ensures table.Valid() && DevLists(devs, table.Busses, |devs|) && ParentsSet(devs, |devs|)
    ensures IfaceLists(devs, table.Busses, ifs, |devs|, 0)
    ensures Connected(devs, ifs, table.Busses)
  {
    hide *;
    NothingLinked(devs, ifs, table.Busses);
    var i := 0;
    while i < |devs|
      invariant i <= |devs| && table.Valid() && Unique(multiset(devs)) && Unique(multiset(ifs))
      invariant DevLists(devs, table.Busses, i) && ParentsSet(devs, i)
      invariant IfaceLists(devs, table.Busses, ifs, i, 0)
    {
      var d := devs[i];
      PlaceStep(d, devs, ifs, table, i);
      OfferStep(d, devs, ifs, table, i);
      i := i + 1;
    }
    AllConnected(devs, ifs, table.Busses);
  }
}
