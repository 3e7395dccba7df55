/** What the sorted forest is: sorted by port at every depth, with every device below the
    parent it had. */
module ForestMeaning {
  import opened StableSort
  import opened UsbObjects
  import opened InterfaceSort
  import opened DeviceTree

  // ---- Order at every depth ----

  /** Every interface list and every list of children, at every depth, is sorted. */
  ghost predicate Orderly(f: seq<Tree>)
    decreases f
  {
    |f| > 0 ==>
      && Sorted(f[0].ifaces, ConfigThenNumber) && Sorted(f[0].kids, Port) && Orderly(f[0].kids)
      && Orderly(f[1..])
  }

  lemma OrderlyCons(t: Tree, f: seq<Tree>)
    ensures Orderly([t] + f) <==>
              Sorted(t.ifaces, ConfigThenNumber) && Sorted(t.kids, Port) && Orderly(t.kids) && Orderly(f)
  {
    assert ([t] + f)[1..] == f;
  }

  lemma {:induction false} OrderlyConcat(a: seq<Tree>, b: seq<Tree>)
    ensures Orderly(a + b) <==> Orderly(a) && Orderly(b)
    decreases |a|
  {
    if |a| == 0 {
      assert a + b == b;
    } else {
      assert (a + b)[1..] == a[1..] + b;
      OrderlyConcat(a[1..], b);
    }
  }

  lemma {:induction false} OrderlyInsert(t: Tree, f: seq<Tree>)
    requires Orderly([t]) && Orderly(f)
    ensures Orderly(Insert(t, f, Port))
    decreases |f|
  {
    hide Orderly;
    if |f| == 0 || Port(t) <= Port(f[0]) {
      OrderlyConcat([t], f);
    } else {
      assert f == [f[0]] + f[1..];
      OrderlyConcat([f[0]], f[1..]);
      OrderlyInsert(t, f[1..]);
      OrderlyConcat([f[0]], Insert(t, f[1..], Port));
    }
  }

  lemma {:induction false} OrderlySort(f: seq<Tree>)
    requires Orderly(f)
    ensures Orderly(Sort(f, Port))
    decreases |f|
  {
    hide Orderly;
    if |f| > 0 {
      assert f == [f[0]] + f[1..];
      OrderlyConcat([f[0]], f[1..]);
      OrderlySort(f[1..]);
      OrderlyInsert(f[0], Sort(f[1..], Port));
    } else {
      assert Sort(f, Port) == f;
    }
  }

  lemma {:induction false} SettleAllIsOrderly(f: seq<Tree>)
    ensures Orderly(SettleAll(f))
    decreases f
  {
    hide Sort, Sorted;
    if |f| > 0 {
      var kids := SettleAll(f[0].kids);
      SettleAllIsOrderly(f[0].kids);
      OrderlySort(kids);
      SortSorts(kids, Port);
      SortSorts(f[0].ifaces, ConfigThenNumber);
      SettleAllIsOrderly(f[1..]);
      OrderlyCons(Settle(f[0]), SettleAll(f[1..]));
      assert Settle(f[0]).kids == Sort(kids, Port) && Settle(f[0]).ifaces == Sort(f[0].ifaces, ConfigThenNumber);
    }
  }

  /** The sorted forest is sorted at every depth. */
  lemma SortedAtEveryDepth(f: seq<Tree>)
    ensures Sorted(SortForest(f), Port) && Orderly(SortForest(f))
  {
    SettleAllIsOrderly(f);
    OrderlySort(SettleAll(f));
    SortSorts(SettleAll(f), Port);
  }

  // ---- Parents stay ----

  /** Which device hangs on which; the roots hang on `parent`. */
  ghost function Links(f: seq<Tree>, parent: UsbDevice?): multiset<(UsbDevice?, UsbDevice)>
    decreases f
  {
    if |f| == 0 then multiset{}
    else multiset{(parent, f[0].dev)} + Links(f[0].kids, f[0].dev) + Links(f[1..], parent)
  }

  /** Which interface belongs to which device. */
  ghost function Owners(d: UsbDevice, s: seq<UsbInterface>): multiset<(UsbDevice, UsbInterface)> {
    if |s| == 0 then multiset{} else multiset{(d, s[0])} + Owners(d, s[1..])
  }

  ghost function IfaceLinks(f: seq<Tree>): multiset<(UsbDevice, UsbInterface)>
    decreases f
  {
    if |f| == 0 then multiset{}
    else Owners(f[0].dev, f[0].ifaces) + IfaceLinks(f[0].kids) + IfaceLinks(f[1..])
  }

  lemma LinksCons(t: Tree, f: seq<Tree>, parent: UsbDevice?)
    ensures Links([t] + f, parent) == multiset{(parent, t.dev)} + Links(t.kids, t.dev) + Links(f, parent)
    ensures IfaceLinks([t] + f) == Owners(t.dev, t.ifaces) + IfaceLinks(t.kids) + IfaceLinks(f)
  {
    assert ([t] + f)[1..] == f;
  }

  lemma {:induction false} LinksConcat(a: seq<Tree>, b: seq<Tree>, parent: UsbDevice?)
    ensures Links(a + b, parent) == Links(a, parent) + Links(b, parent)
    ensures IfaceLinks(a + b) == IfaceLinks(a) + IfaceLinks(b)
    decreases |a|
  {
    hide Links, IfaceLinks, Owners;
    if |a| == 0 {
      assert a + b == b && a == [];
      NoLinks(parent);
    } else {
      assert a + b == [a[0]] + (a[1..] + b) && a == [a[0]] + a[1..];
      LinksConcat(a[1..], b, parent);
      LinksCons(a[0], a[1..], parent);
      LinksCons(a[0], a[1..] + b, parent);
    }
  }

  lemma NoLinks(parent: UsbDevice?)
    ensures Links([], parent) == multiset{} && IfaceLinks([]) == multiset{}
  {
  }

  lemma {:induction false} LinksInsert(t: Tree, f: seq<Tree>, parent: UsbDevice?)
    ensures Links(Insert(t, f, Port), parent) == Links([t], parent) + Links(f, parent)
    ensures IfaceLinks(Insert(t, f, Port)) == IfaceLinks([t]) + IfaceLinks(f)
    decreases |f|
  {
    hide Links, IfaceLinks;
    if |f| == 0 || Port(t) <= Port(f[0]) {
      LinksConcat([t], f, parent);
    } else {
      LinksInsert(t, f[1..], parent);
      LinksConcat([f[0]], Insert(t, f[1..], Port), parent);
      LinksConcat([f[0]], f[1..], parent);
      assert f == [f[0]] + f[1..];
    }
  }

  lemma {:induction false} LinksSort(f: seq<Tree>, parent: UsbDevice?)
    ensures Links(Sort(f, Port), parent) == Links(f, parent)
    ensures IfaceLinks(Sort(f, Port)) == IfaceLinks(f)
    decreases |f|
  {
    hide Links, IfaceLinks;
    if |f| > 0 {
      LinksSort(f[1..], parent);
      LinksInsert(f[0], Sort(f[1..], Port), parent);
      assert f == [f[0]] + f[1..];
      LinksConcat([f[0]], f[1..], parent);
    }
  }

  lemma {:induction false} OwnersInsert(d: UsbDevice, x: UsbInterface, s: seq<UsbInterface>)
    ensures Owners(d, Insert(x, s, ConfigThenNumber)) == multiset{(d, x)} + Owners(d, s)
    decreases |s|
  {
    if |s| == 0 || ConfigThenNumber(x) <= ConfigThenNumber(s[0]) {
      assert ([x] + s)[1..] == s;
    } else {
      OwnersInsert(d, x, s[1..]);
      var r := Insert(x, s[1..], ConfigThenNumber);
      assert ([s[0]] + r)[1..] == r;
    }
  }

  lemma {:induction false} OwnersSort(d: UsbDevice, s: seq<UsbInterface>)
    ensures Owners(d, Sort(s, ConfigThenNumber)) == Owners(d, s)
    decreases |s|
  {
    if |s| > 0 {
      OwnersSort(d, s[1..]);
      OwnersInsert(d, s[0], Sort(s[1..], ConfigThenNumber));
    }
  }

  lemma {:induction false} LinksSettle(f: seq<Tree>, parent: UsbDevice?)
    ensures Links(SettleAll(f), parent) == Links(f, parent)
    ensures IfaceLinks(SettleAll(f)) == IfaceLinks(f)
    decreases f
  {
    hide Sort, Links, IfaceLinks, Owners;
    if |f| > 0 {
      LinksSettle(f[0].kids, f[0].dev);
      LinksSort(SettleAll(f[0].kids), f[0].dev);
      OwnersSort(f[0].dev, f[0].ifaces);
      LinksSettle(f[1..], parent);
      LinksCons(f[0], f[1..], parent);
      LinksCons(Settle(f[0]), SettleAll(f[1..]), parent);
      assert Settle(f[0]).kids == Sort(SettleAll(f[0].kids), Port);
      assert f == [f[0]] + f[1..];
    } else {
      assert SettleAll(f) == f;
    }
  }

  /** Sorting changes no parent, child or interface relation. */
  lemma SortingKeepsLinks(f: seq<Tree>, parent: UsbDevice?)
    ensures Links(SortForest(f), parent) == Links(f, parent)
    ensures IfaceLinks(SortForest(f)) == IfaceLinks(f)
  {
    LinksSettle(f, parent);
    LinksSort(SettleAll(f), parent);
  }

  // ---- Siblings keep their order where ports agree ----

  ghost function Roots(f: seq<Tree>): seq<UsbDevice> {
    if |f| == 0 then [] else [f[0].dev] + Roots(f[1..])
  }

  ghost function PortNum(d: UsbDevice): int { d.portnum }

  lemma {:induction false} RootsInsert(t: Tree, f: seq<Tree>)
    ensures Roots(Insert(t, f, Port)) == Insert(t.dev, Roots(f), PortNum)
    decreases |f|
  {
    if |f| == 0 || Port(t) <= Port(f[0]) {
      assert ([t] + f)[1..] == f;
    } else {
      RootsInsert(t, f[1..]);
      var r := Insert(t, f[1..], Port);
      assert ([f[0]] + r)[1..] == r && Roots(f)[1..] == Roots(f[1..]);
    }
  }

  lemma {:induction false} RootsSort(f: seq<Tree>)
    ensures Roots(Sort(f, Port)) == Sort(Roots(f), PortNum)
    decreases |f|
  {
    if |f| > 0 {
      RootsSort(f[1..]);
      RootsInsert(f[0], Sort(f[1..], Port));
      assert Roots(f)[1..] == Roots(f[1..]);
    }
  }

  lemma {:induction false} RootsSettle(f: seq<Tree>)
    ensures Roots(SettleAll(f)) == Roots(f)
    decreases |f|
  {
    hide Settle;
    if |f| > 0 {
      RootsSettle(f[1..]);
      SettleKeepsDevice(f[0]);
      assert SettleAll(f)[1..] == SettleAll(f[1..]);
    }
  }

  lemma SettleKeepsDevice(t: Tree)
    ensures Settle(t).dev == t.dev
  {
  }

  /** The roots, and in the same way the children of any device, are rearranged stably: sorted by
      port, and in their old order where ports agree. */
  lemma SiblingsStable(f: seq<Tree>, t: Tree)
    ensures StablyRearranges(Roots(SortForest(f)), Roots(f), PortNum)
    ensures StablyRearranges(Roots(Settle(t).kids), Roots(t.kids), PortNum)
    ensures StablyRearranges(Settle(t).ifaces, t.ifaces, ConfigThenNumber)
  {
    hide StablyRearranges, Sort;
    StableRoots(f);
    StableRoots(t.kids);
    SortIsTheStableSort(Settle(t).ifaces, t.ifaces, ConfigThenNumber);
  }

  lemma StableRoots(f: seq<Tree>)
    ensures StablyRearranges(Roots(SortForest(f)), Roots(f), PortNum)
  {
    hide StablyRearranges, Sort;
    RootsSettle(f);
    RootsSort(SettleAll(f));
    SortIsTheStableSort(Roots(SortForest(f)), Roots(f), PortNum);
  }

  /** No later interface has a smaller configuration, nor a smaller number in the same one. */
  ghost predicate InConfigOrder(s: seq<UsbInterface>) {
    forall i, j :: 0 <= i < j < |s| ==>
      s[i].configuration < s[j].configuration || (s[i].configuration == s[j].configuration && s[i].ifnum <= s[j].ifnum)
  }

  ghost predicate InPortOrder(s: seq<UsbDevice>) { forall i, j :: 0 <= i < j < |s| ==> s[i].portnum <= s[j].portnum }

  /** What the order is, by the numbers. */
  lemma SiblingsInOrder(f: seq<Tree>, t: Tree)
    ensures InPortOrder(Roots(SortForest(f))) && InPortOrder(Roots(Settle(t).kids)) && InConfigOrder(Settle(t).ifaces)
  {
    hide Sort, Sorted, Roots, Settle, SortForest;
    SiblingsStable(f, t);
    PortsInOrder(Roots(SortForest(f)));
    PortsInOrder(Roots(Settle(t).kids));
    ConfigsInOrder(Settle(t).ifaces);
  }

  lemma PortsInOrder(s: seq<UsbDevice>)
    requires Sorted(s, PortNum)
    ensures InPortOrder(s)
  {
    hide Sorted;
    forall i, j | 0 <= i < j < |s| ensures s[i].portnum <= s[j].portnum {
      SortedPairs(s, PortNum, i, j);
    }
  }

  lemma ConfigsInOrder(s: seq<UsbInterface>)
    requires Sorted(s, ConfigThenNumber)
    ensures InConfigOrder(s)
  {
    hide Sorted;
    forall i, j | 0 <= i < j < |s|
      ensures s[i].configuration < s[j].configuration || (s[i].configuration == s[j].configuration && s[i].ifnum <= s[j].ifnum)
    {
      SortedPairs(s, ConfigThenNumber, i, j);
    }
  }
}
