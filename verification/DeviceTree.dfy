/** The forest of devices below a bus: its shape in the heap, what sorting makes of it,
    and the recursive in-place sort itself. */
module DeviceTree {
  import opened StableSort
  import opened UsbObjects
  import opened InterfaceSort

  /** A device with its interface list and the devices on its ports. */
  datatype Tree = Tree(dev: UsbDevice, ifaces: seq<UsbInterface>, kids: seq<Tree>)

  // ---- What a forest owns ----

  ghost function Devices(f: seq<Tree>): multiset<UsbDevice>
    decreases f
  {
    if |f| == 0 then multiset{}
    else multiset{f[0].dev} + Devices(f[0].kids) + Devices(f[1..])
  }

  ghost function Interfaces(f: seq<Tree>): multiset<UsbInterface>
    decreases f
  {
    if |f| == 0 then multiset{}
    else multiset(f[0].ifaces) + Interfaces(f[0].kids) + Interfaces(f[1..])
  }

  ghost function DevSet(f: seq<Tree>): set<UsbDevice> { set d | d in Devices(f) }

  ghost function IfaceSet(f: seq<Tree>): set<UsbInterface> { set i | i in Interfaces(f) }

  /** Every interface list has keys on which `sort_dev_interfaces` ends. */
  ghost predicate AllCompatible(f: seq<Tree>)
    decreases f
  {
    |f| > 0 ==> Compatible(f[0].ifaces) && AllCompatible(f[0].kids) && AllCompatible(f[1..])
  }

  ghost predicate Tidy(f: seq<Tree>) {
    Unique(Devices(f)) && Unique(Interfaces(f)) && AllCompatible(f)
  }

  // ---- The shape in the heap ----

  /** Following `next` from `head` meets exactly the roots of `f`, in order, and then
      `end`; below each root hang its children, and beside it its interfaces. */
  ghost predicate Segment(head: UsbDevice?, f: seq<Tree>, end: UsbDevice?)
    reads DevSet(f)`next, DevSet(f)`first_child, DevSet(f)`first_interface, IfaceSet(f)`next
    decreases f, 0
  {
    if |f| == 0 then head == end
    else
      && head == f[0].dev
      && Segment(f[0].dev.next, f[1..], end)
      && Hangs(f[0])
  }

  /** Everything of `t` but the place of its root among its siblings. */
  ghost predicate Hangs(t: Tree)
    reads t.dev`first_child, t.dev`first_interface, Members(t.ifaces)`next
    reads DevSet(t.kids)`next, DevSet(t.kids)`first_child, DevSet(t.kids)`first_interface, IfaceSet(t.kids)`next
    decreases t, 0
  {
    && Segment(t.dev.first_child, t.kids, null)
    && IfaceSegment(t.dev.first_interface, t.ifaces, null)
  }

  lemma HangsParts(t: Tree)
    ensures Hangs(t) <==> Segment(t.dev.first_child, t.kids, null) && IfaceSegment(t.dev.first_interface, t.ifaces, null)
    ensures Hangs(t) ==> (t.dev.first_child == null <==> t.kids == [])
    ensures Hangs(t) ==> (t.dev.first_interface == null <==> t.ifaces == [])
  {
  }

  /** A list is empty exactly when its head is null. */
  lemma HeadOf(head: UsbDevice?, f: seq<Tree>)
    ensures Segment(head, f, null) ==> (head == null <==> f == [])
  {
  }

  lemma NothingHangs()
    ensures SortForest([]) == [] && Segment(null, [], null)
  {
  }

  lemma SegmentCons(head: UsbDevice?, t: Tree, f: seq<Tree>, end: UsbDevice?)
    ensures Segment(head, [t] + f, end) <==> head == t.dev && Segment(t.dev.next, f, end) && Hangs(t)
  {
    assert ([t] + f)[1..] == f;
  }

  lemma {:induction false} SegmentSnoc(head: UsbDevice?, f: seq<Tree>, t: Tree, end: UsbDevice?)
    ensures Segment(head, f + [t], end) <==>
            Segment(head, f, t.dev) && t.dev.next == end && Hangs(t)
    decreases |f|
  {
    if |f| == 0 {
      assert f + [t] == [t] && [t][1..] == [];
      assert Segment(t.dev.next, [], end) <==> t.dev.next == end;
    } else {
      assert (f + [t])[1..] == f[1..] + [t];
      SegmentSnoc(f[0].dev.next, f[1..], t, end);
    }
  }

  // ---- What sorting makes of a forest ----

  ghost function Port(t: Tree): int { t.dev.portnum }

  /** A tree whose interface list and child lists, at every depth, are sorted. */
  ghost function Settle(t: Tree): Tree
    decreases t, 0
  {
    Tree(t.dev, Sort(t.ifaces, ConfigThenNumber), SortForest(t.kids))
  }

  ghost function SettleAll(f: seq<Tree>): (r: seq<Tree>)
    ensures |r| == |f|
    decreases f, 0
  {
    if |f| == 0 then [] else [Settle(f[0])] + SettleAll(f[1..])
  }

  ghost function SortForest(f: seq<Tree>): seq<Tree>
    decreases f, 1
  {
    Sort(SettleAll(f), Port)
  }

  ghost predicate Settled(f: seq<Tree>) { forall t :: t in f ==> Settle(t) == t }

  lemma {:induction false} SettleAllConcat(a: seq<Tree>, b: seq<Tree>)
    ensures SettleAll(a + b) == SettleAll(a) + SettleAll(b)
    decreases |a|
  {
    if |a| == 0 {
      assert a + b == b;
    } else {
      assert (a + b)[1..] == a[1..] + b;
      SettleAllConcat(a[1..], b);
    }
  }

  lemma {:induction false} SettledIsFixed(f: seq<Tree>)
    requires Settled(f)
    ensures SettleAll(f) == f
    decreases |f|
  {
    if |f| > 0 {
      assert f[0] in f;
      forall t | t in f[1..] ensures Settle(t) == t { assert t in f; }
      SettledIsFixed(f[1..]);
    }
  }

  lemma {:induction false} SettleTwice(f: seq<Tree>)
    ensures Settled(SettleAll(f))
    decreases f, 0
  {
    if |f| > 0 {
      SortSorts(f[0].ifaces, ConfigThenNumber);
      SortedIsFixed(Sort(f[0].ifaces, ConfigThenNumber), ConfigThenNumber);
      SortForestTwice(f[0].kids);
      SettleTwice(f[1..]);
    }
  }

  /** A sorted forest has nothing left to sort, at any depth. */
  lemma {:induction false} SortForestTwice(f: seq<Tree>)
    ensures Settled(SortForest(f)) && Sorted(SortForest(f), Port)
    ensures SortForest(SortForest(f)) == SortForest(f)
    decreases f, 1
  {
    SettleTwice(f);
    var s := SettleAll(f);
    SortSorts(s, Port);
    SortPermutes(s, Port);
    var r := Sort(s, Port);
    forall t | t in r ensures Settle(t) == t { assert t in multiset(s); }
    SettledIsFixed(r);
    SortedIsFixed(r, Port);
  }

  /** Sorting the tail first does not change the sorted whole. */
  lemma SortForestAbsorbsTail(a: seq<Tree>, b: seq<Tree>)
    ensures SortForest(a + SortForest(b)) == SortForest(a + b)
  {
    SettleAllConcat(a, SortForest(b));
    SettleAllConcat(a, b);
    SortForestTwice(b);
    SettledIsFixed(SortForest(b));
    SortAbsorbsSuffix(SettleAll(a), SettleAll(b), Port);
  }

  lemma {:induction false} DevicesConcat(a: seq<Tree>, b: seq<Tree>)
    ensures Devices(a + b) == Devices(a) + Devices(b)
    decreases |a|
  {
    if |a| == 0 {
      assert a + b == b;
    } else {
      assert (a + b)[1..] == a[1..] + b;
      DevicesConcat(a[1..], b);
    }
  }

  lemma {:induction false} DevicesInsert(t: Tree, f: seq<Tree>)
    ensures Devices(Insert(t, f, Port)) == Devices([t]) + Devices(f)
    decreases |f|
  {
    hide Devices;
    if |f| == 0 || Port(t) <= Port(f[0]) {
      DevicesConcat([t], f);
    } else {
      DevicesInsert(t, f[1..]);
      DevicesConcat([f[0]], Insert(t, f[1..], Port));
      DevicesConcat([f[0]], f[1..]);
      assert f == [f[0]] + f[1..];
    }
  }

  lemma {:induction false} DevicesSort(f: seq<Tree>)
    ensures Devices(Sort(f, Port)) == Devices(f)
    decreases |f|
  {
    hide Devices;
    if |f| > 0 {
      DevicesSort(f[1..]);
      DevicesInsert(f[0], Sort(f[1..], Port));
      assert f == [f[0]] + f[1..];
      DevicesConcat([f[0]], f[1..]);
    }
  }

  lemma DevicesCons(t: Tree, f: seq<Tree>)
    ensures Devices([t] + f) == multiset{t.dev} + Devices(t.kids) + Devices(f)
  {
    assert ([t] + f)[1..] == f;
  }

  lemma {:induction false} DevicesSettle(f: seq<Tree>)
    ensures Devices(SettleAll(f)) == Devices(f)
    decreases f
  {
    hide Sort, Devices;
    if |f| > 0 {
      DevicesSettle(f[0].kids);
      DevicesSort(SettleAll(f[0].kids));
      DevicesSettle(f[1..]);
      DevicesCons(f[0], f[1..]);
      DevicesCons(Settle(f[0]), SettleAll(f[1..]));
      assert Settle(f[0]).kids == Sort(SettleAll(f[0].kids), Port);
      assert f == [f[0]] + f[1..];
    } else {
      assert SettleAll(f) == f;
    }
  }

  lemma {:induction false} InterfacesConcat(a: seq<Tree>, b: seq<Tree>)
    ensures Interfaces(a + b) == Interfaces(a) + Interfaces(b)
    decreases |a|
  {
    if |a| == 0 {
      assert a + b == b;
    } else {
      assert (a + b)[1..] == a[1..] + b;
      InterfacesConcat(a[1..], b);
    }
  }

  lemma {:induction false} InterfacesInsert(t: Tree, f: seq<Tree>)
    ensures Interfaces(Insert(t, f, Port)) == Interfaces([t]) + Interfaces(f)
    decreases |f|
  {
    hide Interfaces;
    if |f| == 0 || Port(t) <= Port(f[0]) {
      InterfacesConcat([t], f);
    } else {
      InterfacesInsert(t, f[1..]);
      InterfacesConcat([f[0]], Insert(t, f[1..], Port));
      InterfacesConcat([f[0]], f[1..]);
      assert f == [f[0]] + f[1..];
    }
  }

  lemma {:induction false} InterfacesSort(f: seq<Tree>)
    ensures Interfaces(Sort(f, Port)) == Interfaces(f)
    decreases |f|
  {
    hide Interfaces;
    if |f| > 0 {
      InterfacesSort(f[1..]);
      InterfacesInsert(f[0], Sort(f[1..], Port));
      assert f == [f[0]] + f[1..];
      InterfacesConcat([f[0]], f[1..]);
    }
  }

  lemma InterfacesCons(t: Tree, f: seq<Tree>)
    ensures Interfaces([t] + f) == multiset(t.ifaces) + Interfaces(t.kids) + Interfaces(f)
  {
    assert ([t] + f)[1..] == f;
  }

  lemma {:induction false} InterfacesSettle(f: seq<Tree>)
    ensures Interfaces(SettleAll(f)) == Interfaces(f)
    decreases f
  {
    hide Sort, Interfaces;
    if |f| > 0 {
      SortPermutes(f[0].ifaces, ConfigThenNumber);
      InterfacesSettle(f[0].kids);
      InterfacesSort(SettleAll(f[0].kids));
      InterfacesSettle(f[1..]);
      InterfacesCons(f[0], f[1..]);
      InterfacesCons(Settle(f[0]), SettleAll(f[1..]));
      assert Settle(f[0]).kids == Sort(SettleAll(f[0].kids), Port);
      assert f == [f[0]] + f[1..];
    } else {
      assert SettleAll(f) == f;
    }
  }

  lemma {:induction false} CompatibleConcat(a: seq<Tree>, b: seq<Tree>)
    ensures AllCompatible(a + b) <==> AllCompatible(a) && AllCompatible(b)
    decreases |a|
  {
    if |a| == 0 {
      assert a + b == b;
    } else {
      assert (a + b)[1..] == a[1..] + b;
      CompatibleConcat(a[1..], b);
    }
  }

  lemma {:induction false} CompatibleInsert(t: Tree, f: seq<Tree>)
    ensures AllCompatible(Insert(t, f, Port)) <==> AllCompatible([t]) && AllCompatible(f)
    decreases |f|
  {
    hide AllCompatible;
    if |f| == 0 || Port(t) <= Port(f[0]) {
      CompatibleConcat([t], f);
    } else {
      CompatibleInsert(t, f[1..]);
      CompatibleConcat([f[0]], Insert(t, f[1..], Port));
      CompatibleConcat([f[0]], f[1..]);
      assert f == [f[0]] + f[1..];
    }
  }

  lemma {:induction false} CompatibleSort(f: seq<Tree>)
    ensures AllCompatible(Sort(f, Port)) <==> AllCompatible(f)
    decreases |f|
  {
    hide AllCompatible;
    if |f| > 0 {
      CompatibleSort(f[1..]);
      CompatibleInsert(f[0], Sort(f[1..], Port));
      assert f == [f[0]] + f[1..];
      CompatibleConcat([f[0]], f[1..]);
    }
  }

  lemma CompatibleCons(t: Tree, f: seq<Tree>)
    ensures AllCompatible([t] + f) <==> Compatible(t.ifaces) && AllCompatible(t.kids) && AllCompatible(f)
  {
    assert ([t] + f)[1..] == f;
  }

  lemma {:induction false} CompatibleSettle(f: seq<Tree>)
    ensures AllCompatible(SettleAll(f)) <==> AllCompatible(f)
    decreases f
  {
    hide Sort, AllCompatible, Compatible;
    if |f| > 0 {
      SortPermutes(f[0].ifaces, ConfigThenNumber);
      CompatibleIsAboutMembers(Sort(f[0].ifaces, ConfigThenNumber), f[0].ifaces);
      CompatibleSettle(f[0].kids);
      CompatibleSort(SettleAll(f[0].kids));
      CompatibleSettle(f[1..]);
      CompatibleCons(f[0], f[1..]);
      CompatibleCons(Settle(f[0]), SettleAll(f[1..]));
      assert Settle(f[0]).kids == Sort(SettleAll(f[0].kids), Port);
      assert f == [f[0]] + f[1..];
    } else {
      assert SettleAll(f) == f;
    }
  }

  /** Sorting neither loses nor duplicates a device or an interface. */
  lemma SortForestKeeps(f: seq<Tree>)
    ensures Devices(SortForest(f)) == Devices(f)
    ensures Interfaces(SortForest(f)) == Interfaces(f)
    ensures Tidy(SortForest(f)) <==> Tidy(f)
    ensures |SortForest(f)| == |f|
  {
    var s := SettleAll(f);
    DevicesSettle(f);
    DevicesSort(s);
    InterfacesSettle(f);
    InterfacesSort(s);
    CompatibleSettle(f);
    CompatibleSort(s);
    SortPermutes(s, Port);
  }

  // ---- Cutting a forest at one of its roots ----

  lemma UniqueParts<T>(a: multiset<T>, b: multiset<T>, c: multiset<T>)
    requires Unique(a + b + c)
    ensures Unique(a) && Unique(b) && Unique(c)
    ensures forall x :: x in a ==> x !in b && x !in c
    ensures forall x :: x in b ==> x !in c
  {
    var m := a + b + c;
    forall x | x in a || x in b || x in c ensures m[x] == 1 { assert x in m; }
  }

  /** `done`, the tree `t` and `rest` make up a forest in which nothing occurs twice. */
  ghost predicate Parts(f: seq<Tree>, done: seq<Tree>, t: Tree, rest: seq<Tree>) {
    && Tidy(f) && AllCompatible(rest)
    && Devices(f) == Devices(done) + Devices([t]) + Devices(rest)
    && Interfaces(f) == Interfaces(done) + Interfaces([t]) + Interfaces(rest)
  }

  lemma PartsAreApart(f: seq<Tree>, done: seq<Tree>, t: Tree, rest: seq<Tree>)
    requires Parts(f, done, t, rest)
    ensures Tidy(rest) && |Devices(rest)| < |Devices(f)| && Unique(Devices([t]))
    ensures DevSet(done) !! DevSet([t]) && DevSet(done) !! DevSet(rest) && DevSet([t]) !! DevSet(rest)
    ensures IfaceSet(done) !! IfaceSet([t]) && IfaceSet(done) !! IfaceSet(rest) && IfaceSet([t]) !! IfaceSet(rest)
    ensures DevSet(done) <= DevSet(f) && DevSet([t]) <= DevSet(f) && DevSet(rest) <= DevSet(f)
    ensures IfaceSet(rest) <= IfaceSet(f)
  {
    UniqueParts(Devices(done), Devices([t]), Devices(rest));
    UniqueParts(Interfaces(done), Interfaces([t]), Interfaces(rest));
    assert |Devices([t])| > 0 by { assert t.dev in Devices([t]); }
  }

  lemma OneTree(t: Tree)
    ensures Devices([t]) == multiset{t.dev} + Devices(t.kids)
    ensures Interfaces([t]) == multiset(t.ifaces) + Interfaces(t.kids)
    ensures AllCompatible([t]) <==> Compatible(t.ifaces) && AllCompatible(t.kids)
  {
  }

  /** What a forest mentions exists, so a call that does not name it leaves it alone. */
  lemma {:induction false} Exists(f: seq<Tree>)
    ensures forall d :: d in DevSet(f) ==> allocated(d)
    ensures forall i :: i in IfaceSet(f) ==> allocated(i)
    decreases f
  {
    if |f| > 0 {
      Exists(f[0].kids);
      Exists(f[1..]);
      forall i | i in IfaceSet(f) ensures allocated(i) {
        assert i in f[0].ifaces || i in IfaceSet(f[0].kids) || i in IfaceSet(f[1..]);
      }
      forall d | d in DevSet(f) ensures allocated(d) {
        assert d == f[0].dev || d in DevSet(f[0].kids) || d in DevSet(f[1..]);
      }
    }
  }
}
