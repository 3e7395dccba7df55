/** From linked lists to a forest.

    `connect_devices` leaves one list of children per device.  A child's name is longer
    than its parent's, so these lists make up a forest: no device is reached twice. */
module Forest {
  import opened CStrings
  import opened UsbObjects
  import opened Words
  import opened InterfaceSort
  import opened DeviceTree
  import opened Connect
  import opened ConnectInterfaces

  // ---- Building ----

  ghost function LongestName(devs: seq<UsbDevice>): (n: nat)
    ensures forall d :: d in devs ==> |d.name| <= n
  {
    if |devs| == 0 then 0
    else
      var m := LongestName(devs[1..]);
      assert forall d :: d in devs ==> d == devs[0] || d in devs[1..];
      if |devs[0].name| > m then |devs[0].name| else m
  }

  /** How many levels can lie at and below the devices of `s`. */
  ghost function Height(bound: nat, s: seq<UsbDevice>): (h: nat)
    ensures forall d :: d in s && |d.name| <= bound ==> bound - |d.name| < h
  {
    if |s| == 0 then 0
    else
      var h := Height(bound, s[1..]);
      assert forall d :: d in s ==> d == s[0] || d in s[1..];
      var own := if |s[0].name| <= bound then bound - |s[0].name| + 1 else 0;
      if own > h then own else h
  }

  lemma {:induction false} HeightBelow(bound: nat, s: seq<UsbDevice>, n: nat)
    requires forall d :: d in s ==> |d.name| > n
    requires n <= bound
    ensures Height(bound, s) <= bound - n
  {
    if |s| > 0 {
      forall d | d in s[1..] ensures |d.name| > n { assert d in s; }
      HeightBelow(bound, s[1..], n);
      assert s[0] in s;
    }
  }

  ghost function ChildrenOf(devs: seq<UsbDevice>, d: UsbDevice): seq<UsbDevice> {
    Kids(devs, |devs|, Hub(d))
  }

  ghost function InterfacesOf(devs: seq<UsbDevice>, ifs: seq<UsbInterface>, d: UsbDevice): seq<UsbInterface> {
    Owned(devs, ifs, |ifs|, OfDevice(d))
  }

  lemma ParentHasShorterName(devs: seq<UsbDevice>, d: UsbDevice, p: UsbDevice)
    requires OwnerOf(devs, d) == Hub(p)
    ensures |p.name| < |d.name| && p in devs
  {
    FirstParentIn(devs, d);
  }

  lemma ChildrenAreLower(devs: seq<UsbDevice>, s: seq<UsbDevice>)
    requires |s| > 0 && forall d :: d in s ==> d in devs
    ensures Height(LongestName(devs), ChildrenOf(devs, s[0])) < Height(LongestName(devs), s)
  {
    var k := ChildrenOf(devs, s[0]);
    forall d | d in k ensures |d.name| > |s[0].name| {
      KidsAre(devs, |devs|, Hub(s[0]));
      ParentHasShorterName(devs, d, s[0]);
    }
    assert s[0] in devs;
    HeightBelow(LongestName(devs), k, |s[0].name|);
  }

  /** The forest below the devices `s`. */
  ghost function Grow(devs: seq<UsbDevice>, ifs: seq<UsbInterface>, s: seq<UsbDevice>): (f: seq<Tree>)
    requires forall d :: d in s ==> d in devs
    ensures |f| == |s|
    decreases Height(LongestName(devs), s), |s|
  {
    if |s| == 0 then []
    else
      ChildrenAreLower(devs, s);
      var t := Tree(s[0], InterfacesOf(devs, ifs, s[0]), Grow(devs, ifs, ChildrenOf(devs, s[0])));
      assert Height(LongestName(devs), s[1..]) <= Height(LongestName(devs), s);
      [t] + Grow(devs, ifs, s[1..])
  }

  // ---- Descent ----

  /** `x` is `d` or hangs below it. */
  ghost predicate Descends(devs: seq<UsbDevice>, x: UsbDevice, d: UsbDevice)
    decreases |x.name|
  {
    x == d ||
    match OwnerOf(devs, x)
    case Hub(p) => (ParentHasShorterName(devs, x, p); Descends(devs, p, d))
    case _ => false
  }

  lemma {:induction false} DescendantsHaveLongerNames(devs: seq<UsbDevice>, x: UsbDevice, d: UsbDevice)
    requires Descends(devs, x, d)
    ensures x == d || |x.name| > |d.name|
    decreases |x.name|
  {
    if x != d {
      var p := OwnerOf(devs, x).hub;
      ParentHasShorterName(devs, x, p);
      DescendantsHaveLongerNames(devs, p, d);
    }
  }

  lemma {:induction false} DescentIsTransitive(devs: seq<UsbDevice>, x: UsbDevice, k: UsbDevice, d: UsbDevice)
    requires Descends(devs, x, k) && Descends(devs, k, d)
    ensures Descends(devs, x, d)
    decreases |x.name|
  {
    if x != k {
      var p := OwnerOf(devs, x).hub;
      ParentHasShorterName(devs, x, p);
      DescentIsTransitive(devs, p, k, d);
    }
  }

  /** The ancestors of a device lie on one line. */
  lemma {:induction false} AncestorsAreOrdered(devs: seq<UsbDevice>, x: UsbDevice, d: UsbDevice, d': UsbDevice)
    requires Descends(devs, x, d) && Descends(devs, x, d')
    ensures Descends(devs, d, d') || Descends(devs, d', d)
    decreases |x.name|
  {
    if x != d && x != d' {
      var p := OwnerOf(devs, x).hub;
      ParentHasShorterName(devs, x, p);
      AncestorsAreOrdered(devs, p, d, d');
    }
  }

  /** None of the devices of `s` hangs below another, and none occurs twice. */
  ghost predicate Antichain(devs: seq<UsbDevice>, s: seq<UsbDevice>) {
    forall i, j :: 0 <= i < |s| && 0 <= j < |s| && i != j ==> !Descends(devs, s[i], s[j])
  }

  /** Two devices on root hubs, or on the same hub, are never one below the other. */
  lemma SiblingsApart(devs: seq<UsbDevice>, d: UsbDevice, d': UsbDevice)
    requires d != d'
    requires OwnerOf(devs, d).Root? || OwnerOf(devs, d) == OwnerOf(devs, d')
    ensures !Descends(devs, d, d')
  {
    if Descends(devs, d, d') {
      var p := OwnerOf(devs, d).hub;
      ParentHasShorterName(devs, d, p);
      ParentHasShorterName(devs, d', p);
      DescendantsHaveLongerNames(devs, p, d');
    }
  }

  lemma {:induction false} UniqueMeansDistinct(s: seq<UsbDevice>, i: nat, j: nat)
    requires Unique(multiset(s)) && i < j < |s|
    ensures s[i] != s[j]
  {
    Connect.NotYetSeen(s, j);
    assert s[i] in s[..j];
  }

  lemma KidsAreAntichain(devs: seq<UsbDevice>, o: Owner)
    requires Unique(multiset(devs)) && o != Nowhere
    ensures Antichain(devs, Kids(devs, |devs|, o))
  {
    hide Descends, OwnerOf, Kids;
    var s := Kids(devs, |devs|, o);
    KidsUnique(devs, |devs|, o);
    KidsAre(devs, |devs|, o);
    forall i, j | 0 <= i < |s| && 0 <= j < |s| && i != j ensures !Descends(devs, s[i], s[j]) {
      assert s[i] in s && s[j] in s;
      if i < j { UniqueMeansDistinct(s, i, j); } else { UniqueMeansDistinct(s, j, i); }
      SiblingsApart(devs, s[i], s[j]);
    }
  }

  // ---- No device is reached twice ----

  /** Everything in the forest hangs below one of its roots. */
  lemma {:induction false} GrownDescend(devs: seq<UsbDevice>, ifs: seq<UsbInterface>, s: seq<UsbDevice>, x: UsbDevice)
    requires forall d :: d in s ==> d in devs
    requires x in Devices(Grow(devs, ifs, s))
    ensures exists d :: d in s && Descends(devs, x, d)
    decreases Height(LongestName(devs), s), |s|
  {
    assert |s| > 0;
    ChildrenAreLower(devs, s);
    GrowStep(devs, ifs, s);
    var kids := ChildrenOf(devs, s[0]);
    assert Height(LongestName(devs), s[1..]) <= Height(LongestName(devs), s);
    if x == s[0] {
      assert s[0] in s && Descends(devs, x, s[0]);
    } else if x in Devices(Grow(devs, ifs, kids)) {
      GrownDescend(devs, ifs, kids, x);
      var k :| k in kids && Descends(devs, x, k);
      ChildDescends(devs, k, s[0]);
      DescentIsTransitive(devs, x, k, s[0]);
      assert s[0] in s;
    } else {
      GrownDescend(devs, ifs, s[1..], x);
      var d :| d in s[1..] && Descends(devs, x, d);
      assert d in s;
    }
  }

  lemma ChildDescends(devs: seq<UsbDevice>, k: UsbDevice, d: UsbDevice)
    requires k in ChildrenOf(devs, d)
    ensures Descends(devs, k, d) && |d.name| < |k.name|
  {
    KidsAre(devs, |devs|, Hub(d));
    ParentHasShorterName(devs, k, d);
    assert Descends(devs, d, d);
  }

  lemma GrowStep(devs: seq<UsbDevice>, ifs: seq<UsbInterface>, s: seq<UsbDevice>)
    requires |s| > 0 && forall d :: d in s ==> d in devs
    ensures Devices(Grow(devs, ifs, s)) == multiset{s[0]}
              + Devices(Grow(devs, ifs, ChildrenOf(devs, s[0]))) + Devices(Grow(devs, ifs, s[1..]))
    ensures Interfaces(Grow(devs, ifs, s)) == multiset(InterfacesOf(devs, ifs, s[0]))
              + Interfaces(Grow(devs, ifs, ChildrenOf(devs, s[0]))) + Interfaces(Grow(devs, ifs, s[1..]))
    ensures AllCompatible(Grow(devs, ifs, s)) <==>
              (Compatible(InterfacesOf(devs, ifs, s[0]))
              && AllCompatible(Grow(devs, ifs, ChildrenOf(devs, s[0]))) && AllCompatible(Grow(devs, ifs, s[1..])))
  {
    var f := Grow(devs, ifs, s);
    assert f[1..] == Grow(devs, ifs, s[1..]);
  }

  /** No device of one part is in another. */
  lemma PartsApart(devs: seq<UsbDevice>, ifs: seq<UsbInterface>, s: seq<UsbDevice>, x: UsbDevice)
    requires |s| > 0 && Antichain(devs, s) && forall d :: d in s ==> d in devs
    ensures x in Devices(Grow(devs, ifs, ChildrenOf(devs, s[0]))) ==> x != s[0]
    ensures x in Devices(Grow(devs, ifs, s[1..])) ==> x != s[0]
    ensures !(x in Devices(Grow(devs, ifs, ChildrenOf(devs, s[0]))) && x in Devices(Grow(devs, ifs, s[1..])))
  {
    hide Grow, Devices, Kids, OwnerOf, Descends, Height;
    var kids := ChildrenOf(devs, s[0]);
    if x in Devices(Grow(devs, ifs, kids)) {
      GrownDescend(devs, ifs, kids, x);
      var k :| k in kids && Descends(devs, x, k);
      ChildDescends(devs, k, s[0]);
      DescendantsHaveLongerNames(devs, x, k);
      DescentIsTransitive(devs, x, k, s[0]);
    }
    if x in Devices(Grow(devs, ifs, s[1..])) {
      GrownDescend(devs, ifs, s[1..], x);
      var d :| d in s[1..] && Descends(devs, x, d);
      var i :| 0 <= i < |s[1..]| && s[1..][i] == d;
      assert s[i + 1] == d && !Descends(devs, s[0], d) && !Descends(devs, d, s[0]);
      if x in Devices(Grow(devs, ifs, kids)) {
        AncestorsAreOrdered(devs, x, s[0], d);
      }
    }
  }

  lemma UniqueUnion<T>(x: T, a: multiset<T>, b: multiset<T>)
    requires Unique(a) && Unique(b) && x !in a && x !in b
    requires forall y :: y in a ==> y !in b
    ensures Unique(multiset{x} + a + b)
  {
  }

  lemma HeightTail(bound: nat, s: seq<UsbDevice>)
    requires |s| > 0
    ensures Height(bound, s[1..]) <= Height(bound, s)
  {
  }

  lemma GrowNothing(devs: seq<UsbDevice>, ifs: seq<UsbInterface>)
    ensures Tidy(Grow(devs, ifs, []))
  {
  }

  lemma AntichainTail(devs: seq<UsbDevice>, s: seq<UsbDevice>)
    requires |s| > 0 && Antichain(devs, s)
    ensures Antichain(devs, s[1..])
  {
    hide Descends;
    forall i, j | 0 <= i < |s[1..]| && 0 <= j < |s[1..]| && i != j ensures !Descends(devs, s[1..][i], s[1..][j]) {
      assert !Descends(devs, s[i + 1], s[j + 1]);
    }
  }

  lemma {:induction false} GrownUnique(devs: seq<UsbDevice>, ifs: seq<UsbInterface>, s: seq<UsbDevice>)
    requires Unique(multiset(devs)) && Antichain(devs, s) && forall d :: d in s ==> d in devs
    ensures Unique(Devices(Grow(devs, ifs, s)))
    decreases Height(LongestName(devs), s), |s|
  {
    hide Grow, Devices, Descends, Unique, OwnerOf, Kids, Antichain, Height;
    if |s| == 0 {
      GrowNothing(devs, ifs);
      assert s == [];
    } else {
      ChildrenAreLower(devs, s);
      HeightTail(LongestName(devs), s);
      GrowStep(devs, ifs, s);
      var kids := ChildrenOf(devs, s[0]);
      KidsAreAntichain(devs, Hub(s[0]));
      AntichainTail(devs, s);
      GrownUnique(devs, ifs, kids);
      GrownUnique(devs, ifs, s[1..]);
      forall x | x in Devices(Grow(devs, ifs, kids)) ensures x != s[0] && x !in Devices(Grow(devs, ifs, s[1..])) {
        PartsApart(devs, ifs, s, x);
      }
      PartsApart(devs, ifs, s, s[0]);
      UniqueUnion(s[0], Devices(Grow(devs, ifs, kids)), Devices(Grow(devs, ifs, s[1..])));
    }
  }

  lemma GrownFromSome(devs: seq<UsbDevice>, ifs: seq<UsbInterface>, s: seq<UsbDevice>, e: UsbInterface)
    requires (forall d :: d in s ==> d in devs) && e in Interfaces(Grow(devs, ifs, s))
    ensures |s| > 0
  {
  }

  /** The owner of every interface in the forest is in the forest. */
  lemma {:induction false} GrownOwners(devs: seq<UsbDevice>, ifs: seq<UsbInterface>, s: seq<UsbDevice>, e: UsbInterface)
    requires forall d :: d in s ==> d in devs
    requires e in Interfaces(Grow(devs, ifs, s))
    ensures var o := IfaceOwnerOf(devs, e); o.OfDevice? && o.dev in Devices(Grow(devs, ifs, s))
    decreases Height(LongestName(devs), s), |s|
  {
    hide Devices, Interfaces, Kids, Owned, OwnerOf, IfaceOwnerOf, Height, Grow;
    GrownFromSome(devs, ifs, s, e);
    ChildrenAreLower(devs, s);
    GrowStep(devs, ifs, s);
    HeightTail(LongestName(devs), s);
    if e in InterfacesOf(devs, ifs, s[0]) {
      OwnedAre(devs, ifs, |ifs|, OfDevice(s[0]));
    } else if e in Interfaces(Grow(devs, ifs, ChildrenOf(devs, s[0]))) {
      GrownOwners(devs, ifs, ChildrenOf(devs, s[0]), e);
    } else {
      GrownOwners(devs, ifs, s[1..], e);
    }
  }

  lemma UniqueUnion3<T>(a: multiset<T>, b: multiset<T>, c: multiset<T>)
    requires Unique(a) && Unique(b) && Unique(c)
    requires forall x :: x in a ==> x !in b && x !in c
    requires forall x :: x in b ==> x !in c
    ensures Unique(a + b + c)
  {
  }

  /** Interfaces are unique because their owners are. */
  lemma {:induction false} GrownInterfacesUnique(devs: seq<UsbDevice>, ifs: seq<UsbInterface>, s: seq<UsbDevice>)
    requires Unique(multiset(ifs)) && forall d :: d in s ==> d in devs
    requires Unique(Devices(Grow(devs, ifs, s)))
    ensures Unique(Interfaces(Grow(devs, ifs, s)))
    decreases Height(LongestName(devs), s), |s|
  {
    hide Grow, Devices, Interfaces, IfaceOwnerOf, OwnerOf, Kids, Owned, Height;
    if |s| == 0 {
      GrowNothing(devs, ifs);
      assert s == [];
    } else {
      ChildrenAreLower(devs, s);
      HeightTail(LongestName(devs), s);
      GrowStep(devs, ifs, s);
      var kids := ChildrenOf(devs, s[0]);
      UniqueParts(multiset{s[0]}, Devices(Grow(devs, ifs, kids)), Devices(Grow(devs, ifs, s[1..])));
      GrownInterfacesUnique(devs, ifs, kids);
      GrownInterfacesUnique(devs, ifs, s[1..]);
      OwnedUnique(devs, ifs, |ifs|, OfDevice(s[0]));
      InterfacesApart(devs, ifs, s);
      UniqueUnion3(multiset(InterfacesOf(devs, ifs, s[0])), Interfaces(Grow(devs, ifs, kids)), Interfaces(Grow(devs, ifs, s[1..])));
    }
  }

  lemma InterfacesApart(devs: seq<UsbDevice>, ifs: seq<UsbInterface>, s: seq<UsbDevice>)
    requires |s| > 0 && forall d :: d in s ==> d in devs
    requires var a, b := Devices(Grow(devs, ifs, ChildrenOf(devs, s[0]))), Devices(Grow(devs, ifs, s[1..]));
             s[0] !in a && s[0] !in b && forall x :: x in a ==> x !in b
    ensures var own, a, b := InterfacesOf(devs, ifs, s[0]), Interfaces(Grow(devs, ifs, ChildrenOf(devs, s[0]))), Interfaces(Grow(devs, ifs, s[1..]));
            && (forall e :: e in multiset(own) ==> e !in a && e !in b)
            && (forall e :: e in a ==> e !in b)
  {
    hide Grow, Devices, Interfaces, IfaceOwnerOf, OwnerOf, Kids, Owned;
    var kids := ChildrenOf(devs, s[0]);
    OwnedAre(devs, ifs, |ifs|, OfDevice(s[0]));
    var own, a, b := InterfacesOf(devs, ifs, s[0]), Interfaces(Grow(devs, ifs, kids)), Interfaces(Grow(devs, ifs, s[1..]));
    forall e | e in multiset(own) ensures e !in a && e !in b {
      assert IfaceOwnerOf(devs, e) == OfDevice(s[0]);
      if e in a { GrownOwners(devs, ifs, kids, e); }
      if e in b { GrownOwners(devs, ifs, s[1..], e); }
    }
    forall e | e in a ensures e !in b {
      GrownOwners(devs, ifs, kids, e);
      if e in b { GrownOwners(devs, ifs, s[1..], e); }
    }
  }

  /** Every device has interfaces whose keys `sort_dev_interfaces` can sort by. */
  ghost predicate SortableInterfaces(devs: seq<UsbDevice>, ifs: seq<UsbInterface>) {
    forall d :: d in devs ==> Compatible(InterfacesOf(devs, ifs, d))
  }

  lemma {:induction false} GrownCompatible(devs: seq<UsbDevice>, ifs: seq<UsbInterface>, s: seq<UsbDevice>)
    requires SortableInterfaces(devs, ifs) && forall d :: d in s ==> d in devs
    ensures AllCompatible(Grow(devs, ifs, s))
    decreases Height(LongestName(devs), s), |s|
  {
    hide Grow, AllCompatible, Compatible, OwnerOf, Kids, Owned, Height;
    if |s| == 0 {
      GrowNothing(devs, ifs);
      assert s == [];
    } else {
      ChildrenAreLower(devs, s);
      HeightTail(LongestName(devs), s);
      GrowStep(devs, ifs, s);
      GrownCompatible(devs, ifs, ChildrenOf(devs, s[0]));
      GrownCompatible(devs, ifs, s[1..]);
      assert s[0] in devs;
    }
  }

  /** What hangs on the root hub of bus `n`. */
  ghost function BusForest(devs: seq<UsbDevice>, ifs: seq<UsbInterface>, n: uint32): (f: seq<Tree>) {
    Grow(devs, ifs, Kids(devs, |devs|, Root(n)))
  }

  /** The lists below a bus are a forest: nothing is reached twice, and it can be sorted. */
  lemma BusForestIsTidy(devs: seq<UsbDevice>, ifs: seq<UsbInterface>, n: uint32)
    requires Unique(multiset(devs)) && Unique(multiset(ifs)) && SortableInterfaces(devs, ifs)
    ensures Tidy(BusForest(devs, ifs, n))
  {
    hide Grow, Descends, OwnerOf, Kids, Antichain, Devices, Interfaces, AllCompatible, SortableInterfaces, Unique;
    var s := Kids(devs, |devs|, Root(n));
    KidsAreAntichain(devs, Root(n));
    GrownUnique(devs, ifs, s);
    GrownInterfacesUnique(devs, ifs, s);
    GrownCompatible(devs, ifs, s);
  }

  /** The forests of two busses share nothing. */
  lemma BusForestsApart(devs: seq<UsbDevice>, ifs: seq<UsbInterface>, n: uint32, n': uint32)
    requires n != n'
    ensures DevSet(BusForest(devs, ifs, n)) !! DevSet(BusForest(devs, ifs, n'))
    ensures IfaceSet(BusForest(devs, ifs, n)) !! IfaceSet(BusForest(devs, ifs, n'))
  {
    hide Grow, Devices, Interfaces, IfaceOwnerOf, Kids;
    forall x | x in DevSet(BusForest(devs, ifs, n)) ensures x !in DevSet(BusForest(devs, ifs, n')) {
      RootsApart(devs, ifs, n, n', x);
    }
    forall e | e in IfaceSet(BusForest(devs, ifs, n)) ensures e !in IfaceSet(BusForest(devs, ifs, n')) {
      GrownOwners(devs, ifs, Kids(devs, |devs|, Root(n)), e);
      if e in IfaceSet(BusForest(devs, ifs, n')) {
        GrownOwners(devs, ifs, Kids(devs, |devs|, Root(n')), e);
        RootsApart(devs, ifs, n, n', IfaceOwnerOf(devs, e).dev);
      }
    }
  }

  lemma RootsApart(devs: seq<UsbDevice>, ifs: seq<UsbInterface>, n: uint32, n': uint32, x: UsbDevice)
    requires n != n'
    ensures !(x in Devices(BusForest(devs, ifs, n)) && x in Devices(BusForest(devs, ifs, n')))
  {
    hide Grow, Devices, Descends, Kids;
    if x in Devices(BusForest(devs, ifs, n)) && x in Devices(BusForest(devs, ifs, n')) {
      GrownDescend(devs, ifs, Kids(devs, |devs|, Root(n)), x);
      GrownDescend(devs, ifs, Kids(devs, |devs|, Root(n')), x);
      KidsAre(devs, |devs|, Root(n));
      KidsAre(devs, |devs|, Root(n'));
      var d :| d in Kids(devs, |devs|, Root(n)) && Descends(devs, x, d);
      var d' :| d' in Kids(devs, |devs|, Root(n')) && Descends(devs, x, d');
      AncestorsAreOrdered(devs, x, d, d');
      SiblingsApart(devs, d, d');
      SiblingsApart(devs, d', d);
    }
  }

  lemma {:induction false} GrownFrom(devs: seq<UsbDevice>, ifs: seq<UsbInterface>, s: seq<UsbDevice>)
    requires forall d :: d in s ==> d in devs
    ensures DevSet(Grow(devs, ifs, s)) <= DevMembers(devs)
    ensures IfaceSet(Grow(devs, ifs, s)) <= Members(ifs)
    decreases Height(LongestName(devs), s), |s|
  {
    hide Grow, Devices, Interfaces, OwnerOf, IfaceOwnerOf, Kids, Owned, Height;
    if |s| == 0 {
      GrowEmpty(devs, ifs);
      assert s == [];
    } else {
      ChildrenAreLower(devs, s);
      HeightTail(LongestName(devs), s);
      GrowStep(devs, ifs, s);
      GrownFrom(devs, ifs, ChildrenOf(devs, s[0]));
      GrownFrom(devs, ifs, s[1..]);
      forall d | d in DevSet(Grow(devs, ifs, s)) ensures d in DevMembers(devs) {
        assert d == s[0] || d in DevSet(Grow(devs, ifs, ChildrenOf(devs, s[0]))) || d in DevSet(Grow(devs, ifs, s[1..]));
      }
      forall e | e in IfaceSet(Grow(devs, ifs, s)) ensures e in Members(ifs) {
        assert e in InterfacesOf(devs, ifs, s[0]) || e in IfaceSet(Grow(devs, ifs, ChildrenOf(devs, s[0])))
               || e in IfaceSet(Grow(devs, ifs, s[1..]));
      }
    }
  }

  lemma GrowEmpty(devs: seq<UsbDevice>, ifs: seq<UsbInterface>)
    ensures Grow(devs, ifs, []) == [] && DevSet([]) == {} && IfaceSet([]) == {}
  {
  }

  // ---- The lists in the heap are that forest ----

  lemma GrowCons(devs: seq<UsbDevice>, ifs: seq<UsbInterface>, s: seq<UsbDevice>)
    requires |s| > 0 && forall d :: d in s ==> d in devs
    ensures Grow(devs, ifs, s) ==
            [Tree(s[0], InterfacesOf(devs, ifs, s[0]), Grow(devs, ifs, ChildrenOf(devs, s[0])))] + Grow(devs, ifs, s[1..])
  {
  }

  lemma AllOffered(devs: seq<UsbDevice>, ifs: seq<UsbInterface>, d: UsbDevice)
    requires d in devs
    ensures Offered(devs, ifs, |devs|, 0, OfDevice(d)) == |ifs|
  {
    assert devs[..|devs|] == devs;
  }

  lemma {:induction false} ListsFormForest(devs: seq<UsbDevice>, busses: seq<UsbBus>, ifs: seq<UsbInterface>,
                                           head: UsbDevice?, s: seq<UsbDevice>)
    requires DevLists(devs, busses, |devs|) && IfaceLists(devs, busses, ifs, |devs|, 0)
    requires DevChain(head, s, null) && forall d :: d in s ==> d in devs
    ensures Segment(head, Grow(devs, ifs, s), null)
    decreases Height(LongestName(devs), s), |s|
  {
    hide Grow, Height, OwnerOf, IfaceOwnerOf, Kids, Owned, Offered;
    if |s| == 0 {
      GrowEmpty(devs, ifs);
      assert s == [];
    } else {
      ChildrenAreLower(devs, s);
      HeightTail(LongestName(devs), s);
      GrowCons(devs, ifs, s);
      var kids := ChildrenOf(devs, s[0]);
      assert s[0] in s && s[0] in devs;
      ListsFormForest(devs, busses, ifs, s[0].first_child, kids);
      ListsFormForest(devs, busses, ifs, s[0].next, s[1..]);
      AllOffered(devs, ifs, s[0]);
      SegmentCons(head, Tree(s[0], InterfacesOf(devs, ifs, s[0]), Grow(devs, ifs, kids)), Grow(devs, ifs, s[1..]), null);
    }
  }

  /** After `connect_devices`, what hangs on the root hub of a bus is its forest. */
  lemma BusHoldsForest(devs: seq<UsbDevice>, busses: seq<UsbBus>, ifs: seq<UsbInterface>, b: UsbBus)
    requires DevLists(devs, busses, |devs|) && IfaceLists(devs, busses, ifs, |devs|, 0) && b in busses
    ensures Segment(b.first_child, BusForest(devs, ifs, b.busnum), null)
  {
    hide Grow, OwnerOf, IfaceOwnerOf, Kids, Owned, Offered, IfaceLists;
    assert Linked(b.first_child, devs, |devs|, Root(b.busnum));
    ListsFormForest(devs, busses, ifs, b.first_child, Kids(devs, |devs|, Root(b.busnum)));
  }
}
