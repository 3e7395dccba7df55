/** `connect_devices`: linking the flat lists of devices and interfaces into the tree.

    Which list a device or an interface belongs to depends only on names and numbers;
    the lists are then the selections of the flat lists, in their order. */
module Connect {
  import opened CStrings
  import opened UsbObjects
  import opened Words
  import opened BusList

  // ---- Who owns a device ----

  datatype Owner = Hub(hub: UsbDevice) | Root(busnum: uint32) | Nowhere

  /** The test of `assign_dev_to_parent`: numbers first, then the name of `d` cut at its
      last dot. */
  predicate IsParent(pd: UsbDevice, d: UsbDevice) {
    && pd != d
    && pd.busnum == d.busnum && pd.portnum == d.parent_portnum
    && var dot := Strrchr(d.name, '.'); dot >= 0 && d.name[..dot] == pd.name
  }

  ghost function FirstParent(devs: seq<UsbDevice>, d: UsbDevice): Owner {
    if |devs| == 0 then Nowhere
    else if IsParent(devs[0], d) then Hub(devs[0])
    else FirstParent(devs[1..], d)
  }

  ghost function OwnerOf(devs: seq<UsbDevice>, d: UsbDevice): Owner {
    if d.parent_portnum != 0 then FirstParent(devs, d) else Root(d.busnum)
  }

  /** The devices among the first `n` that `o` owns, in order. */
  ghost function Kids(devs: seq<UsbDevice>, n: nat, o: Owner): (s: seq<UsbDevice>)
    requires n <= |devs|
    ensures forall d :: d in s ==> d in devs
  {
    if n == 0 then []
    else Kids(devs, n - 1, o) + (if OwnerOf(devs, devs[n - 1]) == o then [devs[n - 1]] else [])
  }

  ghost function DevMembers(s: seq<UsbDevice>): set<UsbDevice> { set d | d in s }

  /** `Kids` selects exactly the devices `o` owns. */
  lemma {:induction false} KidsAre(devs: seq<UsbDevice>, n: nat, o: Owner)
    requires n <= |devs|
    ensures forall d :: d in Kids(devs, n, o) <==> d in devs[..n] && OwnerOf(devs, d) == o
  {
    hide OwnerOf;
    if n > 0 {
      KidsAre(devs, n - 1, o);
      assert devs[..n] == devs[..n - 1] + [devs[n - 1]];
    }
  }

  /** The places, among the first `n`, of the devices that `o` owns. */
  ghost predicate OwnedPlaces(devs: seq<UsbDevice>, n: nat, o: Owner, at: seq<nat>)
    requires n <= |devs|
  {
    forall i: nat :: i in at <==> i < n && OwnerOf(devs, devs[i]) == o
  }

  lemma PlacesNext(devs: seq<UsbDevice>, n: nat, o: Owner, at: seq<nat>)
    requires n < |devs| && OwnedPlaces(devs, n, o, at)
    ensures OwnerOf(devs, devs[n]) == o ==> OwnedPlaces(devs, n + 1, o, at + [n])
    ensures OwnerOf(devs, devs[n]) != o ==> OwnedPlaces(devs, n + 1, o, at)
    ensures forall i: nat :: i in at ==> i < n
  {
    hide OwnerOf;
    assert forall i: nat :: i in at + [n] <==> i in at || i == n;
  }

  /** `Kids` takes them from the flat list, in the order of these places. */
  ghost predicate TakenInOrder(devs: seq<UsbDevice>, n: nat, o: Owner, at: seq<nat>)
    requires n <= |devs|
  {
    OwnedPlaces(devs, n, o, at) && SelectedAt(devs, Kids(devs, n, o), at)
  }

  lemma NoneTaken(devs: seq<UsbDevice>, o: Owner)
    ensures TakenInOrder(devs, 0, o, [])
  {
  }

  lemma NextTaken(devs: seq<UsbDevice>, n: nat, o: Owner, at: seq<nat>) returns (next: seq<nat>)
    requires n < |devs| && TakenInOrder(devs, n, o, at)
    ensures TakenInOrder(devs, n + 1, o, next)
  {
    hide OwnerOf, Kids, SelectedAt, OwnedPlaces;
    PlacesNext(devs, n, o, at);
    NextKids(devs, n, o);
    if OwnerOf(devs, devs[n]) == o {
      SelectedNext(devs, Kids(devs, n, o), at, n);
      next := at + [n];
    } else {
      assert Kids(devs, n, o) + [] == Kids(devs, n, o);
      next := at;
    }
  }

  /** Each that an owner owns is taken once, in the order of the flat list. */
  lemma {:induction false} KidsInOrder(devs: seq<UsbDevice>, n: nat, o: Owner)
    requires n <= |devs|
    ensures exists at: seq<nat> :: TakenInOrder(devs, n, o, at)
  {
    hide TakenInOrder, Kids, OwnerOf;
    if n == 0 {
      NoneTaken(devs, o);
    } else {
      KidsInOrder(devs, n - 1, o);
      var at: seq<nat> :| TakenInOrder(devs, n - 1, o, at);
      var next := NextTaken(devs, n - 1, o, at);
      assert TakenInOrder(devs, n, o, next);
    }
  }

  lemma {:induction false} KidsUnique(devs: seq<UsbDevice>, n: nat, o: Owner)
    requires n <= |devs| && Unique(multiset(devs))
    ensures Unique(multiset(Kids(devs, n, o)))
  {
    hide OwnerOf;
    if n > 0 {
      KidsUnique(devs, n - 1, o);
      KidsAre(devs, n - 1, o);
      NotYetSeen(devs, n - 1);
      UniqueSnoc(Kids(devs, n - 1, o), devs[n - 1]);
    }
  }

  lemma UniqueSnoc<T>(s: seq<T>, x: T)
    requires Unique(multiset(s)) && x !in s
    ensures Unique(multiset(s + [x]))
  {
    assert multiset(s + [x]) == multiset(s) + multiset{x};
  }

  lemma DevMembersExist(s: seq<UsbDevice>)
    ensures forall d :: d in DevMembers(s) ==> allocated(d)
  {
  }

  // ---- Chains of devices ----

  ghost predicate DevChain(head: UsbDevice?, s: seq<UsbDevice>, end: UsbDevice?)
    reads DevMembers(s)`next
    decreases |s|
  {
    if |s| == 0 then head == end else head == s[0] && DevChain(s[0].next, s[1..], end)
  }

  lemma {:induction false} DevChainSnoc(head: UsbDevice?, s: seq<UsbDevice>, x: UsbDevice, end: UsbDevice?)
    ensures DevChain(head, s + [x], end) <==> DevChain(head, s, x) && x.next == end
    decreases |s|
  {
    if |s| == 0 {
      assert (s + [x])[1..] == [];
    } else {
      assert (s + [x])[1..] == s[1..] + [x];
      DevChainSnoc(s[0].next, s[1..], x, end);
    }
  }

  lemma DevChainHead(head: UsbDevice?, s: seq<UsbDevice>)
    ensures DevChain(head, s, null) ==> (head == null <==> s == [])
    ensures DevChain(head, s, null) && |s| > 0 ==> head == s[0] && DevChain(s[0].next, s[1..], null)
  {
  }

  /** `append_dev_sibling`: walk to the end of a list that is not empty and link `node` there. */
  method AppendDevSibling(first: UsbDevice, node: UsbDevice, ghost s: seq<UsbDevice>)
    requires |s| > 0 && DevChain(first, s, null) && Unique(multiset(s))
    requires node !in s && node.next == null
    modifies DevMembers(s)`next
    ensures DevChain(first, s + [node], null)
  {
    var d: UsbDevice := first;
    ghost var done: seq<UsbDevice>, rest := [], s[1..];
    assert s == [] + [first] + rest;
    while d.next != null
      invariant s == done + [d] + rest
      invariant DevChain(first, done, d) && DevChain(d.next, rest, null)
      modifies {}
      decreases |rest|
    {
      DevChainHead(d.next, rest);
      DevChainSnoc(first, done, d, d.next);
      assert done + [d] + [rest[0]] + rest[1..] == s;
      done, d, rest := done + [d], d.next, rest[1..];
    }
    DevChainHead(d.next, rest);
    assert s == done + [d];
    assert d !in DevMembers(done) by {
      assert multiset(s) == multiset(done) + multiset{d} && multiset(s)[d] == 1;
    }
    d.next := node;
    DevChainSnoc(first, done, d, node);
    DevChainSnoc(first, s, node, null);
  }

  // ---- The state of all device lists ----

  /** The first `n` devices have been linked: every list of children is the selection
      of its owner, and the devices still to come are loose. */
  ghost predicate DevLists(devs: seq<UsbDevice>, busses: seq<UsbBus>, n: nat)
    requires n <= |devs|
    reads DevMembers(devs)`next, DevMembers(devs)`first_child, busses`first_child
  {
    && (forall p :: p in devs ==> Linked(p.first_child, devs, n, Hub(p)))
    && (forall b :: b in busses ==> Linked(b.first_child, devs, n, Root(b.busnum)))
    && (forall k :: n <= k < |devs| ==> devs[k].next == null)
  }

  ghost predicate Linked(head: UsbDevice?, devs: seq<UsbDevice>, n: nat, o: Owner)
    requires n <= |devs|
    reads DevMembers(devs)`next
  {
    DevChain(head, Kids(devs, n, o), null)
  }

  lemma KidsSubset(devs: seq<UsbDevice>, n: nat, o: Owner)
    requires n <= |devs|
    ensures DevMembers(Kids(devs, n, o)) <= DevMembers(devs)
  {
    KidsAre(devs, n, o);
  }

  ghost predicate DistinctBusses(busses: seq<UsbBus>) {
    forall i, j :: 0 <= i < j < |busses| ==> busses[i] != busses[j] && busses[i].busnum != busses[j].busnum
  }

  // ---- Linking one device ----

  /** What the list of `o` is after device `n` has been looked at. */
  lemma NextKids(devs: seq<UsbDevice>, n: nat, o: Owner)
    requires n < |devs|
    ensures Kids(devs, n + 1, o) == Kids(devs, n, o) + (if OwnerOf(devs, devs[n]) == o then [devs[n]] else [])
  {
  }

  lemma NotYetSeen(devs: seq<UsbDevice>, n: nat)
    requires n < |devs| && Unique(multiset(devs))
    ensures devs[n] !in devs[..n]
  {
    var last := devs[n];
    assert devs == devs[..n] + [last] + devs[n + 1..];
    assert multiset(devs) == multiset(devs[..n]) + multiset{last} + multiset(devs[n + 1..]);
    assert multiset(devs)[last] == 1;
  }

  lemma KidsApart(devs: seq<UsbDevice>, n: nat, o: Owner)
    requires n < |devs| && Unique(multiset(devs))
    ensures devs[n] !in Kids(devs, n, o) && Unique(multiset(Kids(devs, n, o)))
  {
    hide Kids, OwnerOf;
    KidsUnique(devs, n, o);
    KidsAre(devs, n, o);
    NotYetSeen(devs, n);
  }

  /** No device is in the lists of two owners. */
  lemma ListsApart(devs: seq<UsbDevice>, n: nat, o: Owner, o': Owner)
    requires n <= |devs| && o != o'
    ensures DevMembers(Kids(devs, n, o)) !! DevMembers(Kids(devs, n, o'))
  {
    hide Kids, OwnerOf;
    KidsAre(devs, n, o);
    KidsAre(devs, n, o');
    forall d | d in DevMembers(Kids(devs, n, o)) ensures d !in DevMembers(Kids(devs, n, o')) {
      assert d in Kids(devs, n, o);
    }
  }

  /** Link device `n` at the end of the list that starts at `head`, the list of its
      owner `o`; `head'` is the head of that list afterwards. */
  method LinkChild(head: UsbDevice?, d: UsbDevice, ghost devs: seq<UsbDevice>, ghost n: nat, ghost o: Owner)
    returns (head': UsbDevice)
    requires n < |devs| && d == devs[n] && Unique(multiset(devs)) && OwnerOf(devs, d) == o
    requires Linked(head, devs, n, o) && d.next == null
    modifies DevMembers(Kids(devs, n, o))`next
    ensures Linked(head', devs, n + 1, o)
    ensures head != null ==> head' == head
  {
    NextKids(devs, n, o);
    KidsApart(devs, n, o);
    ghost var s := Kids(devs, n, o);
    hide Kids, OwnerOf;
    DevChainHead(head, s);
    if head != null {
      AppendDevSibling(head, d, s);
      head' := head;
    } else {
      head' := d;
      assert DevChain(d, [d], null);
      assert [] + [d] == [d];
    }
  }

  /** The selection of an owner other than `o` does not change with device `n`, and
      shares no device with that of `o`. */
  lemma OtherKids(devs: seq<UsbDevice>, n: nat, o: Owner, o': Owner)
    requires n < |devs| && o != o' && OwnerOf(devs, devs[n]) == o
    ensures Kids(devs, n + 1, o') == Kids(devs, n, o')
    ensures forall d :: d in DevMembers(Kids(devs, n, o')) ==> d in devs && d !in Kids(devs, n, o)
  {
    hide Kids, OwnerOf;
    NextKids(devs, n, o');
    ListsApart(devs, n, o, o');
    KidsSubset(devs, n, o');
    assert Kids(devs, n, o') + [] == Kids(devs, n, o');
    forall d | d in DevMembers(Kids(devs, n, o')) ensures d in devs && d !in Kids(devs, n, o) {
      assert d in DevMembers(devs) && d !in DevMembers(Kids(devs, n, o));
    }
  }

  lemma LooseKept(devs: seq<UsbDevice>, n: nat, o: Owner)
    requires n < |devs| && Unique(multiset(devs))
    ensures forall k :: n < k < |devs| ==> devs[k] !in Kids(devs, n, o)
  {
    KidsAre(devs, n, o);
    forall k | n < k < |devs| ensures devs[k] !in devs[..n] {
      NotYetSeen(devs, k);
      assert devs[..n] <= devs[..k];
    }
  }

  /** `d` hangs on the hub `hub`. */
  method AttachToHub(hub: UsbDevice, d: UsbDevice, ghost devs: seq<UsbDevice>, ghost busses: seq<UsbBus>, ghost n: nat)
    requires n < |devs| && d == devs[n] && Unique(multiset(devs)) && DevLists(devs, busses, n)
    requires OwnerOf(devs, d) == Hub(hub) && hub in devs
    modifies DevMembers(devs)`next, hub`first_child
    ensures DevLists(devs, busses, n + 1)
  {
    hide Kids, OwnerOf;
    ghost var o := Hub(hub);
    KidsSubset(devs, n, o);
    hub.first_child := LinkChild(hub.first_child, d, devs, n, o);
    forall p | p in devs && p != hub ensures Linked(p.first_child, devs, n + 1, Hub(p)) {
      OtherKids(devs, n, o, Hub(p));
      assert old(DevChain(p.first_child, Kids(devs, n, Hub(p)), null));
    }
    forall b | b in busses ensures Linked(b.first_child, devs, n + 1, Root(b.busnum)) {
      OtherKids(devs, n, o, Root(b.busnum));
      assert old(Linked(b.first_child, devs, n, Root(b.busnum)));
      assert old(DevChain(b.first_child, Kids(devs, n, Root(b.busnum)), null));
    }
    LooseKept(devs, n, o);
  }

  /** `d` hangs on the root hub of the bus `bus`. */
  method AttachToBus(bus: UsbBus, d: UsbDevice, ghost devs: seq<UsbDevice>, ghost busses: seq<UsbBus>, ghost n: nat)
    requires n < |devs| && d == devs[n] && Unique(multiset(devs)) && DevLists(devs, busses, n)
    requires OwnerOf(devs, d) == Root(bus.busnum) && bus in busses && DistinctBusses(busses)
    modifies DevMembers(devs)`next, bus`first_child
    ensures DevLists(devs, busses, n + 1)
  {
    hide Kids, OwnerOf;
    ghost var o := Root(bus.busnum);
    KidsSubset(devs, n, o);
    bus.first_child := LinkChild(bus.first_child, d, devs, n, o);
    forall p | p in devs ensures Linked(p.first_child, devs, n + 1, Hub(p)) {
      OtherKids(devs, n, o, Hub(p));
      assert old(DevChain(p.first_child, Kids(devs, n, Hub(p)), null));
    }
    forall b | b in busses && b != bus ensures Linked(b.first_child, devs, n + 1, Root(b.busnum)) {
      OtherKids(devs, n, o, Root(b.busnum));
      assert old(Linked(b.first_child, devs, n, Root(b.busnum)));
      assert old(DevChain(b.first_child, Kids(devs, n, Root(b.busnum)), null));
    }
    LooseKept(devs, n, o);
  }

  /** Nothing changes when no list takes device `n`. */
  lemma NotLinked(devs: seq<UsbDevice>, busses: seq<UsbBus>, n: nat)
    requires n < |devs| && DevLists(devs, busses, n)
    requires forall p :: p in devs ==> OwnerOf(devs, devs[n]) != Hub(p)
    requires forall b :: b in busses ==> OwnerOf(devs, devs[n]) != Root(b.busnum)
    ensures DevLists(devs, busses, n + 1)
  {
    hide OwnerOf;
    forall p | p in devs ensures Linked(p.first_child, devs, n + 1, Hub(p)) {
      NextKids(devs, n, Hub(p));
      assert Kids(devs, n, Hub(p)) + [] == Kids(devs, n, Hub(p));
    }
    forall b | b in busses ensures Linked(b.first_child, devs, n + 1, Root(b.busnum)) {
      NextKids(devs, n, Root(b.busnum));
      assert Kids(devs, n, Root(b.busnum)) + [] == Kids(devs, n, Root(b.busnum));
    }
  }

  lemma {:induction false} FirstParentIn(devs: seq<UsbDevice>, d: UsbDevice)
    ensures var o := FirstParent(devs, d);
      if o.Hub? then o.hub in devs && IsParent(o.hub, d) else o == Nowhere && forall p :: p in devs ==> !IsParent(p, d)
  {
    if |devs| > 0 && !IsParent(devs[0], d) {
      FirstParentIn(devs[1..], d);
      forall p | p in devs ensures p == devs[0] || p in devs[1..] {
        assert devs == [devs[0]] + devs[1..];
      }
    }
  }

  /** A name is `front`, a dot, and `last` without a dot. */
  predicate Joins(name: string, front: string, last: string) { name == front + "." + last && '.' !in last }

  lemma JoinedAtDot(name: string, front: string, last: string)
    requires Joins(name, front, last)
    ensures Strrchr(name, '.') == |front| && name[..|front|] == front
  {
    assert name[|front|] == '.';
    assert forall k :: |front| < k < |name| ==> name[k] == last[k - |front| - 1];
  }

  lemma CutAtDot(name: string)
    ensures var dot := Strrchr(name, '.'); dot >= 0 ==> Joins(name, name[..dot], name[dot + 1..])
  {
    var dot := Strrchr(name, '.');
    if dot >= 0 {
      assert name == name[..dot] + [name[dot]] + name[dot + 1..];
    }
  }

  /** The test of a parent, without cutting: same bus, the port of the one is the parent's port of
      the other, and the name goes on with a dot and one more port. */
  lemma IsParentIs(pd: UsbDevice, d: UsbDevice)
    ensures IsParent(pd, d) <==>
              && pd != d && pd.busnum == d.busnum && pd.portnum == d.parent_portnum
              && exists last: string :: Joins(d.name, pd.name, last)
  {
    hide Joins;
    CutAtDot(d.name);
    if last: string :| Joins(d.name, pd.name, last) {
      JoinedAtDot(d.name, pd.name, last);
    }
  }

  /** Device `j` owns `d` exactly if `d` has a parent's port and `j` is the first that passes the
      test; the root hub of its bus owns it exactly if it has none. */
  lemma OwnerIs(devs: seq<UsbDevice>, d: UsbDevice)
    ensures d.parent_portnum == 0 ==> OwnerOf(devs, d) == Root(d.busnum)
    ensures d.parent_portnum != 0 ==>
              && (forall j: nat :: j < |devs| && IsParent(devs[j], d) && (forall i: nat :: i < j ==> !IsParent(devs[i], d)) ==>
                    OwnerOf(devs, d) == Hub(devs[j]))
              && ((forall j: nat :: j < |devs| ==> !IsParent(devs[j], d)) ==> OwnerOf(devs, d) == Nowhere)
  {
    hide IsParent;
    forall j: nat | j < |devs| && IsParent(devs[j], d) && (forall i: nat :: i < j ==> !IsParent(devs[i], d))
      ensures FirstParent(devs, d) == Hub(devs[j])
    {
      FirstParentIs(devs, d, j);
    }
    if forall j: nat :: j < |devs| ==> !IsParent(devs[j], d) {
      NoParent(devs, d);
    }
  }

  lemma {:induction false} FirstParentIs(devs: seq<UsbDevice>, d: UsbDevice, j: nat)
    requires j < |devs| && IsParent(devs[j], d)
    requires forall i :: 0 <= i < j ==> !IsParent(devs[i], d)
    ensures FirstParent(devs, d) == Hub(devs[j])
  {
    hide IsParent;
    if j > 0 {
      FirstParentIs(devs[1..], d, j - 1);
    }
  }

  lemma {:induction false} NoParent(devs: seq<UsbDevice>, d: UsbDevice)
    requires forall i :: 0 <= i < |devs| ==> !IsParent(devs[i], d)
    ensures FirstParent(devs, d) == Nowhere
  {
    hide IsParent;
    if |devs| > 0 {
      NoParent(devs[1..], d);
    }
  }

  /** `assign_dev_to_parent`: the first device that passes the test takes `d`. */
  method AssignDevToParent(d: UsbDevice, devs: seq<UsbDevice>, ghost busses: seq<UsbBus>, ghost n: nat)
    requires n < |devs| && d == devs[n] && Unique(multiset(devs)) && DevLists(devs, busses, n)
    requires d.parent_portnum != 0
    modifies DevMembers(devs)`next, DevMembers(devs)`first_child, d`parent
    ensures DevLists(devs, busses, n + 1)
    ensures d.parent == match OwnerOf(devs, d) case Hub(p) => p case _ => old(d.parent)
  {
    var i := 0;
    FirstParentIn(devs, d);
    assert devs[0..] == devs;
    while i < |devs|
      invariant i <= |devs| && FirstParent(devs, d) == FirstParent(devs[i..], d)
      invariant DevLists(devs, busses, n) && d.parent == old(d.parent)
    {
      var pd := devs[i];
      assert devs[i..][0] == pd && devs[i..][1..] == devs[i + 1..];
      if IsParent(pd, d) {
        d.parent := pd;
        AttachToHub(pd, d, devs, busses, n);
        return;
      }
      i := i + 1;
    }
    NotLinked(devs, busses, n);
  }

  /** `assign_dev_to_bus`: every bus with the number of `d` takes it; there is at most one. */
  method AssignDevToBus(d: UsbDevice, table: BusTable, ghost devs: seq<UsbDevice>, ghost n: nat)
    requires n < |devs| && d == devs[n] && Unique(multiset(devs))
    requires table.Valid() && DistinctBusses(table.Busses) && DevLists(devs, table.Busses, n)
    requires d.parent_portnum == 0
    modifies DevMembers(devs)`next, table.Busses`first_child
    ensures table.Valid() && DevLists(devs, table.Busses, n + 1)
  {
    var b := table.usbbuslist;
    ghost var i, taken := 0, false;
    while b != null
      invariant 0 <= i <= |table.Busses| && table.Valid()
      invariant b == (if i < |table.Busses| then table.Busses[i] else null)
      invariant !taken ==> DevLists(devs, table.Busses, n) && forall k :: 0 <= k < i ==> table.Busses[k].busnum != d.busnum
      invariant taken ==> DevLists(devs, table.Busses, n + 1) && exists k :: 0 <= k < i && table.Busses[k].busnum == d.busnum
      decreases |table.Busses| - i
    {
      if b.busnum == d.busnum {
        assert !taken;
        AttachToBus(b, d, devs, table.Busses, n);
        taken := true;
      }
      b := b.next;
      i := i + 1;
    }
    if !taken {
      NotLinked(devs, table.Busses, n);
    }
  }
}
