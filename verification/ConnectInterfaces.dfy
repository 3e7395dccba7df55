/** The interface half of `connect_devices`.

    Every pass over the devices looks at every interface that has no parent yet, so the
    same interface is offered to the same root hub many times; it is linked once. */
module ConnectInterfaces {
  import opened CStrings
  import opened UsbObjects
  import opened BusList

  // ---- Who owns an interface ----

  datatype IfaceOwner = OfDevice(dev: UsbDevice) | OfRootHub(busnum: nat) | Unowned

  /** The part of an interface name before its colon spells a root hub: `bus-0`. */
  predicate NamesRootHub(s: string) {
    var (_, pn) := Strtoul(s, 0);
    0 < pn && pn + 1 < |s| && s[pn + 1] == '0'
  }

  function BusOf(s: string): nat { Strtoul(s, 0).0 % 0x1_0000_0000 }

  ghost function FirstNamed(devs: seq<UsbDevice>, s: string): IfaceOwner {
    if |devs| == 0 then Unowned
    else if devs[0].name == s then OfDevice(devs[0])
    else FirstNamed(devs[1..], s)
  }

  ghost function IfaceOwnerOf(devs: seq<UsbDevice>, e: UsbInterface): IfaceOwner {
    var colon := Strchr(e.name, ':');
    if colon < 0 then Unowned
    else
      var s := e.name[..colon];
      if FirstNamed(devs, s).OfDevice? then FirstNamed(devs, s)
      else if NamesRootHub(s) then OfRootHub(BusOf(s))
      else Unowned
  }

  /** The interfaces among the first `n` that `o` owns, in order. */
  ghost function Owned(devs: seq<UsbDevice>, ifs: seq<UsbInterface>, n: nat, o: IfaceOwner): (s: seq<UsbInterface>)
    requires n <= |ifs|
    ensures forall e :: e in s ==> e in ifs
  {
    if n == 0 then []
    else Owned(devs, ifs, n - 1, o) + (if IfaceOwnerOf(devs, ifs[n - 1]) == o then [ifs[n - 1]] else [])
  }

  lemma {:induction false} OwnedAre(devs: seq<UsbDevice>, ifs: seq<UsbInterface>, n: nat, o: IfaceOwner)
    requires n <= |ifs|
    ensures forall e :: e in Owned(devs, ifs, n, o) <==> e in ifs[..n] && IfaceOwnerOf(devs, e) == o
  {
    hide IfaceOwnerOf;
    if n > 0 {
      OwnedAre(devs, ifs, n - 1, o);
      assert ifs[..n] == ifs[..n - 1] + [ifs[n - 1]];
    }
  }

  /** The places, among the first `n`, of the interfaces that `o` owns. */
  ghost predicate OwnedPlaces(devs: seq<UsbDevice>, ifs: seq<UsbInterface>, n: nat, o: IfaceOwner, at: seq<nat>)
    requires n <= |ifs|
  {
    forall i: nat :: i in at <==> i < n && IfaceOwnerOf(devs, ifs[i]) == o
  }

  lemma PlacesNext(devs: seq<UsbDevice>, ifs: seq<UsbInterface>, n: nat, o: IfaceOwner, at: seq<nat>)
    requires n < |ifs| && OwnedPlaces(devs, ifs, n, o, at)
    ensures IfaceOwnerOf(devs, ifs[n]) == o ==> OwnedPlaces(devs, ifs, n + 1, o, at + [n])
    ensures IfaceOwnerOf(devs, ifs[n]) != o ==> OwnedPlaces(devs, ifs, n + 1, o, at)
    ensures forall i: nat :: i in at ==> i < n
  {
    hide IfaceOwnerOf;
    assert forall i: nat :: i in at + [n] <==> i in at || i == n;
  }

  /** `Owned` takes them from the flat list, in the order of these places. */
  ghost predicate TakenInOrder(devs: seq<UsbDevice>, ifs: seq<UsbInterface>, n: nat, o: IfaceOwner, at: seq<nat>)
    requires n <= |ifs|
  {
    OwnedPlaces(devs, ifs, n, o, at) && SelectedAt(ifs, Owned(devs, ifs, n, o), at)
  }

  lemma NoneTaken(devs: seq<UsbDevice>, ifs: seq<UsbInterface>, o: IfaceOwner)
    ensures TakenInOrder(devs, ifs, 0, o, [])
  {
  }

  lemma NextTaken(devs: seq<UsbDevice>, ifs: seq<UsbInterface>, n: nat, o: IfaceOwner, at: seq<nat>) returns (next: seq<nat>)
    requires n < |ifs| && TakenInOrder(devs, ifs, n, o, at)
    ensures TakenInOrder(devs, ifs, n + 1, o, next)
  {
    hide IfaceOwnerOf, Owned, SelectedAt, OwnedPlaces;
    PlacesNext(devs, ifs, n, o, at);
    NextOwned(devs, ifs, n, o);
    if IfaceOwnerOf(devs, ifs[n]) == o {
      SelectedNext(ifs, Owned(devs, ifs, n, o), at, n);
      next := at + [n];
    } else {
      assert Owned(devs, ifs, n, o) + [] == Owned(devs, ifs, n, o);
      next := at;
    }
  }

  /** Each that an owner owns is taken once, in the order of the flat list. */
  lemma {:induction false} OwnedInOrder(devs: seq<UsbDevice>, ifs: seq<UsbInterface>, n: nat, o: IfaceOwner)
    requires n <= |ifs|
    ensures exists at: seq<nat> :: TakenInOrder(devs, ifs, n, o, at)
  {
    hide TakenInOrder, Owned, IfaceOwnerOf;
    if n == 0 {
      NoneTaken(devs, ifs, o);
    } else {
      OwnedInOrder(devs, ifs, n - 1, o);
      var at: seq<nat> :| TakenInOrder(devs, ifs, n - 1, o, at);
      var next := NextTaken(devs, ifs, n - 1, o, at);
      assert TakenInOrder(devs, ifs, n, o, next);
    }
  }

  lemma NextOwned(devs: seq<UsbDevice>, ifs: seq<UsbInterface>, n: nat, o: IfaceOwner)
    requires n < |ifs|
    ensures Owned(devs, ifs, n + 1, o)
         == Owned(devs, ifs, n, o) + (if IfaceOwnerOf(devs, ifs[n]) == o then [ifs[n]] else [])
    ensures IfaceOwnerOf(devs, ifs[n]) != o ==> Owned(devs, ifs, n + 1, o) == Owned(devs, ifs, n, o)
  {
  }

  lemma NotYetSeen(ifs: seq<UsbInterface>, n: nat)
    requires n < |ifs| && Unique(multiset(ifs))
    ensures ifs[n] !in ifs[..n]
  {
    assert ifs == ifs[..n] + [ifs[n]] + ifs[n + 1..];
    assert multiset(ifs) == multiset(ifs[..n]) + multiset{ifs[n]} + multiset(ifs[n + 1..]);
    assert multiset(ifs)[ifs[n]] == 1;
  }

  lemma {:induction false} OwnedUnique(devs: seq<UsbDevice>, ifs: seq<UsbInterface>, n: nat, o: IfaceOwner)
    requires n <= |ifs| && Unique(multiset(ifs))
    ensures Unique(multiset(Owned(devs, ifs, n, o)))
  {
    hide IfaceOwnerOf;
    if n > 0 {
      OwnedUnique(devs, ifs, n - 1, o);
      OwnedAre(devs, ifs, n - 1, o);
      NotYetSeen(ifs, n - 1);
      var s, x := Owned(devs, ifs, n - 1, o), ifs[n - 1];
      assert multiset(s + [x]) == multiset(s) + multiset{x};
    }
  }

  /** No interface is selected for two owners. */
  lemma OwnersApart(devs: seq<UsbDevice>, ifs: seq<UsbInterface>, n: nat, o: IfaceOwner, n': nat, o': IfaceOwner)
    requires n <= |ifs| && n' <= |ifs| && o != o'
    ensures Members(Owned(devs, ifs, n, o)) !! Members(Owned(devs, ifs, n', o'))
  {
    hide Owned, IfaceOwnerOf;
    OwnedAre(devs, ifs, n, o);
    OwnedAre(devs, ifs, n', o');
    forall e | e in Members(Owned(devs, ifs, n, o)) ensures e !in Members(Owned(devs, ifs, n', o')) {
      assert e in Owned(devs, ifs, n, o);
    }
  }

  // ---- Appending ----

  lemma IfaceHead(head: UsbInterface?, s: seq<UsbInterface>)
    ensures IfaceSegment(head, s, null) ==> (head == null <==> s == [])
    ensures IfaceSegment(head, s, null) && |s| > 0 ==> head == s[0] && IfaceSegment(s[0].next, s[1..], null)
  {
  }

  /** `append_dev_interface`: walk to the end and link `node` there, unless it is met on
      the way. */
  method AppendDevInterface(first: UsbInterface, node: UsbInterface, ghost s: seq<UsbInterface>)
    requires |s| > 0 && IfaceSegment(first, s, null) && Unique(multiset(s))
    requires node !in s ==> node.next == null
    modifies Members(s)`next
    ensures IfaceSegment(first, if node in s then s else s + [node], null)
    ensures node in s ==> forall e :: e in s ==> e.next == old(e.next)
  {
    hide IfaceSegment, Unique;
    IfaceHead(first, s);
    NoneBefore(first);
    var i: UsbInterface := first;
    ghost var done: seq<UsbInterface>, rest := [], s[1..];
    assert s == [] + [first] + rest;
    while i.next != null
      invariant s == done + [i] + rest && node !in done
      invariant IfaceSegment(first, done, i) && IfaceSegment(i.next, rest, null)
      modifies {}
      decreases |rest|
    {
      if i == node {
        InMiddle(done, i, rest);
        return;
      }
      IfaceHead(i.next, rest);
      IfaceSegmentSnoc(first, done, i, i.next);
      MoveOn(done, i, rest);
      done, i, rest := done + [i], i.next, rest[1..];
    }
    IfaceHead(i.next, rest);
    InMiddle(done, i, rest);
    if i == node {
      return;
    }
    assert s == done + [i];
    LinkLast(first, i, node, done, s);
  }

  lemma InMiddle(done: seq<UsbInterface>, i: UsbInterface, rest: seq<UsbInterface>)
    ensures i in done + [i] + rest
    ensures forall x :: x in done + [i] <==> x in done || x == i
  {
    assert (done + [i] + rest)[|done|] == i;
  }

  lemma MoveOn(done: seq<UsbInterface>, i: UsbInterface, rest: seq<UsbInterface>)
    requires |rest| > 0
    ensures done + [i] + rest == (done + [i]) + [rest[0]] + rest[1..]
  {
  }

  lemma NoneBefore(first: UsbInterface)
    ensures IfaceSegment(first, [], first)
  {
  }

  /** Links `node` behind the last interface `i`. */
  method LinkLast(
      first: UsbInterface, i: UsbInterface, node: UsbInterface, ghost done: seq<UsbInterface>, ghost s: seq<UsbInterface>)
    requires IfaceSegment(first, done, i) && s == done + [i] && Unique(multiset(s)) && node != i && node.next == null
    modifies i`next
    ensures IfaceSegment(first, s + [node], null)
  {
    assert i !in Members(done) by {
      assert multiset(s) == multiset(done) + multiset{i} && multiset(s)[i] == 1;
    }
    i.next := node;
    IfaceSegmentSnoc(first, done, i, node);
    IfaceSegmentSnoc(first, s, node, null);
  }

  // ---- The state of all interface lists ----

  /** How many of the interfaces the owner `o` has been offered when the passes of the
      first `i` devices are over and that of device `i` has come to interface `j`. */
  ghost function Offered(devs: seq<UsbDevice>, ifs: seq<UsbInterface>, i: nat, j: nat, o: IfaceOwner): (n: nat)
    requires i <= |devs| && j <= |ifs|
    ensures n <= |ifs|
  {
    match o
    case OfDevice(d) => if d in devs[..i] then |ifs| else if i < |devs| && d == devs[i] then j else 0
    case OfRootHub(_) => if i > 0 then |ifs| else j
    case Unowned => 0
  }

  ghost predicate Holds(head: UsbInterface?, devs: seq<UsbDevice>, ifs: seq<UsbInterface>, n: nat, o: IfaceOwner)
    requires n <= |ifs|
    reads Members(ifs)`next
  {
    IfaceSegment(head, Owned(devs, ifs, n, o), null)
  }

  /** The `parent` of interface `k` at that point. */
  ghost function ParentOf(devs: seq<UsbDevice>, ifs: seq<UsbInterface>, i: nat, j: nat, k: nat): UsbDevice?
    requires i <= |devs| && j <= |ifs| && k < |ifs|
  {
    var o := IfaceOwnerOf(devs, ifs[k]);
    if o.OfDevice? && k < Offered(devs, ifs, i, j, o) then o.dev else null
  }

  ghost predicate IfaceLists(devs: seq<UsbDevice>, busses: seq<UsbBus>, ifs: seq<UsbInterface>, i: nat, j: nat)
    requires i <= |devs| && j <= |ifs|
    reads Members(ifs)`next, Members(ifs)`parent, devs`first_interface, busses`first_interface
  {
    && (forall d :: d in devs ==>
          Holds(d.first_interface, devs, ifs, Offered(devs, ifs, i, j, OfDevice(d)), OfDevice(d)))
    && (forall b :: b in busses ==>
          Holds(b.first_interface, devs, ifs, Offered(devs, ifs, i, j, OfRootHub(b.busnum)), OfRootHub(b.busnum)))
    && (forall k :: 0 <= k < |ifs| ==> ifs[k].parent == ParentOf(devs, ifs, i, j, k))
    && (forall k :: 0 <= k < |ifs| && Offered(devs, ifs, i, j, IfaceOwnerOf(devs, ifs[k])) <= k ==> ifs[k].next == null)
  }

  // ---- Offering one interface to one device ----

  /** How far the offers of the other owners have come when interface `j` is passed. */
  lemma OfferedNext(devs: seq<UsbDevice>, ifs: seq<UsbInterface>, i: nat, j: nat, o: IfaceOwner)
    requires i < |devs| && j < |ifs| && Unique(multiset(devs))
    ensures devs[i] !in devs[..i]
    ensures Offered(devs, ifs, i, j + 1, o) ==
            if o == OfDevice(devs[i]) || (o.OfRootHub? && i == 0) then j + 1 else Offered(devs, ifs, i, j, o)
    ensures o == OfDevice(devs[i]) || (o.OfRootHub? && i == 0) ==> Offered(devs, ifs, i, j, o) == j
  {
    assert devs == devs[..i] + [devs[i]] + devs[i + 1..];
    assert multiset(devs) == multiset(devs[..i]) + multiset{devs[i]} + multiset(devs[i + 1..]);
    assert multiset(devs)[devs[i]] == 1;
  }

  /** The list of an owner that does not own interface `j` is the same after it. */
  lemma SameOwned(devs: seq<UsbDevice>, ifs: seq<UsbInterface>, i: nat, j: nat, o: IfaceOwner)
    requires i < |devs| && j < |ifs| && Unique(multiset(devs))
    requires IfaceOwnerOf(devs, ifs[j]) != o || Offered(devs, ifs, i, j + 1, o) == Offered(devs, ifs, i, j, o)
    ensures Owned(devs, ifs, Offered(devs, ifs, i, j + 1, o), o) == Owned(devs, ifs, Offered(devs, ifs, i, j, o), o)
  {
    hide Owned, IfaceOwnerOf, Offered;
    OfferedNext(devs, ifs, i, j, o);
    if Offered(devs, ifs, i, j + 1, o) != Offered(devs, ifs, i, j, o) {
      NextOwned(devs, ifs, j, o);
    }
  }

  /** The `parent` fields after interface `j`, but for its own. */
  lemma SameParents(devs: seq<UsbDevice>, ifs: seq<UsbInterface>, i: nat, j: nat, k: nat)
    requires i < |devs| && j < |ifs| && k < |ifs| && Unique(multiset(devs))
    requires k != j || IfaceOwnerOf(devs, ifs[j]) != OfDevice(devs[i])
    ensures ParentOf(devs, ifs, i, j + 1, k) == ParentOf(devs, ifs, i, j, k)
  {
    hide Owned, IfaceOwnerOf, Offered;
    OfferedNext(devs, ifs, i, j, IfaceOwnerOf(devs, ifs[k]));
  }

  /** Nothing happens when interface `j` is not for the device at hand and, in the
      first pass, for no root hub either. */
  lemma NotTaken(devs: seq<UsbDevice>, busses: seq<UsbBus>, ifs: seq<UsbInterface>, i: nat, j: nat)
    requires i < |devs| && j < |ifs| && Unique(multiset(devs))
    requires IfaceLists(devs, busses, ifs, i, j)
    requires IfaceOwnerOf(devs, ifs[j]) != OfDevice(devs[i])
    requires i > 0 || forall b :: b in busses ==> IfaceOwnerOf(devs, ifs[j]) != OfRootHub(b.busnum)
    ensures IfaceLists(devs, busses, ifs, i, j + 1)
  {
    hide Owned, IfaceOwnerOf, Offered, ParentOf;
    forall d | d in devs
      ensures Holds(d.first_interface, devs, ifs, Offered(devs, ifs, i, j + 1, OfDevice(d)), OfDevice(d))
    {
      OfferedNext(devs, ifs, i, j, OfDevice(d));
      SameOwned(devs, ifs, i, j, OfDevice(d));
    }
    forall b | b in busses
      ensures Holds(b.first_interface, devs, ifs, Offered(devs, ifs, i, j + 1, OfRootHub(b.busnum)), OfRootHub(b.busnum))
    {
      OfferedNext(devs, ifs, i, j, OfRootHub(b.busnum));
      SameOwned(devs, ifs, i, j, OfRootHub(b.busnum));
    }
    forall k | 0 <= k < |ifs| ensures ifs[k].parent == ParentOf(devs, ifs, i, j + 1, k) {
      SameParents(devs, ifs, i, j, k);
    }
    forall k | 0 <= k < |ifs| && Offered(devs, ifs, i, j + 1, IfaceOwnerOf(devs, ifs[k])) <= k
      ensures ifs[k].next == null
    {
      OfferedNext(devs, ifs, i, j, IfaceOwnerOf(devs, ifs[k]));
    }
  }

  lemma OwnedHas(devs: seq<UsbDevice>, ifs: seq<UsbInterface>, n: nat, j: nat, o: IfaceOwner)
    requires n <= |ifs| && j < |ifs| && Unique(multiset(ifs)) && IfaceOwnerOf(devs, ifs[j]) == o
    requires n == j || j < n
    ensures ifs[j] in Owned(devs, ifs, n, o) <==> j < n
  {
    hide Owned, IfaceOwnerOf;
    OwnedAre(devs, ifs, n, o);
    NotYetSeen(ifs, j);
    if j < n { assert ifs[..n][j] == ifs[j]; }
  }

  /** Offer `e`, interface `j`, to the list `head` of its owner, which has been offered
      `n` interfaces: if `e` is not among them it is linked at the end, else nothing
      changes. */
  method LinkInterface(head: UsbInterface?, e: UsbInterface, ghost devs: seq<UsbDevice>,
                       ghost ifs: seq<UsbInterface>, ghost n: nat, ghost j: nat, ghost o: IfaceOwner)
    returns (head': UsbInterface)
    requires j < |ifs| && n <= |ifs| && e == ifs[j] && Unique(multiset(ifs)) && IfaceOwnerOf(devs, e) == o
    requires Holds(head, devs, ifs, n, o) && ((n == j && e.next == null) || j < n)
    modifies Members(Owned(devs, ifs, n, o))`next
    ensures n == j ==> Holds(head', devs, ifs, j + 1, o)
    ensures j < n ==> head' == head && forall x :: x in ifs ==> x.next == old(x.next)
  {
    NextOwned(devs, ifs, j, o);
    OwnedUnique(devs, ifs, n, o);
    OwnedHas(devs, ifs, n, j, o);
    ghost var s := Owned(devs, ifs, n, o);
    hide Owned, IfaceOwnerOf;
    IfaceHead(head, s);
    if head != null {
      AppendDevInterface(head, e, s);
      head' := head;
    } else {
      head' := e;
      assert IfaceSegment(e, [e], null);
      assert [] + [e] == [e];
    }
  }

  lemma LooseKept(devs: seq<UsbDevice>, ifs: seq<UsbInterface>, n: nat, o: IfaceOwner, k: nat)
    requires n <= |ifs| && k < |ifs| && Unique(multiset(ifs))
    requires ifs[k] in Owned(devs, ifs, n, o)
    ensures k < n && IfaceOwnerOf(devs, ifs[k]) == o
  {
    hide IfaceOwnerOf;
    assert k >= n ==> ifs[k] !in ifs[..n] by {
      if k >= n {
        NotYetSeen(ifs, k);
        assert ifs[..n] <= ifs[..k];
      }
    }
    OwnedAre(devs, ifs, n, o);
  }

  /** `e` belongs to the device at hand. */
  method LinkToDevice(d: UsbDevice, e: UsbInterface, ghost devs: seq<UsbDevice>, ghost busses: seq<UsbBus>,
                      ghost ifs: seq<UsbInterface>, ghost i: nat, ghost j: nat)
    requires i < |devs| && j < |ifs| && d == devs[i] && e == ifs[j]
    requires Unique(multiset(devs)) && Unique(multiset(ifs))
    requires IfaceLists(devs, busses, ifs, i, j) && IfaceOwnerOf(devs, e) == OfDevice(d)
    modifies Members(ifs)`next, e`parent, d`first_interface
    ensures IfaceLists(devs, busses, ifs, i, j + 1)
  {
    hide Owned, IfaceOwnerOf, Offered, ParentOf;
    ghost var o := OfDevice(d);
    OfferedNext(devs, ifs, i, j, o);
    e.parent := d;
    d.first_interface := LinkInterface(d.first_interface, e, devs, ifs, j, j, o);
    forall d' | d' in devs && d' != d
      ensures Holds(d'.first_interface, devs, ifs, Offered(devs, ifs, i, j + 1, OfDevice(d')), OfDevice(d'))
    {
      OfferedNext(devs, ifs, i, j, OfDevice(d'));
      SameOwned(devs, ifs, i, j, OfDevice(d'));
      OwnersApart(devs, ifs, j, o, Offered(devs, ifs, i, j, OfDevice(d')), OfDevice(d'));
      assert old(IfaceSegment(d'.first_interface, Owned(devs, ifs, Offered(devs, ifs, i, j, OfDevice(d')), OfDevice(d')), null));
    }
    forall b | b in busses
      ensures Holds(b.first_interface, devs, ifs, Offered(devs, ifs, i, j + 1, OfRootHub(b.busnum)), OfRootHub(b.busnum))
    {
      OfferedNext(devs, ifs, i, j, OfRootHub(b.busnum));
      SameOwned(devs, ifs, i, j, OfRootHub(b.busnum));
      OwnersApart(devs, ifs, j, o, Offered(devs, ifs, i, j, OfRootHub(b.busnum)), OfRootHub(b.busnum));
      assert old(Holds(b.first_interface, devs, ifs, Offered(devs, ifs, i, j, OfRootHub(b.busnum)), OfRootHub(b.busnum)));
      assert old(IfaceSegment(b.first_interface, Owned(devs, ifs, Offered(devs, ifs, i, j, OfRootHub(b.busnum)), OfRootHub(b.busnum)), null));
    }
    ParentsAfter(devs, ifs, i, j);
    forall k | 0 <= k < |ifs| && k != j ensures ifs[k].parent == ParentOf(devs, ifs, i, j + 1, k) {
      SameParents(devs, ifs, i, j, k);
    }
    forall k | 0 <= k < |ifs| && Offered(devs, ifs, i, j + 1, IfaceOwnerOf(devs, ifs[k])) <= k
      ensures ifs[k].next == null
    {
      OfferedNext(devs, ifs, i, j, IfaceOwnerOf(devs, ifs[k]));
      if ifs[k] in Owned(devs, ifs, j, o) { LooseKept(devs, ifs, j, o, k); }
    }
  }

  lemma ParentsAfter(devs: seq<UsbDevice>, ifs: seq<UsbInterface>, i: nat, j: nat)
    requires i < |devs| && j < |ifs| && Unique(multiset(devs)) && Unique(multiset(ifs))
    requires IfaceOwnerOf(devs, ifs[j]) == OfDevice(devs[i])
    ensures ParentOf(devs, ifs, i, j + 1, j) == devs[i]
    ensures forall k :: 0 <= k < |ifs| && k != j ==> ifs[k] != ifs[j]
  {
    OfferedNext(devs, ifs, i, j, OfDevice(devs[i]));
    forall k | 0 <= k < |ifs| && k != j ensures ifs[k] != ifs[j] {
      if k < j { NotYetSeen(ifs, j); assert ifs[k] in ifs[..j]; }
      else { NotYetSeen(ifs, k); assert ifs[j] in ifs[..k]; }
    }
  }

  /** `e` is offered to the root hub of the bus `bus`: linked in the first pass, met
      again in every later one. */
  method LinkToRootHub(bus: UsbBus, e: UsbInterface, ghost devs: seq<UsbDevice>, ghost busses: seq<UsbBus>,
                       ghost ifs: seq<UsbInterface>, ghost i: nat, ghost j: nat)
    requires i < |devs| && j < |ifs| && e == ifs[j] && bus in busses && DistinctNumbers(busses)
    requires Unique(multiset(devs)) && Unique(multiset(ifs))
    requires IfaceLists(devs, busses, ifs, i, j) && IfaceOwnerOf(devs, e) == OfRootHub(bus.busnum)
    modifies Members(ifs)`next, bus`first_interface
    ensures IfaceLists(devs, busses, ifs, i, j + 1)
  {
    hide Owned, IfaceOwnerOf, Offered, ParentOf;
    ghost var o := OfRootHub(bus.busnum);
    ghost var n := Offered(devs, ifs, i, j, o);
    OfferedNext(devs, ifs, i, j, o);
    RootHubOffers(devs, ifs, i, j, o);
    bus.first_interface := LinkInterface(bus.first_interface, e, devs, ifs, n, j, o);
    if i > 0 {
      NotTaken(devs, busses, ifs, i, j);
    } else {
      forall d | d in devs
        ensures Holds(d.first_interface, devs, ifs, Offered(devs, ifs, i, j + 1, OfDevice(d)), OfDevice(d))
      {
        OfferedNext(devs, ifs, i, j, OfDevice(d));
        SameOwned(devs, ifs, i, j, OfDevice(d));
        OwnersApart(devs, ifs, j, o, Offered(devs, ifs, i, j, OfDevice(d)), OfDevice(d));
        assert old(IfaceSegment(d.first_interface, Owned(devs, ifs, Offered(devs, ifs, i, j, OfDevice(d)), OfDevice(d)), null));
      }
      forall b | b in busses && b != bus
        ensures Holds(b.first_interface, devs, ifs, Offered(devs, ifs, i, j + 1, OfRootHub(b.busnum)), OfRootHub(b.busnum))
      {
        OfferedNext(devs, ifs, i, j, OfRootHub(b.busnum));
        SameOwned(devs, ifs, i, j, OfRootHub(b.busnum));
        OwnersApart(devs, ifs, j, o, Offered(devs, ifs, i, j, OfRootHub(b.busnum)), OfRootHub(b.busnum));
        assert old(Holds(b.first_interface, devs, ifs, Offered(devs, ifs, i, j, OfRootHub(b.busnum)), OfRootHub(b.busnum)));
        assert old(IfaceSegment(b.first_interface, Owned(devs, ifs, Offered(devs, ifs, i, j, OfRootHub(b.busnum)), OfRootHub(b.busnum)), null));
      }
      forall k | 0 <= k < |ifs| ensures ifs[k].parent == ParentOf(devs, ifs, i, j + 1, k) {
        SameParents(devs, ifs, i, j, k);
      }
      forall k | 0 <= k < |ifs| && Offered(devs, ifs, i, j + 1, IfaceOwnerOf(devs, ifs[k])) <= k
        ensures ifs[k].next == null
      {
        OfferedNext(devs, ifs, i, j, IfaceOwnerOf(devs, ifs[k]));
        if ifs[k] in Owned(devs, ifs, j, o) { LooseKept(devs, ifs, j, o, k); }
      }
    }
  }

  lemma RootHubOffers(devs: seq<UsbDevice>, ifs: seq<UsbInterface>, i: nat, j: nat, o: IfaceOwner)
    requires i < |devs| && j < |ifs| && o.OfRootHub?
    ensures Offered(devs, ifs, i, j, o) == if i > 0 then |ifs| else j
  {
  }

  ghost predicate DistinctNumbers(busses: seq<UsbBus>) {
    forall b, b' :: b in busses && b' in busses && b.busnum == b'.busnum ==> b == b'
  }

  /** `append_businterface`: the first bus with that number is offered `e`. */
  method AppendBusinterface(busnum: nat, e: UsbInterface, table: BusTable, ghost devs: seq<UsbDevice>,
                            ghost ifs: seq<UsbInterface>, ghost i: nat, ghost j: nat)
    requires i < |devs| && j < |ifs| && e == ifs[j] && table.Valid() && DistinctNumbers(table.Busses)
    requires Unique(multiset(devs)) && Unique(multiset(ifs))
    requires IfaceLists(devs, table.Busses, ifs, i, j) && IfaceOwnerOf(devs, e) == OfRootHub(busnum)
    modifies Members(ifs)`next, table.Busses`first_interface
    ensures table.Valid() && IfaceLists(devs, table.Busses, ifs, i, j + 1)
  {
    hide IfaceOwnerOf;
    var b := table.usbbuslist;
    ghost var m := 0;
    while b != null
      invariant 0 <= m <= |table.Busses| && table.Valid()
      invariant b == (if m < |table.Busses| then table.Busses[m] else null)
      invariant forall k :: 0 <= k < m ==> table.Busses[k].busnum != busnum
      invariant IfaceLists(devs, table.Busses, ifs, i, j)
      decreases |table.Busses| - m
    {
      if b.busnum == busnum {
        LinkToRootHub(b, e, devs, table.Busses, ifs, i, j);
        return;
      }
      b := b.next;
      m := m + 1;
    }
    NotTaken(devs, table.Busses, ifs, i, j);
  }

  lemma {:induction false} FirstNamedIs(devs: seq<UsbDevice>, s: string)
    ensures var o := FirstNamed(devs, s);
      if o.OfDevice? then o.dev in devs && o.dev.name == s else o == Unowned && forall d :: d in devs ==> d.name != s
  {
    if |devs| > 0 && devs[0].name != s {
      FirstNamedIs(devs[1..], s);
      assert devs == [devs[0]] + devs[1..];
    }
  }

  /** An interface's owner is among the devices. */
  lemma OwnerIsThere(devs: seq<UsbDevice>, e: UsbInterface)
    ensures IfaceOwnerOf(devs, e).OfDevice? ==> IfaceOwnerOf(devs, e).dev in devs
  {
    hide NamesRootHub, BusOf, FirstNamed;
    var colon := Strchr(e.name, ':');
    if colon >= 0 {
      FirstNamedIs(devs, e.name[..colon]);
    }
  }

  /** The first device of that name is the one with the least index. */
  lemma {:induction false} FirstNamedIsFirst(devs: seq<UsbDevice>, i: nat)
    requires i < |devs|
    ensures var o := FirstNamed(devs, devs[i].name); o.OfDevice? && o.dev in devs[..i + 1]
  {
    if i > 0 && devs[0].name != devs[i].name {
      FirstNamedIsFirst(devs[1..], i - 1);
      assert devs[..i + 1] == [devs[0]] + devs[1..][..i];
    } else {
      assert devs[0] in devs[..i + 1];
    }
  }

  /** No device is named like a root hub. */
  ghost predicate NoDeviceNamesRootHub(devs: seq<UsbDevice>) {
    forall d :: d in devs ==> !NamesRootHub(d.name)
  }

  /** An interface without a parent is looked at: what the tests on its name tell. */
  lemma TestsTell(devs: seq<UsbDevice>, busses: seq<UsbBus>, ifs: seq<UsbInterface>, i: nat, j: nat)
    requires i < |devs| && j < |ifs| && Unique(multiset(devs)) && NoDeviceNamesRootHub(devs)
    requires IfaceLists(devs, busses, ifs, i, j)
    ensures var e, colon, o := ifs[j], Strchr(ifs[j].name, ':'), IfaceOwnerOf(devs, ifs[j]);
            && (colon < 0 ==> o == Unowned)
            && (e.parent != null ==> o.OfDevice? && o != OfDevice(devs[i]))
            && (colon >= 0 && e.parent == null ==>
                  var s := e.name[..colon];
                  && (devs[i].name == s <==> o == OfDevice(devs[i]))
                  && (devs[i].name != s && NamesRootHub(s) ==> o == OfRootHub(BusOf(s)))
                  && (devs[i].name != s && !NamesRootHub(s) ==> !o.OfRootHub?))
            && (o == OfDevice(devs[i]) || (o.OfRootHub? && i == 0) ==> e.next == null)
  {
    hide Owned;
    var e, colon, o := ifs[j], Strchr(ifs[j].name, ':'), IfaceOwnerOf(devs, ifs[j]);
    OfferedNext(devs, ifs, i, j, o);
    assert e.parent == ParentOf(devs, ifs, i, j, j);
    if colon >= 0 {
      var s := e.name[..colon];
      FirstNamedIs(devs, s);
      if devs[i].name == s {
        FirstNamedIsFirst(devs, i);
        assert devs[..i + 1] == devs[..i] + [devs[i]];
      }
    }
  }

  /** `assign_interface_to_parent`. */
  method AssignInterfaceToParent(d: UsbDevice, e: UsbInterface, table: BusTable, ghost devs: seq<UsbDevice>,
                                 ghost ifs: seq<UsbInterface>, ghost i: nat, ghost j: nat)
    requires i < |devs| && j < |ifs| && d == devs[i] && e == ifs[j] && e.parent == null
    requires Unique(multiset(devs)) && Unique(multiset(ifs)) && NoDeviceNamesRootHub(devs)
    requires table.Valid() && DistinctNumbers(table.Busses)
    requires IfaceLists(devs, table.Busses, ifs, i, j)
    modifies Members(ifs)`next, e`parent, d`first_interface, table.Busses`first_interface
    ensures table.Valid() && IfaceLists(devs, table.Busses, ifs, i, j + 1)
  {
    TestsTell(devs, table.Busses, ifs, i, j);
    hide IfaceOwnerOf, IfaceLists;
    var colon := Strchr(e.name, ':');
    if colon >= 0 {
      var name := e.name[..colon];
      if d.name == name {
        LinkToDevice(d, e, devs, table.Busses, ifs, i, j);
        return;
      } else if NamesRootHub(name) {
        AppendBusinterface(BusOf(name), e, table, devs, ifs, i, j);
        return;
      }
    }
    NotTaken(devs, table.Busses, ifs, i, j);
  }

  /** When the pass of one device is over, that of the next can begin. */
  lemma NextPass(devs: seq<UsbDevice>, busses: seq<UsbBus>, ifs: seq<UsbInterface>, i: nat)
    requires i < |devs| && IfaceLists(devs, busses, ifs, i, |ifs|)
    ensures IfaceLists(devs, busses, ifs, i + 1, 0)
  {
    hide Owned, IfaceOwnerOf;
    forall o ensures Offered(devs, ifs, i + 1, 0, o) == Offered(devs, ifs, i, |ifs|, o) {
      assert devs[..i + 1] == devs[..i] + [devs[i]];
    }
  }
}
