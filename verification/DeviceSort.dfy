/** `sort_dev_siblings`: the recursive in-place sort of the forest of devices.

    The source passes the address of the link that leads to a list; here a method is
    given the first device of the list and returns the one that ends up first, and the
    caller stores it in that link. */
module DeviceSort {
  import opened StableSort
  import opened UsbObjects
  import opened InterfaceSort
  import opened DeviceTree

  // ---- What one pass does, on forests ----

  /** How far a pass has come: what it has passed, with the tree it stands on, is
      settled and sorted, and nothing still ahead belongs before it. */
  ghost predicate Front(done: seq<Tree>, t: Tree, rest: seq<Tree>) {
    && Settled(done + [t]) && Sorted(done + [t], Port)
    && forall x, y :: x in done && y in rest ==> Port(x) <= Port(y)
  }

  lemma FrontAtEnd(done: seq<Tree>, t: Tree)
    requires Front(done, t, [])
    ensures SortForest(done + [t]) == done + [t]
  {
    SettledIsFixed(done + [t]);
    SortedIsFixed(done + [t], Port);
  }

  /** The two trees that meet in a step, once the list ahead has been sorted: `q` is the
      one the pass leaves behind and `t'` the one it goes on with. */
  ghost predicate Meet(t: Tree, first: Tree, q: Tree, t': Tree) {
    if Port(t) > Port(first) then q == first && t' == t else q == t && t' == first
  }

  lemma FrontAdvances(done: seq<Tree>, t: Tree, rest: seq<Tree>, sorted: seq<Tree>, q: Tree, t': Tree)
    requires Front(done, t, rest) && sorted == SortForest(rest) && |sorted| > 0
    requires Meet(t, sorted[0], q, t')
    ensures Front(done + [q], t', sorted[1..])
  {
    FrontOrder(done, t, rest, sorted);
    SortForestTwice(rest);
    SortedSnoc(done, t, Port);
    SortedSnoc(done, q, Port);
    SortedSnoc(done + [q], t', Port);
    assert sorted[0] in sorted && q in done + [t] + [sorted[0]] && t in done + [t];
    forall x | x in done + [q] + [t'] ensures Settle(x) == x {
      assert x in done ==> x in done + [t];
    }
    hide Settle, SortForest;
  }

  lemma StepKeepsSort(done: seq<Tree>, t: Tree, rest: seq<Tree>, sorted: seq<Tree>, q: Tree, t': Tree)
    requires Settled(done + [t]) && sorted == SortForest(rest) && |sorted| > 0
    requires Meet(t, sorted[0], q, t')
    ensures SortForest(done + [q] + [t'] + sorted[1..]) == SortForest(done + [t] + rest)
  {
    hide Settle, Settled, Sort, Exchange, SettleAll;
    SortForestAbsorbsTail(done + [t], rest);
    var now := done + [t] + sorted;
    CutAtMeeting(done, t, sorted);
    if Port(t) > Port(sorted[0]) {
      SettleAllConcat(done + [t], sorted);
      SortForestTwice(rest);
      SettledIsFixed(sorted);
      SettledIsFixed(done + [t]);
      ExchangeSettled(now, |done|);
      SortAbsorbsExchange(now, |done|, Port);
    }
  }

  lemma CutAtMeeting(done: seq<Tree>, t: Tree, sorted: seq<Tree>)
    requires |sorted| > 0
    ensures var now := done + [t] + sorted;
            && now == done + [t] + [sorted[0]] + sorted[1..]
            && now[|done|] == t && now[|done| + 1] == sorted[0]
            && Exchange(now, |done|) == done + [sorted[0]] + [t] + sorted[1..]
  {
    assert sorted == [sorted[0]] + sorted[1..];
  }

  lemma ExchangeSettled(now: seq<Tree>, n: nat)
    requires n + 1 < |now| && SettleAll(now) == now
    ensures SettleAll(Exchange(now, n)) == Exchange(now, n)
  {
    forall i | 0 <= i < |now| ensures Settle(now[i]) == now[i] { SettleAllAt(now, i); }
    var e := Exchange(now, n);
    forall x | x in e ensures Settle(x) == x {
      var i :| 0 <= i < |e| && e[i] == x;
    }
    SettledIsFixed(e);
  }

  lemma {:induction false} SettleAllAt(f: seq<Tree>, i: nat)
    requires i < |f|
    ensures SettleAll(f)[i] == Settle(f[i])
    decreases i
  {
    if i > 0 { SettleAllAt(f[1..], i - 1); }
  }

  lemma FrontOrder(done: seq<Tree>, t: Tree, rest: seq<Tree>, sorted: seq<Tree>)
    requires Front(done, t, rest) && sorted == SortForest(rest)
    ensures forall x, y :: x in done && y in sorted ==> Port(x) <= Port(y)
    ensures |done| > 0 ==> Port(done[|done| - 1]) <= Port(t)
    ensures forall x :: x in done ==> Port(x) <= Port(t)
    ensures |sorted| > 0 ==> forall y :: y in sorted ==> Port(sorted[0]) <= Port(y)
  {
    SortPermutes(SettleAll(rest), Port);
    SortSorts(SettleAll(rest), Port);
    forall y | y in sorted
      ensures exists z :: z in rest && Port(z) == Port(y)
      ensures Port(sorted[0]) <= Port(y)
    {
      assert y in multiset(SettleAll(rest));
      var i :| 0 <= i < |rest| && SettleAll(rest)[i] == y;
      SettleAllAt(rest, i);
      assert rest[i] in rest && Port(rest[i]) == Port(y);
      var j :| 0 <= j < |sorted| && sorted[j] == y;
      SortedPairs(sorted, Port, 0, j);
    }
    var s := done + [t];
    forall x | x in done ensures Port(x) <= Port(t) {
      var i :| 0 <= i < |done| && done[i] == x;
      SortedPairs(s, Port, i, |done|);
      assert s[i] == x && s[|done|] == t;
    }
    if |done| > 0 { assert done[|done| - 1] in done; }
  }

  // ---- The same step in the heap ----

  /** A root is met once: not among the devices below it, nor in `others`. */
  ghost predicate RootApart(t: Tree, others: set<UsbDevice>) {
    t.dev !in DevSet(t.kids) && t.dev !in others && DevSet(t.kids) !! others
  }

  /** The last root of a list is met once in it. */
  ghost predicate LastApart(done: seq<Tree>) {
    |done| > 0 ==>
      var front, last := done[..|done| - 1], done[|done| - 1];
      RootApart(last, DevSet(front)) && last.dev in DevSet(done)
      && DevSet(last.kids) <= DevSet(done) && DevSet(front) <= DevSet(done)
  }

  /** The trees around an exchange share no device. */
  ghost predicate ApartAround(done: seq<Tree>, t: Tree, u: Tree, tail: seq<Tree>) {
    && RootApart(t, DevSet(done) + DevSet([u]) + DevSet(tail))
    && RootApart(u, DevSet(done) + DevSet([t]) + DevSet(tail))
    && DevSet(done) !! DevSet(tail) && LastApart(done)
    && t.dev in DevSet([t]) && DevSet(t.kids) <= DevSet([t])
    && u.dev in DevSet([u]) && DevSet(u.kids) <= DevSet([u])
  }

  lemma UniqueFour<T>(a: multiset<T>, b: multiset<T>, c: multiset<T>, d: multiset<T>)
    requires Unique(a + b + c + d)
    ensures Unique(a) && Unique(b) && Unique(c) && Unique(d)
    ensures forall x :: x in a ==> x !in b && x !in c && x !in d
    ensures forall x :: x in b ==> x !in c && x !in d
    ensures forall x :: x in c ==> x !in d
  {
    var m := a + b + c + d;
    forall x | x in a || x in b || x in c || x in d ensures m[x] == 1 { assert x in m; }
  }

  lemma RootAlone(t: Tree)
    requires Unique(Devices([t]))
    ensures t.dev !in DevSet(t.kids) && t.dev in DevSet([t]) && DevSet(t.kids) <= DevSet([t])
  {
    OneTree(t);
    var m := Devices([t]);
    assert t.dev in m && m[t.dev] == 1;
  }

  lemma UniqueLast(done: seq<Tree>)
    requires Unique(Devices(done))
    ensures LastApart(done)
  {
    hide Devices;
    if |done| > 0 {
      var front, last := done[..|done| - 1], done[|done| - 1];
      assert done == front + [last];
      DevicesConcat(front, [last]);
      UniqueParts(Devices(front), Devices([last]), multiset{});
      RootAlone(last);
    }
  }

  lemma UniqueMeansApart(done: seq<Tree>, t: Tree, u: Tree, tail: seq<Tree>)
    requires Unique(Devices(done) + Devices([t]) + Devices([u]) + Devices(tail))
    ensures ApartAround(done, t, u, tail)
  {
    hide Devices, LastApart, Unique;
    UniqueFour(Devices(done), Devices([t]), Devices([u]), Devices(tail));
    UniqueLast(done);
    RootAlone(t);
    RootAlone(u);
  }

  /** Exchange the device of `t` with the one after it, that of `u`, through the link
      that leads to it: the `next` of `prev`, or the list head when `prev` is null. */
  method SwapSiblings(head: UsbDevice, prev: UsbDevice?, p: UsbDevice,
                      ghost done: seq<Tree>, ghost t: Tree, ghost u: Tree, ghost tail: seq<Tree>)
    returns (head': UsbDevice)
    requires ApartAround(done, t, u, tail)
    requires p == t.dev && p.next == u.dev
    requires Segment(head, done, p) && Segment(u.dev.next, tail, null) && Hangs(t) && Hangs(u)
    requires if prev == null then done == [] else |done| > 0 && prev == done[|done| - 1].dev
    modifies p`next, u.dev`next, DevSet(done)`next
    ensures Segment(head', done, u.dev) && u.dev.next == p && Segment(p.next, tail, null)
    ensures Hangs(t) && Hangs(u)
  {
    hide Devices, Interfaces, DevSet, IfaceSet;
    var v := p.next;
    ghost var belowT, belowU := t.dev.first_child, u.dev.first_child;
    p.next := v.next;
    v.next := p;
    assert Segment(belowT, t.kids, null) && Segment(belowU, u.kids, null) && Segment(head, done, p);
    if prev == null {
      head' := v;
    } else {
      ghost var front, last := done[..|done| - 1], done[|done| - 1];
      assert done == front + [last];
      SegmentSnoc(head, front, last, p);
      prev.next := v;
      head' := head;
      SegmentSnoc(head, front, last, v);
    }
  }

  lemma EmptySegment(d: UsbDevice)
    ensures Segment(d, [], d)
  {
  }

  lemma SortKeepsSets(f: seq<Tree>)
    ensures DevSet(SortForest(f)) == DevSet(f) && IfaceSet(SortForest(f)) == IfaceSet(f)
  {
    SortForestKeeps(f);
  }

  method SettleChildren(p: UsbDevice, ghost kids: seq<Tree>)
    requires Segment(p.first_child, kids, null) && p !in DevSet(kids) && Tidy(kids)
    modifies p`first_child
    modifies DevSet(kids)`next, DevSet(kids)`first_child, DevSet(kids)`first_interface, IfaceSet(kids)`next
    ensures Segment(p.first_child, SortForest(kids), null)
    decreases |Devices(kids)|, 3
  {
    hide *;
    HeadOf(p.first_child, kids);
    NothingHangs();
    if p.first_child != null {
      var head := SortDevSiblings(p.first_child, kids);
      SortKeepsSets(kids);
      p.first_child := head;
    }
  }

  method SettleInterfaces(p: UsbDevice, ghost ifaces: seq<UsbInterface>)
    requires IfaceSegment(p.first_interface, ifaces, null)
    requires Unique(multiset(ifaces)) && Compatible(ifaces)
    modifies p`first_interface, Members(ifaces)`next
    ensures IfaceSegment(p.first_interface, Sort(ifaces, ConfigThenNumber), null)
  {
    if p.first_interface != null {
      p.first_interface := SortDevInterfaces(p.first_interface, ifaces);
    }
  }

  /** Sort what hangs below one device: its children, recursively, then its interfaces. */
  method SettleTree(p: UsbDevice, ghost t: Tree)
    requires p == t.dev && Hangs(t) && p !in DevSet(t.kids) && Tidy(t.kids)
    requires Unique(multiset(t.ifaces)) && Compatible(t.ifaces)
    requires Members(t.ifaces) !! IfaceSet(t.kids)
    modifies p`first_child, p`first_interface, Members(t.ifaces)`next
    modifies DevSet(t.kids)`next, DevSet(t.kids)`first_child, DevSet(t.kids)`first_interface, IfaceSet(t.kids)`next
    ensures Hangs(Settle(t))
    decreases |Devices(t.kids)|, 4
  {
    hide *;
    SettledParts(t);
    HangsParts(t);
    Exists(SortForest(t.kids));
    MembersExist(t.ifaces);
    SortKeepsSets(t.kids);
    SettleChildren(p, t.kids);
    SettleInterfaces(p, t.ifaces);
    HangsParts(Settle(t));
  }

  lemma SettledParts(t: Tree)
    ensures var s := Settle(t); s.dev == t.dev && s.ifaces == Sort(t.ifaces, ConfigThenNumber) && s.kids == SortForest(t.kids)
    ensures |t.kids| == 0 ==> SortForest(t.kids) == []
    ensures |t.ifaces| == 0 ==> Sort(t.ifaces, ConfigThenNumber) == []
    ensures DevSet(SortForest(t.kids)) == DevSet(t.kids) && IfaceSet(SortForest(t.kids)) == IfaceSet(t.kids)
  {
    SortForestKeeps(t.kids);
  }

  /** The start of the recursion: settle the first tree of the list `f`. */
  method SettleFirst(p: UsbDevice, ghost f: seq<Tree>)
    requires |f| > 0 && Tidy(f) && Segment(p, f, null)
    modifies DevSet(f)`next, DevSet(f)`first_child, DevSet(f)`first_interface, IfaceSet(f)`next
    ensures Segment(p, [Settle(f[0])] + f[1..], null)
    decreases |Devices(f)|, 0
  {
    hide *;
    ghost var t, rest := f[0], f[1..];
    assert f == [t] + rest;
    FirstApart(t, rest);
    SegmentCons(p, t, rest, null);
    Exists(rest);
    SettleTree(p, t);
    SettledParts(t);
    SegmentCons(p, Settle(t), rest, null);
  }

  lemma FirstApart(t: Tree, rest: seq<Tree>)
    requires Tidy([t] + rest)
    ensures t.dev !in DevSet(t.kids) && t.dev !in DevSet(rest) && DevSet(t.kids) !! DevSet(rest)
    ensures |Devices(t.kids)| < |Devices([t] + rest)|
    ensures Tidy(t.kids) && Unique(multiset(t.ifaces)) && Compatible(t.ifaces)
    ensures Members(t.ifaces) !! IfaceSet(t.kids) && Members(t.ifaces) !! IfaceSet(rest)
    ensures IfaceSet(t.kids) !! IfaceSet(rest)
    ensures DevSet(t.kids) <= DevSet([t] + rest) && IfaceSet(t.kids) <= IfaceSet([t] + rest)
    ensures t.dev in DevSet([t] + rest) && Members(t.ifaces) <= IfaceSet([t] + rest)
  {
    hide Devices, Interfaces, AllCompatible;
    DevicesConcat([t], rest);
    InterfacesConcat([t], rest);
    CompatibleConcat([t], rest);
    OneTree(t);
    UniqueParts(multiset{t.dev}, Devices(t.kids), Devices(rest));
    UniqueParts(multiset(t.ifaces), Interfaces(t.kids), Interfaces(rest));
  }

  /** `sort_dev_siblings(&p->next)`: sort all that follows `p` first. */
  method SortTail(p: UsbDevice, ghost rest: seq<Tree>)
    requires |rest| > 0 && Tidy(rest) && Segment(p.next, rest, null) && p !in DevSet(rest)
    modifies p`next
    modifies DevSet(rest)`next, DevSet(rest)`first_child, DevSet(rest)`first_interface, IfaceSet(rest)`next
    ensures Segment(p.next, SortForest(rest), null)
    decreases |Devices(rest)|, 3
  {
    hide *;
    HeadOf(p.next, rest);
    var head := SortDevSiblings(p.next, rest);
    SortKeepsSets(rest);
    p.next := head;
  }

  /** Once what follows `p` is sorted, exchange `p` with its successor if they are out of order. */
  method CompareSiblings(head: UsbDevice, prev: UsbDevice?, p: UsbDevice,
                         ghost done: seq<Tree>, ghost t: Tree, ghost u: Tree, ghost tail: seq<Tree>)
    returns (head': UsbDevice, p': UsbDevice, swapped: bool, ghost q: Tree, ghost t': Tree)
    requires ApartAround(done, t, u, tail) && p == t.dev && p.next == u.dev
    requires Segment(head, done, p) && Segment(u.dev.next, tail, null) && Hangs(t) && Hangs(u)
    requires if prev == null then done == [] else |done| > 0 && prev == done[|done| - 1].dev
    modifies p`next, u.dev`next, DevSet(done)`next
    ensures Meet(t, u, q, t') && swapped == (Port(t) > Port(u)) && p' == q.dev
    ensures Segment(head', done, p') && Hangs(q) && Hangs(t')
    ensures p'.next == t'.dev && Segment(p'.next.next, tail, null)
  {
    if p.portnum > p.next.portnum {
      p' := p.next;
      head' := SwapSiblings(head, prev, p, done, t, u, tail);
      swapped, q, t' := true, u, t;
    } else {
      head', p', swapped, q, t' := head, p, false, t, u;
    }
  }

  /** The loop body at `p`; `p'` is the device it leaves behind. */
  method PassStep(head: UsbDevice, prev: UsbDevice?, p: UsbDevice, ghost f: seq<Tree>,
                  ghost done: seq<Tree>, ghost t: Tree, ghost rest: seq<Tree>)
    returns (head': UsbDevice, p': UsbDevice, swapped: bool, ghost q: Tree, ghost t': Tree)
    requires Parts(f, done, t, rest) && |rest| > 0 && p == t.dev
    requires Segment(head, done, p) && Hangs(t) && Segment(p.next, rest, null)
    requires if prev == null then done == [] else |done| > 0 && prev == done[|done| - 1].dev
    modifies DevSet(f)`next, DevSet(f)`first_child, DevSet(f)`first_interface, IfaceSet(f)`next
    ensures |SortForest(rest)| > 0 && Meet(t, SortForest(rest)[0], q, t')
    ensures swapped == (Port(t) > Port(SortForest(rest)[0])) && p' == q.dev
    ensures Segment(head', done, p') && Hangs(q) && Hangs(t')
    ensures p'.next == t'.dev && Segment(p'.next.next, SortForest(rest)[1..], null)
    decreases |Devices(f)|, 0
  {
    hide *;
    MeetingApart(f, done, t, rest);
    ghost var u, tail := SortForest(rest)[0], SortForest(rest)[1..];
    Exists(done);
    Exists(t.kids);
    MembersExist(t.ifaces);
    HangsParts(t);
    SortTail(p, rest);
    HangsParts(t);
    SegmentCons(p.next, u, tail, null);
    head', p', swapped, q, t' := CompareSiblings(head, prev, p, done, t, u, tail);
  }

  lemma MeetingApart(f: seq<Tree>, done: seq<Tree>, t: Tree, rest: seq<Tree>)
    requires Parts(f, done, t, rest) && |rest| > 0
    ensures var r := SortForest(rest);
            && |r| == |rest| && r == [r[0]] + r[1..] && ApartAround(done, t, r[0], r[1..])
    ensures Tidy(rest) && |Devices(rest)| < |Devices(f)|
    ensures DevSet(done) !! DevSet(rest) && DevSet(t.kids) !! DevSet(rest) && t.dev !in DevSet(rest)
    ensures IfaceSet(done) !! IfaceSet(rest) && IfaceSet(t.kids) !! IfaceSet(rest)
    ensures Members(t.ifaces) !! IfaceSet(rest)
    ensures DevSet(done) <= DevSet(f) && DevSet(rest) <= DevSet(f) && IfaceSet(rest) <= IfaceSet(f)
    ensures t.dev in DevSet(f) && SortForest(rest)[0].dev in DevSet(f) && t.dev !in DevSet(done)
        && t.dev !in DevSet(t.kids)
  {
    hide *;
    var r := SortForest(rest);
    SortForestKeeps(rest);
    SortKeepsSets(rest);
    assert r == [r[0]] + r[1..];
    DevicesConcat([r[0]], r[1..]);
    PartsAreApart(f, done, t, rest);
    PartsUnique(f, done, t, rest, r[0], r[1..]);
    UniqueMeansApart(done, t, r[0], r[1..]);
    OneTreeSets(t);
    RootAlone(t);
    RootOf(r);
  }

  lemma OneTreeSets(t: Tree)
    ensures t.dev in DevSet([t]) && DevSet(t.kids) <= DevSet([t])
    ensures IfaceSet(t.kids) <= IfaceSet([t]) && Members(t.ifaces) <= IfaceSet([t])
  {
    OneTree(t);
  }

  lemma RootOf(f: seq<Tree>)
    requires |f| > 0
    ensures f[0].dev in DevSet(f)
  {
  }

  lemma PartsUnique(f: seq<Tree>, done: seq<Tree>, t: Tree, rest: seq<Tree>, u: Tree, tail: seq<Tree>)
    requires Parts(f, done, t, rest) && Devices(rest) == Devices([u]) + Devices(tail)
    ensures Unique(Devices(done) + Devices([t]) + Devices([u]) + Devices(tail))
  {
    hide Devices, Interfaces, AllCompatible;
    var d, a, b, c := Devices(done), Devices([t]), Devices([u]), Devices(tail);
    assert Devices(f) == d + a + b + c;
  }

  /** One pass over the list `g` whose first tree is settled. */
  method Pass(head: UsbDevice, ghost g: seq<Tree>) returns (head': UsbDevice, swapped: bool)
    requires |g| > 0 && Tidy(g) && Settle(g[0]) == g[0] && Segment(head, g, null)
    modifies DevSet(g)`next, DevSet(g)`first_child, DevSet(g)`first_interface, IfaceSet(g)`next
    ensures Segment(head', SortForest(g), null)
    ensures g == SortForest(g) ==> !swapped
    decreases |Devices(g)|, 1
  {
    hide *;
    head', swapped := head, false;
    var p: UsbDevice, prev: UsbDevice? := head, null;
    ghost var done: seq<Tree>, t, rest := [], g[0], g[1..];
    PassStart(g);
    assert g == [t] + rest;
    SegmentCons(head, t, rest, null);
    EmptySegment(head);
    while p.next != null
      invariant Parts(g, done, t, rest) && p == t.dev
      invariant Segment(head', done, p) && Hangs(t) && Segment(p.next, rest, null)
      invariant if prev == null then done == [] else |done| > 0 && prev == done[|done| - 1].dev
      invariant Front(done, t, rest) && SortForest(done + [t] + rest) == SortForest(g)
      invariant g == SortForest(g) ==> !swapped && done + [t] + rest == g
      decreases |rest|
    {
      HeadOf(p.next, rest);
      SortForestKeeps(rest);
      ghost var q, t', sorted := t, t, SortForest(rest);
      var here;
      head', prev, here, q, t' := PassStep(head', prev, p, g, done, t, rest);
      NextParts(g, done, t, rest, q, t');
      NextFront(g, done, t, rest, q, t');
      SegmentSnoc(head', done, q, t'.dev);
      swapped := swapped || here;
      p := prev.next;
      done, t, rest := done + [q], t', sorted[1..];
    }
    HeadOf(p.next, rest);
    SegmentSnoc(head', done, t, null);
    FrontAtEnd(done, t);
    assert done + [t] + rest == done + [t];
  }

  lemma Regroup<T>(d: multiset<T>, t: multiset<T>, u: multiset<T>, r: multiset<T>)
    ensures d + t + (u + r) == (d + t) + u + r == (d + u) + t + r
  {
  }

  /** Whichever way the two trees meet, the parts stay parts of the same forest. */
  lemma NextParts(g: seq<Tree>, done: seq<Tree>, t: Tree, rest: seq<Tree>, q: Tree, t': Tree)
    requires Parts(g, done, t, rest) && |rest| > 0
    requires |SortForest(rest)| == |rest| && Meet(t, SortForest(rest)[0], q, t')
    ensures Parts(g, done + [q], t', SortForest(rest)[1..])
  {
    var sorted := SortForest(rest);
    SortForestKeeps(rest);
    var u, tail := sorted[0], sorted[1..];
    assert sorted == [u] + tail;
    DevicesConcat([u], tail);
    InterfacesConcat([u], tail);
    CompatibleConcat([u], tail);
    DevicesConcat(done, [q]);
    InterfacesConcat(done, [q]);
    PartsAreApart(g, done, t, rest);
    hide Devices, Interfaces, AllCompatible, SortForest, Unique;
    Regroup(Devices(done), Devices([t]), Devices([u]), Devices(tail));
    Regroup(Interfaces(done), Interfaces([t]), Interfaces([u]), Interfaces(tail));
  }

  /** Where a pass stands after a step. */
  lemma NextFront(g: seq<Tree>, done: seq<Tree>, t: Tree, rest: seq<Tree>, q: Tree, t': Tree)
    requires Front(done, t, rest) && SortForest(done + [t] + rest) == SortForest(g)
    requires |SortForest(rest)| == |rest| > 0 && Meet(t, SortForest(rest)[0], q, t')
    ensures Front(done + [q], t', SortForest(rest)[1..])
    ensures SortForest(done + [q] + [t'] + SortForest(rest)[1..]) == SortForest(g)
    ensures done + [t] + rest == g == SortForest(g) ==>
              Port(t) <= Port(SortForest(rest)[0]) && done + [q] + [t'] + SortForest(rest)[1..] == g
  {
    var sorted := SortForest(rest);
    FrontAdvances(done, t, rest, sorted, q, t');
    StepKeepsSort(done, t, rest, sorted, q, t');
    if done + [t] + rest == g == SortForest(g) {
      NothingToSort(g, done, t, rest);
    }
  }

  /** On a list already sorted, what follows is sorted too and no two trees meet out of order. */
  lemma NothingToSort(g: seq<Tree>, done: seq<Tree>, t: Tree, rest: seq<Tree>)
    requires done + [t] + rest == g == SortForest(g) && |rest| > 0
    ensures SortForest(rest) == rest && Port(t) <= Port(rest[0]) && rest == [rest[0]] + rest[1..]
    ensures done + [t] + [rest[0]] + rest[1..] == g
  {
    SortForestTwice(g);
    hide SortForest, Settle, Sort, SettleAll, Sorted;
    SortedPairs(g, Port, |done|, |done| + 1);
    SortedSuffix(g, |done| + 1, Port);
    assert g[|done| + 1..] == rest && g[|done|] == t && g[|done| + 1] == rest[0];
    assert rest == [rest[0]] + rest[1..];
    assert Settled(rest) by {
      forall x | x in rest ensures Settle(x) == x { assert x in g; }
    }
    SortedSettled(rest);
  }

  lemma SortedSettled(f: seq<Tree>)
    requires Settled(f) && Sorted(f, Port)
    ensures SortForest(f) == f
  {
    SettledIsFixed(f);
    SortedIsFixed(f, Port);
  }

  /** Sort the list `f` that starts at `d`, every list below it, and every interface
      list beside it, in place. */
  method SortDevSiblings(d: UsbDevice, ghost f: seq<Tree>) returns (head: UsbDevice)
    requires |f| > 0 && Tidy(f) && Segment(d, f, null)
    modifies DevSet(f)`next, DevSet(f)`first_child, DevSet(f)`first_interface, IfaceSet(f)`next
    ensures Segment(head, SortForest(f), null)
    decreases |Devices(f)|, 2
  {
    SettleFirst(d, f);
    head := d;
    ghost var g := [Settle(f[0])] + f[1..];
    SettledStart(f);
    var swapped := true;
    while swapped
      invariant |g| > 0 && Tidy(g) && Devices(g) == Devices(f) && Interfaces(g) == Interfaces(f)
      invariant Settle(g[0]) == g[0] && Segment(head, g, null) && SortForest(g) == SortForest(f)
      invariant !swapped ==> g == SortForest(f)
      decreases if g == SortForest(f) then 0 else 1, swapped
    {
      SettledAgain(g);
      head, swapped := Pass(head, g);
      g := SortForest(g);
    }
  }

  lemma SettledStart(f: seq<Tree>)
    requires |f| > 0 && Tidy(f)
    ensures var g := [Settle(f[0])] + f[1..];
            && Tidy(g) && Devices(g) == Devices(f) && Interfaces(g) == Interfaces(f)
            && Settle(g[0]) == g[0] && SortForest(g) == SortForest(f)
  {
    var t, rest := f[0], f[1..];
    assert f == [t] + rest;
    assert SettleAll([t]) == [Settle(t)] by { assert [t][1..] == []; }
    SettleTwice([t]);
    assert Settle(t) in SettleAll([t]);
    DevicesSettle([t]);
    InterfacesSettle([t]);
    CompatibleSettle([t]);
    DevicesConcat([t], rest);
    DevicesConcat([Settle(t)], rest);
    InterfacesConcat([t], rest);
    InterfacesConcat([Settle(t)], rest);
    CompatibleConcat([t], rest);
    CompatibleConcat([Settle(t)], rest);
    hide Devices, Interfaces, AllCompatible, Settle;
    assert ([Settle(t)] + rest)[1..] == rest;
    assert SettleAll([Settle(t)] + rest) == SettleAll(f);
  }

  lemma SettledAgain(g: seq<Tree>)
    requires |g| > 0 && Tidy(g)
    ensures var r := SortForest(g);
            && |r| > 0 && Tidy(r) && Devices(r) == Devices(g) && Interfaces(r) == Interfaces(g)
            && Settle(r[0]) == r[0] && SortForest(r) == r
  {
    SortForestKeeps(g);
    SortForestTwice(g);
    assert SortForest(g)[0] in SortForest(g);
  }

  lemma PassStart(g: seq<Tree>)
    requires |g| > 0 && Tidy(g) && Settle(g[0]) == g[0]
    ensures Parts(g, [], g[0], g[1..]) && Front([], g[0], g[1..]) && [] + [g[0]] + g[1..] == g
  {
    var t, rest := g[0], g[1..];
    assert [] + [t] == [t] && g == [t] + rest;
    DevicesConcat([t], rest);
    InterfacesConcat([t], rest);
    CompatibleConcat([t], rest);
    assert Devices([]) == multiset{} && Interfaces([]) == multiset{};
    assert Settled([t]) && Sorted([t], Port);
    assert Front([], t, rest);
    assert Parts(g, [], t, rest) by {
      hide Devices, Interfaces, AllCompatible, Unique;
      MultisetUnit(Devices([t]), Devices(rest));
      MultisetUnit(Interfaces([t]), Interfaces(rest));
    }
  }

  lemma MultisetUnit<T>(d: multiset<T>, r: multiset<T>)
    ensures multiset{} + d + r == d + r
  {
  }
}
