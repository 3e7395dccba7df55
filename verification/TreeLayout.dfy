/** What the indentation of the lines says: a device hangs on the one in the nearest line above
    that is indented less. */
module TreeLayout {
  import opened StableSort
  import opened UsbObjects
  import opened DeviceTree
  import opened ForestMeaning
  import opened PrintTree

  // ---- Reading the lines ----

  /** Line `i` is the nearest one above line `j` that is indented less, and by four columns; no
      bus stands between them. */
  ghost predicate NearestAbove(lines: seq<Line>, i: nat, j: nat) {
    && i < j < |lines| && lines[i].DeviceLine? && lines[j].DeviceLine? && lines[i].indent + 4 == lines[j].indent
    && forall m :: i < m < j ==> lines[m].DeviceLine? && lines[m].indent >= lines[j].indent
  }

  /** Some line of `d` has a line of `p` as the nearest one above that is indented less. */
  ghost predicate PrintedBelow(lines: seq<Line>, p: UsbDevice, d: UsbDevice) {
    exists i: nat, j: nat :: NearestAbove(lines, i, j) && lines[i].dev == p && lines[j].dev == d
  }

  /** Some line of `d` is indented by `indent`. */
  ghost predicate PrintedAt(lines: seq<Line>, indent: int, d: UsbDevice) {
    exists j :: 0 <= j < |lines| && lines[j].DeviceLine? && lines[j].indent == indent && lines[j].dev == d
  }

  ghost predicate Deep(lines: seq<Line>, indent: int) {
    forall m :: 0 <= m < |lines| ==> lines[m].DeviceLine? && lines[m].indent >= indent
  }

  /** No line of `a` is indented less than the first of `b`, unless that is a bus. */
  ghost predicate Barrier(a: seq<Line>, b: seq<Line>) {
    b != [] && b[0].DeviceLine? ==> forall m :: 0 <= m < |a| && a[m].DeviceLine? ==> a[m].indent >= b[0].indent
  }

  lemma NearestInFront(a: seq<Line>, b: seq<Line>, i: nat, j: nat)
    requires j < |a|
    ensures NearestAbove(a + b, i, j) <==> NearestAbove(a, i, j)
  {
    var s := a + b;
    assert forall m :: 0 <= m < |a| ==> s[m] == a[m];
    if NearestAbove(s, i, j) {
      forall m | i < m < j ensures a[m].DeviceLine? && a[m].indent >= a[j].indent {
        assert s[m] == a[m];
      }
    }
  }

  lemma NearestBehind(a: seq<Line>, b: seq<Line>, i: nat, j: nat)
    ensures NearestAbove(a + b, |a| + i, |a| + j) <==> NearestAbove(b, i, j)
  {
    var s := a + b;
    assert forall m :: 0 <= m < |b| ==> s[|a| + m] == b[m];
    if NearestAbove(s, |a| + i, |a| + j) {
      forall m | i < m < j ensures b[m].DeviceLine? && b[m].indent >= b[j].indent {
        assert s[|a| + m] == b[m];
      }
    }
  }

  lemma NotAcross(a: seq<Line>, b: seq<Line>, i: nat, j: nat)
    requires Barrier(a, b) && i < |a| <= j
    ensures !NearestAbove(a + b, i, j)
  {
    var s := a + b;
    assert s[i] == a[i];
    assert b != [] ==> s[|a|] == b[0];
  }

  /** Nothing in `b` hangs on anything in `a`. */
  lemma BelowConcat(a: seq<Line>, b: seq<Line>, p: UsbDevice, d: UsbDevice)
    requires Barrier(a, b)
    ensures PrintedBelow(a + b, p, d) <==> PrintedBelow(a, p, d) || PrintedBelow(b, p, d)
  {
    var s := a + b;
    if PrintedBelow(s, p, d) {
      var i: nat, j: nat :| NearestAbove(s, i, j) && s[i].dev == p && s[j].dev == d;
      if j < |a| {
        NearestInFront(a, b, i, j);
      } else if i < |a| {
        NotAcross(a, b, i, j);
      } else {
        NearestBehind(a, b, i - |a|, j - |a|);
      }
    }
    if PrintedBelow(a, p, d) {
      var i: nat, j: nat :| NearestAbove(a, i, j) && a[i].dev == p && a[j].dev == d;
      NearestInFront(a, b, i, j);
    }
    if PrintedBelow(b, p, d) {
      var i: nat, j: nat :| NearestAbove(b, i, j) && b[i].dev == p && b[j].dev == d;
      NearestBehind(a, b, i, j);
    }
  }

  // ---- A device and what hangs on it ----

  /** The lines of one device. */
  ghost predicate Own(lines: seq<Line>, d: UsbDevice, indent: int) {
    |lines| > 0 && forall m :: 0 <= m < |lines| ==> lines[m].DeviceLine? && lines[m].dev == d && lines[m].indent == indent
  }

  lemma {:induction false} InterfaceLinesOwn(d: UsbDevice, s: seq<UsbInterface>, indent: int)
    requires |s| > 0
    ensures Own(InterfaceLines(d, s, indent), d, indent)
  {
    if |s| > 1 {
      InterfaceLinesOwn(d, s[1..], indent);
    }
  }

  lemma DeviceLinesAre(d: UsbDevice, s: seq<UsbInterface>, indent: int)
    ensures Own(DeviceLines(d, s, indent), d, indent)
  {
    if |s| > 0 {
      InterfaceLinesOwn(d, s, indent);
    }
  }

  lemma BelowOwn(own: seq<Line>, kids: seq<Line>, t: UsbDevice, indent: int, i: nat, j: nat)
    requires Own(own, t, indent) && Deep(kids, indent + 4) && NearestAbove(own + kids, i, j)
    ensures j >= |own|
    ensures i >= |own| ==> NearestAbove(kids, i - |own|, j - |own|)
    ensures i < |own| ==> (own + kids)[i].dev == t && kids[j - |own|].indent == indent + 4
  {
    var s, n := own + kids, |own|;
    assert forall m :: 0 <= m < n ==> s[m] == own[m];
    assert j >= n ==> s[j] == kids[j - n];
    if i >= n {
      NearestBehind(own, kids, i - n, j - n);
    }
  }

  /** The last line of a device is the nearest above whatever is deeper by exactly four. */
  lemma FirstBelow(own: seq<Line>, kids: seq<Line>, t: UsbDevice, indent: int, j: nat)
    requires Own(own, t, indent) && Deep(kids, indent + 4) && j < |kids| && kids[j].indent == indent + 4
    ensures NearestAbove(own + kids, |own| - 1, |own| + j) && (own + kids)[|own| - 1].dev == t
    ensures (own + kids)[|own| + j] == kids[j]
  {
    var s, n := own + kids, |own|;
    forall m | n - 1 < m < n + j ensures s[m].DeviceLine? && s[m].indent >= s[n + j].indent {
      assert s[m] == kids[m - n];
    }
    assert s[n - 1] == own[n - 1];
  }

  /** Everything below a device is deeper by four columns, and what is deeper by exactly four
      hangs on it. */
  lemma OwnAndBelow(own: seq<Line>, kids: seq<Line>, t: UsbDevice, indent: int, p: UsbDevice, d: UsbDevice)
    requires Own(own, t, indent) && Deep(kids, indent + 4)
    ensures PrintedBelow(own + kids, p, d) <==> PrintedBelow(kids, p, d) || (p == t && PrintedAt(kids, indent + 4, d))
  {
    var s, n := own + kids, |own|;
    if PrintedBelow(s, p, d) {
      var i: nat, j: nat :| NearestAbove(s, i, j) && s[i].dev == p && s[j].dev == d;
      BelowOwn(own, kids, t, indent, i, j);
      assert s[j] == kids[j - n];
    }
    if PrintedBelow(kids, p, d) {
      var i: nat, j: nat :| NearestAbove(kids, i, j) && kids[i].dev == p && kids[j].dev == d;
      NearestBehind(own, kids, i, j);
    }
    if p == t && PrintedAt(kids, indent + 4, d) {
      var j :| 0 <= j < |kids| && kids[j].DeviceLine? && kids[j].indent == indent + 4 && kids[j].dev == d;
      FirstBelow(own, kids, t, indent, j);
    }
  }

  lemma AtConcat(a: seq<Line>, b: seq<Line>, indent: int, d: UsbDevice)
    ensures PrintedAt(a + b, indent, d) <==> PrintedAt(a, indent, d) || PrintedAt(b, indent, d)
  {
    var s := a + b;
    assert forall m :: 0 <= m < |b| ==> s[|a| + m] == b[m];
    if PrintedAt(b, indent, d) {
      var j :| 0 <= j < |b| && b[j].DeviceLine? && b[j].indent == indent && b[j].dev == d;
      assert s[|a| + j] == b[j];
    }
    if PrintedAt(a, indent, d) {
      var j :| 0 <= j < |a| && a[j].DeviceLine? && a[j].indent == indent && a[j].dev == d;
      assert s[j] == a[j];
    }
  }

  lemma NotAtDeep(lines: seq<Line>, indent: int, d: UsbDevice)
    requires Deep(lines, indent + 1)
    ensures !PrintedAt(lines, indent, d)
  {
  }

  lemma OwnAt(own: seq<Line>, t: UsbDevice, indent: int, p: UsbDevice, d: UsbDevice)
    requires Own(own, t, indent)
    ensures PrintedAt(own, indent, d) <==> d == t
    ensures !PrintedBelow(own, p, d) && Deep(own, indent)
  {
    assert own[0].DeviceLine?;
  }

  // ---- The lines of a forest ----

  /** The lines of a forest start with a root, which no line is indented less than. */
  lemma {:induction false} PreorderIsDeep(f: seq<Tree>, indent: int)
    ensures Deep(Preorder(f, indent), indent + 3)
    ensures f != [] ==> Preorder(f, indent) != [] && Preorder(f, indent)[0].indent == indent + 3
    ensures f == [] ==> Preorder(f, indent) == []
    decreases f
  {
    hide InterfaceLines, DeviceLines;
    if |f| > 0 {
      DeviceLinesAre(f[0].dev, f[0].ifaces, indent + 3);
      PreorderIsDeep(f[0].kids, indent + 4);
      PreorderIsDeep(f[1..], indent);
    }
  }

  lemma {:induction false} RootsArePrintedAt(f: seq<Tree>, indent: int, d: UsbDevice)
    ensures PrintedAt(Preorder(f, indent), indent + 3, d) <==> d in Roots(f)
    decreases |f|
  {
    hide DeviceLines, PrintedAt, Deep, Own;
    if |f| > 0 {
      var own, kids, rest := DeviceLines(f[0].dev, f[0].ifaces, indent + 3), Preorder(f[0].kids, indent + 4), Preorder(f[1..], indent);
      DeviceLinesAre(f[0].dev, f[0].ifaces, indent + 3);
      OwnAt(own, f[0].dev, indent + 3, d, d);
      PreorderIsDeep(f[0].kids, indent + 4);
      Deeper(kids, indent + 7, indent + 4);
      NotAtDeep(kids, indent + 3, d);
      RootsArePrintedAt(f[1..], indent, d);
      AtConcat(own, kids, indent + 3, d);
      AtConcat(own + kids, rest, indent + 3, d);
    } else {
      NothingPrinted(indent + 3, d, d);
    }
  }

  lemma Deeper(lines: seq<Line>, indent: int, less: int)
    requires Deep(lines, indent) && less <= indent
    ensures Deep(lines, less)
  {
  }

  lemma NothingPrinted(indent: int, p: UsbDevice, d: UsbDevice)
    ensures !PrintedAt([], indent, d) && !PrintedBelow([], p, d)
  {
  }

  /** The links of a forest: those of its roots, and those further down. */
  lemma {:induction false} LinksOfRoots(f: seq<Tree>, q: UsbDevice?, p: UsbDevice?, d: UsbDevice)
    ensures (p, d) in Links(f, q) <==> (p == q && d in Roots(f)) || (p != null && (p, d) in Links(f, null))
    decreases |f|
  {
    if |f| > 0 {
      LinksOfRoots(f[1..], q, p, d);
      LinksNotNull(f[0].kids, f[0].dev, d);
    }
  }

  lemma {:induction false} LinksNotNull(f: seq<Tree>, q: UsbDevice, d: UsbDevice)
    ensures (null, d) !in Links(f, q)
    decreases f
  {
    if |f| > 0 {
      LinksNotNull(f[0].kids, f[0].dev, d);
      LinksNotNull(f[1..], q, d);
    }
  }

  lemma ForestBarrier(own: seq<Line>, kids: seq<Line>, f: seq<Tree>, indent: int)
    requires Deep(own, indent + 3) && Deep(kids, indent + 7)
    ensures Barrier(own + kids, Preorder(f, indent)) && Deep(own + kids, indent + 3)
  {
    PreorderIsDeep(f, indent);
  }

  lemma LinksStep(t: Tree, f: seq<Tree>, p: UsbDevice, d: UsbDevice)
    ensures (p, d) in Links([t] + f, null) <==>
              (p == t.dev && d in Roots(t.kids)) || (p, d) in Links(t.kids, null) || (p, d) in Links(f, null)
  {
    hide Links, Roots;
    LinksCons(t, f, null);
    LinksOfRoots(t.kids, t.dev, p, d);
  }

  /** The lines show which device hangs on which: `d` hangs on `p` if and only if some line of `p`
      is the nearest one above a line of `d` that is indented less. */
  lemma {:induction false} LinesShowParents(f: seq<Tree>, indent: int, p: UsbDevice, d: UsbDevice)
    ensures PrintedBelow(Preorder(f, indent), p, d) <==> (p, d) in Links(f, null)
    decreases f
  {
    hide DeviceLines, PrintedBelow, PrintedAt, Deep, Own, Links, Barrier, Roots;
    if |f| > 0 {
      var t := f[0];
      var own, kids, rest := DeviceLines(t.dev, t.ifaces, indent + 3), Preorder(t.kids, indent + 4), Preorder(f[1..], indent);
      DeviceLinesAre(t.dev, t.ifaces, indent + 3);
      OwnAt(own, t.dev, indent + 3, p, d);
      PreorderIsDeep(t.kids, indent + 4);
      ForestBarrier(own, kids, f[1..], indent);
      LinesShowParents(t.kids, indent + 4, p, d);
      LinesShowParents(f[1..], indent, p, d);
      OwnAndBelow(own, kids, t.dev, indent + 3, p, d);
      RootsArePrintedAt(t.kids, indent + 4, d);
      BelowConcat(own + kids, rest, p, d);
      assert f == [t] + f[1..];
      LinksStep(t, f[1..], p, d);
    } else {
      NothingPrinted(indent, p, d);
      NoLinks(null);
      assert f == [];
    }
  }
  // ---- The order of the lines ----

  /** Two lines at the same depth with nothing less deep, and no bus, between them. */
  ghost predicate SameLevel(lines: seq<Line>, i: nat, j: nat) {
    && i < j < |lines| && lines[i].DeviceLine? && lines[j].DeviceLine? && lines[i].indent == lines[j].indent
    && forall m :: i < m < j ==> lines[m].DeviceLine? && lines[m].indent >= lines[j].indent
  }

  /** Devices at one level come in the order of their ports. */
  ghost predicate ByPort(lines: seq<Line>) {
    forall i: nat, j: nat :: SameLevel(lines, i, j) ==> lines[i].dev.portnum <= lines[j].dev.portnum
  }

  lemma LevelParts(a: seq<Line>, b: seq<Line>, i: nat, j: nat)
    requires SameLevel(a + b, i, j)
    ensures j < |a| ==> SameLevel(a, i, j)
    ensures i >= |a| ==> SameLevel(b, i - |a|, j - |a|)
  {
    var s := a + b;
    assert forall m :: 0 <= m < |a| ==> s[m] == a[m];
    assert forall m :: 0 <= m < |b| ==> s[|a| + m] == b[m];
    if j < |a| {
      forall m | i < m < j ensures a[m].DeviceLine? && a[m].indent >= a[j].indent { assert s[m] == a[m]; }
    }
    if i >= |a| {
      forall m | i - |a| < m < j - |a| ensures b[m].DeviceLine? && b[m].indent >= b[j - |a|].indent {
        assert s[|a| + m] == b[m];
      }
    }
  }

  /** Two lists of lines put together, when what is on one level across the border is in order. */
  lemma ByPortConcat(a: seq<Line>, b: seq<Line>)
    requires ByPort(a) && ByPort(b)
    requires forall i: nat, j: nat :: i < |a| <= j && SameLevel(a + b, i, j) ==> (a + b)[i].dev.portnum <= (a + b)[j].dev.portnum
    ensures ByPort(a + b)
  {
    var s := a + b;
    forall i: nat, j: nat | SameLevel(s, i, j) ensures s[i].dev.portnum <= s[j].dev.portnum {
      LevelParts(a, b, i, j);
      if j < |a| {
        assert s[i] == a[i] && s[j] == a[j];
      } else if i >= |a| {
        assert s[i] == b[i - |a|] && s[j] == b[j - |a|];
      }
    }
  }

  lemma DeeperIsNotLevel(own: seq<Line>, kids: seq<Line>, indent: int, i: nat, j: nat)
    requires (forall m :: 0 <= m < |own| ==> own[m].DeviceLine? && own[m].indent == indent) && Deep(kids, indent + 4)
    requires i < |own| <= j
    ensures !SameLevel(own + kids, i, j)
  {
    assert (own + kids)[i] == own[i];
    assert j < |own + kids| ==> (own + kids)[j] == kids[j - |own|];
  }

  /** What lies behind a shallower line is on another level. */
  lemma BehindShallower(s: seq<Line>, i: nat, n: nat, j: nat)
    requires i < n <= j && n < |s| && s[i].DeviceLine? && s[n].DeviceLine? && s[n].indent < s[i].indent
    ensures !SameLevel(s, i, j)
  {
  }

  lemma OwnByPort(own: seq<Line>, kids: seq<Line>, t: UsbDevice, indent: int)
    requires Own(own, t, indent) && Deep(kids, indent + 4) && ByPort(kids)
    ensures ByPort(own + kids)
  {
    forall i: nat, j: nat | i < |own| <= j ensures !SameLevel(own + kids, i, j) {
      DeeperIsNotLevel(own, kids, indent, i, j);
    }
    ByPortConcat(own, kids);
  }

  /** Roots behind a device have ports that are not smaller. */
  lemma {:induction false} LaterPorts(f: seq<Tree>, d: UsbDevice)
    requires f != [] && Sorted(f, Port) && d in Roots(f[1..])
    ensures f[0].dev.portnum <= d.portnum
  {
    if d != f[1].dev {
      LaterPorts(f[1..], d);
    }
  }

  /** From a root or something below it to the lines of the roots behind it. */
  lemma AcrossRoots(own: seq<Line>, kids: seq<Line>, f: seq<Tree>, indent: int, i: nat, j: nat)
    requires f != [] && Sorted(f, Port) && Own(own, f[0].dev, indent + 3) && Deep(kids, indent + 7)
    requires var s := own + kids + Preorder(f[1..], indent);
      i < |own + kids| <= j && SameLevel(s, i, j)
    ensures var s := own + kids + Preorder(f[1..], indent);
      s[i].dev.portnum <= s[j].dev.portnum
  {
    var rest := Preorder(f[1..], indent);
    var n := |own + kids|;
    var s := own + kids + rest;
    PreorderIsDeep(f[1..], indent);
    assert s[j] == rest[j - n] && s[n] == rest[0];
    assert s[i] == if i < |own| then own[i] else kids[i - |own|];
    if i >= |own| {
      BehindShallower(s, i, n, j);
    } else {
      assert PrintedAt(rest, indent + 3, s[j].dev);
      RootsArePrintedAt(f[1..], indent, s[j].dev);
      LaterPorts(f, s[j].dev);
    }
  }

  lemma RootsByPort(own: seq<Line>, kids: seq<Line>, f: seq<Tree>, indent: int)
    requires f != [] && Sorted(f, Port) && Own(own, f[0].dev, indent + 3) && Deep(kids, indent + 7)
    requires ByPort(own + kids) && ByPort(Preorder(f[1..], indent))
    ensures ByPort(own + kids + Preorder(f[1..], indent))
  {
    hide Own, Deep, ByPort, Preorder, Sorted;
    var s := own + kids + Preorder(f[1..], indent);
    forall i: nat, j: nat | i < |own + kids| <= j && SameLevel(s, i, j) ensures s[i].dev.portnum <= s[j].dev.portnum {
      AcrossRoots(own, kids, f, indent, i, j);
    }
    ByPortConcat(own + kids, Preorder(f[1..], indent));
  }

  lemma OrderlyParts(f: seq<Tree>)
    requires f != [] && Sorted(f, Port) && Orderly(f)
    ensures Sorted(f[1..], Port) && Orderly(f[1..]) && Sorted(f[0].kids, Port) && Orderly(f[0].kids)
  {
  }

  /** The lines of a forest sorted at every depth show the devices on any level by port. */
  lemma {:induction false} LinesAreByPort(f: seq<Tree>, indent: int)
    requires Sorted(f, Port) && Orderly(f)
    ensures ByPort(Preorder(f, indent))
    decreases f
  {
    hide DeviceLines, Orderly, Sorted, Own, Deep, ByPort, SameLevel;
    if f != [] {
      var own, kids, rest := DeviceLines(f[0].dev, f[0].ifaces, indent + 3), Preorder(f[0].kids, indent + 4), Preorder(f[1..], indent);
      OrderlyParts(f);
      LinesAreByPort(f[0].kids, indent + 4);
      LinesAreByPort(f[1..], indent);
      DeviceLinesAre(f[0].dev, f[0].ifaces, indent + 3);
      PreorderIsDeep(f[0].kids, indent + 4);
      OwnByPort(own, kids, f[0].dev, indent + 3);
      RootsByPort(own, kids, f, indent);
    } else {
      NoneByPort();
    }
  }

  lemma NoneByPort()
    ensures ByPort([])
  {
  }
}
