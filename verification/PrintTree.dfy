/** `print_tree`: what `lsusb -t` shows of the linked lists. */
module PrintTree {
  import opened UsbObjects
  import opened DeviceTree
  import opened BusList

  /** A line of output, without its text: which object it shows and how far it is indented. */
  datatype Line = BusLine(bus: UsbBus) | DeviceLine(indent: int, dev: UsbDevice, iface: UsbInterface?)

  /** A device shows one line per interface, or one line when it has none. */
  ghost function InterfaceLines(d: UsbDevice, s: seq<UsbInterface>, indent: int): seq<Line> {
    if |s| == 0 then [] else [DeviceLine(indent, d, s[0])] + InterfaceLines(d, s[1..], indent)
  }

  ghost function DeviceLines(d: UsbDevice, s: seq<UsbInterface>, indent: int): seq<Line> {
    if |s| == 0 then [DeviceLine(indent, d, null)] else InterfaceLines(d, s, indent)
  }

  /** A forest in preorder: each device, then what hangs below it, then its siblings. */
  ghost function Preorder(f: seq<Tree>, indent: int): seq<Line>
    decreases f
  {
    if |f| == 0 then []
    else DeviceLines(f[0].dev, f[0].ifaces, indent + 3) + Preorder(f[0].kids, indent + 4) + Preorder(f[1..], indent)
  }

  class Screen {
    var indent: int
    var out: seq<Line>

    constructor ()
      ensures indent == 0 && out == []
    {
      indent, out := 0, [];
    }

    method PrintTreeDevInterface(d: UsbDevice, first: UsbInterface?, ghost s: seq<UsbInterface>)
      requires IfaceSegment(first, s, null)
      modifies `indent, `out
      ensures out == old(out) + DeviceLines(d, s, old(indent) + 3) && indent == old(indent)
      ensures s == [] ==> out == old(out) + [DeviceLine(indent + 3, d, null)]
      ensures s != [] ==> |out| == |old(out)| + |s|
      ensures forall k :: 0 <= k < |s| ==> |old(out)| + k < |out| && out[|old(out)| + k] == DeviceLine(indent + 3, d, s[k])
    {
      indent := indent + 3;
      var i := first;
      ghost var rest := s;
      out := out + [DeviceLine(indent, d, i)];
      if i != null {
        i := i.next;
        rest := s[1..];
      }
      while i != null
        invariant IfaceSegment(i, rest, null) && indent == old(indent) + 3
        invariant out + InterfaceLines(d, rest, indent) == old(out) + DeviceLines(d, s, indent)
        decreases |rest|
      {
        out := out + [DeviceLine(indent, d, i)];
        assert rest[0] == i;
        i := i.next;
        rest := rest[1..];
      }
      assert rest == [] && out + [] == out;
      indent := indent - 3;
      DeviceLinesShow(d, s, indent + 3);
    }

    /** The loop body: a device, then what hangs on it. */
    method PrintTreeDev(d: UsbDevice, ghost t: Tree)
      requires d == t.dev && Hangs(t)
      modifies `indent, `out
      ensures out == old(out) + (DeviceLines(d, t.ifaces, old(indent) + 3) + Preorder(t.kids, old(indent) + 4))
      ensures indent == old(indent)
      decreases t, 0
    {
      hide *;
      HangsParts(t);
      Exists(t.kids);
      PrintTreeDevInterface(d, d.first_interface, t.ifaces);
      PrintTreeDevChildren(d.first_child, t.kids);
    }

    method PrintTreeDevChildren(first: UsbDevice?, ghost f: seq<Tree>)
      requires Segment(first, f, null)
      modifies `indent, `out
      ensures out == old(out) + Preorder(f, old(indent) + 4) && indent == old(indent)
      decreases f, 1
    {
      hide *;
      indent := indent + 4;
      var d := first;
      ghost var rest := f;
      Exists(f);
      while d != null
        invariant Segment(d, rest, null) && indent == old(indent) + 4
        invariant forall t :: t in rest ==> t in f
        invariant out + Preorder(rest, indent) == old(out) + Preorder(f, indent)
        decreases |rest|
      {
        HeadOf(d, rest);
        ghost var t, tail := rest[0], rest[1..];
        assert rest == [t] + tail && t in f;
        SegmentCons(d, t, tail, null);
        PreorderCons(t, tail, indent);
        Exists(tail);
        PrintTreeDev(d, t);
        d := d.next;
        rest := tail;
      }
      HeadOf(d, rest);
      PreorderNil(indent);
      assert rest == [] && out + [] == out;
      indent := indent - 4;
    }

    /** `print_tree`: every bus with what hangs on its root hub. */
    method PrintTree(table: BusTable, ghost shown: seq<seq<Tree>>)
      requires table.Valid() && |shown| == |table.Busses| && BussesHold(table.Busses, shown)
      modifies `indent, `out
      ensures out == old(out) + BusLines(table.Busses, shown, 0, old(indent)) && indent == old(indent)
    {
      hide *;
      ghost var busses := table.Busses;
      SetsExist(shown);
      var b := table.First();
      ghost var k := 0;
      while b != null
        invariant 0 <= k <= |shown| && b == (if k < |shown| then busses[k] else null)
        invariant out + BusLines(busses, shown, k, indent) == old(out) + BusLines(busses, shown, 0, indent)
        invariant indent == old(indent) && table.Valid() && table.Busses == busses && BussesHold(busses, shown)
        decreases |shown| - k
      {
        BusLinesStep(busses, shown, k, indent);
        PrintBus(b, busses, shown, k);
        SetsExist(shown);
        b := table.Following(b, k);
        k := k + 1;
      }
      BusLinesEnd(busses, shown, indent);
      assert out + [] == out;
    }

    method PrintBus(b: UsbBus, ghost busses: seq<UsbBus>, ghost shown: seq<seq<Tree>>, ghost k: nat)
      requires k < |shown| == |busses| && b == busses[k] && BussesHold(busses, shown)
      modifies `indent, `out
      ensures out == old(out) + ([BusLine(b)] + Preorder(shown[k], old(indent) + 4)) && indent == old(indent)
      ensures BussesHold(busses, shown)
    {
      hide Preorder, Segment, DevSet, IfaceSet;
      AllExist(shown);
      Exists(shown[k]);
      assert Segment(b.first_child, shown[k], null);
      PrintBusNode(b);
      PrintBusChildren(b, shown[k]);
      forall m | 0 <= m < |shown| ensures Segment(busses[m].first_child, shown[m], null) {
        assert old(Segment(busses[m].first_child, shown[m], null));
        assert forall d :: d in DevSet(shown[m]) ==> old(allocated(d));
        assert forall e :: e in IfaceSet(shown[m]) ==> old(allocated(e));
      }
    }

    method PrintBusNode(b: UsbBus)
      modifies `out
      ensures out == old(out) + [BusLine(b)]
    {
      out := out + [BusLine(b)];
    }

    method PrintBusChildren(b: UsbBus, ghost f: seq<Tree>)
      requires Segment(b.first_child, f, null)
      modifies `indent, `out
      ensures out == old(out) + Preorder(f, old(indent) + 4) && indent == old(indent)
    {
      hide *;
      HeadOf(b.first_child, f);
      PreorderNil(indent + 4);
      if b.first_child != null {
        PrintTreeDevChildren(b.first_child, f);
      }
    }
  }

  ghost function DevsOf(shown: seq<seq<Tree>>): set<UsbDevice> {
    set m, d | 0 <= m < |shown| && d in DevSet(shown[m]) :: d
  }

  ghost function IfacesOf(shown: seq<seq<Tree>>): set<UsbInterface> {
    set m, e | 0 <= m < |shown| && e in IfaceSet(shown[m]) :: e
  }

  lemma SetsExist(shown: seq<seq<Tree>>)
    ensures forall d :: d in DevsOf(shown) ==> allocated(d)
    ensures forall e :: e in IfacesOf(shown) ==> allocated(e)
  {
    hide DevSet, IfaceSet;
    AllExist(shown);
  }

  /** The lists in the heap are those to be shown. */
  ghost predicate BussesHold(busses: seq<UsbBus>, shown: seq<seq<Tree>>)
    requires |busses| == |shown|
    reads busses`first_child, DevsOf(shown), IfacesOf(shown)
  {
    forall k :: 0 <= k < |shown| ==> Segment(busses[k].first_child, shown[k], null)
  }

  /** The output from bus `k` on. */
  ghost function BusLines(busses: seq<UsbBus>, shown: seq<seq<Tree>>, k: nat, indent: int): seq<Line>
    requires k <= |busses| == |shown|
    decreases |busses| - k
  {
    if k == |busses| then []
    else [BusLine(busses[k])] + Preorder(shown[k], indent + 4) + BusLines(busses, shown, k + 1, indent)
  }

  lemma AllExist(shown: seq<seq<Tree>>)
    ensures forall m, d :: 0 <= m < |shown| && d in DevSet(shown[m]) ==> allocated(d)
    ensures forall m, e :: 0 <= m < |shown| && e in IfaceSet(shown[m]) ==> allocated(e)
  {
    hide *;
    forall m | 0 <= m < |shown|
      ensures forall d :: d in DevSet(shown[m]) ==> allocated(d)
      ensures forall e :: e in IfaceSet(shown[m]) ==> allocated(e)
    {
      Exists(shown[m]);
    }
  }

  lemma BusLinesStep(busses: seq<UsbBus>, shown: seq<seq<Tree>>, k: nat, indent: int)
    requires k < |busses| == |shown|
    ensures BusLines(busses, shown, k, indent)
         == [BusLine(busses[k])] + Preorder(shown[k], indent + 4) + BusLines(busses, shown, k + 1, indent)
  {
  }

  lemma BusLinesEnd(busses: seq<UsbBus>, shown: seq<seq<Tree>>, indent: int)
    requires |busses| == |shown|
    ensures BusLines(busses, shown, |busses|, indent) == []
  {
  }

  lemma PreorderCons(t: Tree, f: seq<Tree>, indent: int)
    ensures Preorder([t] + f, indent) ==
            DeviceLines(t.dev, t.ifaces, indent + 3) + Preorder(t.kids, indent + 4) + Preorder(f, indent)
  {
    assert ([t] + f)[1..] == f;
  }

  lemma PreorderNil(indent: int)
    ensures Preorder([], indent) == []
  {
  }

  // ---- What the lines show ----

  /** Whether some line shows the device. */
  ghost predicate Shows(lines: seq<Line>, d: UsbDevice) {
    exists k :: 0 <= k < |lines| && lines[k].DeviceLine? && lines[k].dev == d
  }

  lemma ShowsConcat(a: seq<Line>, b: seq<Line>, d: UsbDevice)
    ensures Shows(a + b, d) <==> Shows(a, d) || Shows(b, d)
  {
    if Shows(a, d) {
      var k :| 0 <= k < |a| && a[k].DeviceLine? && a[k].dev == d;
      assert (a + b)[k] == a[k];
    }
    if Shows(b, d) {
      var k :| 0 <= k < |b| && b[k].DeviceLine? && b[k].dev == d;
      assert (a + b)[|a| + k] == b[k];
    }
  }

  lemma {:induction false} InterfaceLinesShow(d: UsbDevice, s: seq<UsbInterface>, indent: int, x: UsbDevice)
    ensures |InterfaceLines(d, s, indent)| == |s|
    ensures Shows(InterfaceLines(d, s, indent), x) <==> x == d && |s| > 0
  {
    if |s| > 0 {
      InterfaceLinesShow(d, s[1..], indent, x);
      var l := [DeviceLine(indent, d, s[0])];
      assert l[0].dev == d;
      ShowsConcat(l, InterfaceLines(d, s[1..], indent), x);
    }
  }

  lemma {:induction false} InterfaceLinesAre(d: UsbDevice, s: seq<UsbInterface>, indent: int)
    ensures |InterfaceLines(d, s, indent)| == |s|
    ensures forall k :: 0 <= k < |s| ==> InterfaceLines(d, s, indent)[k] == DeviceLine(indent, d, s[k])
  {
    if |s| > 0 {
      InterfaceLinesAre(d, s[1..], indent);
    }
  }

  /** A line for each interface, in order, or one line without any. */
  lemma DeviceLinesShow(d: UsbDevice, s: seq<UsbInterface>, indent: int)
    ensures s == [] ==> DeviceLines(d, s, indent) == [DeviceLine(indent, d, null)]
    ensures s != [] ==> |DeviceLines(d, s, indent)| == |s|
    ensures s != [] ==> forall k :: 0 <= k < |s| ==> DeviceLines(d, s, indent)[k] == DeviceLine(indent, d, s[k])
  {
    InterfaceLinesAre(d, s, indent);
  }

  /** A device is shown exactly when it is in the forest. */
  lemma {:induction false} PreorderShowsEveryDevice(f: seq<Tree>, indent: int, d: UsbDevice)
    ensures Shows(Preorder(f, indent), d) <==> d in Devices(f)
    decreases f
  {
    if |f| > 0 {
      var t := f[0];
      PreorderShowsEveryDevice(t.kids, indent + 4, d);
      PreorderShowsEveryDevice(f[1..], indent, d);
      var own := DeviceLines(t.dev, t.ifaces, indent + 3);
      if |t.ifaces| == 0 {
        assert own[0].dev == t.dev;
      } else {
        InterfaceLinesShow(t.dev, t.ifaces, indent + 3, d);
      }
      assert Shows(own, d) <==> d == t.dev;
      ShowsConcat(own, Preorder(t.kids, indent + 4), d);
      ShowsConcat(own + Preorder(t.kids, indent + 4), Preorder(f[1..], indent), d);
    }
  }

  /** How many lines a forest takes. */
  ghost function LineCount(f: seq<Tree>): nat
    decreases f
  {
    if |f| == 0 then 0
    else (if |f[0].ifaces| == 0 then 1 else |f[0].ifaces|) + LineCount(f[0].kids) + LineCount(f[1..])
  }

  /** No line is repeated or left out: one per interface, one for a device without any. */
  lemma {:induction false} PreorderLength(f: seq<Tree>, indent: int)
    ensures |Preorder(f, indent)| == LineCount(f)
    decreases f
  {
    if |f| > 0 {
      PreorderLength(f[0].kids, indent + 4);
      PreorderLength(f[1..], indent);
      InterfaceLinesShow(f[0].dev, f[0].ifaces, indent + 3, f[0].dev);
    }
  }
}
