/** The three kinds of linked objects behind `lsusb -t`, and what it means for their
    `next` fields to form a list. */
module UsbObjects {
  import opened Words

  class UsbInterface {
    var next: UsbInterface?
    var parent: UsbDevice?
    const configuration: uint32
    const ifnum: uint32
    const name: string

    constructor (name: string, configuration: uint32, ifnum: uint32)
      ensures this.name == name && this.configuration == configuration && this.ifnum == ifnum
      ensures next == null && parent == null
    {
      this.name := name;
      this.configuration := configuration;
      this.ifnum := ifnum;
      next, parent := null, null;
    }
  }

  class UsbDevice {
    var next: UsbDevice?
    var first_interface: UsbInterface?
    var first_child: UsbDevice?
    var parent: UsbDevice?
    const busnum: uint32
    const parent_portnum: uint32
    const portnum: uint32
    const name: string

    constructor (name: string, busnum: uint32, parent_portnum: uint32, portnum: uint32)
      ensures this.name == name && this.busnum == busnum
      ensures this.parent_portnum == parent_portnum && this.portnum == portnum
      ensures next == null && first_interface == null && first_child == null && parent == null
    {
      this.name := name;
      this.busnum := busnum;
      this.parent_portnum := parent_portnum;
      this.portnum := portnum;
      next, first_interface, first_child, parent := null, null, null, null;
    }
  }

  class UsbBus {
    var next: UsbBus?
    var first_interface: UsbInterface?
    var first_child: UsbDevice?
    const busnum: uint32

    constructor (busnum: uint32)
      ensures this.busnum == busnum
      ensures next == null && first_interface == null && first_child == null
    {
      this.busnum := busnum;
      next, first_interface, first_child := null, null, null;
    }
  }

  /** Nothing occurs twice. */
  ghost predicate Unique<T>(m: multiset<T>) {
    forall x :: x in m ==> m[x] == 1
  }

  /** `part` is what stands in `s` at the places `at`, in order. */
  ghost predicate SelectedAt<T>(s: seq<T>, part: seq<T>, at: seq<nat>) {
    && |at| == |part|
    && (forall k :: 0 <= k < |at| ==> at[k] < |s| && part[k] == s[at[k]])
    && (forall j, k :: 0 <= j < k < |at| ==> at[j] < at[k])
  }

  lemma SelectedNext<T>(s: seq<T>, part: seq<T>, at: seq<nat>, n: nat)
    requires n < |s| && SelectedAt(s, part, at) && forall i: nat :: i in at ==> i < n
    ensures SelectedAt(s, part + [s[n]], at + [n])
  {
    assert forall k :: 0 <= k < |at| ==> at[k] in at;
  }

  ghost function Members(s: seq<UsbInterface>): set<UsbInterface> { set i | i in s }

  /** What a list mentions exists, so a call that does not name it leaves it alone. */
  lemma MembersExist(s: seq<UsbInterface>)
    ensures forall i :: i in Members(s) ==> allocated(i)
  {
  }

  // ---- Lists of interfaces ----

  /** Following `next` from `head` meets exactly the interfaces `s`, in order, and then `end`. */
  ghost predicate IfaceSegment(head: UsbInterface?, s: seq<UsbInterface>, end: UsbInterface?)
    reads Members(s)`next
    decreases |s|
  {
    if |s| == 0 then head == end
    else head == s[0] && IfaceSegment(s[0].next, s[1..], end)
  }

  lemma {:induction false} IfaceSegmentSnoc(head: UsbInterface?, s: seq<UsbInterface>, x: UsbInterface, end: UsbInterface?)
    ensures IfaceSegment(head, s + [x], end) <==> IfaceSegment(head, s, x) && x.next == end
    decreases |s|
  {
    if |s| == 0 {
      assert (s + [x])[1..] == [];
    } else {
      assert (s + [x])[1..] == s[1..] + [x];
      IfaceSegmentSnoc(s[0].next, s[1..], x, end);
    }
  }
}
