/** `uhd_iface_list_new`: which interfaces of the opened devices are dumped, and how. */
module IfaceScan {
  import opened Words
  import opened UhdIface

  datatype Endpoint = Endpoint(address: byte, attributes: byte, maxPacket: nat)

  datatype Interface = Interface(numAltsetting: nat, klass: byte, number: byte, extra: seq<byte>, endpoints: seq<Endpoint>)

  /** A device; `configOk` says whether its active configuration can be read. */
  datatype Device = Device(configOk: bool, interfaces: seq<Interface>)

  /** What the list records of an interface. */
  datatype Info = Info(number: byte, endpoint: byte, maxPacket: nat, rdLen: nat)

  const UHD_MAX_DESCRIPTOR_SIZE := 4096
  const HID_DESCRIPTOR_SIZE := 9
  const LIBUSB_CLASS_HID := 3
  const LIBUSB_DT_HID := 0x21
  const LIBUSB_DT_REPORT := 0x22

  // ---- Choosing ----

  /** Interrupt, and into the host. */
  predicate InterruptIn(e: Endpoint) { e.attributes % 4 == 3 && e.address >= 0x80 }

  /** The first interrupt IN endpoint, or how many endpoints there are. */
  function FirstIn(endpoints: seq<Endpoint>): (k: nat)
    ensures k <= |endpoints| && (k < |endpoints| ==> InterruptIn(endpoints[k]))
    ensures forall i :: 0 <= i < k ==> !InterruptIn(endpoints[i])
  {
    if |endpoints| == 0 || InterruptIn(endpoints[0]) then 0 else 1 + FirstIn(endpoints[1..])
  }

  /** The three-byte entry `i` lies inside the HID descriptor and inside the extra bytes. */
  predicate HasEntry(extra: seq<byte>, i: nat)
    requires |extra| >= HID_DESCRIPTOR_SIZE
  {
    i < extra[5] && 6 + 3 * (i + 1) <= extra[0] && 6 + 3 * (i + 1) <= |extra|
  }

  /** The length in the first report entry from entry `i` on, if there is one. */
  function ReportEntry(extra: seq<byte>, i: nat): nat
    requires |extra| >= HID_DESCRIPTOR_SIZE
    decreases |extra| - i
  {
    if !HasEntry(extra, i) then UHD_MAX_DESCRIPTOR_SIZE
    else if extra[6 + 3 * i] == LIBUSB_DT_REPORT then LittleEndian(extra[7 + 3 * i..9 + 3 * i])
    else ReportEntry(extra, i + 1)
  }

  function ReportLength(extra: seq<byte>): nat {
    if |extra| >= HID_DESCRIPTOR_SIZE && extra[1] == LIBUSB_DT_HID then ReportEntry(extra, 0)
    else UHD_MAX_DESCRIPTOR_SIZE
  }

  predicate Wanted(i: Interface) {
    i.numAltsetting == 1 && i.klass == LIBUSB_CLASS_HID && i.number != 255 && FirstIn(i.endpoints) < |i.endpoints|
  }

  function InfoOf(i: Interface): Info
    requires Wanted(i)
  {
    var e := i.endpoints[FirstIn(i.endpoints)];
    Info(i.number, e.address, e.maxPacket, ReportLength(i.extra))
  }

  /** What one interface adds to the list. */
  function Adds(i: Interface): seq<Info> { if Wanted(i) then [InfoOf(i)] else [] }

  function FoundIn(interfaces: seq<Interface>): seq<Info> {
    if |interfaces| == 0 then [] else Adds(interfaces[0]) + FoundIn(interfaces[1..])
  }

  /** Everything found, device by device and interface by interface. */
  function Found(devs: seq<Device>): seq<Info> {
    if |devs| == 0 then [] else FoundIn(devs[0].interfaces) + Found(devs[1..])
  }

  function Reversed(s: seq<Info>): (r: seq<Info>)
    ensures |r| == |s|
  {
    if |s| == 0 then [] else Reversed(s[1..]) + [s[0]]
  }

  lemma {:induction false} ReversedAt(s: seq<Info>, k: nat)
    requires k < |s|
    ensures Reversed(s)[k] == s[|s| - 1 - k]
  {
    if k < |s| - 1 {
      ReversedAt(s[1..], k);
    }
  }

  lemma {:induction false} ReversedSnoc(s: seq<Info>, x: Info)
    ensures Reversed(s + [x]) == [x] + Reversed(s)
  {
    if |s| == 0 {
      assert s + [x] == [x] && [x][1..] == [];
    } else {
      assert (s + [x])[1..] == s[1..] + [x];
      ReversedSnoc(s[1..], x);
    }
  }

  lemma {:induction false} FoundInSnoc(s: seq<Interface>, x: Interface)
    ensures FoundIn(s + [x]) == FoundIn(s) + Adds(x)
  {
    hide Adds;
    if |s| == 0 {
      assert s + [x] == [x] && [x][1..] == [];
    } else {
      assert (s + [x])[1..] == s[1..] + [x];
      FoundInSnoc(s[1..], x);
    }
  }

  lemma {:induction false} FoundSnoc(s: seq<Device>, d: Device)
    ensures Found(s + [d]) == Found(s) + FoundIn(d.interfaces)
  {
    if |s| == 0 {
      assert s + [d] == [d] && [d][1..] == [];
    } else {
      assert (s + [d])[1..] == s[1..] + [d];
      FoundSnoc(s[1..], d);
    }
  }

  // ---- What is chosen ----

  /** Entry `k` of a HID descriptor is there, as far as the descriptor and the bytes go. */
  predicate EntryThere(extra: seq<byte>, k: nat) {
    |extra| >= 9 && extra[1] == 0x21 && k < extra[5] && 9 + 3 * k <= extra[0] && 9 + 3 * k <= |extra|
  }

  /** It is the first one for a report descriptor. */
  predicate FirstReportAt(extra: seq<byte>, k: nat) {
    EntryThere(extra, k) && extra[6 + 3 * k] == 0x22 && forall i :: 0 <= i < k ==> extra[6 + 3 * i] != 0x22
  }

  /** The length taken is that of the first report entry that is there, the lower byte first, or
      4096 if there is none. */
  lemma ReportLengthIs(extra: seq<byte>)
    ensures forall k: nat :: FirstReportAt(extra, k) ==>
              ReportLength(extra) == (extra[7 + 3 * k] as nat) + 256 * (extra[8 + 3 * k] as nat)
    ensures (forall k: nat :: EntryThere(extra, k) ==> extra[6 + 3 * k] != 0x22) ==> ReportLength(extra) == 4096
  {
    if |extra| >= 9 && extra[1] == 0x21 {
      forall k: nat | FirstReportAt(extra, k)
        ensures ReportLength(extra) == (extra[7 + 3 * k] as nat) + 256 * (extra[8 + 3 * k] as nat)
      {
        FirstReport(extra, 0, k);
      }
      if forall k: nat :: EntryThere(extra, k) ==> extra[6 + 3 * k] != 0x22 {
        NoReport(extra, 0);
      }
    }
  }

  lemma {:induction false} FirstReport(extra: seq<byte>, i: nat, k: nat)
    requires FirstReportAt(extra, k) && i <= k
    ensures ReportEntry(extra, i) == (extra[7 + 3 * k] as nat) + 256 * (extra[8 + 3 * k] as nat)
    decreases k - i
  {
    if i < k {
      FirstReport(extra, i + 1, k);
    } else {
      assert extra[7 + 3 * k..9 + 3 * k] == [extra[7 + 3 * k], extra[8 + 3 * k]];
      FewBytes(extra[7 + 3 * k], extra[8 + 3 * k], 0, 0);
    }
  }

  lemma {:induction false} NoReport(extra: seq<byte>, i: nat)
    requires |extra| >= 9 && extra[1] == 0x21
    requires forall k: nat :: EntryThere(extra, k) ==> extra[6 + 3 * k] != 0x22
    ensures ReportEntry(extra, i) == 4096
    decreases |extra| - i
  {
    if HasEntry(extra, i) {
      assert EntryThere(extra, i);
      NoReport(extra, i + 1);
    }
  }

  /** One entry of a HID descriptor: the type of a descriptor and its length. */
  datatype HidEntry = HidEntry(kind: byte, lower: byte, upper: byte)

  function EntryBytes(entries: seq<HidEntry>): seq<byte> {
    if |entries| == 0 then []
    else [entries[0].kind, entries[0].lower, entries[0].upper] + EntryBytes(entries[1..])
  }

  lemma {:induction false} EntryBytesAt(entries: seq<HidEntry>, k: nat)
    requires k < |entries|
    ensures |EntryBytes(entries)| == 3 * |entries|
    ensures var b := EntryBytes(entries);
      b[3 * k] == entries[k].kind && b[3 * k + 1] == entries[k].lower && b[3 * k + 2] == entries[k].upper
  {
    EntryBytesLength(entries);
    if k > 0 {
      EntryBytesAt(entries[1..], k - 1);
    }
  }

  lemma {:induction false} EntryBytesLength(entries: seq<HidEntry>)
    ensures |EntryBytes(entries)| == 3 * |entries|
  {
    if |entries| > 0 {
      EntryBytesLength(entries[1..]);
    }
  }

  /** A HID descriptor (section 6.2.1 of HID 1.11) with its entries. */
  function HidDescriptor(version: seq<byte>, country: byte, entries: seq<HidEntry>): seq<byte>
    requires |version| == 2 && |entries| <= 83
  {
    [6 + 3 * |entries|, 0x21, version[0], version[1], country, |entries|] + EntryBytes(entries)
  }

  /** From a HID descriptor, whatever stands behind it, the length in its first report entry is
      taken. */
  lemma WrittenReportLength(version: seq<byte>, country: byte, entries: seq<HidEntry>, rest: seq<byte>, k: nat)
    requires |version| == 2 && k < |entries| <= 83 && entries[k].kind == 0x22
    requires forall i :: 0 <= i < k ==> entries[i].kind != 0x22
    ensures ReportLength(HidDescriptor(version, country, entries) + rest)
         == (entries[k].lower as nat) + 256 * (entries[k].upper as nat)
  {
    var d := HidDescriptor(version, country, entries);
    var extra := d + rest;
    EntryBytesLength(entries);
    forall i | 0 <= i <= k
      ensures extra[6 + 3 * i] == entries[i].kind
           && extra[7 + 3 * i] == entries[i].lower && extra[8 + 3 * i] == entries[i].upper
    {
      EntryBytesAt(entries, i);
      assert d[6 + 3 * i] == EntryBytes(entries)[3 * i];
      assert d[7 + 3 * i] == EntryBytes(entries)[3 * i + 1];
      assert d[8 + 3 * i] == EntryBytes(entries)[3 * i + 2];
    }
    assert extra[5] == |entries| && extra[0] == 6 + 3 * |entries| && extra[1] == 0x21;
    forall i | 0 <= i < k ensures extra[6 + 3 * i] != 0x22 {
      assert extra[6 + 3 * i] == entries[i].kind;
    }
    assert extra[6 + 3 * k] == entries[k].kind;
    assert FirstReportAt(extra, k);
    ReportLengthIs(extra);
  }

  /** Endpoint `k` is the first whose transfers are interrupts and whose address has the upper
      bit, that is, into the host. */
  predicate FirstInterruptIn(endpoints: seq<Endpoint>, k: nat) {
    && k < |endpoints| && endpoints[k].attributes % 4 == 3 && endpoints[k].address >= 128
    && forall m :: 0 <= m < k ==> !(endpoints[m].attributes % 4 == 3 && endpoints[m].address >= 128)
  }

  /** Which interfaces are taken, and with which endpoint. */
  lemma WantedIs(i: Interface)
    ensures Wanted(i) <==>
              && i.numAltsetting == 1 && i.klass == 3 && i.number != 255
              && exists k: nat :: FirstInterruptIn(i.endpoints, k)
    ensures forall k: nat :: Wanted(i) && FirstInterruptIn(i.endpoints, k) ==>
              InfoOf(i) == Info(i.number, i.endpoints[k].address, i.endpoints[k].maxPacket, ReportLength(i.extra))
  {
    var n := FirstIn(i.endpoints);
    assert n < |i.endpoints| ==> FirstInterruptIn(i.endpoints, n);
    forall k: nat | FirstInterruptIn(i.endpoints, k) ensures n == k {
      assert InterruptIn(i.endpoints[k]);
      assert forall m :: 0 <= m < k ==> !InterruptIn(i.endpoints[m]);
    }
  }

  /** Device by device, and in each interface by interface, nothing is left out or added. */
  lemma {:induction false} FoundInOrder(a: seq<Interface>, x: Interface, b: seq<Interface>)
    ensures FoundIn(a + [x] + b) == FoundIn(a) + (if Wanted(x) then [InfoOf(x)] else []) + FoundIn(b)
    decreases |a|
  {
    hide Adds;
    if |a| == 0 {
      assert (a + [x] + b)[1..] == b;
      AddsIs(x);
      assert [] + Adds(x) == Adds(x);
    } else {
      assert (a + [x] + b)[1..] == a[1..] + [x] + b;
      FoundInOrder(a[1..], x, b);
      AddsIs(x);
      Regrouped(Adds(a[0]), FoundIn(a[1..]), Adds(x), FoundIn(b));
    }
  }

  lemma AddsIs(x: Interface)
    ensures Adds(x) == if Wanted(x) then [InfoOf(x)] else []
  {
  }

  lemma Regrouped(a: seq<Info>, b: seq<Info>, c: seq<Info>, d: seq<Info>)
    ensures a + (b + c + d) == (a + b) + c + d
  {
  }

  lemma {:induction false} DevicesInOrder(a: seq<Device>, d: Device, b: seq<Device>)
    ensures Found(a + [d] + b) == Found(a) + FoundIn(d.interfaces) + Found(b)
    decreases |a|
  {
    hide FoundIn;
    if |a| == 0 {
      assert (a + [d] + b)[1..] == b;
      assert [] + FoundIn(d.interfaces) == FoundIn(d.interfaces);
    } else {
      assert (a + [d] + b)[1..] == a[1..] + [d] + b;
      DevicesInOrder(a[1..], d, b);
      Regrouped(FoundIn(a[0].interfaces), Found(a[1..]), FoundIn(d.interfaces), Found(b));
    }
  }

  // ---- Building ----

  ghost function InfosOf(s: seq<Iface>): (r: seq<Info>)
    ensures |r| == |s|
  {
    if |s| == 0 then []
    else [Info(s[0].number, s[0].endpoint, s[0].maxPacket, s[0].rdLen)] + InfosOf(s[1..])
  }

  /** The length of the report descriptor, as the HID descriptor announces it. */
  method ReadReportLength(extra: seq<byte>) returns (rdLen: nat)
    ensures rdLen == ReportLength(extra)
  {
    rdLen := UHD_MAX_DESCRIPTOR_SIZE;
    if |extra| >= HID_DESCRIPTOR_SIZE {
      if extra[1] == LIBUSB_DT_HID {
        var i := 0;
        while i < extra[5] && 6 + 3 * (i + 1) <= extra[0] && 6 + 3 * (i + 1) <= |extra|
          invariant 0 <= i && ReportEntry(extra, 0) == ReportEntry(extra, i)
        {
          if extra[6 + 3 * i] == LIBUSB_DT_REPORT {
            var b := extra[7 + 3 * i..9 + 3 * i];
            assert b[1..][1..] == [] && LittleEndian(b[1..]) == b[1];
            return 256 * (b[1] as nat) + b[0];
          }
          i := i + 1;
        }
      }
    }
  }

  /** A new interface in front of the list. */
  method PushFront(list: Iface?, ghost s: seq<Iface>, ghost info: Info, number: byte, endpoint: byte, maxPacket: nat, rdLen: nat)
    returns (head: Iface, ghost s': seq<Iface>)
    requires Chain(list, s) && Distinct(s) && info == Info(number, endpoint, maxPacket, rdLen)
    ensures Chain(head, s') && Distinct(s') && fresh(head) && s' == [head] + s
    ensures InfosOf(s') == [info] + InfosOf(s)
    ensures !head.detached && !head.claimed && !head.submitted && !head.driverAway && !head.held
  {
    hide Chain;
    MembersExist(s);
    head := new Iface(number, endpoint, maxPacket, rdLen);
    assert head !in Members(s);
    head.next := list;
    s' := [head] + s;
    assert s'[1..] == s;
    ChainCons(head, s);
  }

  lemma ChainCons(head: Iface, s: seq<Iface>)
    requires Chain(head.next, s)
    ensures Chain(head, [head] + s)
  {
    assert ([head] + s)[1..] == s;
  }

  /** The body of the loop over interfaces: a wanted one is added at the head of the list. */
  method AddInterface(list: Iface?, ghost s: seq<Iface>, desc: Interface) returns (head: Iface?, ghost s': seq<Iface>)
    requires Chain(list, s) && Distinct(s)
    ensures Chain(head, s') && Distinct(s')
    ensures if Wanted(desc) then |s'| == |s| + 1 && s'[1..] == s && s' == [s'[0]] + s && fresh(s'[0]) else s' == s
    ensures InfosOf(s') == (if Wanted(desc) then [InfoOf(desc)] else []) + InfosOf(s)
    ensures Wanted(desc) ==>
              !s'[0].detached && !s'[0].claimed && !s'[0].submitted && !s'[0].driverAway && !s'[0].held
  {
    hide Chain, Distinct, FirstIn;
    MembersExist(s);
    head, s' := list, s;
    if desc.numAltsetting != 1 || desc.klass != LIBUSB_CLASS_HID || desc.number == 255 {
      return;
    }
    var rdLen := ReadReportLength(desc.extra);
    var ep := 0;
    while ep < |desc.endpoints|
      invariant 0 <= ep <= |desc.endpoints| && ep <= FirstIn(desc.endpoints)
      invariant head == list && s' == s && Chain(list, s)
    {
      var e := desc.endpoints[ep];
      if e.attributes % 4 == 3 && e.address >= 0x80 {
        head, s' := PushFront(list, s, InfoOf(desc), desc.number, e.address, e.maxPacket, rdLen);
        break;
      }
      ep := ep + 1;
    }
  }

  /** All flags down and nothing taken from the kernel, as `uhd_iface_new` leaves them. */
  ghost predicate Untouched(s: seq<Iface>)
    reads Members(s)
  {
    forall i :: 0 <= i < |s| ==>
      !s[i].detached && !s[i].claimed && !s[i].submitted && !s[i].driverAway && !s[i].held
  }

  lemma NothingYet()
    ensures Chain(null, []) && Distinct([]) && Untouched([]) && InfosOf([]) == Reversed(Found([]))
  {
  }

  /** One more interface with all flags down. */
  lemma UntouchedCons(s: seq<Iface>, s': seq<Iface>)
    requires Untouched(s) && |s'| == |s| + 1 && s' == [s'[0]] + s
    requires !s'[0].detached && !s'[0].claimed && !s'[0].submitted && !s'[0].driverAway && !s'[0].held
    ensures Untouched(s')
  {
    assert forall i :: 0 < i < |s'| ==> s'[i] == s[i - 1];
  }

  lemma MembersCons(s: seq<Iface>, s': seq<Iface>)
    requires |s'| == |s| + 1 && s' == [s'[0]] + s
    ensures Members(s') == Members(s) + {s'[0]}
  {
    assert forall i :: 0 < i < |s'| ==> s'[i] == s[i - 1];
    assert s'[0] in s';
    forall x | x in s ensures x in s' {
      var k :| 0 <= k < |s| && s[k] == x;
      assert s'[k + 1] == x;
    }
  }

  /** `uhd_iface_list_new`: the wanted interfaces of all devices, the last found first; nothing
      when some configuration cannot be read. */
  method ListNew(devs: seq<Device>) returns (ok: bool, list: Iface?, ghost s: seq<Iface>)
    ensures ok <==> forall i :: 0 <= i < |devs| ==> devs[i].configOk
    ensures !ok ==> list == null && s == []
    ensures Chain(list, s) && Distinct(s) && fresh(Members(s)) && Untouched(s)
    ensures ok ==> InfosOf(s) == Reversed(Found(devs))
  {
    hide Chain, Distinct, InfosOf, Reversed, Found, FoundIn, Untouched;
    list, s := null, [];
    NothingYet();
    assert devs[..0] == [];
    var d := 0;
    while d < |devs|
      invariant 0 <= d <= |devs| && forall i :: 0 <= i < d ==> devs[i].configOk
      invariant Chain(list, s) && Distinct(s) && fresh(Members(s)) && Untouched(s)
      invariant InfosOf(s) == Reversed(Found(devs[..d]))
    {
      if !devs[d].configOk {
        return false, null, [];
      }
      list, s := AddInterfaces(list, s, devs[d].interfaces, Found(devs[..d]));
      FoundSnoc(devs[..d], devs[d]);
      assert devs[..d + 1] == devs[..d] + [devs[d]];
      d := d + 1;
    }
    assert devs[..|devs|] == devs;
    ok := true;
  }

  /** The loop over the interfaces of one device. */
  method AddInterfaces(list: Iface?, ghost s: seq<Iface>, interfaces: seq<Interface>, ghost before: seq<Info>)
    returns (head: Iface?, ghost s': seq<Iface>)
    requires Chain(list, s) && Distinct(s) && Untouched(s) && InfosOf(s) == Reversed(before)
    ensures Chain(head, s') && Distinct(s') && Untouched(s') && fresh(Members(s') - Members(s))
    ensures InfosOf(s') == Reversed(before + FoundIn(interfaces))
  {
    hide Chain, Distinct, InfosOf, Reversed, FoundIn, Untouched, Wanted, InfoOf, Members;
    head, s' := list, s;
    var i := 0;
    NoneFound(interfaces);
    assert before + FoundIn(interfaces[..0]) == before;
    while i < |interfaces|
      invariant 0 <= i <= |interfaces|
      invariant Chain(head, s') && Distinct(s') && Untouched(s') && fresh(Members(s') - Members(s))
      invariant InfosOf(s') == Reversed(before + FoundIn(interfaces[..i]))
    {
      OneMore(before, interfaces, i);
      ghost var was := s';
      MembersExist(was);
      head, s' := AddInterface(head, s', interfaces[i]);
      if Wanted(interfaces[i]) {
        UntouchedCons(was, s');
        MembersCons(was, s');
      }
      i := i + 1;
    }
    assert interfaces[..|interfaces|] == interfaces;
  }

  lemma NoneFound(interfaces: seq<Interface>)
    ensures FoundIn(interfaces[..0]) == []
  {
  }

  lemma OneMore(before: seq<Info>, interfaces: seq<Interface>, i: nat)
    requires i < |interfaces|
    ensures Reversed(before + FoundIn(interfaces[..i + 1]))
         == (if Wanted(interfaces[i]) then [InfoOf(interfaces[i])] else []) + Reversed(before + FoundIn(interfaces[..i]))
  {
    var x := interfaces[i];
    assert interfaces[..i + 1] == interfaces[..i] + [x];
    FoundInSnoc(interfaces[..i], x);
    assert FoundIn(interfaces[..i]) + [] == FoundIn(interfaces[..i]);
    if Wanted(x) {
      assert before + (FoundIn(interfaces[..i]) + [InfoOf(x)]) == before + FoundIn(interfaces[..i]) + [InfoOf(x)];
      ReversedSnoc(before + FoundIn(interfaces[..i]), InfoOf(x));
    }
  }
}
