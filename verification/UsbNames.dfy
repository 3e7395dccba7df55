/** Device names: how sysfs spells them and how `lsusb -t` reads them back. */
module UsbNames {
  import opened CStrings
  import opened Words

  const USB_MAX_DEPTH := 7

  // ---- Spelling ----

  /** The ports of a path, joined by dots. */
  function PortPath(ports: seq<byte>): string {
    if |ports| == 0 then ""
    else if |ports| == 1 then Decimal(ports[0])
    else PortPath(ports[..|ports| - 1]) + "." + Decimal(ports[|ports| - 1])
  }

  /** The name of the device at the end of a port path: `bus-port.port...`. */
  function DeviceName(bus: byte, ports: seq<byte>): string {
    Decimal(bus) + "-" + PortPath(ports)
  }

  /** The name of a device is that of the port it is on, spelled out. */
  lemma DeviceNameIs(bus: byte, ports: seq<byte>, port: byte)
    ensures DeviceName(bus, [port]) == Decimal(bus) + "-" + Decimal(port)
    ensures ports != [] ==> DeviceName(bus, ports + [port]) == DeviceName(bus, ports) + "." + Decimal(port)
  {
    hide Decimal;
    assert (ports + [port])[..|ports|] == ports;
  }

  function RootHubName(bus: byte): string { "usb" + Decimal(bus) }

  function FullName(bus: byte, ports: seq<byte>): string {
    if |ports| == 0 then RootHubName(bus) else DeviceName(bus, ports)
  }

  /** What `snprintf` leaves in a buffer of `size` bytes, without the final NUL. */
  function Fit(s: string, size: nat): string {
    if |s| < size then s else if size == 0 then "" else s[..size - 1]
  }

  /** The first `k` ports are all that fit with a final NUL into a buffer of `size` bytes. */
  predicate LastThatFits(size: nat, bus: byte, ports: seq<byte>, k: nat) {
    && k <= |ports| && |DeviceName(bus, ports[..k])| < size
    && (k < |ports| ==> |DeviceName(bus, ports[..k + 1])| >= size)
  }

  /** `get_sysfs_name`: `text` is what the buffer holds afterwards, the name cut to what fits.
      `len` is that of the name without the ports that do not fit whole, or -1 when not even
      the bus fits or there are too many ports; for a root hub it is the name's. */
  method GetSysfsName(size: nat, bus: byte, ports: seq<byte>) returns (text: string, len: int)
    requires size > 0
    ensures |ports| > 7 ==> len == -1 && text == ""
    ensures |ports| <= 7 ==> text == Fit(FullName(bus, ports), size)
    ensures |text| < size && (|ports| <= 7 ==> text <= FullName(bus, ports))
    ensures |ports| <= 7 ==> |text| == size - 1 || text == FullName(bus, ports)
    ensures ports == [] ==> len == |RootHubName(bus)|
    ensures 0 < |ports| <= 7 && |DeviceName(bus, ports[..0])| >= size ==> len == -1
    ensures 0 < |ports| <= 7 && |DeviceName(bus, ports[..0])| < size ==>
              exists k: nat :: LastThatFits(size, bus, ports, k) && len == |DeviceName(bus, ports[..k])|
  {
    hide PortPath, Decimal, DeviceName;
    text, len := "", 0;
    if |ports| > USB_MAX_DEPTH {
      return "", -1;
    } else if |ports| == 0 {
      return Fit(RootHubName(bus), size), |RootHubName(bus)|;
    }
    var head := Decimal(bus) + "-";
    NameOfRoot(bus, ports);
    text := Fit(head, size);
    len := |head|;
    if len >= size {
      PrefixName(bus, ports, 0);
      CutShort(FullName(bus, ports), "", head, size);
      return text, -1;
    }
    var i := 0;
    while i < |ports|
      invariant 0 <= i <= |ports|
      invariant text == DeviceName(bus, ports[..i]) && len == |text| < size
    {
      var chunk := (if i > 0 then "." else "") + Decimal(ports[i]);
      NextName(bus, ports, i);
      if |chunk| >= size - len {
        PrefixName(bus, ports, i + 1);
        CutShort(FullName(bus, ports), text, chunk, size);
        assert LastThatFits(size, bus, ports, i);
        text := text + Fit(chunk, size - len);
        return;
      }
      text := text + chunk;
      len := len + |chunk|;
      i := i + 1;
    }
    assert LastThatFits(size, bus, ports, |ports|);
  }

  lemma NameOfRoot(bus: byte, ports: seq<byte>)
    ensures DeviceName(bus, ports[..0]) == Decimal(bus) + "-" && ports[..|ports|] == ports
  {
    assert ports[..0] == [];
  }

  /** Writing a piece that no longer fits leaves the whole text cut to the buffer. */
  lemma CutShort(full: string, text: string, chunk: string, size: nat)
    requires |text| < size <= |text| + |chunk| && text + chunk <= full
    ensures text + Fit(chunk, size - |text|) == Fit(full, size)
  {
  }

  lemma NextName(bus: byte, ports: seq<byte>, i: nat)
    requires i < |ports|
    ensures DeviceName(bus, ports[..i + 1])
         == DeviceName(bus, ports[..i]) + ((if i > 0 then "." else "") + Decimal(ports[i]))
  {
    assert ports[..i + 1][..i] == ports[..i];
    assert ports[..i + 1][i] == ports[i];
  }

  /** The names of the first hubs on a path are prefixes of the name. */
  lemma {:induction false} PrefixName(bus: byte, ports: seq<byte>, i: nat)
    requires i <= |ports|
    ensures DeviceName(bus, ports[..i]) <= DeviceName(bus, ports)
    decreases |ports| - i
  {
    if i == |ports| {
      assert ports[..i] == ports;
    } else {
      NextName(bus, ports, i);
      PrefixName(bus, ports, i + 1);
    }
  }

  // ---- Reading ----

  datatype Parsed = NotADevice | Parsed(busnum: nat, parent_portnum: nat, portnum: nat)

  /** What the port loop makes of the rest of the name, standing on a separator. */
  function ParsePorts(name: string, pn: nat, busnum: nat, parent_portnum: nat, portnum: nat): Parsed
    requires pn <= |name|
    decreases |name| - pn
  {
    if pn == |name| then Parsed(busnum, parent_portnum, portnum)
    else
      var p := pn + 1;
      var (i, end) := Strtoul(name, p);
      if end == p then Parsed(busnum, parent_portnum, portnum)
      else ParsePorts(name, end, busnum, portnum, i % UINT_RANGE)
  }

  function ParseName(name: string): Parsed {
    var (i, pn) := Strtoul(name, 0);
    if pn == 0 then NotADevice else ParsePorts(name, pn, i % UINT_RANGE, 0, 0)
  }

  /** The name parsing of `add_usb_device`. */
  method AddUsbDeviceNumbers(name: string) returns (d: Parsed)
    ensures d == ParseName(name)
  {
    hide Strtoul;
    var p := 0;
    var (i, pn) := Strtoul(name, p);
    if p == pn {
      return NotADevice;
    }
    d := Parsed(i % UINT_RANGE, 0, 0);
    while pn < |name|
      invariant pn <= |name| && d.Parsed?
      invariant ParseName(name) == ParsePorts(name, pn, d.busnum, d.parent_portnum, d.portnum)
      decreases |name| - pn
    {
      p := pn + 1;
      var (j, end) := Strtoul(name, p);
      if p == end {
        break;
      }
      pn := end;
      d := Parsed(d.busnum, d.portnum, j % UINT_RANGE);
    }
  }

  // ---- The two agree ----

  /** The last port of a path and the one before it, 0 where there is none. */
  function LastPort(ports: seq<byte>): nat { if |ports| == 0 then 0 else ports[|ports| - 1] }

  function ParentPort(ports: seq<byte>): nat { if |ports| < 2 then 0 else ports[|ports| - 2] }

  /** Once the loop has read the first `k` ports it goes on to read the others. */
  lemma {:induction false} ParseRest(bus: byte, ports: seq<byte>, k: nat)
    requires k <= |ports| && |ports| > 0
    ensures var pn := if k == 0 then |Decimal(bus)| else |DeviceName(bus, ports[..k])|;
            pn <= |DeviceName(bus, ports)| &&
            ParsePorts(DeviceName(bus, ports), pn, bus, ParentPort(ports[..k]), LastPort(ports[..k]))
            == Parsed(bus, ParentPort(ports), LastPort(ports))
    decreases |ports| - k
  {
    hide Strtoul, Decimal, PortPath, DeviceName;
    BusOnly(bus);
    var name := DeviceName(bus, ports);
    if k == |ports| {
      assert ports[..k] == ports;
    } else {
      ParseRest(bus, ports, k + 1);
      NextName(bus, ports, k);
      PrefixName(bus, ports, k + 1);
      assert ports[..0] == [];
      var d := Decimal(ports[k]);
      var before := DeviceName(bus, ports[..k]) + (if k > 0 then "." else "");
      assert before + d == DeviceName(bus, ports[..k + 1]);
      var after := name[|before + d|..];
      assert name == before + d + after;
      if k + 1 < |ports| {
        NextName(bus, ports, k + 1);
        PrefixName(bus, ports, k + 2);
        assert DeviceName(bus, ports[..k + 2])[|before + d|] == '.';
      } else {
        assert ports[..k + 1] == ports;
      }
      StrtoulReadsDecimal(before, ports[k], after);
    }
  }

  lemma BusOnly(bus: byte)
    ensures DeviceName(bus, []) == Decimal(bus) + "-"
  {
  }

  /** Reading a printed name gives back its bus, last port and second-last port. */
  lemma NameRoundTrip(bus: byte, ports: seq<byte>)
    requires |ports| > 0
    ensures ParseName(DeviceName(bus, ports)) == Parsed(bus, ParentPort(ports), LastPort(ports))
    ensures var n := |ports|;
      ParseName(DeviceName(bus, ports)) == Parsed(bus, if n == 1 then 0 else ports[n - 2], ports[n - 1])
  {
    hide Strtoul, Decimal, PortPath;
    var name := DeviceName(bus, ports);
    var after := "-" + PortPath(ports);
    assert name == "" + Decimal(bus) + after;
    StrtoulReadsDecimal("", bus, after);
    assert ports[..0] == [];
    ParseRest(bus, ports, 0);
  }

  lemma {:induction false} PortPathDots(ports: seq<byte>)
    requires |ports| > 0
    ensures Strrchr(PortPath(ports), '.') ==
            if |ports| == 1 then -1 else |PortPath(ports[..|ports| - 1])|
  {
    var last := Decimal(ports[|ports| - 1]);
    if |ports| > 1 {
      NoDotBehind(PortPath(ports[..|ports| - 1]) + ".", last);
    } else {
      NoDotBehind("", last);
      assert "" + last == last;
    }
  }

  /** Digits after a string do not move its last dot. */
  lemma {:induction false} NoDotBehind(s: string, digits: string)
    requires AllDigits(digits)
    ensures Strrchr(s + digits, '.') == Strrchr(s, '.')
    decreases |digits|
  {
    if |digits| == 0 {
      assert s + digits == s;
    } else {
      var front := digits[..|digits| - 1];
      assert (s + digits)[..|s + digits| - 1] == s + front;
      NoDotBehind(s, front);
    }
  }

  lemma {:induction false} LastDotInTail(s: string, t: string)
    ensures Strrchr(s + t, '.') ==
            if Strrchr(t, '.') >= 0 then |s| + Strrchr(t, '.') else Strrchr(s, '.')
    decreases |t|
  {
    if |t| == 0 {
      assert s + t == s;
    } else {
      assert (s + t)[..|s + t| - 1] == s + t[..|t| - 1];
      LastDotInTail(s, t[..|t| - 1]);
    }
  }

  /** Cutting a name at its last dot gives the name of the hub the device hangs on; a
      device on a root hub has no dot to cut at. */
  lemma CutAtLastDot(bus: byte, ports: seq<byte>)
    requires |ports| > 0
    ensures var name := DeviceName(bus, ports);
            var dot := Strrchr(name, '.');
            (|ports| == 1 <==> dot < 0) &&
            (|ports| > 1 ==> name[..dot] == DeviceName(bus, ports[..|ports| - 1]))
  {
    var head, path := Decimal(bus) + "-", PortPath(ports);
    NoDotInHead(bus);
    PortPathDots(ports);
    CutPath(head, path);
  }

  lemma NoDotInHead(bus: byte)
    ensures Strrchr(Decimal(bus) + "-", '.') == -1
  {
    hide Decimal;
    var digits := Decimal(bus);
    NoDotBehind("", digits);
    assert "" + digits == digits && (digits + "-")[..|digits + "-"| - 1] == digits;
  }

  lemma CutPath(head: string, path: string)
    requires Strrchr(head, '.') == -1
    ensures Strrchr(path, '.') >= 0 ==>
              Strrchr(head + path, '.') == |head| + Strrchr(path, '.') &&
              (head + path)[..Strrchr(head + path, '.')] == head + path[..Strrchr(path, '.')]
    ensures Strrchr(path, '.') < 0 ==> Strrchr(head + path, '.') == -1
  {
    LastDotInTail(head, path);
    hide *;
    var dot := Strrchr(path, '.');
    if 0 <= dot <= |path| {
      assert (head + path)[..|head| + dot] == head + path[..dot];
    }
  }

  /** The numeric test that precedes the comparison of names never rejects the true parent. */
  lemma PrefilterKeepsParent(bus: byte, ports: seq<byte>)
    requires |ports| > 1
    ensures var d, pd := ParseName(DeviceName(bus, ports)), ParseName(DeviceName(bus, ports[..|ports| - 1]));
            d.Parsed? && pd.Parsed? && pd.busnum == d.busnum && pd.portnum == d.parent_portnum
  {
    NameRoundTrip(bus, ports);
    NameRoundTrip(bus, ports[..|ports| - 1]);
  }

  /** Different paths have different names. */
  lemma {:induction false} NamesAreUnique(bus: byte, ports: seq<byte>, bus': byte, ports': seq<byte>)
    requires |ports| > 0 && |ports'| > 0
    requires DeviceName(bus, ports) == DeviceName(bus', ports')
    ensures bus == bus' && ports == ports'
    decreases |ports|
  {
    hide Strtoul, Decimal, PortPath, DeviceName, Strrchr, ParseName;
    NameRoundTrip(bus, ports);
    NameRoundTrip(bus', ports');
    CutAtLastDot(bus, ports);
    CutAtLastDot(bus', ports');
    if |ports| > 1 {
      NamesAreUnique(bus, ports[..|ports| - 1], bus', ports'[..|ports'| - 1]);
      assert ports == ports[..|ports| - 1] + [ports[|ports| - 1]];
      assert ports' == ports'[..|ports'| - 1] + [ports'[|ports'| - 1]];
    } else {
      assert ports == [ports[0]] && ports' == [ports'[0]];
    }
  }
}
