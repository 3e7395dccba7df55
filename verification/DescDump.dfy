/** The descriptor dump itself: which bytes are shown as what, in order. */
module DescDump {
  import opened Words
  import opened DescTable
  import opened DescCount
  import opened CStrings

  /** One piece of output.  `at` and `len` say which bytes of the whole descriptor it stands
      for, `shown` are the bytes of these that are printed, as they stand in the descriptor;
      numbers and decimals are printed with the last of them first. */
  datatype Event =
    | Shown(field: string, entry: nat, at: nat, len: nat, shown: seq<byte>)
    | Insufficient(at: nat, len: nat, shown: seq<byte>)
    | Junk(at: nat, len: nat, shown: seq<byte>)

  datatype Ending = Completed | Stopped | Exited

  datatype Run = Run(events: seq<Event>, offset: nat, ending: Ending)

  function Then(first: Run, rest: Run): Run { Run(first.events + rest.events, rest.offset, rest.ending) }

  /** The definition an extension's selector picks; the undefined descriptor has no fields. */
  function Select(descs: seq<DescExt>, selector: uint32): (d: Desc) {
    if |descs| == 0 then []
    else if descs[0].selector == selector then descs[0].desc
    else Select(descs[1..], selector)
  }

  /** Entry `j` is the first for the selector. */
  predicate Picks(descs: seq<DescExt>, selector: nat, j: nat) {
    j < |descs| && descs[j].selector == selector && forall i :: 0 <= i < j ==> descs[i].selector != selector
  }

  /** The first definition listed for a selector is taken, and the undefined descriptor if there is
      none. */
  lemma {:induction false} SelectIs(descs: seq<DescExt>, selector: uint32)
    ensures forall j: nat :: Picks(descs, selector, j) ==> Select(descs, selector) == descs[j].desc
    ensures (forall j :: 0 <= j < |descs| ==> descs[j].selector != selector) ==> Select(descs, selector) == []
    ensures (exists j: nat :: Picks(descs, selector, j)) || forall j :: 0 <= j < |descs| ==> descs[j].selector != selector
  {
    if |descs| > 0 {
      if descs[0].selector == selector {
        assert Picks(descs, selector, 0);
      } else {
        SelectIs(descs[1..], selector);
        forall j: nat | Picks(descs, selector, j) ensures Select(descs, selector) == descs[j].desc {
          PicksTail(descs, selector, j);
        }
        if j: nat :| Picks(descs[1..], selector, j) {
          PicksTail(descs, selector, j + 1);
        } else {
          assert forall j :: 0 < j < |descs| ==> descs[j] == descs[1..][j - 1];
        }
      }
    }
  }

  lemma PicksTail(descs: seq<DescExt>, selector: nat, j: nat)
    requires 0 < j < |descs| && descs[0].selector != selector
    ensures Picks(descs, selector, j) <==> Picks(descs[1..], selector, j - 1)
  {
    var rest := descs[1..];
    assert forall i :: 0 < i < |descs| ==> descs[i] == rest[i - 1];
    if Picks(rest, selector, j - 1) {
      forall i | 0 <= i < j ensures descs[i].selector != selector {
        assert i > 0 ==> rest[i - 1].selector != selector;
      }
    }
    if Picks(descs, selector, j) {
      forall i | 0 <= i < j - 1 ensures rest[i].selector != selector {
        assert rest[i] == descs[i + 1];
      }
    }
  }

  /** Whatever is picked is listed or has no fields. */
  lemma SelectIsListed(descs: seq<DescExt>, selector: uint32)
    ensures Select(descs, selector) == [] || exists j :: 0 <= j < |descs| && descs[j].desc == Select(descs, selector)
  {
    SelectIs(descs, selector);
    if j: nat :| Picks(descs, selector, j) {
      assert descs[j].desc == Select(descs, selector);
    }
  }

  /** A field that is not an extension, at `offset`: binary-coded decimals are printed whole,
      other values as numbers of up to eight bytes. */
  function ShownField(f: Field, buf: seq<byte>, base: nat, size: nat, entry: nat, offset: nat): Event
    requires offset + size <= |buf|
  {
    Shown(f.name, entry, base + offset, size, buf[offset..offset + if f.kind.Bcd? then size else Low8(size)])
  }

  /** What is printed behind the last field. */
  function ShowRest(buf: seq<byte>, base: nat, offset: nat): (r: Run)
    requires offset <= |buf|
  {
    Run(if offset < |buf| then [Junk(base + offset, |buf| - offset, buf[offset..])] else [], |buf|, Completed)
  }

  function ShowValue(desc: Desc, buf: seq<byte>, base: nat, k: nat, size: nat, entry: nat, offset: nat): (r: Run)
    requires WellFormed(desc) && k < |desc| && offset + size <= |buf| < NO_COUNT
    ensures r.offset <= |buf| && r.ending != Stopped
    decreases desc, |desc| - k, 0, 0
  {
    if desc[k].kind.Extension? then
      var descs := desc[k].kind.descs;
      match FieldValue(desc, buf, desc[k].kind.typeField)
      case Exits => Run([], offset, Exited)
      case Got(selector) =>
        SelectIsListed(descs, Truncate(selector));
        var ext := Select(descs, Truncate(selector));
        var nested := if ext == [] then ShowRest(buf, base, offset) else Dump(ext, buf[offset..], base + offset);
        if nested.ending == Exited then Run(nested.events, offset, Exited) else Run(nested.events, |buf|, Completed)
    else Run([ShownField(desc[k], buf, base, size, entry, offset)], offset + size, Completed)
  }

  /** Entries `entry` to `entries` of field `k`, each `size` bytes. */
  function ShowEntries(
      desc: Desc, buf: seq<byte>, base: nat, k: nat, size: nat, entry: nat, entries: nat, offset: nat): (r: Run)
    requires WellFormed(desc) && k < |desc| && offset <= |buf| < NO_COUNT && entry <= entries
    ensures r.offset <= |buf|
    decreases desc, |desc| - k, 0, entries - entry + 1
  {
    if entry == entries then Run([], offset, Completed)
    else if offset + size > |buf| then
      Run([Insufficient(base + offset, |buf| - offset, buf[offset..])], |buf|, Stopped)
    else
      var first := ShowValue(desc, buf, base, k, size, entry, offset);
      if first.ending == Exited then first
      else Then(first, ShowEntries(desc, buf, base, k, size, entry + 1, entries, first.offset))
  }

  /** Fields `k` onwards, and what is left behind the last one. */
  function ShowFields(desc: Desc, buf: seq<byte>, base: nat, k: nat, offset: nat): (r: Run)
    requires WellFormed(desc) && k <= |desc| && offset <= |buf| < NO_COUNT
    ensures r.offset <= |buf|
    decreases desc, |desc| - k, 1, 0
  {
    if k == |desc| then ShowRest(buf, base, offset)
    else
      match (Entries(desc, buf, k), EntrySize(desc, buf, k))
      case (Got(entries), Got(size)) =>
        var field := ShowEntries(desc, buf, base, k, size, 0, entries, offset);
        if field.ending != Completed then field
        else Then(field, ShowFields(desc, buf, base, k + 1, field.offset))
      case _ => Run([], offset, Exited)
  }

  /** Some array's length cannot be found. */
  predicate FirstPassExits(desc: Desc, buf: seq<byte>)
    requires Resolves(desc) && |buf| < UINT_RANGE
  {
    exists k :: 0 <= k < |desc| && NameWidth(desc, buf, k).Exits?
  }

  /** Everything `desc_dump` shows of `buf`, which stands at `base` in the whole descriptor. */
  function Dump(desc: Desc, buf: seq<byte>, base: nat): (r: Run)
    requires WellFormed(desc) && |buf| < NO_COUNT
    ensures r.offset <= |buf|
    decreases desc, |desc| + 1, 0, 0
  {
    if FirstPassExits(desc, buf) then Run([], 0, Exited) else ShowFields(desc, buf, base, 0, 0)
  }

  // ---- The C functions ----

  /** The bytes from `offset` to the end, one by one. */
  method HexBytes(buf: seq<byte>, offset: nat) returns (shown: seq<byte>)
    requires offset <= |buf|
    ensures shown == buf[offset..]
  {
    shown := [];
    var i := offset;
    while i < |buf|
      invariant offset <= i <= |buf| && shown == buf[offset..i]
    {
      shown := shown + [buf[i]];
      i := i + 1;
    }
  }

  function Backwards(s: seq<byte>): (r: seq<byte>)
    ensures |r| == |s|
  {
    seq(|s|, i requires 0 <= i < |s| => s[|s| - 1 - i])
  }

  /** A binary-coded decimal: its bytes as they are printed, the last one first. */
  method BcdBytes(buf: seq<byte>, offset: nat, size: nat) returns (printed: seq<byte>)
    requires size > 0 && offset + size <= |buf|
    ensures |printed| == size && forall i :: 0 <= i < size ==> printed[i] == buf[offset + size - 1 - i]
  {
    printed := [buf[offset + size - 1]];
    var i := 1;
    while i < size
      invariant 1 <= i <= size && |printed| == i
      invariant forall k :: 0 <= k < i ==> printed[k] == buf[offset + size - 1 - k]
    {
      printed := printed + [buf[offset + size - 1 - i]];
      i := i + 1;
    }
  }

  function Spaces(n: nat): (s: string)
    ensures |s| == n && forall i :: 0 <= i < n ==> s[i] == ' '
  {
    seq(n, _ => ' ')
  }

  /** `field_render`, without the indentation: the label and spaces.  A single field fills the
      column; an entry of an array fills it exactly when its index is as wide as the room kept
      for one, and is wider than the column exactly from entry 1000 on. */
  method FieldRender(entry: nat, entries: nat, fieldLen: nat, current: Field) returns (text: string)
    requires entry < entries
    requires fieldLen >= |current.name| + if current.repeat.Once? then 0 else CharCount(entries)
    ensures Label(current, entry) <= text && forall i :: |Label(current, entry)| <= i < |text| ==> text[i] == ' '
    ensures current.repeat.Once? ==> |text| == fieldLen
    ensures !current.repeat.Once? ==> (|text| == fieldLen <==> 2 + |Decimal(entry)| == CharCount(entries))
    ensures !current.repeat.Once? ==> (|text| > fieldLen <==> entry >= 1000)
  {
    IndexFits(entry, entries);
    hide Decimal, CharCount;
    if !current.repeat.Once? {
      var neededChars := fieldLen - CharCount(entries) - |current.name|;
      text := current.name + "(" + Decimal(entry) + ")" + Spaces(neededChars);
    } else {
      text := current.name + Spaces(fieldLen - |current.name|);
    }
  }

  /** The part of `value_renderer` that reads a field's own bytes. */
  method RenderField(current: Field, buf: seq<byte>, base: nat, size: nat, entry: nat, offset: nat) returns (e: Event)
    requires offset + size <= |buf|
    requires current.kind in {Bcd, StrDescIndex} ==> size > 0
    ensures e == ShownField(current, buf, base, size, entry, offset)
    ensures e == Shown(current.name, entry, base + offset, size,
                       buf[offset..offset + if current.kind.Bcd? || size <= 8 then size else 8])
  {
    if current.kind.Bcd? {
      var printed := BcdBytes(buf, offset, size);
      assert Backwards(printed) == buf[offset..offset + size];
      return Shown(current.name, entry, base + offset, size, Backwards(printed));
    }
    var value := GetNBytesAsUll(buf, offset, size);
    var shown := Bytes(value, Low8(size));
    BytesOfLittleEndian(buf[offset..offset + Low8(size)]);
    if current.kind.StrDescIndex? {
      var index := buf[offset];
      assert index == shown[0];
    }
    return Shown(current.name, entry, base + offset, size, shown);
  }

  /** The extension case of `value_renderer`. */
  method RenderExtension(desc: Desc, buf: seq<byte>, base: nat, k: nat, offset: nat)
    returns (out: seq<Event>, exited: bool)
    requires WellFormed(desc) && Readable(desc) && k < |desc| && desc[k].kind.Extension? && offset <= |buf| < NO_COUNT
    ensures Run(out, if exited then offset else |buf|, if exited then Exited else Completed)
         == ShowValue(desc, buf, base, k, 0, 0, offset)
    decreases desc, 0
  {
    var value := GetValueFromField(desc, buf, desc[k].kind.typeField);
    if value.Exits? {
      return [], true;
    }
    var selector := Truncate(value.value);
    var ext := FindExtension(desc[k].kind.descs, selector);
    SelectIsListed(desc[k].kind.descs, selector);
    if ext == [] {
      out := UndefinedDump(buf, base, offset);
      exited := false;
    } else {
      out, exited := DescDump(ext, buf[offset..], base + offset);
    }
  }

  /** The loop over the known extensions. */
  method FindExtension(descs: seq<DescExt>, selector: uint32) returns (d: Desc)
    ensures d == Select(descs, selector)
    ensures forall j: nat :: Picks(descs, selector, j) ==> d == descs[j].desc
    ensures (forall j :: 0 <= j < |descs| ==> descs[j].selector != selector) ==> d == []
  {
    SelectIs(descs, selector);
    var ext := 0;
    while ext < |descs|
      invariant 0 <= ext <= |descs| && Select(descs, selector) == Select(descs[ext..], selector)
    {
      assert descs[ext..][1..] == descs[ext + 1..];
      if descs[ext].selector == selector {
        return descs[ext].desc;
      }
      ext := ext + 1;
    }
    return [];
  }

  /** Dumping with a definition that has no fields. */
  method UndefinedDump(buf: seq<byte>, base: nat, offset: nat) returns (out: seq<Event>)
    requires offset <= |buf|
    ensures out == ShowRest(buf, base, offset).events
  {
    out := [];
    if offset < |buf| {
      var shown := HexBytes(buf, offset);
      out := [Junk(base + offset, |buf| - offset, shown)];
    }
  }

  /** The entries of one field, each checked against what is left of the buffer. */
  method DumpEntries(desc: Desc, buf: seq<byte>, base: nat, k: nat, size: uint32, entries: nat, fieldLen: nat, start: nat)
    returns (r: Run)
    requires WellFormed(desc) && Readable(desc) && k < |desc| && start <= |buf| < NO_COUNT
    requires EntrySize(desc, buf, k) == Got(size)
    requires fieldLen >= |desc[k].name| + if desc[k].repeat.Once? then 0 else CharCount(entries)
    ensures r == ShowEntries(desc, buf, base, k, size, 0, entries, start)
    decreases desc, 1
  {
    SizeOfReader(desc, buf, k);
    hide WellFormed, Readable, CharCount, EntrySize, Label;
    var out: seq<Event> := [];
    var offset: nat, entry: nat := start, 0;
    while entry < entries
      invariant 0 <= entry <= entries && offset <= |buf|
      invariant ShowEntries(desc, buf, base, k, size, 0, entries, start)
             == Then(Run(out, offset, Completed), ShowEntries(desc, buf, base, k, size, entry, entries, offset))
    {
      ghost var todo := ShowEntries(desc, buf, base, k, size, entry, entries, offset);
      if offset + size > |buf| {
        var shown := HexBytes(buf, offset);
        return Run(out + [Insufficient(base + offset, |buf| - offset, shown)], |buf|, Stopped);
      }
      ghost var was := out;
      if desc[k].kind.Extension? {
        var nested, exited := RenderExtension(desc, buf, base, k, offset);
        out := out + nested;
        if exited {
          return Run(out, offset, Exited);
        }
        offset := |buf|;
      } else {
        var name := FieldRender(entry, entries, fieldLen, desc[k]);
        var e := RenderField(desc[k], buf, base, size, entry, offset);
        out := out + [e];
        offset := offset + size;
      }
      entry := entry + 1;
      Assoc(was, out[|was|..], ShowEntries(desc, buf, base, k, size, entry, entries, offset));
      assert out == was + out[|was|..];
    }
    return Run(out, offset, Completed);
  }

  lemma Assoc(a: seq<Event>, b: seq<Event>, rest: Run)
    ensures a + (b + rest.events) == (a + b) + rest.events
  {
  }

  lemma Resolved(desc: Desc)
    requires WellFormed(desc)
    ensures Resolves(desc)
  {
  }

  /** A field that reads a byte of its own has bytes of its own. */
  lemma SizeOfReader(desc: Desc, buf: seq<byte>, k: nat)
    requires WellFormed(desc) && Readable(desc) && k < |desc| && EntrySize(desc, buf, k).Got?
    ensures desc[k].kind in {Bcd, StrDescIndex} ==> EntrySize(desc, buf, k).value > 0
  {
    assert ReadsItsOwn(desc[k]);
  }

  /** `desc_dump` with a known length. */
  method DescDump(desc: Desc, buf: seq<byte>, base: nat) returns (out: seq<Event>, exited: bool)
    requires WellFormed(desc) && Readable(desc) && |buf| < NO_COUNT
    ensures out == Dump(desc, buf, base).events && exited == (Dump(desc, buf, base).ending == Exited)
    decreases desc, 2
  {
    Resolved(desc);
    hide WellFormed, Readable, CharCount, EntrySize, ArrayCount, ShowEntries, Label;
    out := [];
    var fieldLen := FieldLength(desc, buf);
    if fieldLen.Exits? {
      return [], true;
    }
    var offset: nat, current: nat := 0, 0;
    while current < |desc|
      invariant 0 <= current <= |desc| && offset <= |buf|
      invariant Dump(desc, buf, base) == Then(Run(out, 0, Completed), ShowFields(desc, buf, base, current, offset))
    {
      var entries: uint32 := 1;
      if !desc[current].repeat.Once? {
        var count := GetArrayEntryCount(desc, buf, current);
        if count.Exits? {
          return out, true;
        }
        entries := count.value;
      }
      var size := GetEntrySize(desc, buf, current);
      if size.Exits? {
        return out, true;
      }
      assert fieldLen.value >= NameWidth(desc, buf, current).value;
      var field := DumpEntries(desc, buf, base, current, size.value, entries, fieldLen.value, offset);
      ghost var was := out;
      out := out + field.events;
      if field.ending != Completed {
        return out, field.ending == Exited;
      }
      offset := field.offset;
      current := current + 1;
      Assoc(was, field.events, ShowFields(desc, buf, base, current, offset));
    }
    if offset < |buf| {
      var shown := HexBytes(buf, offset);
      out := out + [Junk(base + offset, |buf| - offset, shown)];
    }
    return out, false;
  }

  // ---- The length of the descriptor ----

  /** Asks for the length to be read from the descriptor's first field. */
  const DESC_BUF_LEN_FROM_BUF: uint32 := 0xffff_ffff

  function FirstSize(desc: Desc): nat { if desc == [] then 0 else desc[0].size }

  /** How many bytes of `mem` a call is about. */
  function BufLen(desc: Desc, mem: seq<byte>, bufLen: uint32): uint32
    requires FirstSize(desc) <= |mem|
  {
    if bufLen == DESC_BUF_LEN_FROM_BUF then Truncate(NumberAt(mem, 0, FirstSize(desc))) else bufLen
  }

  /** `desc_dump` as it is called from outside, with a length or with the request to read it;
      the caller vouches for that many bytes of memory. */
  method DescDumpOuter(desc: Desc, mem: seq<byte>, bufLen: uint32) returns (out: seq<Event>, exited: bool)
    requires WellFormed(desc) && Readable(desc) && FirstSize(desc) <= |mem|
    requires BufLen(desc, mem, bufLen) <= |mem| && BufLen(desc, mem, bufLen) < NO_COUNT
    ensures out == Dump(desc, mem[..BufLen(desc, mem, bufLen)], 0).events
    ensures exited == (Dump(desc, mem[..BufLen(desc, mem, bufLen)], 0).ending == Exited)
    ensures bufLen != 0xffff_ffff ==> BufLen(desc, mem, bufLen) == bufLen
    ensures bufLen == 0xffff_ffff && desc != [] && desc[0].size <= 8 ==>
              BufLen(desc, mem, bufLen) == LittleEndian(mem[..desc[0].size]) % 0x1_0000_0000
  {
    hide WellFormed, Readable, Dump;
    var len := bufLen;
    if len == DESC_BUF_LEN_FROM_BUF {
      var value := GetNBytesAsUll(mem, 0, if desc == [] then 0 else desc[0].size);
      len := Truncate(value);
    }
    out, exited := DescDump(desc, mem[..len], 0);
  }
}
