/** How many entries an array field has, and how wide the column of names must be. */
module DescCount {
  import opened Words
  import opened DescTable
  import opened CStrings

  /** The answer for a definition with two arrays of inferred length. */
  const NO_COUNT: uint32 := 0xffff_ffff

  /** Whole bytes that hold `n` bits, as the code computes them. */
  function BytesForBits(n: nat): nat { n / 8 + if n % 8 != 0 then 1 else 0 }

  /** An `unsigned int` multiplied in place. */
  function Times(a: uint32, b: nat): (n: uint32) { Truncate(a * b) }

  function CountedEntries(desc: Desc, buf: seq<byte>, r: Repeat): Outcome<uint32>
    requires Resolves(desc) && r.Counted?
  {
    var first :- FieldValue(desc, buf, r.lengthField1);
    var entries := Truncate(first);
    if r.lengthField2.None? then Got(if r.bits then BytesForBits(entries) else entries)
    else
      var second :- FieldValue(desc, buf, r.lengthField2.value);
      var product := Times(entries, second);
      Got(if r.bits then BytesForBits(product) else product)
  }

  /** The bytes that field `i` takes, as the scan for an inferred length computes them. */
  function FieldBytes(desc: Desc, buf: seq<byte>, i: nat): Outcome<uint32>
    requires Resolves(desc) && i < |desc| && !desc[i].repeat.Inferred?
  {
    if desc[i].repeat.Once? then EntrySize(desc, buf, i)
    else
      var count :- CountedEntries(desc, buf, desc[i].repeat);
      if count == NO_COUNT then Exits
      else
        var entrySize :- EntrySize(desc, buf, i);
        Got(Times(entrySize, count))
  }

  /** What the scan of the other fields leaves for an array of inferred length, or the count
      it settles on without finishing. */
  datatype Leftover = Room(size: uint32) | Answer(count: uint32)

  function Scan(desc: Desc, buf: seq<byte>, k: nat, i: nat, size: uint32): Outcome<Leftover>
    requires Resolves(desc) && i <= |desc|
    decreases |desc| - i
  {
    if i == |desc| then Got(Room(size))
    else if i == k then Scan(desc, buf, k, i + 1, size)
    else if desc[i].repeat.Inferred? then Got(Answer(NO_COUNT))
    else
      var fieldSize :- FieldBytes(desc, buf, i);
      if fieldSize > size then Got(Answer(0)) else Scan(desc, buf, k, i + 1, size - fieldSize)
  }

  function ArrayCount(desc: Desc, buf: seq<byte>, k: nat): Outcome<uint32>
    requires Resolves(desc) && k < |desc| && !desc[k].repeat.Once? && |buf| < UINT_RANGE
  {
    if desc[k].repeat.Counted? then CountedEntries(desc, buf, desc[k].repeat)
    else
      var left :- Scan(desc, buf, k, 0, |buf|);
      match left
      case Answer(count) => Got(count)
      case Room(size) =>
        var fieldSize :- EntrySize(desc, buf, k);
        Got(if fieldSize > 0 then size / fieldSize else 0)
  }

  function Entries(desc: Desc, buf: seq<byte>, k: nat): Outcome<uint32>
    requires Resolves(desc) && k < |desc| && |buf| < UINT_RANGE
  {
    if desc[k].repeat.Once? then Got(1) else ArrayCount(desc, buf, k)
  }

  lemma ScanStep(desc: Desc, buf: seq<byte>, k: nat, i: nat, size: uint32)
    requires Resolves(desc) && i < |desc|
    ensures i == k ==> Scan(desc, buf, k, i, size) == Scan(desc, buf, k, i + 1, size)
    ensures i != k && desc[i].repeat.Inferred? ==> Scan(desc, buf, k, i, size) == Got(Answer(NO_COUNT))
    ensures i != k && !desc[i].repeat.Inferred? ==>
              Scan(desc, buf, k, i, size)
              == match FieldBytes(desc, buf, i)
                 case Exits => Exits
                 case Got(n) => if n > size then Got(Answer(0)) else Scan(desc, buf, k, i + 1, size - n)
  {
    hide FieldBytes, Resolves;
  }

  /** `get_array_entry_count`. */
  method GetArrayEntryCount(desc: Desc, buf: seq<byte>, k: nat) returns (entries: Outcome<uint32>)
    requires Resolves(desc) && k < |desc| && !desc[k].repeat.Once? && |buf| < UINT_RANGE
    ensures entries == ArrayCount(desc, buf, k)
    decreases if desc[k].repeat.Inferred? then 1 else 0, 2
  {
    hide Resolves, CountedEntries, Scan, EntrySize;
    if desc[k].repeat.Counted? {
      entries := GetCounted(desc, buf, desc[k].repeat);
    } else {
      entries := InferCount(desc, buf, k);
    }
  }

  /** The count that one or two fields give. */
  method GetCounted(desc: Desc, buf: seq<byte>, r: Repeat) returns (entries: Outcome<uint32>)
    requires Resolves(desc) && r.Counted?
    ensures entries == CountedEntries(desc, buf, r)
    decreases 0, 1
  {
    hide Times, FieldValue, Resolves, Truncate, Find;
    var value := GetValueFromField(desc, buf, r.lengthField1);
    if value.Exits? {
      return Exits;
    }
    var n := Truncate(value.value);
    if r.lengthField2.Some? {
      value := GetValueFromField(desc, buf, r.lengthField2.value);
      if value.Exits? {
        return Exits;
      }
      n := Times(n, value.value);
    }
    if r.bits {
      n := n / 8 + if n % 8 != 0 then 1 else 0;
    }
    return Got(n);
  }

  /** The count that the sizes of all other fields leave. */
  method InferCount(desc: Desc, buf: seq<byte>, k: nat) returns (entries: Outcome<uint32>)
    requires Resolves(desc) && k < |desc| && desc[k].repeat.Inferred? && |buf| < UINT_RANGE
    ensures entries == ArrayCount(desc, buf, k)
    decreases 1, 1
  {
    hide Scan, EntrySize, FieldBytes, Resolves;
    var size: uint32 := |buf|;
    var current: nat := 0;
    while current < |desc|
      invariant 0 <= current <= |desc|
      invariant Scan(desc, buf, k, 0, |buf|) == Scan(desc, buf, k, current, size)
    {
      ScanStep(desc, buf, k, current, size);
      if current != k {
        if desc[current].repeat.Inferred? {
          return Got(NO_COUNT);
        }
        var fieldSize := GetFieldBytes(desc, buf, current);
        if fieldSize.Exits? {
          return Exits;
        }
        if fieldSize.value > size {
          return Got(0);
        }
        size := size - fieldSize.value;
      }
      current := current + 1;
    }
    ScanEnd(desc, buf, k, size);
    var fieldSize := GetEntrySize(desc, buf, k);
    if fieldSize.Exits? {
      return Exits;
    }
    return Got(if fieldSize.value != 0 then size / fieldSize.value else 0);
  }

  lemma ScanEnd(desc: Desc, buf: seq<byte>, k: nat, size: uint32)
    requires Resolves(desc)
    ensures Scan(desc, buf, k, |desc|, size) == Got(Room(size))
  {
  }

  /** The two ways the scan computes the bytes of another field. */
  method GetFieldBytes(desc: Desc, buf: seq<byte>, current: nat) returns (fieldSize: Outcome<uint32>)
    requires Resolves(desc) && current < |desc| && !desc[current].repeat.Inferred? && |buf| < UINT_RANGE
    ensures fieldSize == FieldBytes(desc, buf, current)
    decreases 0, 3
  {
    hide Times, EntrySize, CountedEntries, Resolves;
    if desc[current].repeat.Counted? {
      var count := GetArrayEntryCount(desc, buf, current);
      if count.Exits? || count.value == NO_COUNT {
        return Exits;
      }
      fieldSize := GetEntrySize(desc, buf, current);
      if fieldSize.Got? {
        fieldSize := Got(Times(fieldSize.value, count.value));
      }
    } else {
      fieldSize := GetEntrySize(desc, buf, current);
    }
  }

  // ---- The column of names ----

  /** Room for the largest index in brackets. */
  function CharCount(entries: nat): nat { if entries > 100 then 5 else if entries > 10 then 4 else 3 }

  /** Characters the name of field `k` needs, index included. */
  function NameWidth(desc: Desc, buf: seq<byte>, k: nat): Outcome<nat>
    requires Resolves(desc) && k < |desc| && |buf| < UINT_RANGE
  {
    if desc[k].repeat.Once? then Got(|desc[k].name|)
    else
      var entries :- ArrayCount(desc, buf, k);
      Got(|desc[k].name| + CharCount(entries))
  }

  /** The name as it is printed, an array's with the index. */
  function Label(f: Field, entry: nat): string {
    if f.repeat.Once? then f.name else f.name + "(" + Decimal(entry) + ")"
  }

  lemma DigitsOf(n: nat)
    ensures |Decimal(n)| == if n < 10 then 1 else 1 + |Decimal(n / 10)|
  {
  }

  /** The room kept for an index is enough for it up to 999, and too little from there on; it is
      what the last index of an array takes, up to a thousand entries. */
  lemma IndexFits(entry: nat, entries: nat)
    requires entry < entries
    ensures 2 + |Decimal(entry)| <= CharCount(entries) <==> entry < 1000
    ensures CharCount(entries) == 2 + |Decimal(entries - 1)| <==> entries <= 1000
  {
    hide Decimal;
    DigitsOf(entry);
    DigitsOf(entry / 10);
    DigitsOf(entry / 10 / 10);
    DigitsOf(entries - 1);
    DigitsOf((entries - 1) / 10);
    DigitsOf((entries - 1) / 10 / 10);
  }

  /** Whether a label fits into a column that is wide enough for `NameWidth`. */
  lemma LabelFits(desc: Desc, buf: seq<byte>, k: nat, entry: nat, column: nat)
    requires Resolves(desc) && k < |desc| && |buf| < UINT_RANGE
    requires Entries(desc, buf, k).Got? && entry < Entries(desc, buf, k).value && entry < 1000
    requires NameWidth(desc, buf, k).Got? && column >= NameWidth(desc, buf, k).value
    ensures |Label(desc[k], entry)| <= column
  {
    hide ArrayCount, Resolves, Decimal, CharCount;
    IndexFits(entry, Entries(desc, buf, k).value);
  }

  /** The first pass of `desc_dump`: a column at least 18 wide, so that the padding computed for
      a name is never negative; no wider than that takes.  No label outgrows it but those of
      entries from 1000 on.  It exits when the length of some array cannot be found. */
  method FieldLength(desc: Desc, buf: seq<byte>) returns (fieldLen: Outcome<nat>)
    requires Resolves(desc) && |buf| < UINT_RANGE
    ensures fieldLen.Exits? <==> exists k :: 0 <= k < |desc| && NameWidth(desc, buf, k).Exits?
    ensures fieldLen.Got? ==> fieldLen.value >= 18
    ensures fieldLen.Got? ==>
              forall k :: 0 <= k < |desc| ==> fieldLen.value >= NameWidth(desc, buf, k).value
    ensures fieldLen.Got? && fieldLen.value != 18 ==>
              exists k :: 0 <= k < |desc| && NameWidth(desc, buf, k) == fieldLen
    ensures fieldLen.Got? ==>
              forall k: nat, entry: nat ::
                k < |desc| && Entries(desc, buf, k).Got? && entry < Entries(desc, buf, k).value && entry < 1000 ==>
                  |Label(desc[k], entry)| <= fieldLen.value
  {
    hide ArrayCount, Resolves, Label, Entries;
    var n := 18;
    var current := 0;
    while current < |desc|
      invariant 0 <= current <= |desc| && n >= 18
      invariant forall k :: 0 <= k < current ==> NameWidth(desc, buf, k).Got?
      invariant forall k :: 0 <= k < current ==> n >= NameWidth(desc, buf, k).value
      invariant n != 18 ==> exists k :: 0 <= k < current && NameWidth(desc, buf, k) == Got(n)
    {
      var neededChars := 0;
      if !desc[current].repeat.Once? {
        var entries := GetArrayEntryCount(desc, buf, current);
        if entries.Exits? {
          assert NameWidth(desc, buf, current).Exits?;
          return Exits;
        }
        neededChars := CharCount(entries.value);
      }
      assert NameWidth(desc, buf, current) == Got(|desc[current].name| + neededChars);
      if |desc[current].name| + neededChars > n {
        n := |desc[current].name| + neededChars;
      }
      current := current + 1;
    }
    forall k: nat, entry: nat
      | k < |desc| && Entries(desc, buf, k).Got? && entry < Entries(desc, buf, k).value && entry < 1000
      ensures |Label(desc[k], entry)| <= n
    {
      LabelFits(desc, buf, k, entry, n);
    }
    return Got(n);
  }
}
