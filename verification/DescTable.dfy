/** Descriptor definitions: tables of named fields, and the values and sizes that a
    descriptor's bytes give them. */
module DescTable {
  import opened Words

  /** `Exits` is the process ending with an error message. */
  datatype Outcome<T> = Got(value: T) | Exits {
    predicate IsFailure() { Exits? }
    function PropagateFailure<U>(): Outcome<U>
      requires Exits?
    {
      Exits
    }
    function Extract(): T
      requires Got?
    {
      value
    }
  }

  datatype FieldType =
    | Constant | Number | NumberPostfix | Bitmap | Bcd | BmControl1 | BmControl2
    | StrDescIndex | CsStrDescId | TerminalStr | BitmapStrings | NumberStrings
    | Extension(typeField: string, descs: seq<DescExt>) | Snowflake

  datatype DescExt = DescExt(selector: uint32, desc: seq<Field>)

  /** How often a field is repeated: once, as often as one field's value or the product of
      two says (in entries or in bits), or as often as the rest of the buffer allows. */
  datatype Repeat =
    | Once
    | Inferred
    | Counted(lengthField1: string, lengthField2: Option<string>, bits: bool)

  datatype Field = Field(name: string, size: uint32, sizeField: Option<string>, kind: FieldType, repeat: Repeat)

  type Desc = seq<Field>

  /** The first field called `name`, or `|desc|`. */
  function Find(desc: Desc, name: string): (k: nat)
    ensures k <= |desc|
    ensures forall i :: 0 <= i < k ==> desc[i].name != name
    ensures k < |desc| ==> desc[k].name == name
  {
    if |desc| == 0 || desc[0].name == name then 0 else 1 + Find(desc[1..], name)
  }

  lemma {:induction false} FindIs(desc: Desc, name: string, k: nat)
    requires k < |desc| && desc[k].name == name
    requires forall i :: 0 <= i < k ==> desc[i].name != name
    ensures Find(desc, name) == k
  {
    if k > 0 {
      FindIs(desc[1..], name, k - 1);
    }
  }

  // ---- What a definition must satisfy ----

  /** A size field stands before the field it sizes. */
  predicate Resolves(desc: Desc) {
    forall k :: 0 <= k < |desc| && desc[k].sizeField.Some? ==> Find(desc, desc[k].sizeField.value) < k
  }

  predicate WellFormed(desc: Desc) {
    && Resolves(desc)
    && (forall k :: 0 <= k < |desc| && desc[k].kind.Extension? ==>
          forall j :: 0 <= j < |desc[k].kind.descs| ==> WellFormed(desc[k].kind.descs[j].desc))
  }

  /** The two field types that read a byte whatever the size never have a variable size. */
  predicate ReadsItsOwn(f: Field) { f.kind in {Bcd, StrDescIndex} ==> f.sizeField.None? }

  /** What reading the bytes takes besides, extensions included. */
  predicate Readable(desc: Desc) {
    && (forall k :: 0 <= k < |desc| ==> ReadsItsOwn(desc[k]))
    && (forall k :: 0 <= k < |desc| && desc[k].kind.Extension? ==>
          forall j :: 0 <= j < |desc[k].kind.descs| ==> Readable(desc[k].kind.descs[j].desc))
  }

  /** Neither a size nor a field to take it from. */
  predicate ZeroSized(f: Field) { f.sizeField.None? && f.size == 0 }

  predicate Sized(desc: Desc, k: nat)
    requires k <= |desc|
  {
    forall i :: 0 <= i < k ==> !ZeroSized(desc[i])
  }

  // ---- Sizes and values ----

  /** The bytes one entry of field `k` takes. */
  function Size(desc: Desc, buf: seq<byte>, k: nat): (n: uint32)
    requires k < |desc| && Resolves(desc)
    decreases k, 0
  {
    match desc[k].sizeField
    case None => desc[k].size
    case Some(name) => Truncate(ValueAt(desc, buf, Find(desc, name)))
  }

  /** Where the lookup expects field `k`: one entry after another of each field before it. */
  function LookupOffset(desc: Desc, buf: seq<byte>, k: nat): nat
    requires k <= |desc| && Resolves(desc)
    decreases k, 0, 0
  {
    if k == 0 then 0 else LookupOffset(desc, buf, k - 1) + Size(desc, buf, k - 1)
  }

  function Low8(n: nat): nat { if n > 8 then 8 else n }

  /** The little-endian number in up to eight of the `n` bytes at `offset`. */
  function NumberAt(buf: seq<byte>, offset: nat, n: nat): nat
    requires offset + n <= |buf|
  {
    LittleEndian(buf[offset..offset + Low8(n)])
  }

  /** What a lookup of field `k` yields; 0 when its bytes are missing. */
  function ValueAt(desc: Desc, buf: seq<byte>, k: nat): nat
    requires k < |desc| && Resolves(desc)
    decreases k, 1
  {
    var offset := LookupOffset(desc, buf, k);
    if offset + desc[k].size <= |buf| then NumberAt(buf, offset, desc[k].size) else 0
  }

  function Value(desc: Desc, buf: seq<byte>, name: string): nat
    requires Resolves(desc)
  {
    var k := Find(desc, name);
    if k < |desc| then ValueAt(desc, buf, k) else 0
  }

  function FieldValue(desc: Desc, buf: seq<byte>, name: string): Outcome<nat>
    requires Resolves(desc)
  {
    if Sized(desc, Find(desc, name)) then Got(Value(desc, buf, name)) else Exits
  }

  function EntrySize(desc: Desc, buf: seq<byte>, k: nat): Outcome<uint32>
    requires k < |desc| && Resolves(desc)
  {
    match desc[k].sizeField
    case None => if desc[k].size == 0 then Exits else Got(desc[k].size)
    case Some(name) => if Sized(desc, Find(desc, name)) then Got(Size(desc, buf, k)) else Exits
  }

  /** Without zero-sized fields before it, a field's size is found without exiting. */
  lemma EntrySizeKnown(desc: Desc, buf: seq<byte>, k: nat)
    requires k < |desc| && Resolves(desc) && Sized(desc, k) && !ZeroSized(desc[k])
    ensures EntrySize(desc, buf, k) == Got(Size(desc, buf, k))
  {
  }

  // ---- The C functions ----

  /** `get_n_bytes_as_ull`: one turn for each case its switch falls through, from the highest
      byte to the lowest. */
  method GetNBytesAsUll(buf: seq<byte>, offset: nat, bytes: nat) returns (ret: nat)
    requires offset + bytes <= |buf|
    ensures ret == NumberAt(buf, offset, bytes)
    ensures ret == LittleEndian(buf[offset..offset + if bytes <= 8 then bytes else 8])
  {
    var n := Low8(bytes);
    ret := 0;
    assert buf[offset + n..offset + n] == [];
    while n > 0
      invariant 0 <= n <= Low8(bytes)
      invariant ret == LittleEndian(buf[offset + n..offset + Low8(bytes)])
    {
      n := n - 1;
      var b := buf[offset + n..offset + Low8(bytes)];
      assert b[0] == buf[offset + n] && b[1..] == buf[offset + n + 1..offset + Low8(bytes)];
      ret := buf[offset + n] + 256 * ret;
    }
  }

  /** `get_value_from_field`. */
  method GetValueFromField(desc: Desc, buf: seq<byte>, field: string) returns (value: Outcome<nat>)
    requires Resolves(desc)
    ensures value == FieldValue(desc, buf, field)
    ensures value.Exits? <==> exists i :: 0 <= i < Find(desc, field) && desc[i].sizeField.None? && desc[i].size == 0
    ensures value.Got? && Find(desc, field) == |desc| ==> value == Got(0)
    decreases Find(desc, field), 1
  {
    var offset, current := 0, 0;
    while current < |desc|
      invariant 0 <= current <= Find(desc, field)
      invariant offset == LookupOffset(desc, buf, current) && Sized(desc, current)
    {
      if desc[current].name == field {
        assert current == Find(desc, field);
        var found := 0;
        if offset + desc[current].size <= |buf| {
          found := GetNBytesAsUll(buf, offset, desc[current].size);
        }
        return Got(found);
      }
      var size := GetEntrySize(desc, buf, current);
      if size.Exits? {
        return Exits;
      }
      EntrySizeKnown(desc, buf, current);
      offset := offset + size.value;
      current := current + 1;
    }
    return Got(0);
  }

  /** `get_entry_size`. */
  method GetEntrySize(desc: Desc, buf: seq<byte>, k: nat) returns (size: Outcome<uint32>)
    requires k < |desc| && Resolves(desc)
    ensures size == EntrySize(desc, buf, k)
    ensures desc[k].sizeField.None? ==> size == if desc[k].size == 0 then Exits else Got(desc[k].size)
    ensures forall v :: desc[k].sizeField.Some? && FieldValue(desc, buf, desc[k].sizeField.value) == Got(v) ==>
              size == Got(v % 0x1_0000_0000)
    decreases k, 0
  {
    match desc[k].sizeField {
      case Some(name) =>
        var value := GetValueFromField(desc, buf, name);
        return if value.Exits? then Exits else Got(Truncate(value.value));
      case None =>
        if desc[k].size == 0 {
          return Exits;
        }
        return Got(desc[k].size);
    }
  }
}
