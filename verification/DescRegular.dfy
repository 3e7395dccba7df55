/** Definitions whose lengths are single bytes: no product wraps, no dump exits, and a
    length that is looked up is the one that is shown. */
module DescRegular {
  import opened Words
  import opened DescTable
  import opened DescCount
  import opened DescDump
  import opened DescLayout
  import opened DescInferred
  import opened DescShown

  /** The field called `name`, if there is one, has at most one byte of fixed size. */
  predicate IsByte(desc: Desc, name: string) { Find(desc, name) < |desc| ==> desc[Find(desc, name)].size <= 1 }

  predicate ByteLengths(desc: Desc, f: Field) {
    && f.size <= 255
    && (f.sizeField.Some? ==> IsByte(desc, f.sizeField.value))
    && (f.repeat.Counted? ==>
          IsByte(desc, f.repeat.lengthField1) && (f.repeat.lengthField2.Some? ==> IsByte(desc, f.repeat.lengthField2.value)))
  }

  /** At most one array of inferred length. */
  predicate OneInferred(desc: Desc) {
    forall i, j :: 0 <= i < |desc| && 0 <= j < |desc| && desc[i].repeat.Inferred? && desc[j].repeat.Inferred? ==> i == j
  }

  /** What every shipped definition satisfies, extensions included. */
  predicate Regular(desc: Desc) {
    && WellFormed(desc) && Readable(desc) && Sized(desc, |desc|) && OneInferred(desc)
    && (forall k :: 0 <= k < |desc| ==> ByteLengths(desc, desc[k]))
    && (forall k :: 0 <= k < |desc| && desc[k].kind.Extension? ==>
          forall j :: 0 <= j < |desc[k].kind.descs| ==> Regular(desc[k].kind.descs[j].desc))
  }

  lemma ValueIsByte(desc: Desc, buf: seq<byte>, name: string)
    requires Resolves(desc) && IsByte(desc, name) && Sized(desc, |desc|)
    ensures FieldValue(desc, buf, name) == Got(Value(desc, buf, name)) && Value(desc, buf, name) < 256
  {
    hide Resolves;
    var k := Find(desc, name);
    if k < |desc| {
      var offset := LookupOffset(desc, buf, k);
      if offset + desc[k].size <= |buf| {
        LittleEndianBound(buf[offset..offset + Low8(desc[k].size)]);
      }
    }
  }

  /** The number of entries meant, as a product of numbers. */
  function Meant(desc: Desc, buf: seq<byte>, r: Repeat): nat
    requires Resolves(desc) && r.Counted?
  {
    var n := Value(desc, buf, r.lengthField1) * if r.lengthField2.None? then 1 else Value(desc, buf, r.lengthField2.value);
    if r.bits then (n + 7) / 8 else n
  }

  lemma ProductGrows(a: nat, b: nat, c: nat)
    requires a <= c
    ensures a * b <= c * b
  {
    var d := c - a;
    assert c * b == a * b + d * b;
  }

  lemma ByteProduct(a: nat, b: nat)
    requires a < 256 && b < 256
    ensures a * b <= 65025 && Times(a, b) == a * b && Truncate(a) == a
  {
    ProductGrows(a, b, 255);
    var product := a * b;
    assert product <= 255 * 255;
    TruncateSmall(a);
    TruncateSmall(product);
  }

  lemma TruncateSmall(n: nat)
    requires n < UINT_RANGE
    ensures Truncate(n) == n
  {
  }

  lemma BitsRoundUp(n: nat)
    ensures BytesForBits(n) == (n + 7) / 8 <= n
  {
  }

  /** Counts do not wrap. */
  lemma CountIsMeant(desc: Desc, buf: seq<byte>, k: nat)
    requires Resolves(desc) && Sized(desc, |desc|) && k < |desc| && ByteLengths(desc, desc[k]) && desc[k].repeat.Counted?
    ensures CountedEntries(desc, buf, desc[k].repeat) == Got(Meant(desc, buf, desc[k].repeat))
    ensures Meant(desc, buf, desc[k].repeat) <= 65025
    ensures var r := desc[k].repeat;
      var first, second := Value(desc, buf, r.lengthField1),
        if r.lengthField2.Some? then Value(desc, buf, r.lengthField2.value) else 1;
      CountedEntries(desc, buf, r) == Got(if r.bits then (first * second + 7) / 8 else first * second)
  {
    hide Resolves, FieldValue, Times, IsByte, Sized, BytesForBits, Value, Truncate;
    var r := desc[k].repeat;
    ValueIsByte(desc, buf, r.lengthField1);
    var a := Value(desc, buf, r.lengthField1);
    if r.lengthField2.Some? {
      ValueIsByte(desc, buf, r.lengthField2.value);
      var b := Value(desc, buf, r.lengthField2.value);
      ByteProduct(a, b);
      BitsRoundUp(a * b);
    } else {
      ByteProduct(a, 1);
      BitsRoundUp(a);
    }
  }

  /** The bytes of an entry are the size given, or else the value of the size field. */
  lemma SizeIsSmall(desc: Desc, buf: seq<byte>, k: nat)
    requires Resolves(desc) && Sized(desc, |desc|) && k < |desc| && ByteLengths(desc, desc[k])
    ensures EntrySize(desc, buf, k)
         == Got(match desc[k].sizeField case None => desc[k].size case Some(name) => Value(desc, buf, name))
    ensures EntrySize(desc, buf, k).value <= 255
  {
    assert !ZeroSized(desc[k]);
    if desc[k].sizeField.Some? {
      ValueIsByte(desc, buf, desc[k].sizeField.value);
    }
  }

  lemma SmallSpan(size: nat, n: nat)
    requires size <= 255 && n <= 65025
    ensures Span(size, n) < UINT_RANGE
  {
    SpanIsProduct(size, n);
    ProductGrows(n, size, 65025);
  }

  lemma RegularIsMeasured(desc: Desc, buf: seq<byte>, k: nat)
    requires Resolves(desc) && Sized(desc, |desc|) && k < |desc| && ByteLengths(desc, desc[k]) && |buf| < UINT_RANGE
    requires !desc[k].kind.Extension? && !desc[k].repeat.Inferred?
    ensures Measured(desc, buf, k)
  {
    hide Resolves, Sized, ByteLengths, EntrySize, CountedEntries, Meant, Span;
    SizeIsSmall(desc, buf, k);
    if desc[k].repeat.Counted? {
      CountIsMeant(desc, buf, k);
    }
    SmallSpan(EntrySize(desc, buf, k).value, Entries(desc, buf, k).value);
  }

  // ---- No exit ----

  /** Whatever the others are, the scan for an array of inferred length finishes. */
  lemma {:induction false} ScanFinishes(desc: Desc, buf: seq<byte>, k: nat, i: nat, size: uint32)
    requires Regular(desc) && i <= |desc|
    ensures Resolves(desc) && Scan(desc, buf, k, i, size).Got?
    decreases |desc| - i
  {
    hide Regular, CountedEntries, EntrySize, Meant, FieldBytes, Resolves, Scan;
    RegularResolves(desc);
    if i == |desc| {
      ScanEnd(desc, buf, k, size);
    } else {
      RegularField(desc, buf, i);
      ScanStep(desc, buf, k, i, size);
      if i != k && !desc[i].repeat.Inferred? {
        var n := FieldBytes(desc, buf, i);
        if n.value <= size {
          ScanFinishes(desc, buf, k, i + 1, size - n.value);
        }
      } else if i == k {
        ScanFinishes(desc, buf, k, i + 1, size);
      }
    }
  }

  lemma RegularField(desc: Desc, buf: seq<byte>, i: nat)
    requires Regular(desc) && i < |desc|
    ensures EntrySize(desc, buf, i).Got?
    ensures desc[i].repeat.Counted? ==> CountedEntries(desc, buf, desc[i].repeat).Got?
    ensures !desc[i].repeat.Inferred? ==> FieldBytes(desc, buf, i).Got?
  {
    hide EntrySize, CountedEntries, Meant, WellFormed, ByteLengths;
    Resolved(desc);
    SizeIsSmall(desc, buf, i);
    if desc[i].repeat.Counted? {
      CountIsMeant(desc, buf, i);
    }
  }

  lemma EntriesFound(desc: Desc, buf: seq<byte>, k: nat)
    requires Regular(desc) && k < |desc| && |buf| < UINT_RANGE
    ensures Resolves(desc) && Entries(desc, buf, k).Got? && EntrySize(desc, buf, k).Got?
  {
    hide Regular, CountedEntries, EntrySize, Scan, Resolves;
    RegularField(desc, buf, k);
    RegularResolves(desc);
    ScanFinishes(desc, buf, k, 0, |buf|);
  }

  lemma RegularResolves(desc: Desc)
    requires Regular(desc)
    ensures WellFormed(desc) && Readable(desc) && Resolves(desc) && Sized(desc, |desc|)
  {
  }

  lemma RegularExtension(desc: Desc, k: nat, selector: uint32)
    requires Regular(desc) && k < |desc| && desc[k].kind.Extension?
    ensures Regular(Select(desc[k].kind.descs, selector))
  {
    hide WellFormed, ByteLengths;
    SelectIsListed(desc[k].kind.descs, selector);
    if Select(desc[k].kind.descs, selector) == [] {
      assert WellFormed([]) && Readable([]) by { Nothing(); }
    }
  }

  lemma Nothing()
    ensures WellFormed([]) && Readable([])
  {
  }

  lemma ValueFinishes(desc: Desc, buf: seq<byte>, base: nat, k: nat, size: nat, entry: nat, offset: nat)
    requires Regular(desc) && WellFormed(desc) && k < |desc| && offset + size <= |buf| < NO_COUNT
    ensures ShowValue(desc, buf, base, k, size, entry, offset).ending != Exited
    decreases desc, |desc| - k, 0, 0
  {
    RegularResolves(desc);
    hide Regular, ShownField, Dump;
    if desc[k].kind.Extension? {
      var value := FieldValue(desc, buf, desc[k].kind.typeField);
      assert value.Got?;
      SelectIsListed(desc[k].kind.descs, Truncate(value.value));
      RegularExtension(desc, k, Truncate(value.value));
      var ext := Select(desc[k].kind.descs, Truncate(value.value));
      if ext != [] {
        NeverExits(ext, buf[offset..], base + offset);
      }
    }
  }

  lemma EntriesFinish(desc: Desc, buf: seq<byte>, base: nat, k: nat, size: nat, entry: nat, entries: nat, offset: nat)
    requires Regular(desc) && WellFormed(desc) && k < |desc| && offset <= |buf| < NO_COUNT && entry <= entries
    ensures ShowEntries(desc, buf, base, k, size, entry, entries, offset).ending != Exited
    decreases desc, |desc| - k, 0, entries - entry + 1
  {
    hide Regular, WellFormed, ShowValue;
    if entry < entries && offset + size <= |buf| {
      ValueFinishes(desc, buf, base, k, size, entry, offset);
      EntriesFinish(desc, buf, base, k, size, entry + 1, entries, ShowValue(desc, buf, base, k, size, entry, offset).offset);
    }
  }

  lemma FieldsFinish(desc: Desc, buf: seq<byte>, base: nat, k: nat, offset: nat)
    requires Regular(desc) && WellFormed(desc) && k <= |desc| && offset <= |buf| < NO_COUNT
    ensures ShowFields(desc, buf, base, k, offset).ending != Exited
    decreases desc, |desc| - k, 1, 0
  {
    hide Regular, WellFormed, Entries, EntrySize, ShowEntries;
    if k < |desc| {
      EntriesFound(desc, buf, k);
      var n, size := Entries(desc, buf, k).value, EntrySize(desc, buf, k).value;
      EntriesFinish(desc, buf, base, k, size, 0, n, offset);
      FieldStep(desc, buf, base, k, offset);
      FieldsFinish(desc, buf, base, k + 1, ShowEntries(desc, buf, base, k, size, 0, n, offset).offset);
    }
  }

  /** No descriptor, however malformed, makes the dump of a regular definition exit. */
  lemma NeverExits(desc: Desc, buf: seq<byte>, base: nat)
    requires Regular(desc) && |buf| < NO_COUNT
    ensures Dump(desc, buf, base).ending != Exited
    decreases desc, |desc| + 1, 0, 0
  {
    hide Regular, WellFormed, ShowFields, ArrayCount;
    RegularResolves(desc);
    forall k | 0 <= k < |desc| ensures Resolves(desc) && NameWidth(desc, buf, k).Got? {
      EntriesFound(desc, buf, k);
    }
    FieldsFinish(desc, buf, base, 0, 0);
  }

  // ---- Exact layout ----

  predicate NoExtension(desc: Desc) { forall k :: 0 <= k < |desc| ==> !desc[k].kind.Extension? }

  lemma RegularKnown(desc: Desc, buf: seq<byte>, k: nat)
    requires Regular(desc) && k <= |desc| && |buf| < UINT_RANGE
    requires forall i :: 0 <= i < k ==> !desc[i].kind.Extension?
    ensures Resolves(desc) && Known(desc, buf, k)
  {
    hide Regular, WellFormed, Entries, EntrySize;
    RegularResolves(desc);
    forall i | 0 <= i < k ensures Entries(desc, buf, i).Got? && EntrySize(desc, buf, i).Got? {
      EntriesFound(desc, buf, i);
    }
  }

  lemma RegularOthers(desc: Desc, buf: seq<byte>, a: nat)
    requires Regular(desc) && NoExtension(desc) && |buf| < UINT_RANGE
    requires a < |desc| && desc[a].repeat.Inferred?
    ensures Resolves(desc) && OthersMeasured(desc, buf, a)
  {
    RegularResolves(desc);
    hide WellFormed, ByteLengths, Measured, Sized, Resolves;
    forall i | 0 <= i < |desc| && i != a ensures Measured(desc, buf, i) {
      RegularIsMeasured(desc, buf, i);
    }
  }

  /** The dump of a regular definition without extensions.  Counts are exact products.  Without
      an inferred length the descriptor is too short exactly when sizes times counts add up to
      more than it has; with one, exactly when the other fields alone do, and what is left over
      is smaller than an entry. */
  lemma RegularDump(desc: Desc, buf: seq<byte>, base: nat)
    requires Regular(desc) && NoExtension(desc) && |buf| < NO_COUNT
    ensures Known(desc, buf, |desc|)
    ensures forall k :: 0 <= k < |desc| && desc[k].repeat.Counted? ==>
              Entries(desc, buf, k) == Got(Meant(desc, buf, desc[k].repeat))
    ensures (forall k :: 0 <= k < |desc| ==> !desc[k].repeat.Inferred?) ==>
              (Dump(desc, buf, base).ending == Stopped <==> Start(desc, buf, |desc|) > |buf|)
    ensures forall a :: 0 <= a < |desc| && desc[a].repeat.Inferred? ==>
              && OthersMeasured(desc, buf, a)
              && (Dump(desc, buf, base).ending == Stopped <==> Others(desc, buf, a, |desc|) > |buf|)
              && (Others(desc, buf, a, |desc|) <= |buf| && EntrySize(desc, buf, a).value > 0 ==>
                    0 <= |buf| - Start(desc, buf, |desc|) < EntrySize(desc, buf, a).value)
    ensures Start(desc, buf, |desc|) <= |buf| ==>
              Dump(desc, buf, base).events
              == Layout(desc, buf, base, |desc|) + ShowRest(buf, base, Start(desc, buf, |desc|)).events
    ensures var end := Start(desc, buf, |desc|);
      end < |buf| ==>
        Dump(desc, buf, base).events == Layout(desc, buf, base, |desc|) + [Junk(base + end, |buf| - end, buf[end..])]
  {
    hide Regular, Layout, Dump, EntrySize, Start, Others, MeasuredTo, Measured, Resolves, ByteLengths, Meant;
    RegularResolves(desc);
    RegularKnown(desc, buf, |desc|);
    DumpFollowsLayout(desc, buf, base);
    forall k | 0 <= k < |desc| && desc[k].repeat.Counted?
      ensures Entries(desc, buf, k) == Got(Meant(desc, buf, desc[k].repeat))
    {
      RegularLengths(desc, k);
      CountIsMeant(desc, buf, k);
    }
    forall a | 0 <= a < |desc| && desc[a].repeat.Inferred?
      ensures OthersMeasured(desc, buf, a)
      ensures Dump(desc, buf, base).ending == Stopped <==> Others(desc, buf, a, |desc|) > |buf|
      ensures Others(desc, buf, a, |desc|) <= |buf| && EntrySize(desc, buf, a).value > 0 ==>
                0 <= |buf| - Start(desc, buf, |desc|) < EntrySize(desc, buf, a).value
    {
      RegularOthers(desc, buf, a);
      InferredArrayFills(desc, buf, base, a);
    }
  }

  lemma RegularLengths(desc: Desc, k: nat)
    requires Regular(desc) && k < |desc|
    ensures ByteLengths(desc, desc[k])
  {
  }

  // ---- Lookup agrees with dump ----

  lemma RegularFieldShown(desc: Desc, buf: seq<byte>, base: nat, k: nat)
    requires Regular(desc) && k < |desc| && |buf| < NO_COUNT && desc[k].repeat.Once?
    requires forall i :: 0 <= i <= k ==> !desc[i].kind.Extension?
    ensures Known(desc, buf, k)
    ensures Start(desc, buf, k) <= |buf| ==>
              var at, size := Start(desc, buf, k), EntrySize(desc, buf, k).value;
              ShownAt(desc, buf, base, k)
              == Some(if at + size <= |buf| then ShownField(desc[k], buf, base, size, 0, at)
                      else Insufficient(base + at, |buf| - at, buf[at..]))
  {
    hide Regular, WellFormed, Layout, EntrySize, ArrayCount, Start, Resolves, FirstPassExits, ShownAt;
    RegularResolves(desc);
    RegularKnown(desc, buf, k);
    EntriesFound(desc, buf, k);
    DoesNotExitFirst(desc, buf);
    if Start(desc, buf, k) <= |buf| {
      NextFieldShown(desc, buf, base, k);
    }
  }

  lemma DoesNotExitFirst(desc: Desc, buf: seq<byte>)
    requires Regular(desc) && |buf| < UINT_RANGE
    ensures Resolves(desc) && !FirstPassExits(desc, buf)
  {
    hide Regular, WellFormed, ArrayCount, EntrySize;
    RegularResolves(desc);
    forall k | 0 <= k < |desc| ensures NameWidth(desc, buf, k).Got? {
      EntriesFound(desc, buf, k);
    }
  }

  /** In a regular definition nothing more is asked for. */
  lemma RegularLookup(desc: Desc, buf: seq<byte>, base: nat, k: nat)
    requires Regular(desc) && k < |desc| && |buf| < NO_COUNT && Plain(desc, buf, k)
    ensures Known(desc, buf, k) && LooksUpWhatIsShown(desc, buf, base, k)
  {
    SizeOfPlain(desc, k);
    hide Regular, WellFormed, Resolves, LooksUpWhatIsShown, Known, Entries, FirstPassExits;
    RegularResolves(desc);
    RegularKnown(desc, buf, k);
    DoesNotExitFirst(desc, buf);
    LookupReadsWhatIsShown(desc, buf, base, k);
  }

  lemma SizeOfPlain(desc: Desc, k: nat)
    requires Regular(desc) && k < |desc| && desc[k].sizeField.None?
    ensures desc[k].size > 0
  {
    RegularResolves(desc);
  }

  /** No array and no extension stands before the field called `name`. */
  predicate StandsFirst(desc: Desc, name: string) {
    var k := Find(desc, name);
    && k < |desc| && desc[k].repeat.Once? && desc[k].sizeField.None? && !desc[k].kind.Bcd?
    && forall i :: 0 <= i <= k ==> desc[i].repeat.Once? && !desc[i].kind.Extension?
  }

  /** Lookups of such a field agree with the dump for every descriptor. */
  lemma StandingFirstIsPlain(desc: Desc, buf: seq<byte>, name: string)
    requires Resolves(desc) && StandsFirst(desc, name) && |buf| < UINT_RANGE
    ensures Plain(desc, buf, Find(desc, name))
  {
  }

  /** Field `f` refers to `name` for its size, its count or its extension. */
  predicate Refers(f: Field, name: string) {
    || f.sizeField == Some(name)
    || (f.repeat.Counted? && (f.repeat.lengthField1 == name || f.repeat.lengthField2 == Some(name)))
    || (f.kind.Extension? && f.kind.typeField == name)
  }

  predicate RefersFirst(desc: Desc, f: Field) {
    && (f.sizeField.Some? ==> StandsFirst(desc, f.sizeField.value))
    && (f.repeat.Counted? ==>
          && StandsFirst(desc, f.repeat.lengthField1)
          && (f.repeat.lengthField2.Some? ==> StandsFirst(desc, f.repeat.lengthField2.value)))
    && (f.kind.Extension? ==> StandsFirst(desc, f.kind.typeField))
  }

  /** Every name a field refers to stands before all arrays and extensions. */
  predicate LookupSafe(desc: Desc) { forall k :: 0 <= k < |desc| ==> RefersFirst(desc, desc[k]) }

  /** In such a definition every length and selector the code looks up is the one it shows,
      whatever the descriptor. */
  lemma SafeLookupsAgree(desc: Desc, buf: seq<byte>, base: nat, k: nat, name: string)
    requires Regular(desc) && LookupSafe(desc) && k < |desc| && Refers(desc[k], name) && |buf| < NO_COUNT
    ensures var p := Find(desc, name);
      && p < |desc| && Known(desc, buf, p) && LooksUpWhatIsShown(desc, buf, base, p)
      && FieldValue(desc, buf, name) == Got(ValueAt(desc, buf, p))
  {
    assert RefersFirst(desc, desc[k]);
    hide Regular, WellFormed, LookupSafe, RefersFirst, LooksUpWhatIsShown, Known, Resolves;
    RegularResolves(desc);
    StandingFirstIsPlain(desc, buf, name);
    hide Plain;
    var p := Find(desc, name);
    RegularLookup(desc, buf, base, p);
    ValueIsFound(desc, buf, name);
  }

  lemma ValueIsFound(desc: Desc, buf: seq<byte>, name: string)
    requires Resolves(desc) && Sized(desc, |desc|) && Find(desc, name) < |desc|
    ensures FieldValue(desc, buf, name) == Got(ValueAt(desc, buf, Find(desc, name)))
  {
  }

  // ---- A length behind an array ----

  lemma {:induction false} BeforeArray(desc: Desc, buf: seq<byte>, k: nat)
    requires Resolves(desc) && k <= |desc| && |buf| < UINT_RANGE && Known(desc, buf, k)
    requires forall i :: 0 <= i < k ==> desc[i].repeat.Once?
    ensures Start(desc, buf, k) == LookupOffset(desc, buf, k)
  {
    hide Resolves;
    forall i | 0 <= i < k ensures Entries(desc, buf, i) == Got(1) {
    }
    LookupOffsetIsStart(desc, buf, k);
  }

  /** One array among the fields before `k` moves the field away from where lookups expect it,
      by all its entries but one. */
  lemma {:induction false} ArrayDisplaces(desc: Desc, buf: seq<byte>, a: nat, k: nat)
    requires Resolves(desc) && a < k <= |desc| && |buf| < UINT_RANGE && Known(desc, buf, k)
    requires forall i :: 0 <= i < k && i != a ==> desc[i].repeat.Once?
    ensures Start(desc, buf, k) + EntrySize(desc, buf, a).value
         == LookupOffset(desc, buf, k) + Span(EntrySize(desc, buf, a).value, Entries(desc, buf, a).value)
  {
    hide Resolves, ArrayCount, EntrySize;
    SizeIsEntrySize(desc, buf, k - 1);
    if a == k - 1 {
      BeforeArray(desc, buf, a);
    } else {
      ArrayDisplaces(desc, buf, a, k - 1);
      SpanOfOne(EntrySize(desc, buf, k - 1).value);
    }
  }

  /** Behind an array counted by one byte, lookup and dump agree on the place of a field exactly
      when the count is 1. */
  lemma DisplacedLookup(desc: Desc, buf: seq<byte>, a: nat, k: nat)
    requires Regular(desc) && a < k < |desc| && |buf| < UINT_RANGE
    requires forall i :: 0 <= i < k ==> !desc[i].kind.Extension? && (i != a ==> desc[i].repeat.Once?)
    requires desc[a].repeat.Counted? && desc[a].repeat.lengthField2.None? && !desc[a].repeat.bits
        && desc[a].sizeField.None?
    ensures Known(desc, buf, k)
    ensures LookupOffset(desc, buf, k) == Start(desc, buf, k) <==> Value(desc, buf, desc[a].repeat.lengthField1) == 1
  {
    hide Regular, WellFormed, Resolves, Start, LookupOffset, ArrayCount, ByteLengths, Value, Span;
    RegularResolves(desc);
    RegularKnown(desc, buf, k);
    ArrayDisplaces(desc, buf, a, k);
    RegularLengths(desc, a);
    CountIsMeant(desc, buf, a);
    EntriesFound(desc, buf, a);
    SpanIsProduct(EntrySize(desc, buf, a).value, Value(desc, buf, desc[a].repeat.lengthField1));
    EntriesAreCounted(desc, buf, a);
    OnlyOnce(EntrySize(desc, buf, a).value, Value(desc, buf, desc[a].repeat.lengthField1));
  }

  lemma EntriesAreCounted(desc: Desc, buf: seq<byte>, a: nat)
    requires Resolves(desc) && a < |desc| && |buf| < UINT_RANGE && desc[a].repeat.Counted?
    ensures Entries(desc, buf, a) == CountedEntries(desc, buf, desc[a].repeat)
  {
  }

  lemma OnlyOnce(size: nat, n: nat)
    requires size > 0
    ensures size == n * size <==> n == 1
  {
    if n > 1 {
      assert n * size == size + (n - 1) * size;
    }
  }
}
