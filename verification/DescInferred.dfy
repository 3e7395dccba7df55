/** Arrays of inferred length fill the descriptor, and lookups read what the dump shows. */
module DescInferred {
  import opened Words
  import opened DescTable
  import opened DescCount
  import opened DescDump
  import opened DescLayout

  // ---- One array of inferred length ----

  /** Field `i` has a size and a count, and its bytes can be counted in 32 bits. */
  predicate Measured(desc: Desc, buf: seq<byte>, i: nat)
    requires Resolves(desc) && i < |desc| && |buf| < UINT_RANGE
  {
    && !desc[i].kind.Extension? && !desc[i].repeat.Inferred?
    && Entries(desc, buf, i).Got? && EntrySize(desc, buf, i).Got?
    && Entries(desc, buf, i).value != NO_COUNT
    && Span(EntrySize(desc, buf, i).value, Entries(desc, buf, i).value) < UINT_RANGE
  }

  predicate MeasuredTo(desc: Desc, buf: seq<byte>, a: nat, m: nat)
    requires Resolves(desc) && m <= |desc| && |buf| < UINT_RANGE
  {
    forall i :: 0 <= i < m && i != a ==> Measured(desc, buf, i)
  }

  predicate OthersMeasured(desc: Desc, buf: seq<byte>, a: nat)
    requires Resolves(desc) && |buf| < UINT_RANGE
  {
    MeasuredTo(desc, buf, a, |desc|)
  }

  function SpanOf(desc: Desc, buf: seq<byte>, i: nat): nat
    requires Resolves(desc) && i < |desc| && |buf| < UINT_RANGE && Measured(desc, buf, i)
  {
    Span(EntrySize(desc, buf, i).value, Entries(desc, buf, i).value)
  }

  /** The bytes of the fields before `i` other than `a`. */
  function Others(desc: Desc, buf: seq<byte>, a: nat, i: nat): nat
    requires Resolves(desc) && i <= |desc| && |buf| < UINT_RANGE && MeasuredTo(desc, buf, a, i)
  {
    if i == 0 then 0
    else Others(desc, buf, a, i - 1) + if i - 1 == a then 0 else SpanOf(desc, buf, i - 1)
  }

  lemma {:induction false} OthersGrow(desc: Desc, buf: seq<byte>, a: nat, i: nat, m: nat)
    requires Resolves(desc) && i <= m <= |desc| && |buf| < UINT_RANGE && MeasuredTo(desc, buf, a, m)
    ensures Others(desc, buf, a, i) <= Others(desc, buf, a, m)
    decreases m - i
  {
    hide Resolves, Measured, SpanOf;
    if i < m {
      OthersGrow(desc, buf, a, i, m - 1);
    }
  }

  /** A product that fits in 32 bits does not wrap. */
  lemma BytesAreSpan(desc: Desc, buf: seq<byte>, i: nat)
    requires Resolves(desc) && i < |desc| && |buf| < UINT_RANGE && Measured(desc, buf, i)
    ensures FieldBytes(desc, buf, i) == Got(SpanOf(desc, buf, i))
  {
    hide CountedEntries, EntrySize, Resolves, Span, Times;
    var size, n := EntrySize(desc, buf, i).value, Entries(desc, buf, i).value;
    TimesIsSpan(size, n);
    SpanOfOne(size);
  }

  lemma TimesIsSpan(size: uint32, n: uint32)
    requires Span(size, n) < UINT_RANGE
    ensures Times(size, n) == Span(size, n)
  {
    SpanIsProduct(size, n);
    var product := size * n;
    assert product == n * size;
    hide Span;
    assert Truncate(product) == product;
  }

  lemma SpanOfOne(size: nat)
    ensures Span(size, 1) == size
  {
  }

  /** The scan up to field `m`: it has subtracted the bytes of the fields on the way, or found
      that they do not fit. */
  lemma {:induction false} ScanTo(desc: Desc, buf: seq<byte>, a: nat, i: nat, m: nat, size: uint32)
    requires Resolves(desc) && i <= m <= |desc| && |buf| < UINT_RANGE && MeasuredTo(desc, buf, a, m)
    requires size + Others(desc, buf, a, i) == |buf|
    ensures var others := Others(desc, buf, a, m);
      Scan(desc, buf, a, i, size)
      == if others > |buf| then Got(Answer(0)) else Scan(desc, buf, a, m, |buf| - others)
    decreases m - i
  {
    hide Resolves, Measured, SpanOf, FieldBytes;
    if i < m {
      if i == a {
        ScanTo(desc, buf, a, i + 1, m, size);
      } else {
        NotInferred(desc, buf, i);
        BytesAreSpan(desc, buf, i);
        if SpanOf(desc, buf, i) <= size {
          ScanTo(desc, buf, a, i + 1, m, size - SpanOf(desc, buf, i));
        } else {
          OthersGrow(desc, buf, a, i + 1, m);
        }
      }
    }
  }

  lemma ScanSubtracts(desc: Desc, buf: seq<byte>, a: nat, i: nat, size: uint32)
    requires Resolves(desc) && i <= |desc| && |buf| < UINT_RANGE && OthersMeasured(desc, buf, a)
    requires size + Others(desc, buf, a, i) == |buf|
    ensures Scan(desc, buf, a, i, size)
         == Got(if Others(desc, buf, a, |desc|) > |buf| then Answer(0) else Room(|buf| - Others(desc, buf, a, |desc|)))
  {
    hide Resolves, Measured, SpanOf, FieldBytes;
    ScanTo(desc, buf, a, i, |desc|, size);
  }

  lemma NotInferred(desc: Desc, buf: seq<byte>, i: nat)
    requires Resolves(desc) && i < |desc| && |buf| < UINT_RANGE && Measured(desc, buf, i)
    ensures !desc[i].repeat.Inferred?
  {
  }

  /** How many entries an array of inferred length gets: as many as fit beside all other fields. */
  lemma InferredCount(desc: Desc, buf: seq<byte>, a: nat)
    requires Resolves(desc) && a < |desc| && |buf| < UINT_RANGE && OthersMeasured(desc, buf, a)
    requires desc[a].repeat.Inferred? && EntrySize(desc, buf, a).Got?
    ensures var rest, size := |buf| - Others(desc, buf, a, |desc|), EntrySize(desc, buf, a).value;
            Entries(desc, buf, a) == Got(if rest > 0 && size > 0 then rest / size else 0)
  {
    hide Resolves, OthersMeasured, EntrySize, Scan;
    assert Others(desc, buf, a, 0) == 0;
    ScanSubtracts(desc, buf, a, 0, |buf|);
  }

  lemma {:induction false} StartIsOthers(desc: Desc, buf: seq<byte>, a: nat, k: nat)
    requires Resolves(desc) && k <= |desc| && |buf| < UINT_RANGE && MeasuredTo(desc, buf, a, k) && Known(desc, buf, k)
    ensures Start(desc, buf, k)
         == Others(desc, buf, a, k)
            + if a < k then Span(EntrySize(desc, buf, a).value, Entries(desc, buf, a).value) else 0
  {
    hide Resolves, Entries, EntrySize, Span;
    if k > 0 {
      StartIsOthers(desc, buf, a, k - 1);
    }
  }

  lemma AllKnown(desc: Desc, buf: seq<byte>, a: nat)
    requires Resolves(desc) && a < |desc| && |buf| < UINT_RANGE && OthersMeasured(desc, buf, a)
    requires Entries(desc, buf, a).Got? && EntrySize(desc, buf, a).Got? && !desc[a].kind.Extension?
    ensures Known(desc, buf, |desc|)
  {
    hide Resolves, Entries, EntrySize, Span;
    forall i | 0 <= i < |desc| && i != a ensures Entries(desc, buf, i).Got? && EntrySize(desc, buf, i).Got? && !desc[i].kind.Extension? {
      assert Measured(desc, buf, i);
    }
  }

  /** The room left over is less than one entry. */
  lemma SpanFills(size: nat, room: nat)
    requires size > 0
    ensures Span(size, room / size) <= room < Span(size, room / size) + size
  {
    SpanIsProduct(size, room / size);
  }

  /** A definition with one array of inferred length: the descriptor is too short exactly when
      the other fields alone are; otherwise the array takes all whole entries there is room
      for, and less than one entry is left over. */
  lemma InferredArrayFills(desc: Desc, buf: seq<byte>, base: nat, a: nat)
    requires WellFormed(desc) && a < |desc| && |buf| < NO_COUNT && OthersMeasured(desc, buf, a)
    requires desc[a].repeat.Inferred? && !desc[a].kind.Extension? && EntrySize(desc, buf, a).Got?
    ensures Known(desc, buf, |desc|)
    ensures var others, size, r := Others(desc, buf, a, |desc|), EntrySize(desc, buf, a).value, Dump(desc, buf, base);
            var end := Start(desc, buf, |desc|);
            && (r.ending == Stopped <==> others > |buf|)
            && (others <= |buf| ==>
                  && others <= end <= |buf|
                  && r == Then(Run(Layout(desc, buf, base, |desc|), 0, Completed), ShowRest(buf, base, end))
                  && (size > 0 ==> |buf| - end < size)
                  && (size == 0 ==> end == others))
  {
    hide WellFormed, Resolves, EntrySize, Entries, MeasuredTo, Known, Layout, Dump;
    Resolved(desc);
    InferredCount(desc, buf, a);
    AllKnown(desc, buf, a);
    DumpFollowsLayout(desc, buf, base);
    StartIsOthers(desc, buf, a, |desc|);
    var others, size := Others(desc, buf, a, |desc|), EntrySize(desc, buf, a).value;
    if others <= |buf| && size > 0 {
      SpanFills(size, |buf| - others);
    }
  }

  // ---- Two arrays of inferred length ----

  /** `b` is an array of inferred length, and `a` is the only one of the fields before it or
      stands behind it. */
  predicate MeetsInferred(desc: Desc, buf: seq<byte>, a: nat, b: nat)
    requires Resolves(desc) && |buf| < UINT_RANGE
  {
    && a < |desc| && b < |desc| && a != b && desc[a].repeat.Inferred? && desc[b].repeat.Inferred?
    && MeasuredTo(desc, buf, a, b)
  }

  /** The count of an array when the scan meets another of inferred length: the mark of two such
      arrays, unless the fields before the other one alone do not fit; then it is 0. */
  lemma SecondInferred(desc: Desc, buf: seq<byte>, a: nat, b: nat)
    requires Resolves(desc) && |buf| < UINT_RANGE && MeetsInferred(desc, buf, a, b)
    ensures Entries(desc, buf, a) == Got(if Others(desc, buf, a, b) > |buf| then 0 else NO_COUNT)
  {
    hide Resolves, Measured, SpanOf, FieldBytes, EntrySize;
    assert Others(desc, buf, a, 0) == 0;
    ScanTo(desc, buf, a, 0, b, |buf|);
    ScanStep(desc, buf, a, b, if Others(desc, buf, a, b) > |buf| then 0 else |buf| - Others(desc, buf, a, b));
  }

  lemma {:induction false} StartGrows(desc: Desc, buf: seq<byte>, i: nat, k: nat)
    requires Resolves(desc) && i <= k <= |desc| && |buf| < UINT_RANGE && Known(desc, buf, k)
    ensures Start(desc, buf, i) <= Start(desc, buf, k)
    decreases k - i
  {
    hide Resolves, Entries, EntrySize, Span;
    if i < k {
      StartGrows(desc, buf, i, k - 1);
    }
  }

  lemma FieldEndsBefore(desc: Desc, buf: seq<byte>, k: nat)
    requires Resolves(desc) && k < |desc| && |buf| < UINT_RANGE && Known(desc, buf, |desc|)
    ensures Start(desc, buf, k) + Span(EntrySize(desc, buf, k).value, Entries(desc, buf, k).value) <= Start(desc, buf, |desc|)
    ensures Start(desc, buf, k) <= Start(desc, buf, |desc|)
  {
    hide Resolves, Entries, EntrySize, Span;
    StartGrows(desc, buf, k + 1, |desc|);
  }

  /** Two arrays of inferred length, one at least with entries of some bytes: whatever the
      descriptor, it ends as too short. */
  lemma TwoInferredStop(desc: Desc, buf: seq<byte>, base: nat, a: nat, b: nat)
    requires WellFormed(desc) && |buf| < NO_COUNT && a < b && MeetsInferred(desc, buf, a, b)
    requires Known(desc, buf, |desc|) && (EntrySize(desc, buf, a).value > 0 || EntrySize(desc, buf, b).value > 0)
    ensures Dump(desc, buf, base).ending == Stopped
  {
    hide WellFormed, Resolves, EntrySize, Entries, Layout, Dump, Measured, CutShort, EndsInside, Span;
    Resolved(desc);
    var k := if EntrySize(desc, buf, a).value > 0 then a else b;
    var other := a + b - k;
    SecondInferred(desc, buf, k, other);
    StartIsOthers(desc, buf, k, other);
    SpanOfMany(EntrySize(desc, buf, k).value, NO_COUNT);
    FieldEndsBefore(desc, buf, k);
    FieldEndsBefore(desc, buf, other);
    DumpFollowsLayout(desc, buf, base);
  }

  lemma SpanOfMany(size: nat, n: nat)
    requires size > 0
    ensures Span(size, n) >= n
  {
    SpanIsProduct(size, n);
    assert n * size == n + n * (size - 1);
  }

  // ---- Lookup and dump ----

  /** Where a lookup looks and where the dump shows agree as far as every earlier array has
      one entry; when no earlier array is empty, they agree nowhere else. */
  lemma {:induction false} LookupOffsetIsStart(desc: Desc, buf: seq<byte>, k: nat)
    requires Resolves(desc) && k <= |desc| && |buf| < UINT_RANGE && Known(desc, buf, k)
    ensures (forall i :: 0 <= i < k ==> Entries(desc, buf, i) == Got(1)) ==> LookupOffset(desc, buf, k) == Start(desc, buf, k)
    ensures (forall i :: 0 <= i < k ==> Entries(desc, buf, i).value >= 1) ==>
              LookupOffset(desc, buf, k) <= Start(desc, buf, k)
              && (LookupOffset(desc, buf, k) == Start(desc, buf, k) <==>
                  forall i :: 0 <= i < k ==> Entries(desc, buf, i) == Got(1) || EntrySize(desc, buf, i) == Got(0))
  {
    hide Entries, Resolves;
    if k > 0 {
      LookupOffsetIsStart(desc, buf, k - 1);
      var size, n := EntrySize(desc, buf, k - 1).value, Entries(desc, buf, k - 1).value;
      SizeIsEntrySize(desc, buf, k - 1);
      hide *;
      SpanAgainstOne(size, n);
    }
  }

  lemma SizeIsEntrySize(desc: Desc, buf: seq<byte>, k: nat)
    requires Resolves(desc) && k < |desc| && EntrySize(desc, buf, k).Got?
    ensures EntrySize(desc, buf, k).value == Size(desc, buf, k)
  {
  }

  lemma SpanAgainstOne(size: nat, n: nat)
    ensures n == 1 ==> Span(size, n) == size
    ensures n >= 1 ==> Span(size, n) >= size && (Span(size, n) == size <==> n == 1 || size == 0)
  {
    SpanIsProduct(size, n);
    if n >= 1 {
      assert n * size == size + (n - 1) * size;
    }
  }
}
