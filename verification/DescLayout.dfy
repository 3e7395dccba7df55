/** Where the fields of a descriptor stand, worked out from sizes and counts alone, and
    that the dump shows exactly that. */
module DescLayout {
  import opened Words
  import opened DescTable
  import opened DescCount
  import opened DescDump

  /** The sizes and counts of the first `k` fields can be found, and none is an extension. */
  predicate Known(desc: Desc, buf: seq<byte>, k: nat)
    requires Resolves(desc) && k <= |desc| && |buf| < UINT_RANGE
  {
    forall i :: 0 <= i < k ==>
      Entries(desc, buf, i).Got? && EntrySize(desc, buf, i).Got? && !desc[i].kind.Extension?
  }

  /** The bytes of `n` entries of `size` bytes. */
  function Span(size: nat, n: nat): nat {
    if n == 0 then 0 else Span(size, n - 1) + size
  }

  lemma {:induction false} SpanIsProduct(size: nat, n: nat)
    ensures Span(size, n) == n * size
  {
    if n > 0 {
      SpanIsProduct(size, n - 1);
      assert (n - 1) * size + size == n * size;
    }
  }

  /** The place of field `k`: all the bytes of all the entries of the fields before it. */
  function Start(desc: Desc, buf: seq<byte>, k: nat): nat
    requires Resolves(desc) && k <= |desc| && |buf| < UINT_RANGE && Known(desc, buf, k)
  {
    if k == 0 then 0
    else Start(desc, buf, k - 1) + Span(EntrySize(desc, buf, k - 1).value, Entries(desc, buf, k - 1).value)
  }

  /** The first `n` entries of a field of `size` bytes at `at`. */
  function EntriesAt(f: Field, buf: seq<byte>, base: nat, size: nat, n: nat, at: nat): (events: seq<Event>)
    requires at + Span(size, n) <= |buf|
    ensures |events| == n
  {
    if n == 0 then []
    else EntriesAt(f, buf, base, size, n - 1, at) + [ShownField(f, buf, base, size, n - 1, at + Span(size, n - 1))]
  }

  lemma EntryIs(f: Field, buf: seq<byte>, base: nat, size: nat, at: nat, e: nat)
    ensures Span(size, e) == e * size
    ensures at + Span(size, e) + size <= |buf| ==>
              ShownField(f, buf, base, size, e, at + Span(size, e))
              == Shown(f.name, e, base + at + Span(size, e), size,
                       buf[at + Span(size, e)..at + Span(size, e) + if f.kind.Bcd? || size <= 8 then size else 8])
  {
    SpanIsProduct(size, e);
  }

  /** Entry `e` stands `e` sizes behind the first, under the field's name and its own index, with
      its bytes, at most eight of them unless it is a decimal. */
  lemma {:induction false} EntryAt(f: Field, buf: seq<byte>, base: nat, size: nat, n: nat, at: nat, e: nat)
    requires at + Span(size, n) <= |buf| && e < n
    ensures at + Span(size, e) + size <= |buf|
    ensures EntriesAt(f, buf, base, size, n, at)[e] == ShownField(f, buf, base, size, e, at + Span(size, e))
    ensures var place := at + e * size;
      && place + size <= |buf|
      && EntriesAt(f, buf, base, size, n, at)[e]
         == Shown(f.name, e, base + place, size, buf[place..place + if f.kind.Bcd? || size <= 8 then size else 8])
  {
    EntryIs(f, buf, base, size, at, e);
    hide ShownField;
    if e < n - 1 {
      EntryAt(f, buf, base, size, n - 1, at, e);
    }
  }

  /** All entries of the first `k` fields, each at its place. */
  function Layout(desc: Desc, buf: seq<byte>, base: nat, k: nat): seq<Event>
    requires Resolves(desc) && k <= |desc| && |buf| < UINT_RANGE && Known(desc, buf, k)
    requires Start(desc, buf, k) <= |buf|
  {
    if k == 0 then []
    else
      Layout(desc, buf, base, k - 1)
      + EntriesAt(desc[k - 1], buf, base, EntrySize(desc, buf, k - 1).value, Entries(desc, buf, k - 1).value, Start(desc, buf, k - 1))
  }

  // ---- One field ----

  /** One entry of a field that is not an extension. */
  lemma EntryStep(desc: Desc, buf: seq<byte>, base: nat, k: nat, size: nat, n: nat, e: nat, at: nat)
    requires WellFormed(desc) && k < |desc| && !desc[k].kind.Extension? && |buf| < NO_COUNT
    requires e < n && at + size <= |buf|
    ensures ShowEntries(desc, buf, base, k, size, e, n, at)
         == Then(Run([ShownField(desc[k], buf, base, size, e, at)], at + size, Completed),
                 ShowEntries(desc, buf, base, k, size, e + 1, n, at + size))
  {
    hide WellFormed, ShownField;
  }

  /** The first `e` entries shown, the rest still to come. */
  lemma {:induction false} EntriesReach(desc: Desc, buf: seq<byte>, base: nat, k: nat, size: nat, n: nat, e: nat, at: nat)
    requires WellFormed(desc) && k < |desc| && !desc[k].kind.Extension? && |buf| < NO_COUNT
    requires e <= n && at + Span(size, e) <= |buf|
    ensures ShowEntries(desc, buf, base, k, size, 0, n, at)
         == Then(Run(EntriesAt(desc[k], buf, base, size, e, at), 0, Completed),
                 ShowEntries(desc, buf, base, k, size, e, n, at + Span(size, e)))
  {
    hide WellFormed, ShowEntries, ShownField;
    if e > 0 {
      EntriesReach(desc, buf, base, k, size, n, e - 1, at);
      var here := at + Span(size, e - 1);
      EntryStep(desc, buf, base, k, size, n, e - 1, here);
      Assoc(EntriesAt(desc[k], buf, base, size, e - 1, at), [ShownField(desc[k], buf, base, size, e - 1, here)],
        ShowEntries(desc, buf, base, k, size, e, n, here + size));
    }
  }

  /** How many whole entries fit. */
  lemma {:induction false} LastThatFits(size: nat, n: nat, at: nat, limit: nat) returns (e: nat)
    requires at <= limit < at + Span(size, n)
    ensures e < n && at + Span(size, e) <= limit < at + Span(size, e) + size
    decreases n
  {
    if at + Span(size, n - 1) <= limit {
      e := n - 1;
    } else {
      e := LastThatFits(size, n - 1, at, limit);
    }
  }

  // ---- All fields ----

  lemma FieldStep(desc: Desc, buf: seq<byte>, base: nat, k: nat, at: nat)
    requires WellFormed(desc) && k < |desc| && at <= |buf| < NO_COUNT
    requires Entries(desc, buf, k).Got? && EntrySize(desc, buf, k).Got?
    ensures var n, size := Entries(desc, buf, k).value, EntrySize(desc, buf, k).value;
            var field := ShowEntries(desc, buf, base, k, size, 0, n, at);
            ShowFields(desc, buf, base, k, at)
            == if field.ending != Completed then field else Then(field, ShowFields(desc, buf, base, k + 1, field.offset))
  {
    hide WellFormed, ShowEntries, Entries, EntrySize;
  }

  lemma AllShown(desc: Desc, buf: seq<byte>, base: nat, k: nat, size: nat, n: nat, at: nat)
    requires WellFormed(desc) && k < |desc| && at <= |buf| < NO_COUNT
    ensures ShowEntries(desc, buf, base, k, size, n, n, at) == Run([], at, Completed)
  {
    hide WellFormed;
  }

  /** A field that fits is shown whole. */
  lemma WholeField(desc: Desc, buf: seq<byte>, base: nat, k: nat, n: nat, size: nat, at: nat)
    requires WellFormed(desc) && k < |desc| && |buf| < NO_COUNT && !desc[k].kind.Extension?
    requires Entries(desc, buf, k) == Got(n) && EntrySize(desc, buf, k) == Got(size)
    requires at + Span(size, n) <= |buf|
    ensures ShowFields(desc, buf, base, k, at)
         == Then(Run(EntriesAt(desc[k], buf, base, size, n, at), 0, Completed),
                 ShowFields(desc, buf, base, k + 1, at + Span(size, n)))
  {
    hide WellFormed, Resolves, Entries, EntrySize, ShowFields, ShowEntries, EntriesAt;
    Resolved(desc);
    FieldStep(desc, buf, base, k, at);
    EntriesReach(desc, buf, base, k, size, n, n, at);
    AllShown(desc, buf, base, k, size, n, at + Span(size, n));
  }

  /** As long as the buffer lasts, the dump has shown the fields before `k` each at its
      place and stands at the start of field `k`. */
  lemma {:induction false} FieldsReach(desc: Desc, buf: seq<byte>, base: nat, k: nat)
    requires WellFormed(desc) && k <= |desc| && |buf| < NO_COUNT && Known(desc, buf, k)
    requires Start(desc, buf, k) <= |buf|
    ensures ShowFields(desc, buf, base, 0, 0)
         == Then(Run(Layout(desc, buf, base, k), 0, Completed), ShowFields(desc, buf, base, k, Start(desc, buf, k)))
  {
    hide WellFormed, Resolves, Entries, EntrySize, ShowFields, EntriesAt;
    Resolved(desc);
    if k > 0 {
      FieldsReach(desc, buf, base, k - 1);
      var n, size, at := Entries(desc, buf, k - 1).value, EntrySize(desc, buf, k - 1).value, Start(desc, buf, k - 1);
      WholeField(desc, buf, base, k - 1, n, size, at);
      Assoc(Layout(desc, buf, base, k - 1), EntriesAt(desc[k - 1], buf, base, size, n, at),
        ShowFields(desc, buf, base, k, Start(desc, buf, k)));
    }
  }

  /** The buffer ends inside entry `e` of field `k`. */
  predicate EndsInside(desc: Desc, buf: seq<byte>, k: nat, e: nat)
    requires Resolves(desc) && |buf| < UINT_RANGE && Known(desc, buf, |desc|)
  {
    && k < |desc| && e < Entries(desc, buf, k).value
    && var here := Start(desc, buf, k) + Span(EntrySize(desc, buf, k).value, e);
       here <= |buf| < here + EntrySize(desc, buf, k).value
  }

  lemma {:induction false} WhereItEnds(desc: Desc, buf: seq<byte>, k: nat) returns (i: nat, e: nat)
    requires Resolves(desc) && |buf| < UINT_RANGE && Known(desc, buf, |desc|) && k <= |desc|
    requires Start(desc, buf, k) > |buf|
    ensures EndsInside(desc, buf, i, e)
  {
    hide Resolves, Entries, EntrySize;
    if Start(desc, buf, k - 1) > |buf| {
      i, e := WhereItEnds(desc, buf, k - 1);
    } else {
      i := k - 1;
      e := LastThatFits(EntrySize(desc, buf, i).value, Entries(desc, buf, i).value, Start(desc, buf, i), |buf|);
    }
  }

  /** Everything before the place where the buffer ends, then the bytes that remain. */
  function CutShort(desc: Desc, buf: seq<byte>, base: nat, k: nat, e: nat): seq<Event>
    requires Resolves(desc) && |buf| < UINT_RANGE && Known(desc, buf, |desc|) && EndsInside(desc, buf, k, e)
  {
    var size, at := EntrySize(desc, buf, k).value, Start(desc, buf, k);
    var here := at + Span(size, e);
    Layout(desc, buf, base, k) + EntriesAt(desc[k], buf, base, size, e, at)
    + [Insufficient(base + here, |buf| - here, buf[here..])]
  }

  lemma StopsHere(desc: Desc, buf: seq<byte>, base: nat, k: nat, size: nat, e: nat, n: nat, here: nat)
    requires WellFormed(desc) && k < |desc| && here <= |buf| < NO_COUNT && e < n && here + size > |buf|
    ensures ShowEntries(desc, buf, base, k, size, e, n, here)
         == Run([Insufficient(base + here, |buf| - here, buf[here..])], |buf|, Stopped)
  {
    hide WellFormed;
  }

  lemma EndsThere(desc: Desc, buf: seq<byte>, base: nat, k: nat, e: nat)
    requires WellFormed(desc) && |buf| < NO_COUNT && Known(desc, buf, |desc|) && EndsInside(desc, buf, k, e)
    ensures ShowFields(desc, buf, base, 0, 0) == Run(CutShort(desc, buf, base, k, e), |buf|, Stopped)
  {
    hide WellFormed, Entries, EntrySize, ShowFields, ShowEntries, EntriesAt, Layout;
    Resolved(desc);
    var n, size, at := Entries(desc, buf, k).value, EntrySize(desc, buf, k).value, Start(desc, buf, k);
    var here := at + Span(size, e);
    FieldsReach(desc, buf, base, k);
    FieldStep(desc, buf, base, k, at);
    EntriesReach(desc, buf, base, k, size, n, e, at);
    StopsHere(desc, buf, base, k, size, e, n, here);
    Assoc(Layout(desc, buf, base, k), EntriesAt(desc[k], buf, base, size, e, at),
      ShowEntries(desc, buf, base, k, size, e, n, here));
  }

  lemma KnownDoesNotExit(desc: Desc, buf: seq<byte>)
    requires Resolves(desc) && |buf| < UINT_RANGE && Known(desc, buf, |desc|)
    ensures !FirstPassExits(desc, buf)
  {
    hide ArrayCount, Resolves, EntrySize;
    forall k | 0 <= k < |desc| ensures NameWidth(desc, buf, k).Got? {
      assert Entries(desc, buf, k).Got?;
    }
  }

  /** The dump of a definition without extensions: every entry at its place; then the junk,
      or, when the places reach beyond the buffer, what is left of it.  The length is found
      insufficient exactly when the bytes of all entries are more than there are. */
  lemma DumpFollowsLayout(desc: Desc, buf: seq<byte>, base: nat)
    requires WellFormed(desc) && |buf| < NO_COUNT && Known(desc, buf, |desc|)
    ensures var end, r := Start(desc, buf, |desc|), Dump(desc, buf, base);
            && (r.ending == Stopped <==> end > |buf|)
            && (end <= |buf| ==>
                  r == Then(Run(Layout(desc, buf, base, |desc|), 0, Completed), ShowRest(buf, base, end)))
            && (end > |buf| ==>
                  exists k: nat, e: nat :: EndsInside(desc, buf, k, e) && r.events == CutShort(desc, buf, base, k, e))
  {
    hide NameWidth, EntriesAt, Entries, EntrySize, WellFormed, CutShort, EndsInside, Layout, FirstPassExits;
    Resolved(desc);
    KnownDoesNotExit(desc, buf);
    if Start(desc, buf, |desc|) <= |buf| {
      FieldsReach(desc, buf, base, |desc|);
    } else {
      var k, e := WhereItEnds(desc, buf, |desc|);
      EndsThere(desc, buf, base, k, e);
    }
  }
}
