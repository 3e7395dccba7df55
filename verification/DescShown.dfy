/** What the dump shows at a field, and that lookups of the field read the same. */
module DescShown {
  import opened Words
  import opened DescTable
  import opened DescCount
  import opened DescDump
  import opened DescLayout
  import opened DescInferred

  /** What the dump shows at field `k`, once the fields before it have been shown. */
  function ShownAt(desc: Desc, buf: seq<byte>, base: nat, k: nat): Option<Event>
    requires WellFormed(desc) && k < |desc| && |buf| < NO_COUNT && Known(desc, buf, k) && Start(desc, buf, k) <= |buf|
  {
    var i, events := |Layout(desc, buf, base, k)|, Dump(desc, buf, base).events;
    if i < |events| then Some(events[i]) else None
  }

  lemma FirstEntry(desc: Desc, buf: seq<byte>, base: nat, k: nat, size: nat, n: nat, at: nat)
    requires WellFormed(desc) && k < |desc| && !desc[k].kind.Extension? && at <= |buf| < NO_COUNT && n > 0
    ensures var r := ShowEntries(desc, buf, base, k, size, 0, n, at);
            |r.events| > 0 && r.events[0]
            == if at + size <= |buf| then ShownField(desc[k], buf, base, size, 0, at)
               else Insufficient(base + at, |buf| - at, buf[at..])
  {
    hide WellFormed;
    if at + size <= |buf| {
      EntryStep(desc, buf, base, k, size, n, 0, at);
    }
  }

  /** Once everything before field `k` has been shown, the dump shows the field's first entry at
      its place, or the insufficient length. */
  lemma NextFieldShown(desc: Desc, buf: seq<byte>, base: nat, k: nat)
    requires WellFormed(desc) && k < |desc| && |buf| < NO_COUNT && Known(desc, buf, k) && !FirstPassExits(desc, buf)
    requires Start(desc, buf, k) <= |buf| && !desc[k].kind.Extension?
    requires Entries(desc, buf, k).Got? && Entries(desc, buf, k).value > 0 && EntrySize(desc, buf, k).Got?
    ensures var at, size := Start(desc, buf, k), EntrySize(desc, buf, k).value;
      ShownAt(desc, buf, base, k)
      == Some(if at + size <= |buf| then ShownField(desc[k], buf, base, size, 0, at)
              else Insufficient(base + at, |buf| - at, buf[at..]))
  {
    hide WellFormed, Layout, EntrySize, ShowEntries, ArrayCount, Start, Resolves, ShowFields, FirstPassExits, Entries;
    Resolved(desc);
    var at := Start(desc, buf, k);
    FieldsReach(desc, buf, base, k);
    FieldStep(desc, buf, base, k, at);
    FirstEntry(desc, buf, base, k, EntrySize(desc, buf, k).value, Entries(desc, buf, k).value, at);
  }

  /** A field of fixed size that stands once, with only single-entry fields before it. */
  predicate Plain(desc: Desc, buf: seq<byte>, k: nat)
    requires Resolves(desc) && k < |desc| && |buf| < UINT_RANGE
  {
    && desc[k].repeat.Once? && desc[k].sizeField.None? && !desc[k].kind.Bcd?
    && (forall i :: 0 <= i <= k ==> !desc[i].kind.Extension?)
    && (forall i :: 0 <= i < k ==> Entries(desc, buf, i) == Got(1))
  }

  lemma ValueOfPlain(desc: Desc, buf: seq<byte>, base: nat, k: nat)
    requires Resolves(desc) && k < |desc| && !desc[k].kind.Bcd?
    ensures var at := LookupOffset(desc, buf, k);
      ValueAt(desc, buf, k) == if at + desc[k].size <= |buf| then
        LittleEndian(ShownField(desc[k], buf, base, desc[k].size, 0, at).shown) else 0
  {
    hide Resolves, LookupOffset, LittleEndian;
  }

  /** A field of fixed size, and nothing that hides it. */
  lemma PlainIsFound(desc: Desc, buf: seq<byte>, k: nat)
    requires Resolves(desc) && k < |desc| && |buf| < UINT_RANGE && desc[k].size > 0 && Plain(desc, buf, k)
    ensures EntrySize(desc, buf, k) == Got(desc[k].size) && Entries(desc, buf, k) == Got(1)
        && !desc[k].kind.Extension? && forall i :: 0 <= i < k ==> Entries(desc, buf, i) == Got(1)
  {
  }

  /** The dump shows at field `k` the very value that lookups of it use; when the descriptor
      ends before it, the lookup says 0 and the dump stops there. */
  predicate LooksUpWhatIsShown(desc: Desc, buf: seq<byte>, base: nat, k: nat)
    requires WellFormed(desc) && k < |desc| && |buf| < NO_COUNT && Known(desc, buf, k)
  {
    var at := Start(desc, buf, k);
    && LookupOffset(desc, buf, k) == at
    && (at + desc[k].size <= |buf| ==>
          && ShownAt(desc, buf, base, k).Some?
          && ShownAt(desc, buf, base, k).value.Shown?
          && ShownAt(desc, buf, base, k).value.field == desc[k].name
          && ShownAt(desc, buf, base, k).value.at == base + LookupOffset(desc, buf, k)
          && LittleEndian(ShownAt(desc, buf, base, k).value.shown) == ValueAt(desc, buf, k))
    && (at <= |buf| < at + desc[k].size ==>
          && ShownAt(desc, buf, base, k).Some? && ShownAt(desc, buf, base, k).value.Insufficient?
          && ValueAt(desc, buf, k) == 0)
  }

  /** With one entry in every array before field `k`, lookups of the field agree with the dump. */
  lemma LookupReadsWhatIsShown(desc: Desc, buf: seq<byte>, base: nat, k: nat)
    requires WellFormed(desc) && k < |desc| && |buf| < NO_COUNT && Known(desc, buf, k) && !FirstPassExits(desc, buf)
    requires desc[k].size > 0 && Plain(desc, buf, k)
    ensures LooksUpWhatIsShown(desc, buf, base, k)
  {
    hide WellFormed, Layout, Start, Resolves, LookupOffset, ShownAt, Known, Entries, EntrySize, ValueAt, Plain, FirstPassExits;
    Resolved(desc);
    PlainIsFound(desc, buf, k);
    LookupOffsetIsStart(desc, buf, k);
    if Start(desc, buf, k) <= |buf| {
      NextFieldShown(desc, buf, base, k);
    }
    NotDecimal(desc, buf, k);
    ValueOfPlain(desc, buf, base, k);
  }

  lemma NotDecimal(desc: Desc, buf: seq<byte>, k: nat)
    requires Resolves(desc) && k < |desc| && |buf| < UINT_RANGE && Plain(desc, buf, k)
    ensures !desc[k].kind.Bcd?
  {
  }

  // ---- An extension at the end ----

  /** What stands at `at` when the fields before the extension have been shown: the dump of the
      rest with the first definition listed for the selector, or all of it as junk if none is. */
  ghost predicate ShowsExtension(events: seq<Event>, descs: seq<DescExt>, selector: nat, buf: seq<byte>, base: nat, at: nat)
    requires at <= |buf| < NO_COUNT && forall j :: 0 <= j < |descs| ==> WellFormed(descs[j].desc)
  {
    && (forall j: nat :: Picks(descs, selector, j) && descs[j].desc != [] ==>
          events == Dump(descs[j].desc, buf[at..], base + at).events)
    && ((forall j: nat :: Picks(descs, selector, j) ==> descs[j].desc == []) ==>
          events == if at < |buf| then [Junk(base + at, |buf| - at, buf[at..])] else [])
  }

  lemma ExtensionShown(desc: Desc, buf: seq<byte>, base: nat, k: nat, size: nat, entry: nat, at: nat, v: nat)
    requires WellFormed(desc) && k < |desc| && desc[k].kind.Extension? && at + size <= |buf| < NO_COUNT
    requires FieldValue(desc, buf, desc[k].kind.typeField) == Got(v)
    ensures ShowsExtension(ShowValue(desc, buf, base, k, size, entry, at).events, desc[k].kind.descs, v % 0x1_0000_0000, buf, base, at)
    ensures ShowValue(desc, buf, base, k, size, entry, at).ending != Exited ==>
              ShowValue(desc, buf, base, k, size, entry, at).offset == |buf|
  {
    hide Dump, WellFormed, FieldValue;
    SelectIs(desc[k].kind.descs, Truncate(v));
  }

  lemma OneExtension(desc: Desc, buf: seq<byte>, base: nat, k: nat, size: nat, at: nat)
    requires WellFormed(desc) && k + 1 == |desc| && at + size <= |buf| < NO_COUNT
    requires Entries(desc, buf, k) == Got(1) && EntrySize(desc, buf, k) == Got(size)
    requires var r := ShowValue(desc, buf, base, k, size, 0, at); r.ending != Exited ==> r.offset == |buf|
    ensures ShowFields(desc, buf, base, k, at).events == ShowValue(desc, buf, base, k, size, 0, at).events
  {
    hide WellFormed, ShowValue, Entries, EntrySize;
    FieldStep(desc, buf, base, k, at);
    var first := ShowValue(desc, buf, base, k, size, 0, at);
    assert first.events + [] == first.events;
  }

  /** The dump of a definition that ends in an extension: every entry of the fields before it at its
      place, then the extension that the value of its type field picks; or the insufficient length
      when the descriptor ends before it. */
  lemma ExtensionDump(desc: Desc, buf: seq<byte>, base: nat, k: nat, v: nat)
    requires WellFormed(desc) && k + 1 == |desc| && |buf| < NO_COUNT && Known(desc, buf, k) && !FirstPassExits(desc, buf)
    requires desc[k].kind.Extension? && desc[k].repeat.Once? && EntrySize(desc, buf, k).Got?
    requires FieldValue(desc, buf, desc[k].kind.typeField) == Got(v) && Start(desc, buf, k) <= |buf|
    ensures var at, size, front := Start(desc, buf, k), EntrySize(desc, buf, k).value, Layout(desc, buf, base, k);
      var events := Dump(desc, buf, base).events;
      && front <= events
      && (at + size <= |buf| ==>
            ShowsExtension(events[|front|..], desc[k].kind.descs, v % 0x1_0000_0000, buf, base, at))
      && (at + size > |buf| ==> events[|front|..] == [Insufficient(base + at, |buf| - at, buf[at..])])
  {
    hide WellFormed, Layout, EntrySize, ShowEntries, ShowValue, ArrayCount, Start, Resolves, ShowFields, FirstPassExits,
      FieldValue, ShowsExtension;
    Resolved(desc);
    var at, size := Start(desc, buf, k), EntrySize(desc, buf, k).value;
    FieldsReach(desc, buf, base, k);
    if at + size <= |buf| {
      ExtensionShown(desc, buf, base, k, size, 0, at, v);
      OneExtension(desc, buf, base, k, size, at);
    } else {
      FieldStep(desc, buf, base, k, at);
      StopsHere(desc, buf, base, k, size, 0, 1, at);
    }
  }
}
