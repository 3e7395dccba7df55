/** Every byte of a descriptor is accounted for exactly once, in order. */
module DescConservation {
  import opened Words
  import opened DescTable
  import opened DescCount
  import opened DescDump

  /** Each event starts where the one before it ends, the first at `from`. */
  predicate Tiles(events: seq<Event>, from: nat) {
    |events| > 0 ==> events[0].at == from && Tiles(events[1..], from + events[0].len)
  }

  function End(events: seq<Event>, from: nat): nat {
    if |events| == 0 then from else End(events[1..], from + events[0].len)
  }

  /** What is printed for an event are the first of the bytes it stands for, and all of them
      unless it is a number. */
  predicate Faithful(e: Event, buf: seq<byte>, base: nat) {
    && base <= e.at && e.at - base + e.len <= |buf|
    && |e.shown| <= e.len && e.shown == buf[e.at - base..e.at - base + |e.shown|]
    && (!e.Shown? || e.len <= 8 ==> |e.shown| == e.len)
  }

  predicate AllFaithful(events: seq<Event>, buf: seq<byte>, base: nat) {
    forall i :: 0 <= i < |events| ==> Faithful(events[i], buf, base)
  }

  /** A run accounts for the bytes from `offset` to where it ends. */
  predicate Accounts(r: Run, buf: seq<byte>, base: nat, offset: nat) {
    && Tiles(r.events, base + offset) && AllFaithful(r.events, buf, base)
    && End(r.events, base + offset) <= base + |buf|
    && (r.ending != Exited ==> End(r.events, base + offset) == base + r.offset)
    && (r.ending == Stopped ==> r.offset == |buf|)
  }

  lemma {:induction false} TilesThen(a: seq<Event>, b: seq<Event>, from: nat)
    ensures End(a + b, from) == End(b, End(a, from))
    ensures Tiles(a + b, from) <==> Tiles(a, from) && Tiles(b, End(a, from))
  {
    if |a| == 0 {
      assert a + b == b;
    } else {
      assert (a + b)[1..] == a[1..] + b;
      TilesThen(a[1..], b, from + a[0].len);
    }
  }

  lemma AccountsThen(first: Run, rest: Run, buf: seq<byte>, base: nat, offset: nat)
    requires first.ending == Completed && Accounts(first, buf, base, offset) && Accounts(rest, buf, base, first.offset)
    ensures Accounts(Then(first, rest), buf, base, offset)
  {
    TilesThen(first.events, rest.events, base + offset);
  }

  lemma RestAccounts(buf: seq<byte>, base: nat, offset: nat)
    requires offset <= |buf|
    ensures Accounts(ShowRest(buf, base, offset), buf, base, offset)
  {
    assert buf[offset..] == buf[offset..|buf|];
  }

  lemma StopAccounts(buf: seq<byte>, base: nat, offset: nat)
    requires offset <= |buf|
    ensures Accounts(Run([Insufficient(base + offset, |buf| - offset, buf[offset..])], |buf|, Stopped), buf, base, offset)
  {
    assert buf[offset..] == buf[offset..|buf|];
  }

  lemma ExitAccounts(buf: seq<byte>, base: nat, offset: nat)
    requires offset <= |buf|
    ensures Accounts(Run([], offset, Exited), buf, base, offset)
        && Accounts(Run([], offset, Completed), buf, base, offset)
  {
  }

  lemma FieldAccounts(f: Field, buf: seq<byte>, base: nat, size: nat, entry: nat, offset: nat)
    requires offset + size <= |buf|
    ensures Accounts(Run([ShownField(f, buf, base, size, entry, offset)], offset + size, Completed), buf, base, offset)
  {
    var e := ShownField(f, buf, base, size, entry, offset);
    assert [e][1..] == [];
  }

  /** A dump of the rest of the buffer, seen from the whole of it. */
  lemma NestedAccounts(nested: Run, ending: Ending, buf: seq<byte>, base: nat, offset: nat)
    requires offset <= |buf| && Accounts(nested, buf[offset..], base + offset, 0)
    requires nested.ending != Exited ==> nested.offset == |buf| - offset
    requires ending == if nested.ending == Exited then Exited else Completed
    ensures Accounts(Run(nested.events, if ending == Exited then offset else |buf|, ending), buf, base, offset)
  {
    var rest := buf[offset..];
    forall i | 0 <= i < |nested.events| ensures Faithful(nested.events[i], buf, base) {
      var e := nested.events[i];
      assert Faithful(e, rest, base + offset);
      var at := e.at - base - offset;
      assert rest[at..at + |e.shown|] == buf[offset + at..offset + at + |e.shown|];
    }
  }

  lemma ValueAccounts(desc: Desc, buf: seq<byte>, base: nat, k: nat, size: nat, entry: nat, offset: nat)
    requires WellFormed(desc) && k < |desc| && offset + size <= |buf| < NO_COUNT
    ensures Accounts(ShowValue(desc, buf, base, k, size, entry, offset), buf, base, offset)
    decreases desc, |desc| - k, 0, 0
  {
    if !desc[k].kind.Extension? {
      FieldAccounts(desc[k], buf, base, size, entry, offset);
    } else {
      var value := FieldValue(desc, buf, desc[k].kind.typeField);
      if value.Exits? {
        ExitAccounts(buf, base, offset);
      } else {
        var selector := Truncate(value.value);
        SelectIsListed(desc[k].kind.descs, selector);
        var ext := Select(desc[k].kind.descs, selector);
        if ext == [] {
          RestAccounts(buf, base, offset);
        } else {
          DumpAccounts(ext, buf[offset..], base + offset);
          var nested := Dump(ext, buf[offset..], base + offset);
          NestedAccounts(nested, if nested.ending == Exited then Exited else Completed, buf, base, offset);
        }
      }
    }
  }

  lemma EntriesAccount(desc: Desc, buf: seq<byte>, base: nat, k: nat, size: nat, entry: nat, entries: nat, offset: nat)
    requires WellFormed(desc) && k < |desc| && offset <= |buf| < NO_COUNT && entry <= entries
    ensures Accounts(ShowEntries(desc, buf, base, k, size, entry, entries, offset), buf, base, offset)
    decreases desc, |desc| - k, 0, entries - entry + 1
  {
    if entry == entries {
      ExitAccounts(buf, base, offset);
    } else if offset + size > |buf| {
      StopAccounts(buf, base, offset);
    } else {
      ValueAccounts(desc, buf, base, k, size, entry, offset);
      var first := ShowValue(desc, buf, base, k, size, entry, offset);
      if first.ending != Exited {
        EntriesAccount(desc, buf, base, k, size, entry + 1, entries, first.offset);
        AccountsThen(first, ShowEntries(desc, buf, base, k, size, entry + 1, entries, first.offset), buf, base, offset);
      }
    }
  }

  lemma FieldsAccount(desc: Desc, buf: seq<byte>, base: nat, k: nat, offset: nat)
    requires WellFormed(desc) && k <= |desc| && offset <= |buf| < NO_COUNT
    ensures Accounts(ShowFields(desc, buf, base, k, offset), buf, base, offset)
    ensures var r := ShowFields(desc, buf, base, k, offset); r.ending != Exited ==> r.offset == |buf|
    decreases desc, |desc| - k, 1, 0
  {
    if k == |desc| {
      RestAccounts(buf, base, offset);
    } else if Entries(desc, buf, k).Exits? || EntrySize(desc, buf, k).Exits? {
      ExitAccounts(buf, base, offset);
    } else {
      var entries, size := Entries(desc, buf, k).value, EntrySize(desc, buf, k).value;
      EntriesAccount(desc, buf, base, k, size, 0, entries, offset);
      var field := ShowEntries(desc, buf, base, k, size, 0, entries, offset);
      if field.ending == Completed {
        FieldsAccount(desc, buf, base, k + 1, field.offset);
        AccountsThen(field, ShowFields(desc, buf, base, k + 1, field.offset), buf, base, offset);
      }
    }
  }

  lemma DumpAccounts(desc: Desc, buf: seq<byte>, base: nat)
    requires WellFormed(desc) && |buf| < NO_COUNT
    ensures Accounts(Dump(desc, buf, base), buf, base, 0)
    ensures var r := Dump(desc, buf, base); r.ending != Exited ==> r.offset == |buf|
    decreases desc, |desc| + 1, 0, 0
  {
    if FirstPassExits(desc, buf) {
      ExitAccounts(buf, base, 0);
    } else {
      FieldsAccount(desc, buf, base, 0, 0);
    }
  }

  /** Conservation: whatever the definition and the bytes, a dump that does not exit covers
      `[0, |buf|)` exactly once and in order, nested dumps included. */
  lemma EveryByteOnce(desc: Desc, buf: seq<byte>)
    requires WellFormed(desc) && |buf| < NO_COUNT
    ensures var r := Dump(desc, buf, 0);
            && Tiles(r.events, 0) && AllFaithful(r.events, buf, 0)
            && End(r.events, 0) <= |buf|
            && (r.ending != Exited ==> End(r.events, 0) == |buf|)
  {
    DumpAccounts(desc, buf, 0);
  }

  // ---- Nothing is lost ----

  function Printed(events: seq<Event>): seq<byte> {
    if |events| == 0 then [] else events[0].shown + Printed(events[1..])
  }

  predicate Whole(events: seq<Event>) { forall i :: 0 <= i < |events| ==> |events[i].shown| == events[i].len }

  lemma {:induction false} PrintedIsTiled(events: seq<Event>, buf: seq<byte>, from: nat)
    requires Tiles(events, from) && AllFaithful(events, buf, 0) && End(events, from) == |buf|
    ensures from <= |buf| && |Printed(events)| <= |buf| - from
    ensures Whole(events) ==> Printed(events) == buf[from..]
    ensures !Whole(events) ==> |Printed(events)| < |buf| - from
  {
    if |events| > 0 {
      var e := events[0];
      assert Faithful(e, buf, 0);
      PrintedIsTiled(events[1..], buf, from + e.len);
      assert buf[from..] == buf[from..from + e.len] + buf[from + e.len..];
      assert Whole(events) <==> |e.shown| == e.len && Whole(events[1..]) by {
        if |e.shown| == e.len && Whole(events[1..]) {
          forall i | 0 <= i < |events| ensures |events[i].shown| == events[i].len {
            assert i > 0 ==> events[i] == events[1..][i - 1];
          }
        }
      }
    }
  }

  /** The bytes printed, put in the order of the descriptor, are the descriptor exactly when no
      value wider than eight bytes was shown as a number. */
  lemma PrintedIsDescriptor(desc: Desc, buf: seq<byte>)
    requires WellFormed(desc) && |buf| < NO_COUNT && Dump(desc, buf, 0).ending != Exited
    ensures var events := Dump(desc, buf, 0).events;
            && (Printed(events) == buf <==> Whole(events))
            && ((forall i :: 0 <= i < |events| && events[i].Shown? ==> events[i].len <= 8) ==> Printed(events) == buf)
  {
    EveryByteOnce(desc, buf);
    var events := Dump(desc, buf, 0).events;
    PrintedIsTiled(events, buf, 0);
    if forall i :: 0 <= i < |events| && events[i].Shown? ==> events[i].len <= 8 {
      forall i | 0 <= i < |events| ensures |events[i].shown| == events[i].len {
        assert Faithful(events[i], buf, 0);
      }
    }
  }
}
