/** The short items of a HID report descriptor (section 6.2.2.2 of HID 1.11). */
module HidItems {
  import opened Words

  /** A short item: a tag whose two low bits are clear, and no, one, two or four bytes. */
  datatype Item = Item(tag: byte, data: seq<byte>)

  predicate Short(x: Item) { x.tag % 4 == 0 && |x.data| in {0, 1, 2, 4} }

  predicate AllShort(items: seq<Item>) { forall i :: 0 <= i < |items| ==> Short(items[i]) }

  /** What is said about an item: the page it selects, the usage it is looked up as, or only
      its data. */
  datatype Note = UsagePage(page: uint32) | Usage(key: uint32) | Plain(data: uint32)

  datatype Line = Line(item: Item, note: Note)

  datatype Dump = Dump(lines: seq<Line>, truncated: bool)

  const USAGE_PAGE: byte := 0x04
  const USAGE: byte := 0x08
  const USAGE_MINIMUM: byte := 0x18
  const USAGE_MAXIMUM: byte := 0x28
  const NO_PAGE: uint32 := 0xffff

  predicate IsUsage(tag: byte) { tag == USAGE || tag == USAGE_MINIMUM || tag == USAGE_MAXIMUM }

  /** The number of a usage on a page, in 32 bits. */
  function Key(page: uint32, data: uint32): uint32 { Truncate(page * 0x1_0000 + data) }

  function NoteOf(tag: byte, data: uint32, hut: uint32): Note {
    if tag == USAGE_PAGE then UsagePage(data) else if IsUsage(tag) then Usage(Key(hut, data)) else Plain(data)
  }

  function SizeOf(prefix: byte): (n: nat)
    ensures n in {0, 1, 2, 4}
  {
    if prefix % 4 == 3 then 4 else prefix % 4
  }

  function TagOf(prefix: byte): byte { prefix - prefix % 4 }

  /** The value of the data bytes; an item without any keeps the value of the one before. */
  function DataOf(bytes: seq<byte>, before: uint32): uint32
    requires |bytes| <= 4
  {
    if |bytes| == 0 then before else Truncate(LittleEndian(bytes))
  }

  /** A whole item starts at `i`. */
  predicate HasItem(b: seq<byte>, i: nat) { i < |b| && i + 1 + SizeOf(b[i]) <= |b| }

  function ItemAt(b: seq<byte>, i: nat): (x: Item)
    requires HasItem(b, i)
    ensures Short(x) && |x.data| == SizeOf(b[i])
  {
    Item(TagOf(b[i]), b[i + 1..i + 1 + SizeOf(b[i])])
  }

  /** The page in force behind an item of value `data`. */
  function PageAfter(tag: byte, data: uint32, hut: uint32): uint32 { if tag == USAGE_PAGE then data else hut }

  function Parse(b: seq<byte>, i: nat, data: uint32, hut: uint32): Dump
    decreases |b| - i
  {
    if !HasItem(b, i) then Dump([], i < |b|)
    else
      var x := ItemAt(b, i);
      var data' := DataOf(x.data, data);
      var rest := Parse(b, i + 1 + |x.data|, data', PageAfter(x.tag, data', hut));
      Dump([Line(x, NoteOf(x.tag, data', hut))] + rest.lines, rest.truncated)
  }

  lemma {:induction false} ShiftedSum(b: seq<byte>, x: byte)
    ensures LittleEndian(b + [x]) == LittleEndian(b) + Power256(|b|) * x
  {
    if |b| == 0 {
      assert (b + [x])[1..] == [];
    } else {
      assert (b + [x])[1..] == b[1..] + [x];
      ShiftedSum(b[1..], x);
      assert 256 * (Power256(|b| - 1) * x) == Power256(|b|) * x;
    }
  }

  /** The bytes of one item, added up as they are printed. */
  method ReadData(b: seq<byte>, i: nat, bsize: nat) returns (data: uint32)
    requires 0 < bsize <= 4 && i + 1 + bsize <= |b|
    ensures data == Truncate(LittleEndian(b[i + 1..i + 1 + bsize]))
  {
    var sum: nat, shift: nat, j: nat := 0, 1, 0;
    while j < bsize
      invariant 0 <= j <= bsize && shift == Power256(j)
      invariant sum == LittleEndian(b[i + 1..i + 1 + j])
    {
      assert b[i + 1..i + 1 + j + 1] == b[i + 1..i + 1 + j] + [b[i + 1 + j]];
      ShiftedSum(b[i + 1..i + 1 + j], b[i + 1 + j]);
      sum := sum + shift * b[i + 1 + j];
      shift := 256 * shift;
      j := j + 1;
    }
    return Truncate(sum);
  }

  lemma OneMoreLine(lines: seq<Line>, line: Line, rest: Dump)
    ensures Dump(lines + ([line] + rest.lines), rest.truncated) == Dump((lines + [line]) + rest.lines, rest.truncated)
  {
  }

  /** `dump_report_desc`. */
  method DumpReportDesc(b: seq<byte>) returns (d: Dump)
    ensures d == Parse(b, 0, NO_PAGE, NO_PAGE)
  {
    hide LittleEndian, NoteOf;
    var data, hut: uint32 := NO_PAGE, NO_PAGE;
    var lines: seq<Line> := [];
    var i: nat := 0;
    while i < |b|
      invariant 0 <= i <= |b|
      invariant Dump(lines + Parse(b, i, data, hut).lines, Parse(b, i, data, hut).truncated) == Parse(b, 0, NO_PAGE, NO_PAGE)
    {
      var bsize := b[i] % 4;
      if bsize == 3 {
        bsize := 4;
      }
      if i + 1 + bsize > |b| {
        return Dump(lines, true);
      }
      ghost var was, page := data, hut;
      var btag := TagOf(b[i]);
      var bytes := b[i + 1..i + 1 + bsize];
      if bsize > 0 {
        data := ReadData(b, i, bsize);
      }
      var line := Line(Item(btag, bytes), NoteOf(btag, data, hut));
      if btag == USAGE_PAGE {
        hut := data;
      }
      assert Item(btag, bytes) == ItemAt(b, i) && data == DataOf(bytes, was) && hut == PageAfter(btag, data, page);
      OneMoreLine(lines, line, Parse(b, i + 1 + bsize, data, hut));
      lines := lines + [line];
      i := i + 1 + bsize;
    }
    return Dump(lines, false);
  }

  // ---- Writing items ----

  function Prefix(x: Item): byte
    requires Short(x)
  {
    x.tag + if |x.data| == 4 then 3 else |x.data|
  }

  function Encode(items: seq<Item>): seq<byte>
    requires AllShort(items)
  {
    if |items| == 0 then [] else [Prefix(items[0])] + items[0].data + Encode(items[1..])
  }

  /** What is said about items that follow one another. */
  function Annotate(items: seq<Item>, data: uint32, hut: uint32): (lines: seq<Line>)
    requires AllShort(items)
    ensures |lines| == |items|
  {
    if |items| == 0 then []
    else
      var data' := DataOf(items[0].data, data);
      [Line(items[0], NoteOf(items[0].tag, data', hut))]
      + Annotate(items[1..], data', PageAfter(items[0].tag, data', hut))
  }

  lemma PrefixTells(x: Item)
    requires Short(x)
    ensures SizeOf(Prefix(x)) == |x.data| && TagOf(Prefix(x)) == x.tag
  {
  }

  /** The bytes from `at` on begin with `front`. */
  predicate StandsAt(b: seq<byte>, at: nat, front: seq<byte>) {
    at + |front| <= |b| && forall k :: 0 <= k < |front| ==> b[at + k] == front[k]
  }

  lemma StandsInParts(b: seq<byte>, at: nat, x: seq<byte>, y: seq<byte>)
    requires StandsAt(b, at, x + y)
    ensures StandsAt(b, at, x) && StandsAt(b, at + |x|, y)
  {
    forall k | 0 <= k < |y| ensures b[at + |x| + k] == y[k] {
      assert (x + y)[|x| + k] == y[k];
    }
    forall k | 0 <= k < |x| ensures b[at + k] == x[k] {
      assert (x + y)[k] == x[k];
    }
  }

  lemma ItemStands(b: seq<byte>, at: nat, x: Item)
    requires Short(x) && StandsAt(b, at, [Prefix(x)] + x.data)
    ensures HasItem(b, at) && ItemAt(b, at) == x
  {
    PrefixTells(x);
    StandsInParts(b, at, [Prefix(x)], x.data);
    assert b[at] == Prefix(x) by {
      assert b[at + 0] == [Prefix(x)][0];
    }
    assert b[at + 1..at + 1 + |x.data|] == x.data;
  }

  lemma ParseEnds(b: seq<byte>, data: uint32, hut: uint32)
    ensures Parse(b, |b|, data, hut) == Dump([], false)
  {
  }

  lemma ParseStep(b: seq<byte>, at: nat, data: uint32, hut: uint32)
    requires HasItem(b, at)
    ensures var x := ItemAt(b, at);
      var data' := DataOf(x.data, data);
      var rest := Parse(b, at + 1 + |x.data|, data', PageAfter(x.tag, data', hut));
      Parse(b, at, data, hut) == Dump([Line(x, NoteOf(x.tag, data', hut))] + rest.lines, rest.truncated)
  {
  }

  lemma EncodeStep(items: seq<Item>)
    requires AllShort(items) && |items| > 0
    ensures Short(items[0]) && AllShort(items[1..])
    ensures Encode(items) == ([Prefix(items[0])] + items[0].data) + Encode(items[1..])
    ensures |Encode(items)| == 1 + |items[0].data| + |Encode(items[1..])|
  {
    hide Prefix, Short;
  }

  lemma AnnotateStep(items: seq<Item>, data: uint32, hut: uint32)
    requires AllShort(items) && |items| > 0 && AllShort(items[1..]) && Short(items[0])
    ensures var x, data' := items[0], DataOf(items[0].data, data);
      Annotate(items, data, hut) == [Line(x, NoteOf(x.tag, data', hut))] + Annotate(items[1..], data', PageAfter(x.tag, data', hut))
  {
    hide DataOf, NoteOf, PageAfter;
  }

  lemma NothingWritten(items: seq<Item>, data: uint32, hut: uint32)
    requires |items| == 0
    ensures AllShort(items) && Encode(items) == [] && Annotate(items, data, hut) == []
  {
  }

  lemma FrontOfLines(first: Line, a: seq<Line>, b: seq<Line>)
    requires a <= b
    ensures [first] + a <= [first] + b
  {
  }

  /** Reading what was written: the same tags and bytes, whatever follows. */
  lemma {:induction false} ItemsAreReadBack(b: seq<byte>, at: nat, items: seq<Item>, data: uint32, hut: uint32)
    requires AllShort(items) && StandsAt(b, at, Encode(items))
    ensures Annotate(items, data, hut) <= Parse(b, at, data, hut).lines
    ensures at + |Encode(items)| == |b| ==> Parse(b, at, data, hut) == Dump(Annotate(items, data, hut), false)
    decreases |items|
  {
    hide StandsAt, Short, AllShort, SizeOf, TagOf, NoteOf, DataOf, PageAfter, Parse, HasItem, Encode, Annotate, Prefix;
    if |items| > 0 {
      var x := items[0];
      EncodeStep(items);
      StandsInParts(b, at, [Prefix(x)] + x.data, Encode(items[1..]));
      ShortData(x);
      ItemStands(b, at, x);
      ParseStep(b, at, data, hut);
      AnnotateStep(items, data, hut);
      var data' := DataOf(x.data, data);
      var page := PageAfter(x.tag, data', hut);
      ItemsAreReadBack(b, at + 1 + |x.data|, items[1..], data', page);
      FrontOfLines(Line(x, NoteOf(x.tag, data', hut)), Annotate(items[1..], data', page),
        Parse(b, at + 1 + |x.data|, data', page).lines);
    } else {
      NothingWritten(items, data, hut);
      ParseEnds(b, data, hut);
    }
  }

  lemma ShortData(x: Item)
    requires Short(x)
    ensures |x.data| <= 4
  {
  }

  /** Any list of short items, written and read. */
  lemma RoundTrip(items: seq<Item>)
    requires AllShort(items)
    ensures Parse(Encode(items), 0, NO_PAGE, NO_PAGE) == Dump(Annotate(items, NO_PAGE, NO_PAGE), false)
  {
    ItemsAreReadBack(Encode(items), 0, items, NO_PAGE, NO_PAGE);
  }

  function ItemsOf(lines: seq<Line>): (items: seq<Item>)
    ensures |items| == |lines|
  {
    if |lines| == 0 then [] else [lines[0].item] + ItemsOf(lines[1..])
  }

  lemma {:induction false} ItemsOfAnnotate(items: seq<Item>, data: uint32, hut: uint32)
    requires AllShort(items)
    ensures ItemsOf(Annotate(items, data, hut)) == items
  {
    if |items| > 0 {
      var data' := DataOf(items[0].data, data);
      var hut' := PageAfter(items[0].tag, data', hut);
      ItemsOfAnnotate(items[1..], data', hut');
      assert Annotate(items, data, hut)[1..] == Annotate(items[1..], data', hut');
    }
  }

  /** The number of bytes that the items read from `i` on make up. */
  function Covered(b: seq<byte>, i: nat): (n: nat)
    requires i <= |b|
    ensures i + n <= |b| && !HasItem(b, i + n)
    decreases |b| - i
  {
    if HasItem(b, i) then 1 + SizeOf(b[i]) + Covered(b, i + 1 + SizeOf(b[i])) else 0
  }

  lemma PrefixOfItem(b: seq<byte>, i: nat)
    requires HasItem(b, i)
    ensures Prefix(ItemAt(b, i)) == b[i]
  {
  }

  lemma SplitAt(b: seq<byte>, i: nat, size: nat, n: nat)
    requires i + 1 + size + n <= |b|
    ensures b[i..i + 1 + size + n] == [b[i]] + b[i + 1..i + 1 + size] + b[i + 1 + size..i + 1 + size + n]
  {
  }

  /** Whatever the bytes, the items read are whole short items that make up the front of the
      descriptor; it is truncated exactly when bytes remain, and these are less than the next
      item announces. */
  lemma {:induction false} ItemsAreWhole(b: seq<byte>, i: nat, data: uint32, hut: uint32)
    requires i <= |b|
    ensures var d, end := Parse(b, i, data, hut), i + Covered(b, i);
      && AllShort(ItemsOf(d.lines)) && Encode(ItemsOf(d.lines)) == b[i..end]
      && (d.truncated <==> end < |b|)
      && (end < |b| ==> end + 1 + SizeOf(b[end]) > |b|)
    decreases |b| - i
  {
    hide NoteOf, DataOf, PageAfter, Prefix, Parse, Encode, ItemsOf;
    if !HasItem(b, i) {
      NothingWhole(b, i, data, hut);
    } else {
      var x := ItemAt(b, i);
      var data' := DataOf(x.data, data);
      var next := i + 1 + |x.data|;
      ParseStep(b, i, data, hut);
      ItemsAreWhole(b, next, data', PageAfter(x.tag, data', hut));
      var lines, rest := Parse(b, i, data, hut).lines, Parse(b, next, data', PageAfter(x.tag, data', hut)).lines;
      assert lines[1..] == rest;
      WholeStep(b, i, lines, rest, Covered(b, next));
    }
  }

  lemma NothingWhole(b: seq<byte>, i: nat, data: uint32, hut: uint32)
    requires i <= |b| && !HasItem(b, i)
    ensures Parse(b, i, data, hut) == Dump([], i < |b|) && ItemsOf([]) == [] && Encode([]) == [] && b[i..i] == []
  {
  }

  lemma {:induction false} WholeStep(b: seq<byte>, i: nat, lines: seq<Line>, rest: seq<Line>, n: nat)
    requires HasItem(b, i) && |lines| > 0 && lines[0].item == ItemAt(b, i) && lines[1..] == rest
    requires AllShort(ItemsOf(rest)) && i + 1 + SizeOf(b[i]) + n <= |b|
    requires Encode(ItemsOf(rest)) == b[i + 1 + SizeOf(b[i])..i + 1 + SizeOf(b[i]) + n]
    ensures AllShort(ItemsOf(lines)) && Encode(ItemsOf(lines)) == b[i..i + 1 + SizeOf(b[i]) + n]
  {
    var items, x := ItemsOf(lines), ItemAt(b, i);
    assert items[0] == x && items[1..] == ItemsOf(rest);
    PrefixOfItem(b, i);
    SplitAt(b, i, SizeOf(b[i]), n);
  }

  /** No list of short items that the descriptor begins with is longer than what is read. */
  lemma ReadsLongestFront(b: seq<byte>, items: seq<Item>)
    requires AllShort(items) && Encode(items) <= b
    ensures items <= ItemsOf(Parse(b, 0, NO_PAGE, NO_PAGE).lines)
  {
    ItemsAreReadBack(b, 0, items, NO_PAGE, NO_PAGE);
    ItemsOfAnnotate(items, NO_PAGE, NO_PAGE);
    var lines := Parse(b, 0, NO_PAGE, NO_PAGE).lines;
    ItemsOfPrefix(lines, |items|);
    assert lines[..|items|] == Annotate(items, NO_PAGE, NO_PAGE);
    assert items == ItemsOf(lines)[..|items|];
  }

  lemma {:induction false} ItemsOfPrefix(lines: seq<Line>, n: nat)
    requires n <= |lines|
    ensures ItemsOf(lines[..n]) == ItemsOf(lines)[..n]
  {
    if n > 0 {
      ItemsOfPrefix(lines[1..], n - 1);
      assert lines[..n][1..] == lines[1..][..n - 1];
    }
  }

  // ---- Usages and their pages ----

  /** The value of item `k`: that of its own bytes or, without any, of the nearest item before
      that has some. */
  function ValueAt(items: seq<Item>, k: nat, before: uint32): uint32
    requires k < |items| && AllShort(items)
  {
    if |items[k].data| > 0 then Truncate(LittleEndian(items[k].data))
    else if k == 0 then before
    else ValueAt(items, k - 1, before)
  }

  /** The value of the last Usage Page item among the first `k` items. */
  function LatestPage(items: seq<Item>, k: nat, before: uint32, none: uint32): uint32
    requires k <= |items| && AllShort(items)
  {
    if k == 0 then none
    else if items[k - 1].tag == USAGE_PAGE then ValueAt(items, k - 1, before)
    else LatestPage(items, k - 1, before, none)
  }

  lemma {:induction false} ValueOfTail(items: seq<Item>, k: nat, before: uint32)
    requires 0 < k < |items| && AllShort(items)
    ensures ValueAt(items, k, before) == ValueAt(items[1..], k - 1, DataOf(items[0].data, before))
  {
    assert items[k] == items[1..][k - 1];
    if |items[k].data| == 0 {
      if k > 1 {
        ValueOfTail(items, k - 1, before);
      }
    }
  }

  lemma {:induction false} LatestPageTail(items: seq<Item>, k: nat, before: uint32, none: uint32)
    requires 0 < k <= |items| && AllShort(items)
    ensures var value := DataOf(items[0].data, before);
      LatestPage(items, k, before, none) == LatestPage(items[1..], k - 1, value, PageAfter(items[0].tag, value, none))
  {
    hide LittleEndian, Truncate;
    if k > 1 {
      LatestPageTail(items, k - 1, before, none);
      ValueOfTail(items, k - 1, before);
    }
  }

  /** What is said about an item follows from its own value and that of the latest Usage Page
      item before it. */
  lemma {:induction false} NotesAre(items: seq<Item>, k: nat, data: uint32, hut: uint32)
    requires AllShort(items) && k < |items|
    ensures Annotate(items, data, hut)[k]
         == Line(items[k], NoteOf(items[k].tag, ValueAt(items, k, data), LatestPage(items, k, data, hut)))
    decreases k
  {
    hide NoteOf, LittleEndian, Truncate;
    if k > 0 {
      var data' := DataOf(items[0].data, data);
      var hut' := PageAfter(items[0].tag, data', hut);
      NotesAre(items[1..], k - 1, data', hut');
      LatestPageTail(items, k, data, hut);
      ValueOfTail(items, k, data);
    }
  }

  /** Whatever the bytes, what is said about the items read is what is said about these items. */
  lemma {:induction false} ParseAnnotates(b: seq<byte>, i: nat, data: uint32, hut: uint32)
    ensures var lines := Parse(b, i, data, hut).lines;
      AllShort(ItemsOf(lines)) && lines == Annotate(ItemsOf(lines), data, hut)
    decreases |b| - i
  {
    hide NoteOf, LittleEndian, Truncate, DataOf, PageAfter;
    if HasItem(b, i) {
      var x := ItemAt(b, i);
      var data' := DataOf(x.data, data);
      ParseAnnotates(b, i + 1 + |x.data|, data', PageAfter(x.tag, data', hut));
      var lines, rest := Parse(b, i, data, hut).lines, Parse(b, i + 1 + |x.data|, data', PageAfter(x.tag, data', hut)).lines;
      assert lines[1..] == rest;
      assert ItemsOf(lines)[1..] == ItemsOf(rest);
    }
  }

  /** The number a usage is looked up as, and what page and usage it is made of. */
  lemma KeyIs(page: uint32, usage: uint32)
    ensures Key(page, usage) == (page * 0x1_0000 + usage) % 0x1_0000_0000
    ensures page < 0x1_0000 && usage < 0x1_0000 ==>
              Key(page, usage) / 0x1_0000 == page && Key(page, usage) % 0x1_0000 == usage
  {
  }

  /** In any descriptor a usage is looked up under the value of the latest Usage Page item before
      it, or under 0xffff if there is none: the page in the upper and the usage in the lower half
      of the number.  A Usage Page item selects its own value, and any other item has its value
      shown. */
  lemma UsageUnderLatestPage(b: seq<byte>, k: nat)
    requires k < |Parse(b, 0, NO_PAGE, NO_PAGE).lines|
    ensures var lines := Parse(b, 0, NO_PAGE, NO_PAGE).lines;
      var items := ItemsOf(lines);
      && AllShort(items) && items[k] == lines[k].item
      && var page, value, tag := LatestPage(items, k, 0xffff, 0xffff), ValueAt(items, k, 0xffff), lines[k].item.tag;
         && (tag == 0x08 || tag == 0x18 || tag == 0x28 ==>
               && lines[k].note == Usage((page * 0x1_0000 + value) % 0x1_0000_0000)
               && (page < 0x1_0000 && value < 0x1_0000 ==>
                     lines[k].note.key / 0x1_0000 == page && lines[k].note.key % 0x1_0000 == value))
         && (tag == 0x04 ==> lines[k].note == UsagePage(value))
         && (tag !in {0x04, 0x08, 0x18, 0x28} ==> lines[k].note == Plain(value))
  {
    hide Parse, LatestPage, ValueAt, Annotate, Key;
    var lines := Parse(b, 0, NO_PAGE, NO_PAGE).lines;
    ParseAnnotates(b, 0, NO_PAGE, NO_PAGE);
    var items := ItemsOf(lines);
    NotesAre(items, k, NO_PAGE, NO_PAGE);
    KeyIs(LatestPage(items, k, NO_PAGE, NO_PAGE), ValueAt(items, k, NO_PAGE));
  }

  /** The page in force is that of the nearest Usage Page item before. */
  lemma {:induction false} LatestPageIs(items: seq<Item>, k: nat, p: nat)
    requires AllShort(items) && p < k <= |items| && items[p].tag == 0x04
    requires forall i :: p < i < k ==> items[i].tag != 0x04
    ensures LatestPage(items, k, 0xffff, 0xffff) == ValueAt(items, p, 0xffff)
  {
    if p < k - 1 {
      LatestPageIs(items, k - 1, p);
    }
  }

  lemma {:induction false} NoPageBefore(items: seq<Item>, k: nat)
    requires AllShort(items) && k <= |items| && forall i :: 0 <= i < k ==> items[i].tag != 0x04
    ensures LatestPage(items, k, 0xffff, 0xffff) == 0xffff
  {
    if k > 0 {
      NoPageBefore(items, k - 1);
    }
  }

  /** The value of an item is the number its bytes spell, the lowest first; without any it is that
      of the nearest item before that has some. */
  lemma {:induction false} ValueIs(items: seq<Item>, k: nat, v: nat)
    requires AllShort(items) && v <= k < |items| && |items[v].data| > 0
    requires forall i :: v < i <= k ==> |items[i].data| == 0
    ensures ValueAt(items, k, 0xffff)
         == match |items[v].data|
            case 1 => items[v].data[0]
            case 2 => (items[v].data[0] as nat) + 256 * (items[v].data[1] as nat)
            case _ => (items[v].data[0] as nat) + 256 * (items[v].data[1] as nat)
                      + 0x1_0000 * (items[v].data[2] as nat) + 0x100_0000 * (items[v].data[3] as nat)
  {
    if v < k {
      ValueIs(items, k - 1, v);
    } else {
      SpelledBytes(items[k].data);
    }
  }

  lemma SmallStays(n: nat)
    ensures n < 0x1_0000_0000 ==> Truncate(n) == n
  {
  }

  lemma SpelledBytes(d: seq<byte>)
    requires |d| in {1, 2, 4}
    ensures Truncate(LittleEndian(d)) == LittleEndian(d)
    ensures LittleEndian(d)
         == match |d|
            case 1 => d[0]
            case 2 => (d[0] as nat) + 256 * (d[1] as nat)
            case _ => (d[0] as nat) + 256 * (d[1] as nat) + 0x1_0000 * (d[2] as nat) + 0x100_0000 * (d[3] as nat)
  {
    hide LittleEndian, Truncate;
    SmallStays(LittleEndian(d));
    if |d| == 1 {
      assert d == [d[0]];
      FewBytes(d[0], 0, 0, 0);
    } else if |d| == 2 {
      assert d == [d[0], d[1]];
      FewBytes(d[0], d[1], 0, 0);
    } else {
      assert d == [d[0], d[1], d[2], d[3]];
      FewBytes(d[0], d[1], d[2], d[3]);
    }
  }

  /** One short item as bytes: the tag with the number of data bytes in its two low bits, three
      standing for four, and the data. */
  lemma OneItemEncoded(x: Item)
    requires Short(x)
    ensures AllShort([x])
    ensures Encode([x]) == [(x.tag + if |x.data| == 4 then 3 else |x.data|) as byte] + x.data
  {
    assert [x][1..] == [] && Encode([]) == [];
    assert [Prefix(x)] + x.data + [] == [Prefix(x)] + x.data;
  }
}
