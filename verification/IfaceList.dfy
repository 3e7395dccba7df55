/** Building and filtering the list of HID interfaces. */
module IfaceList {
  import opened Words
  import opened UhdIface

  // ---- Filtering in place ----

  /** From `p`, following `next`, come the interfaces `s` and then `end`. */
  ghost predicate Upto(p: Iface?, s: seq<Iface>, end: Iface?)
    reads Members(s)`next
    decreases |s|
  {
    if |s| == 0 then p == end else p == s[0] && Upto(s[0].next, s[1..], end)
  }

  lemma {:induction false} UptoSnoc(p: Iface?, s: seq<Iface>, x: Iface)
    requires Upto(p, s, x)
    ensures Upto(p, s + [x], x.next)
    decreases |s|
  {
    if |s| == 0 {
      assert s + [x] == [x] && [x][1..] == [];
    } else {
      assert (s + [x])[1..] == s[1..] + [x];
      UptoSnoc(s[0].next, s[1..], x);
    }
  }

  lemma {:induction false} UptoFront(p: Iface?, s: seq<Iface>, x: Iface, end: Iface?)
    requires Upto(p, s + [x], end)
    ensures Upto(p, s, x) && x.next == end
    decreases |s|
  {
    if |s| == 0 {
      assert s + [x] == [x] && [x][1..] == [];
    } else {
      assert (s + [x])[1..] == s[1..] + [x];
      UptoFront(s[0].next, s[1..], x, end);
    }
  }

  lemma {:induction false} UptoNull(p: Iface?, s: seq<Iface>)
    requires Upto(p, s, null)
    ensures Chain(p, s)
  {
    if |s| > 0 {
      UptoNull(s[0].next, s[1..]);
    }
  }

  /** Relinks the last kept interface. */
  method Relink(p: Iface?, ghost s: seq<Iface>, last: Iface, next: Iface?)
    requires Upto(p, s + [last], last.next) && last !in s
    modifies last`next
    ensures Upto(p, s + [last], next) && last.next == next
  {
    UptoFront(p, s, last, last.next);
    assert last !in Members(s);
    last.next := next;
    UptoSnoc(p, s, last);
  }

  function Numbered(s: seq<Iface>, number: byte): seq<Iface> {
    if |s| == 0 then []
    else if s[0].number == number then [s[0]] + Numbered(s[1..], number)
    else Numbered(s[1..], number)
  }

  /** `Numbered` is the sublist of the interfaces with that number, in order. */
  lemma {:induction false} NumberedIsFilter(s: seq<Iface>, number: byte)
    ensures forall i :: 0 <= i < |Numbered(s, number)| ==> Numbered(s, number)[i] in s && Numbered(s, number)[i].number == number
    ensures forall i :: 0 <= i < |s| && s[i].number == number ==> s[i] in Numbered(s, number)
    ensures Distinct(s) ==> Distinct(Numbered(s, number))
  {
    if |s| > 0 {
      NumberedIsFilter(s[1..], number);
      var rest := Numbered(s[1..], number);
      assert forall i :: 0 < i < |s| ==> s[i] == s[1..][i - 1];
      if Distinct(s) {
        assert forall i :: 0 <= i < |s[1..]| ==> s[1..][i] == s[i + 1];
        assert s[0] !in s[1..];
      }
    }
  }

  lemma {:induction false} NumberedSnoc(s: seq<Iface>, x: Iface, number: byte)
    ensures Numbered(s + [x], number) == Numbered(s, number) + if x.number == number then [x] else []
  {
    if |s| == 0 {
      assert s + [x] == [x] && [x][1..] == [];
    } else {
      assert (s + [x])[1..] == s[1..] + [x];
      NumberedSnoc(s[1..], x, number);
    }
  }

  /** Where the filter stands: the interfaces looked at, and those to come. */
  lemma Split(s: seq<Iface>, done: seq<Iface>, iface: Iface, rest: seq<Iface>, number: byte)
    requires Distinct(s) && s == done + [iface] + rest
    ensures Distinct(Numbered(done, number)) && Members(Numbered(done, number)) <= Members(s)
    ensures Members(Numbered(done, number)) !! Members(rest) && iface !in Numbered(done, number)
    ensures (done + [iface])[..|done + [iface]| - 1] == done
    ensures Numbered(done + [iface], number) == Numbered(done, number) + if iface.number == number then [iface] else []
  {
    NumberedSnoc(done, iface, number);
    NumberedIsFilter(done, number);
    PartsApart(s, done, iface, rest);
    var kept := Numbered(done, number);
    forall i | 0 <= i < |kept| ensures kept[i] in Members(s) && kept[i] !in Members(rest) && kept[i] != iface {
      assert kept[i] in done;
    }
  }

  lemma PartsApart(s: seq<Iface>, done: seq<Iface>, iface: Iface, rest: seq<Iface>)
    requires Distinct(s) && s == done + [iface] + rest
    ensures Distinct(done) && iface in s && iface !in done && iface !in rest
    ensures forall i :: 0 <= i < |done| ==> done[i] in s && done[i] !in rest
  {
    assert s[|done|] == iface;
    forall i | 0 <= i < |done| ensures done[i] == s[i] && done[i] in s && done[i] !in rest {
      forall j | 0 <= j < |rest| ensures rest[j] != done[i] {
        assert s[|done| + 1 + j] == rest[j];
      }
    }
    forall j | 0 <= j < |rest| ensures rest[j] != iface {
      assert s[|done| + 1 + j] == rest[j];
    }
  }

  lemma LastApart(kept: seq<Iface>)
    requires Distinct(kept) && |kept| > 0
    ensures kept == kept[..|kept| - 1] + [kept[|kept| - 1]] && kept[|kept| - 1] !in kept[..|kept| - 1]
  {
  }

  ghost predicate IsLast(prev: Iface?, kept: seq<Iface>) {
    if |kept| == 0 then prev == null else prev == kept[|kept| - 1]
  }

  /** One turn of the filter: `iface` stands behind the kept interfaces; it becomes one of them
      or is taken out of the list. */
  method FilterOne(list: Iface?, ghost kept: seq<Iface>, prev: Iface?, iface: Iface, ghost rest: seq<Iface>, number: byte)
    returns (head: Iface?, prev': Iface?, next: Iface?)
    requires Distinct(kept) && Upto(list, kept, iface) && Chain(iface.next, rest) && IsLast(prev, kept)
    requires Members(kept) !! Members(rest) && iface !in kept
    modifies Members(kept)`next
    ensures Chain(next, rest)
    ensures var kept' := kept + if iface.number == number then [iface] else [];
            Upto(head, kept', next) && IsLast(prev', kept')
  {
    head, prev' := list, prev;
    next := iface.next;
    if iface.number == number {
      UptoSnoc(list, kept, iface);
      prev' := iface;
    } else if prev == null {
      head := next;
    } else {
      LastApart(kept);
      assert kept + [] == kept;
      UptoFront(list, kept[..|kept| - 1], prev, iface);
      Relink(list, kept[..|kept| - 1], prev, next);
    }
  }

  lemma FilterStarts(list: Iface?, s: seq<Iface>, number: byte)
    ensures Numbered([], number) == [] && Upto(list, [], list) && s == [] + s && IsLast(null, [])
  {
  }

  lemma ChainNext(p: Iface?, s: seq<Iface>)
    requires Chain(p, s)
    ensures p == null ==> s == []
    ensures p != null ==> |s| > 0 && s[0] == p && s == [p] + s[1..] && Chain(p.next, s[1..])
  {
  }

  /** `uhd_iface_list_fltr_by_num`: unlinks and frees, in place, the interfaces with another
      number; exactly the ordered sublist with the number stays linked. */
  method FltrByNum(list: Iface?, ghost s: seq<Iface>, number: byte) returns (head: Iface?)
    requires Chain(list, s) && Distinct(s)
    modifies Members(s)`next
    ensures Chain(head, Numbered(s, number))
  {
    hide *;
    head := list;
    var prev: Iface?, iface := null, list;
    ghost var done: seq<Iface>, rest := [], s;
    FilterStarts(list, s, number);
    while iface != null
      invariant s == done + rest && Chain(iface, rest)
      invariant Upto(head, Numbered(done, number), iface)
      invariant IsLast(prev, Numbered(done, number))
      decreases |rest|
    {
      ChainNext(iface, rest);
      ghost var tail := rest[1..];
      assert s == done + [iface] + tail;
      Split(s, done, iface, tail, number);
      done := done + [iface];
      head, prev, iface := FilterOne(head, Numbered(done[..|done| - 1], number), prev, iface, tail, number);
      rest := tail;
    }
    ChainNext(iface, rest);
    assert done == s;
    UptoNull(head, Numbered(s, number));
  }
}
