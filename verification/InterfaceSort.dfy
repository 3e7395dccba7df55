/** Sorting the interface list of a device.

    The loop exchanges neighbours on two keys, tested one after the other.  It ends
    exactly when the two keys never disagree about a pair of the list; then it is a
    stable sort by configuration and interface number. */
module InterfaceSort {
  import opened StableSort
  import opened UsbObjects

  // ---- The pass, on sequences ----

  /** What the loop body does to the neighbours at `i`: first by configuration, then,
      on whichever of the two now stands first, by interface number. */
  ghost function Step(s: seq<UsbInterface>, i: nat): (r: seq<UsbInterface>)
    requires i + 1 < |s|
    ensures |r| == |s|
  {
    var r := if s[i].configuration > s[i + 1].configuration then Exchange(s, i) else s;
    if r[i].ifnum > r[i + 1].ifnum then Exchange(r, i) else r
  }

  ghost predicate StepSwaps(s: seq<UsbInterface>, i: nat)
    requires i + 1 < |s|
  {
    s[i].configuration > s[i + 1].configuration || s[i].ifnum > s[i + 1].ifnum
  }

  ghost function PassUpTo(s: seq<UsbInterface>, n: nat): (r: seq<UsbInterface>)
    requires n == 0 || n < |s|
    ensures |r| == |s|
  {
    if n == 0 then s else Step(PassUpTo(s, n - 1), n - 1)
  }

  ghost predicate SwapsUpTo(s: seq<UsbInterface>, n: nat)
    requires n == 0 || n < |s|
  {
    n > 0 && (SwapsUpTo(s, n - 1) || StepSwaps(PassUpTo(s, n - 1), n - 1))
  }

  /** The list after `k` whole passes. */
  ghost function Passes(s: seq<UsbInterface>, k: nat): (r: seq<UsbInterface>)
    requires |s| > 0
    ensures |r| == |s|
  {
    if k == 0 then s else var r := Passes(s, k - 1); PassUpTo(r, |s| - 1)
  }

  /** The do-while loop ends: some pass swaps nothing. */
  ghost predicate Terminates(s: seq<UsbInterface>)
    requires |s| > 0
  {
    exists k: nat :: !SwapsUpTo(Passes(s, k), |s| - 1)
  }

  /** No interface has a smaller configuration and a larger number than another. */
  ghost predicate Compatible(s: seq<UsbInterface>) {
    forall x, y :: x in s && y in s && x.configuration < y.configuration ==> x.ifnum <= y.ifnum
  }

  /** One number that orders interfaces by configuration first and number second. */
  ghost function ConfigThenNumber(i: UsbInterface): int { i.configuration * 0x1_0000_0000 + i.ifnum }

  lemma {:induction false} StepPermutes(s: seq<UsbInterface>, i: nat)
    requires i + 1 < |s|
    ensures multiset(Step(s, i)) == multiset(s)
  {
  }

  lemma {:induction false} PassPermutes(s: seq<UsbInterface>, n: nat)
    requires n == 0 || n < |s|
    ensures multiset(PassUpTo(s, n)) == multiset(s)
  {
    if n > 0 {
      PassPermutes(s, n - 1);
      StepPermutes(PassUpTo(s, n - 1), n - 1);
    }
  }

  lemma {:induction false} PassesPermute(s: seq<UsbInterface>, k: nat)
    requires |s| > 0
    ensures multiset(Passes(s, k)) == multiset(s)
  {
    if k > 0 {
      PassesPermute(s, k - 1);
      PassPermutes(Passes(s, k - 1), |s| - 1);
    }
  }

  lemma CompatibleIsAboutMembers(r: seq<UsbInterface>, s: seq<UsbInterface>)
    requires multiset(r) == multiset(s)
    ensures Compatible(r) <==> Compatible(s)
  {
    forall x ensures x in r <==> x in s {
      assert x in multiset(r) <==> x in multiset(s);
    }
  }

  lemma CompatibleStep(r: seq<UsbInterface>, i: nat)
    requires i + 1 < |r| && Compatible(r)
    ensures StepSwaps(r, i) <==> ConfigThenNumber(r[i]) > ConfigThenNumber(r[i + 1])
    ensures Step(r, i) == if StepSwaps(r, i) then Exchange(r, i) else r
  {
    assert r[i] in r && r[i + 1] in r;
  }

  /** On compatible keys the double test is one comparison of the combined key. */
  lemma {:induction false} CompatiblePass(s: seq<UsbInterface>, n: nat)
    requires n == 0 || n < |s|
    requires Compatible(s)
    ensures PassUpTo(s, n) == Bubbled(s, ConfigThenNumber, n)
  {
    hide Step, Exchange, Compatible;
    if n > 0 {
      CompatiblePass(s, n - 1);
      PassStaysCompatible(s, n - 1);
      CompatibleStep(PassUpTo(s, n - 1), n - 1);
    }
  }

  lemma PassStaysCompatible(s: seq<UsbInterface>, n: nat)
    requires n == 0 || n < |s|
    requires Compatible(s)
    ensures Compatible(PassUpTo(s, n))
  {
    PassPermutes(s, n);
    CompatibleIsAboutMembers(PassUpTo(s, n), s);
  }

  lemma {:induction false} CompatiblePassSwaps(s: seq<UsbInterface>, n: nat)
    requires n == 0 || n < |s|
    requires Compatible(s)
    ensures SwapsUpTo(s, n) == Swaps(s, ConfigThenNumber, n)
  {
    hide Step, StepSwaps, Exchange, Compatible;
    if n > 0 {
      CompatiblePassSwaps(s, n - 1);
      CompatiblePass(s, n - 1);
      PassStaysCompatible(s, n - 1);
      CompatibleStep(PassUpTo(s, n - 1), n - 1);
    }
  }

  /** A pass that swaps nothing has seen both keys in order. */
  lemma {:induction false} QuietPass(s: seq<UsbInterface>, n: nat)
    requires n == 0 || n < |s|
    requires !SwapsUpTo(s, n)
    ensures PassUpTo(s, n) == s
    ensures forall i, j :: 0 <= i <= j <= n && j < |s| ==>
              s[i].configuration <= s[j].configuration && s[i].ifnum <= s[j].ifnum
  {
    if n > 0 {
      QuietPass(s, n - 1);
    }
  }

  lemma {:induction false} CompatibleEnds(s: seq<UsbInterface>, n: nat)
    requires |s| > 0 && Compatible(s)
    requires Inversions(s, ConfigThenNumber) <= n
    ensures Terminates(s)
    decreases n
  {
    CompatiblePass(s, |s| - 1);
    CompatiblePassSwaps(s, |s| - 1);
    if !SwapsUpTo(s, |s| - 1) {
      assert Passes(s, 0) == s;
    } else {
      WholePass(s, ConfigThenNumber);
      var r := PassUpTo(s, |s| - 1);
      PassPermutes(s, |s| - 1);
      CompatibleIsAboutMembers(r, s);
      CompatibleEnds(r, n - 1);
      var k: nat :| !SwapsUpTo(Passes(r, k), |r| - 1);
      PassesShift(s, k);
    }
  }

  lemma {:induction false} PassesShift(s: seq<UsbInterface>, k: nat)
    requires |s| > 0
    ensures Passes(s, k + 1) == Passes(PassUpTo(s, |s| - 1), k)
  {
    if k == 0 {
      assert Passes(s, 1) == PassUpTo(Passes(s, 0), |s| - 1);
    } else {
      PassesShift(s, k - 1);
    }
  }

  /** The loop of `sort_dev_interfaces` ends exactly on lists with compatible keys. */
  lemma EndsExactlyOnCompatibleKeys(s: seq<UsbInterface>)
    requires |s| > 0
    ensures Terminates(s) <==> Compatible(s)
  {
    if Compatible(s) {
      CompatibleEnds(s, Inversions(s, ConfigThenNumber));
    }
    if Terminates(s) {
      var k: nat :| !SwapsUpTo(Passes(s, k), |s| - 1);
      var r := Passes(s, k);
      QuietPass(r, |r| - 1);
      PassesPermute(s, k);
      CompatibleIsAboutMembers(r, s);
    }
  }

  /** The smallest list on which it swaps for ever. */
  lemma IncompatiblePairCycles(a: UsbInterface, b: UsbInterface, k: nat)
    requires a.configuration < b.configuration && a.ifnum > b.ifnum
    ensures SwapsUpTo(Passes([a, b], k), 1)
  {
    EndsExactlyOnCompatibleKeys([a, b]);
    assert a in [a, b] && b in [a, b];
  }

  /** What the order means on a list with compatible keys. */
  lemma SortedByBothKeys(s: seq<UsbInterface>)
    requires Compatible(s)
    ensures multiset(Sort(s, ConfigThenNumber)) == multiset(s)
    ensures forall i, j :: 0 <= i < j < |s| ==>
              |Sort(s, ConfigThenNumber)| == |s|
              && Sort(s, ConfigThenNumber)[i].configuration <= Sort(s, ConfigThenNumber)[j].configuration
              && Sort(s, ConfigThenNumber)[i].ifnum <= Sort(s, ConfigThenNumber)[j].ifnum
  {
    SortSorts(s, ConfigThenNumber);
    SortPermutes(s, ConfigThenNumber);
    var r := Sort(s, ConfigThenNumber);
    CompatibleIsAboutMembers(r, s);
    forall i, j | 0 <= i < j < |s|
      ensures r[i].configuration <= r[j].configuration && r[i].ifnum <= r[j].ifnum
    {
      SortedPairs(r, ConfigThenNumber, i, j);
      assert r[i] in r && r[j] in r;
    }
  }

  // ---- The pass, on the linked list ----

  /** The parts of a list without repetitions, cut around two neighbours. */
  ghost predicate Apart<T>(done: seq<T>, p: T, t: T, rest: seq<T>) {
    && p != t && p !in done && t !in done && p !in rest && t !in rest
    && (forall x :: x in done ==> x !in rest)
    && (|done| > 0 ==> done[|done| - 1] !in done[..|done| - 1])
  }

  lemma CutApart(all: seq<UsbInterface>, done: seq<UsbInterface>, p: UsbInterface, t: UsbInterface, rest: seq<UsbInterface>)
    requires all == done + [p, t] + rest && Unique(multiset(all))
    ensures Apart(done, p, t, rest)
  {
    var m := multiset(all);
    assert m == multiset(done) + multiset{p, t} + multiset(rest);
    assert p in m && t in m && m[p] == 1 && m[t] == 1;
    if |done| > 0 {
      var front, last := done[..|done| - 1], done[|done| - 1];
      assert done == front + [last];
      assert multiset(done) == multiset(front) + multiset{last};
      assert last in m && m[last] == 1;
    }
    forall x | x in done ensures x !in rest {
      assert multiset(done)[x] >= 1 && x in m;
    }
  }

  /** Exchange `p` with its successor: `done` is what precedes `p`, `rest` what follows
      its successor, and `prev` the last of `done` (null when `p` stands first). */
  method SwapWithNext(head: UsbInterface, prev: UsbInterface?, p: UsbInterface,
                      ghost done: seq<UsbInterface>, ghost rest: seq<UsbInterface>)
    returns (head': UsbInterface, t: UsbInterface)
    requires p.next != null && Apart(done, p, p.next, rest)
    requires IfaceSegment(head, done, p) && IfaceSegment(p.next.next, rest, null)
    requires if prev == null then done == [] else |done| > 0 && prev == done[|done| - 1]
    modifies p`next, p.next`next, Members(done)`next
    ensures t == old(p.next)
    ensures IfaceSegment(head', done, t) && t.next == p && IfaceSegment(p.next, rest, null)
  {
    if prev != null {
      ghost var front := done[..|done| - 1];
      assert done == front + [prev] && prev in done && prev !in Members(front);
      IfaceSegmentSnoc(head, front, prev, p);
    }
    t := p.next;
    assert p !in Members(done) && t !in Members(done) && p !in Members(rest) && t !in Members(rest);
    assert Members(done) !! Members(rest);
    p.next := t.next;
    t.next := p;
    head' := head;
    if prev == null {
      head' := t;
    } else {
      ghost var front := done[..|done| - 1];
      prev.next := t;
      IfaceSegmentSnoc(head, front, prev, t);
    }
  }

  lemma SplitStep(done: seq<UsbInterface>, p: UsbInterface, q: UsbInterface, tail: seq<UsbInterface>)
    ensures var now := done + [p, q] + tail;
            && now[|done|] == p && now[|done| + 1] == q
            && Exchange(now, |done|) == done + [q, p] + tail
  {
  }

  /** The loop body: both comparisons at `p`. */
  method CompareTwice(head: UsbInterface, prev: UsbInterface?, p: UsbInterface,
                      ghost done: seq<UsbInterface>, ghost q: UsbInterface, ghost tail: seq<UsbInterface>)
    returns (head': UsbInterface, p': UsbInterface, swapped: bool, ghost q': UsbInterface)
    requires p.next == q && Apart(done, p, q, tail)
    requires IfaceSegment(head, done, p) && IfaceSegment(q.next, tail, null)
    requires if prev == null then done == [] else |done| > 0 && prev == done[|done| - 1]
    modifies p`next, q`next, Members(done)`next
    ensures done + [p', q'] + tail == Step(done + [p, q] + tail, |done|)
    ensures swapped == StepSwaps(done + [p, q] + tail, |done|)
    ensures IfaceSegment(head', done, p') && p'.next == q' && IfaceSegment(q'.next, tail, null)
  {
    SplitStep(done, p, q, tail);
    SplitStep(done, q, p, tail);
    head', p', q', swapped := head, p, q, false;
    if p'.configuration > p'.next.configuration {
      head', p' := SwapWithNext(head', prev, p', done, tail);
      q' := p;
      swapped := true;
    }
    if p'.ifnum > p'.next.ifnum {
      ghost var back := p';
      head', p' := SwapWithNext(head', prev, p', done, tail);
      q' := back;
      swapped := true;
    }
  }

  /** One pass of the swap loop; `head'` is the list head it leaves behind. */
  method Pass(head: UsbInterface, ghost s: seq<UsbInterface>) returns (head': UsbInterface, swapped: bool)
    requires |s| > 0 && Unique(multiset(s)) && IfaceSegment(head, s, null)
    modifies Members(s)`next
    ensures IfaceSegment(head', PassUpTo(s, |s| - 1), null)
    ensures swapped == SwapsUpTo(s, |s| - 1)
  {
    hide *;
    head', swapped := head, false;
    PassStart(head, s);
    var p: UsbInterface := head;
    var prev: UsbInterface? := null;
    ghost var done: seq<UsbInterface>, rest := [], s[1..];
    while p.next != null
      invariant IfaceSegment(head', done, p) && IfaceSegment(p.next, rest, null)
      invariant if prev == null then done == [] else |done| > 0 && prev == done[|done| - 1]
      invariant |done| + 1 + |rest| == |s|
      invariant done + [p] + rest == PassUpTo(s, |done|)
      invariant swapped == SwapsUpTo(s, |done|)
      decreases |rest|
    {
      SegmentHead(p.next, rest);
      ghost var q, tail := rest[0], rest[1..];
      assert rest == [q] + tail;
      Around(s, done, p, rest);
      var swappedHere;
      ghost var q';
      var p';
      head', p', swappedHere, q' := CompareTwice(head', prev, p, done, q, tail);
      swapped := swapped || swappedHere;
      PassUnfolds(s, |done|);
      assert done + [p] + rest == done + [p, q] + tail;
      assert done + [p'] + ([q'] + tail) == done + [p', q'] + tail;
      IfaceSegmentSnoc(head', done, p', q');
      prev := p';
      done := done + [p'];
      p := p'.next;
      rest := tail;
    }
    SegmentHead(p.next, rest);
    assert done + [p] + rest == done + [p];
    IfaceSegmentSnoc(head', done, p, null);
  }

  lemma SegmentHead(head: UsbInterface?, s: seq<UsbInterface>)
    ensures IfaceSegment(head, s, null) ==> (head == null <==> s == [])
    ensures IfaceSegment(head, s, null) && |s| > 0 ==> head == s[0] && IfaceSegment(s[0].next, s[1..], null)
  {
  }

  lemma PassStart(head: UsbInterface, s: seq<UsbInterface>)
    requires |s| > 0 && IfaceSegment(head, s, null)
    ensures IfaceSegment(head, [], head) && IfaceSegment(head.next, s[1..], null)
    ensures [] + [head] + s[1..] == PassUpTo(s, 0) && !SwapsUpTo(s, 0)
  {
  }

  lemma PassUnfolds(s: seq<UsbInterface>, n: nat)
    requires n + 1 < |s|
    ensures PassUpTo(s, n + 1) == Step(PassUpTo(s, n), n)
    ensures SwapsUpTo(s, n + 1) <==> SwapsUpTo(s, n) || StepSwaps(PassUpTo(s, n), n)
  {
  }

  /** Where the loop stands: the current list cut around `p`, every part inside `s`. */
  lemma Around(s: seq<UsbInterface>, done: seq<UsbInterface>, p: UsbInterface, rest: seq<UsbInterface>)
    requires Unique(multiset(s)) && |rest| > 0 && |done| + 1 + |rest| == |s|
    requires done + [p] + rest == PassUpTo(s, |done|)
    ensures done + [p, rest[0]] + rest[1..] == PassUpTo(s, |done|)
    ensures Apart(done, p, rest[0], rest[1..])
    ensures p in Members(s) && rest[0] in Members(s) && Members(done) <= Members(s)
  {
    hide PassUpTo, Step;
    var now := PassUpTo(s, |done|);
    PassPermutes(s, |done|);
    assert rest == [rest[0]] + rest[1..];
    assert now == done + [p, rest[0]] + rest[1..];
    CutApart(now, done, p, rest[0], rest[1..]);
    forall x | x in now ensures x in s { assert x in multiset(now); }
    assert now[|done|] == p && now[|done| + 1] == rest[0];
    forall x | x in done ensures x in s { assert x in now; }
  }

  /** Passes until one swaps nothing.  On compatible keys that happens, and the list is
      then the stable sort of the old one by configuration and number. */
  method SortDevInterfaces(i: UsbInterface, ghost s: seq<UsbInterface>) returns (head: UsbInterface)
    requires |s| > 0 && Unique(multiset(s)) && IfaceSegment(i, s, null)
    requires Compatible(s)
    modifies Members(s)`next
    ensures IfaceSegment(head, Sort(s, ConfigThenNumber), null)
  {
    head := i;
    var swapped := true;
    ghost var now := s;
    while swapped
      invariant multiset(now) == multiset(s) && |now| == |s|
      invariant IfaceSegment(head, now, null)
      invariant Sort(now, ConfigThenNumber) == Sort(s, ConfigThenNumber)
      invariant !swapped ==> now == Sort(now, ConfigThenNumber)
      decreases Inversions(now, ConfigThenNumber), swapped
    {
      PassOf(now, s);
      head, swapped := Pass(head, now);
      now := PassUpTo(now, |now| - 1);
    }
  }

  lemma PassOf(now: seq<UsbInterface>, s: seq<UsbInterface>)
    requires |now| > 0 && multiset(now) == multiset(s) && Compatible(s)
    ensures forall x :: x in now ==> x in s
    ensures var next, swaps := PassUpTo(now, |now| - 1), SwapsUpTo(now, |now| - 1);
            && multiset(next) == multiset(s)
            && Sort(next, ConfigThenNumber) == Sort(now, ConfigThenNumber)
            && (swaps ==> Inversions(next, ConfigThenNumber) < Inversions(now, ConfigThenNumber))
            && (!swaps ==> next == now == Sort(now, ConfigThenNumber))
  {
    forall x | x in now ensures x in s { assert x in multiset(now); }
    CompatibleIsAboutMembers(now, s);
    CompatiblePass(now, |now| - 1);
    CompatiblePassSwaps(now, |now| - 1);
    WholePass(now, ConfigThenNumber);
    PassPermutes(now, |now| - 1);
  }
}
