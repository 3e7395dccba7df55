/** The reference order for every in-place sort of the repository.

    `Sort` is insertion sort on a sequence.  It is characterised completely: a
    sequence is `Sort(s, key)` exactly when it is sorted and, for each key, holds
    the same elements in the same relative order as `s`. */
module StableSort {

  ghost function Insert<T>(x: T, s: seq<T>, key: T -> int): seq<T> {
    if |s| == 0 || key(x) <= key(s[0]) then [x] + s else [s[0]] + Insert(x, s[1..], key)
  }

  ghost function Sort<T>(s: seq<T>, key: T -> int): seq<T> {
    if |s| == 0 then [] else Insert(s[0], Sort(s[1..], key), key)
  }

  ghost predicate Sorted<T>(s: seq<T>, key: T -> int) {
    |s| > 1 ==> key(s[0]) <= key(s[1]) && Sorted(s[1..], key)
  }

  /** The elements of `s` that have key `k`, in order. */
  ghost function WithKey<T>(s: seq<T>, key: T -> int, k: int): seq<T> {
    if |s| == 0 then []
    else if key(s[0]) == k then [s[0]] + WithKey(s[1..], key, k)
    else WithKey(s[1..], key, k)
  }

  /** What the two neighbours at `i` and `i + 1` look like after an exchange. */
  ghost function Exchange<T>(s: seq<T>, i: nat): seq<T>
    requires i + 1 < |s|
  {
    s[i := s[i + 1]][i + 1 := s[i]]
  }

  // ---- Insert ----

  lemma {:induction false} InsertSorts<T>(x: T, s: seq<T>, key: T -> int)
    requires Sorted(s, key)
    ensures Sorted(Insert(x, s, key), key)
  {
    if |s| == 0 || key(x) <= key(s[0]) {
      assert ([x] + s)[1..] == s;
    } else {
      InsertSorts(x, s[1..], key);
      var r := Insert(x, s[1..], key);
      assert ([s[0]] + r)[1..] == r;
    }
  }

  lemma {:induction false} InsertAdds<T>(x: T, s: seq<T>, key: T -> int)
    ensures multiset(Insert(x, s, key)) == multiset{x} + multiset(s)
    ensures |Insert(x, s, key)| == |s| + 1
  {
    if |s| > 0 && key(s[0]) < key(x) {
      InsertAdds(x, s[1..], key);
      assert s == [s[0]] + s[1..];
    }
  }

  lemma {:induction false} InsertWithKey<T>(x: T, s: seq<T>, key: T -> int, k: int)
    requires Sorted(s, key)
    ensures WithKey(Insert(x, s, key), key, k) == WithKey([x] + s, key, k)
  {
    assert ([x] + s)[1..] == s;
    if |s| == 0 || key(x) <= key(s[0]) {
    } else {
      InsertWithKey(x, s[1..], key, k);
      assert ([x] + s[1..])[1..] == s[1..];
      var r := Insert(x, s[1..], key);
      assert ([s[0]] + r)[1..] == r;
    }
  }

  lemma {:induction false} InsertCommutes<T>(x: T, y: T, s: seq<T>, key: T -> int)
    requires Sorted(s, key) && key(x) < key(y)
    ensures Insert(x, Insert(y, s, key), key) == Insert(y, Insert(x, s, key), key)
  {
    if |s| > 0 && key(s[0]) < key(x) {
      InsertCommutes(x, y, s[1..], key);
      var a, b := Insert(x, s[1..], key), Insert(y, s[1..], key);
      assert ([s[0]] + a)[1..] == a && ([s[0]] + b)[1..] == b;
    } else {
      assert ([x] + s)[1..] == s;
    }
  }

  // ---- Sort ----

  lemma {:induction false} SortSorts<T>(s: seq<T>, key: T -> int)
    ensures Sorted(Sort(s, key), key)
  {
    if |s| > 0 {
      SortSorts(s[1..], key);
      InsertSorts(s[0], Sort(s[1..], key), key);
    }
  }

  lemma {:induction false} SortPermutes<T>(s: seq<T>, key: T -> int)
    ensures multiset(Sort(s, key)) == multiset(s)
    ensures |Sort(s, key)| == |s|
  {
    if |s| > 0 {
      SortPermutes(s[1..], key);
      InsertAdds(s[0], Sort(s[1..], key), key);
      assert s == [s[0]] + s[1..];
    }
  }

  /** Being sorted, pair by pair. */
  lemma {:induction false} SortedPairs<T>(s: seq<T>, key: T -> int, i: nat, j: nat)
    requires Sorted(s, key) && i <= j < |s|
    ensures key(s[i]) <= key(s[j])
  {
    if i > 0 {
      SortedPairs(s[1..], key, i - 1, j - 1);
    } else if j > 0 {
      SortedPairs(s[1..], key, 0, j - 1);
    }
  }

  lemma {:induction false} SortIsStable<T>(s: seq<T>, key: T -> int, k: int)
    ensures WithKey(Sort(s, key), key, k) == WithKey(s, key, k)
  {
    if |s| > 0 {
      SortIsStable(s[1..], key, k);
      SortSorts(s[1..], key);
      var r := Sort(s[1..], key);
      InsertWithKey(s[0], r, key, k);
      assert ([s[0]] + r)[1..] == r;
    }
  }

  lemma {:induction false} SortedIsFixed<T>(s: seq<T>, key: T -> int)
    requires Sorted(s, key)
    ensures Sort(s, key) == s
  {
    if |s| > 0 {
      SortedIsFixed(s[1..], key);
      assert s == [s[0]] + s[1..];
    }
  }

  /** Sorting a suffix first does not change the sorted whole. */
  lemma {:induction false} SortAbsorbsSuffix<T>(a: seq<T>, b: seq<T>, key: T -> int)
    ensures Sort(a + Sort(b, key), key) == Sort(a + b, key)
  {
    if |a| == 0 {
      SortSorts(b, key);
      SortedIsFixed(Sort(b, key), key);
      assert a + Sort(b, key) == Sort(b, key) && a + b == b;
    } else {
      SortAbsorbsSuffix(a[1..], b, key);
      assert (a + Sort(b, key))[1..] == a[1..] + Sort(b, key);
      assert (a + b)[1..] == a[1..] + b;
    }
  }

  /** Exchanging a strictly inverted pair of neighbours does not change the sorted whole. */
  lemma {:induction false} SortAbsorbsExchange<T>(s: seq<T>, i: nat, key: T -> int)
    requires i + 1 < |s| && key(s[i]) > key(s[i + 1])
    ensures Sort(Exchange(s, i), key) == Sort(s, key)
  {
    var e := Exchange(s, i);
    if i == 0 {
      SortSorts(s[2..], key);
      InsertCommutes(s[1], s[0], Sort(s[2..], key), key);
      assert e[1..][1..] == s[2..] && s[1..][1..] == s[2..];
    } else {
      SortAbsorbsExchange(s[1..], i - 1, key);
      assert e[1..] == Exchange(s[1..], i - 1);
    }
  }

  lemma {:induction false} WithKeyHead<T>(s: seq<T>, key: T -> int)
    requires |s| > 0
    ensures WithKey(s, key, key(s[0])) == [s[0]] + WithKey(s[1..], key, key(s[0]))
  {
  }

  lemma {:induction false} WithKeyIsSubsequence<T>(s: seq<T>, key: T -> int, k: int, x: T)
    ensures x in WithKey(s, key, k) <==> x in s && key(x) == k
  {
    if |s| > 0 {
      WithKeyIsSubsequence(s[1..], key, k, x);
      assert s == [s[0]] + s[1..];
    }
  }

  /** Two sorted sequences that agree key by key are equal. */
  lemma {:induction false} SortedIsDeterminedByKeys<T>(r: seq<T>, s: seq<T>, key: T -> int)
    requires Sorted(r, key) && Sorted(s, key)
    requires forall k :: WithKey(r, key, k) == WithKey(s, key, k)
    ensures r == s
  {
    if |r| == 0 {
      if |s| > 0 { WithKeyHead(s, key); }
    } else {
      WithKeyHead(r, key);
      WithKeyIsSubsequence(s, key, key(r[0]), r[0]);
      assert r[0] in WithKey(s, key, key(r[0]));
      assert |s| > 0;
      WithKeyIsSubsequence(r, key, key(s[0]), s[0]);
      WithKeyHead(s, key);
      assert s[0] in WithKey(r, key, key(s[0]));
      var i :| 0 <= i < |s| && s[i] == r[0];
      var j :| 0 <= j < |r| && r[j] == s[0];
      SortedPairs(s, key, 0, i);
      SortedPairs(r, key, 0, j);
      assert key(r[0]) == key(s[0]);
      assert r[0] == WithKey(r, key, key(r[0]))[0] == s[0];
      forall k ensures WithKey(r[1..], key, k) == WithKey(s[1..], key, k) {
        assert WithKey(r, key, k) == WithKey(s, key, k);
        if k == key(r[0]) {
          assert WithKey(r[1..], key, k) == WithKey(r, key, k)[1..];
          assert WithKey(s[1..], key, k) == WithKey(s, key, k)[1..];
        }
      }
      SortedIsDeterminedByKeys(r[1..], s[1..], key);
      assert r == [r[0]] + r[1..] && s == [s[0]] + s[1..];
    }
  }

  /** `r` is sorted and holds, key by key, the elements of `s` in the order of `s`. */
  ghost predicate StablyRearranges<T>(r: seq<T>, s: seq<T>, key: T -> int) {
    Sorted(r, key) && forall k :: WithKey(r, key, k) == WithKey(s, key, k)
  }

  /** `Sort(s, key)` is the one sorted, stable rearrangement of `s`. */
  lemma SortIsTheStableSort<T>(r: seq<T>, s: seq<T>, key: T -> int)
    ensures r == Sort(s, key) <==> StablyRearranges(r, s, key)
  {
    SortSorts(s, key);
    forall k ensures WithKey(Sort(s, key), key, k) == WithKey(s, key, k) {
      SortIsStable(s, key, k);
    }
    if StablyRearranges(r, s, key) {
      forall k ensures WithKey(r, key, k) == WithKey(Sort(s, key), key, k) {
        assert WithKey(r, key, k) == WithKey(s, key, k);
      }
      SortedIsDeterminedByKeys(r, Sort(s, key), key);
    }
  }

  lemma {:induction false} SortedSuffix<T>(s: seq<T>, n: nat, key: T -> int)
    requires Sorted(s, key) && n <= |s|
    ensures Sorted(s[n..], key)
  {
    if n > 0 && |s| > 1 {
      SortedSuffix(s[1..], n - 1, key);
      assert s[1..][n - 1..] == s[n..];
    }
  }

  lemma {:induction false} SortedSnoc<T>(s: seq<T>, x: T, key: T -> int)
    ensures Sorted(s + [x], key) <==> Sorted(s, key) && (|s| > 0 ==> key(s[|s| - 1]) <= key(x))
  {
    if |s| > 1 {
      SortedSnoc(s[1..], x, key);
      assert (s + [x])[1..] == s[1..] + [x];
    } else {
      assert |s| == 1 ==> (s + [x])[1..] == [x];
    }
  }

  // ---- Inversions: the measure that makes a swap loop end ----

  /** How many elements of `s` have a key below `k`. */
  ghost function CountBelow<T>(s: seq<T>, key: T -> int, k: int): nat {
    if |s| == 0 then 0 else (if key(s[0]) < k then 1 else 0) + CountBelow(s[1..], key, k)
  }

  ghost function Inversions<T>(s: seq<T>, key: T -> int): nat {
    if |s| == 0 then 0 else CountBelow(s[1..], key, key(s[0])) + Inversions(s[1..], key)
  }

  lemma {:induction false} ExchangeBelow<T>(s: seq<T>, i: nat, key: T -> int, k: int)
    requires i + 1 < |s|
    ensures CountBelow(Exchange(s, i), key, k) == CountBelow(s, key, k)
  {
    var e := Exchange(s, i);
    if i == 0 {
      assert e[1..][1..] == s[1..][1..];
    } else {
      ExchangeBelow(s[1..], i - 1, key, k);
      assert e[1..] == Exchange(s[1..], i - 1);
    }
  }

  lemma {:induction false} ExchangeInversions<T>(s: seq<T>, i: nat, key: T -> int)
    requires i + 1 < |s| && key(s[i]) > key(s[i + 1])
    ensures Inversions(Exchange(s, i), key) == Inversions(s, key) - 1
  {
    var e := Exchange(s, i);
    if i == 0 {
      assert e[1..][1..] == s[1..][1..];
    } else {
      ExchangeInversions(s[1..], i - 1, key);
      ExchangeBelow(s[1..], i - 1, key, key(s[0]));
      assert e[1..] == Exchange(s[1..], i - 1);
    }
  }

  // ---- One pass of a swap loop ----

  /** The sequence once a pass has compared, and exchanged where needed, the pairs
      (0, 1), (1, 2), ..., (n - 1, n). */
  ghost function Bubbled<T>(s: seq<T>, key: T -> int, n: nat): (r: seq<T>)
    requires n == 0 || n < |s|
    ensures |r| == |s|
  {
    if n == 0 then s
    else
      var r := Bubbled(s, key, n - 1);
      if key(r[n - 1]) > key(r[n]) then Exchange(r, n - 1) else r
  }

  /** Whether any of those comparisons led to an exchange. */
  ghost predicate Swaps<T>(s: seq<T>, key: T -> int, n: nat)
    requires n == 0 || n < |s|
  {
    n > 0 && (Swaps(s, key, n - 1) || var r := Bubbled(s, key, n - 1); key(r[n - 1]) > key(r[n]))
  }

  lemma SortOfNothing<T>(key: T -> int)
    ensures Sort([], key) == []
  {
  }

  lemma BubbledStart<T>(s: seq<T>, key: T -> int)
    ensures Bubbled(s, key, 0) == s && !Swaps(s, key, 0)
  {
  }

  lemma BubbledStep<T>(s: seq<T>, key: T -> int, n: nat)
    requires n + 1 < |s|
    ensures var r := Bubbled(s, key, n);
      && Bubbled(s, key, n + 1) == (if key(r[n]) > key(r[n + 1]) then Exchange(r, n) else r)
      && (Swaps(s, key, n + 1) <==> Swaps(s, key, n) || key(r[n]) > key(r[n + 1]))
  {
  }

  /** A pass keeps the sorted whole; if it exchanges anything it removes an inversion,
      and if not, it changed nothing and what it compared was in order. */
  lemma {:induction false} PassProgress<T>(s: seq<T>, key: T -> int, n: nat)
    requires n == 0 || n < |s|
    ensures Sort(Bubbled(s, key, n), key) == Sort(s, key)
    ensures Inversions(Bubbled(s, key, n), key) + (if Swaps(s, key, n) then 1 else 0) <= Inversions(s, key)
    ensures !Swaps(s, key, n) ==>
              Bubbled(s, key, n) == s && forall k :: 0 <= k < n ==> key(s[k]) <= key(s[k + 1])
  {
    if n > 0 {
      PassProgress(s, key, n - 1);
      var r := Bubbled(s, key, n - 1);
      if key(r[n - 1]) > key(r[n]) {
        SortAbsorbsExchange(r, n - 1, key);
        ExchangeInversions(r, n - 1, key);
      }
    }
  }

  lemma {:induction false} NeighboursInOrder<T>(s: seq<T>, key: T -> int)
    requires forall i :: 0 <= i < |s| - 1 ==> key(s[i]) <= key(s[i + 1])
    ensures Sorted(s, key)
  {
    if |s| > 1 {
      forall i | 0 <= i < |s| - 2 ensures key(s[1..][i]) <= key(s[1..][i + 1]) {
        assert key(s[i + 1]) <= key(s[i + 2]);
      }
      NeighboursInOrder(s[1..], key);
    }
  }

  /** A whole pass: either it removes an inversion or the sequence is its own sort. */
  lemma WholePass<T>(s: seq<T>, key: T -> int)
    requires |s| > 0
    ensures Sort(Bubbled(s, key, |s| - 1), key) == Sort(s, key)
    ensures Swaps(s, key, |s| - 1) ==> Inversions(Bubbled(s, key, |s| - 1), key) < Inversions(s, key)
    ensures !Swaps(s, key, |s| - 1) ==> Bubbled(s, key, |s| - 1) == s == Sort(s, key)
  {
    PassProgress(s, key, |s| - 1);
    if !Swaps(s, key, |s| - 1) {
      NeighboursInOrder(s, key);
      SortedIsFixed(s, key);
    }
  }
}
