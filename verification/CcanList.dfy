/** The intrusive circular list: a ring of nodes through a head. */
module CcanList {

  class ListNode {
    var next: ListNode
    var prev: ListNode

    /** `list_node_init` and `list_head_init`: a ring of one. */
    constructor ()
      ensures next == this && prev == this
    {
      next, prev := this, this;
    }
  }

  ghost function Nodes(s: seq<ListNode>): set<ListNode> { set n | n in s }

  ghost predicate Distinct(s: seq<ListNode>) { forall i, j :: 0 <= i < j < |s| ==> s[i] != s[j] }

  /** The node behind position `i` of a ring. */
  function Behind(s: seq<ListNode>, i: nat): ListNode
    requires i < |s|
  {
    if i + 1 == |s| then s[0] else s[i + 1]
  }

  /** The nodes `s` in this order form a ring: following `next` from any of them leads to the one
      behind it, and `prev` leads back. */
  ghost predicate Ring(s: seq<ListNode>)
    reads Nodes(s)
  {
    && |s| > 0 && Distinct(s)
    && forall i :: 0 <= i < |s| ==> s[i].next == Behind(s, i) && Behind(s, i).prev == s[i]
  }

  /** A list has a head, `s[0]`, and the entries behind it. */
  ghost predicate List(head: ListNode, entries: seq<ListNode>)
    reads Nodes([head] + entries)
  {
    Ring([head] + entries)
  }

  /** What a list is, pointer by pointer. */
  lemma ListIs(head: ListNode, entries: seq<ListNode>)
    ensures List(head, entries) <==>
              && head !in entries && Distinct(entries)
              && (entries == [] ==> head.next == head && head.prev == head)
              && (entries != [] ==>
                    && head.next == entries[0] && entries[0].prev == head
                    && entries[|entries| - 1].next == head && head.prev == entries[|entries| - 1])
              && (forall i :: 0 <= i < |entries| - 1 ==>
                    entries[i].next == entries[i + 1] && entries[i + 1].prev == entries[i])
  {
    var s, n := [head] + entries, |entries|;
    assert s[0] == head && forall i :: 0 < i <= n ==> s[i] == entries[i - 1];
    if List(head, entries) {
      assert s[0].next == Behind(s, 0) && Behind(s, 0).prev == s[0];
      assert s[n].next == Behind(s, n) && Behind(s, n).prev == s[n];
      forall i | 0 <= i < n ensures entries[i] != head && forall j :: i < j < n ==> entries[i] != entries[j] {
        assert s[i + 1] != s[0] && forall j :: i < j < n ==> s[j + 1] == entries[j];
      }
      forall i | 0 <= i < n - 1 ensures entries[i].next == entries[i + 1] && entries[i + 1].prev == entries[i] {
        assert s[i + 1].next == Behind(s, i + 1) && Behind(s, i + 1).prev == s[i + 1];
      }
    }
  }

  lemma {:induction false} RingsAgree(s: seq<ListNode>, t: seq<ListNode>, k: nat)
    requires Ring(s) && Ring(t) && s[0] == t[0] && k < |s|
    ensures k < |t| && s[k] == t[k]
  {
    if k > 0 {
      RingsAgree(s, t, k - 1);
      assert Behind(s, k - 1) == Behind(t, k - 1);
      assert s[0] != s[k];
    }
  }

  /** The pointers determine the entries. */
  lemma ListIsUnique(head: ListNode, a: seq<ListNode>, b: seq<ListNode>)
    requires List(head, a) && List(head, b)
    ensures a == b
  {
    var s, t := [head] + a, [head] + b;
    RingsAgree(s, t, |s| - 1);
    RingsAgree(t, s, |t| - 1);
    forall k | 0 <= k < |a| ensures a[k] == b[k] {
      RingsAgree(s, t, k + 1);
      assert s[k + 1] == a[k] && t[k + 1] == b[k];
    }
  }

  // ---- Operations on a ring ----

  function Inserted(s: seq<ListNode>, at: nat, n: ListNode): seq<ListNode>
    requires at <= |s|
  {
    s[..at] + [n] + s[at..]
  }

  /** No node stands behind two. */
  lemma BehindOnce(s: seq<ListNode>, j: nat, k: nat)
    requires Distinct(s) && j < |s| && k < |s| && j != k
    ensures Behind(s, j) != Behind(s, k) && s[j] != s[k]
  {
    assert s[0] == s[0];
  }

  lemma InsertedAt(s: seq<ListNode>, at: nat, n: ListNode, k: nat)
    requires 0 < at <= |s| && k <= |s|
    ensures Inserted(s, at, n)[k] == if k < at then s[k] else if k == at then n else s[k - 1]
    ensures Behind(Inserted(s, at, n), k)
         == if k < at - 1 then Behind(s, k) else if k == at - 1 then n
            else if k == at then Behind(s, at - 1) else Behind(s, k - 1)
  {
  }

  lemma InsertedDistinct(s: seq<ListNode>, at: nat, n: ListNode)
    requires Distinct(s) && n !in s && 0 < at <= |s|
    ensures Distinct(Inserted(s, at, n))
  {
    hide Inserted, Behind;
    var t := Inserted(s, at, n);
    InsertedLength(s, at, n);
    forall i, j | 0 <= i < j < |t| ensures t[i] != t[j] {
      InsertedAt(s, at, n, i);
      InsertedAt(s, at, n, j);
    }
  }

  lemma InsertedLength(s: seq<ListNode>, at: nat, n: ListNode)
    requires at <= |s|
    ensures |Inserted(s, at, n)| == |s| + 1
  {
  }

  /** A node linked in between two neighbours of a ring belongs to the ring. */
  lemma RingOfInserted(s: seq<ListNode>, at: nat, n: ListNode)
    requires Distinct(s) && n !in s && 0 < at <= |s|
    requires forall k :: 0 <= k < |s| && k != at - 1 ==> s[k].next == Behind(s, k) && Behind(s, k).prev == s[k]
    requires s[at - 1].next == n && n.prev == s[at - 1] && n.next == Behind(s, at - 1) && Behind(s, at - 1).prev == n
    ensures Ring(Inserted(s, at, n))
  {
    hide Inserted, Behind, Distinct;
    var t := Inserted(s, at, n);
    InsertedLength(s, at, n);
    InsertedDistinct(s, at, n);
    forall k | 0 <= k < |t| ensures t[k].next == Behind(t, k) && Behind(t, k).prev == t[k] {
      InsertedAt(s, at, n, k);
      if k > at {
        assert t[k] == s[k - 1];
      }
    }
  }

  /** Links `n` between the neighbours `s[at - 1]` and the one behind it. */
  method LinkBetween(before: ListNode, after: ListNode, n: ListNode, ghost s: seq<ListNode>, ghost at: nat)
    requires Ring(s) && 0 < at <= |s| && before == s[at - 1] && after == Behind(s, at - 1) && n !in s
    modifies Nodes(s), n
    ensures Ring(Inserted(s, at, n))
  {
    forall k | 0 <= k < |s| && k != at - 1 ensures s[k] != before && Behind(s, k) != after && Behind(s, k) in s {
      BehindOnce(s, k, at - 1);
    }
    n.next := after;
    n.prev := before;
    after.prev := n;
    before.next := n;
    RingOfInserted(s, at, n);
  }

  /** `list_add_after_`. */
  method AddAfter(p: ListNode, n: ListNode, ghost s: seq<ListNode>, ghost i: nat)
    requires Ring(s) && i < |s| && p == s[i] && n !in s
    modifies Nodes(s), n
    ensures Ring(s[..i + 1] + [n] + s[i + 1..])
  {
    LinkBetween(p, p.next, n, s, i + 1);
  }

  /** `list_add_before_`. */
  method AddBefore(p: ListNode, n: ListNode, ghost s: seq<ListNode>, ghost i: nat)
    requires Ring(s) && i < |s| && p == s[i] && n !in s
    modifies Nodes(s), n
    ensures Ring(if i == 0 then s + [n] else s[..i] + [n] + s[i..])
  {
    ghost var at := if i == 0 then |s| else i;
    assert Behind(s, at - 1) == p;
    LinkBetween(p.prev, p, n, s, at);
    assert i == 0 ==> Inserted(s, at, n) == s + [n];
  }

  function Removed(s: seq<ListNode>, i: nat): seq<ListNode>
    requires i < |s|
  {
    s[..i] + s[i + 1..]
  }

  lemma RemovedAt(s: seq<ListNode>, i: nat, k: nat)
    requires 0 < i < |s| && k < |s| - 1
    ensures |Removed(s, i)| == |s| - 1
    ensures Removed(s, i)[k] == if k < i then s[k] else s[k + 1]
    ensures Behind(Removed(s, i), k)
         == if k < i - 1 then Behind(s, k) else if k == i - 1 then Behind(s, i) else Behind(s, k + 1)
  {
  }

  /** A ring closed over the place of one node is a ring without it. */
  lemma RingOfRemoved(s: seq<ListNode>, i: nat)
    requires Distinct(s) && 0 < i < |s|
    requires forall k :: 0 <= k < |s| && k != i - 1 && k != i ==> s[k].next == Behind(s, k) && Behind(s, k).prev == s[k]
    requires s[i - 1].next == Behind(s, i) && Behind(s, i).prev == s[i - 1]
    ensures Ring(Removed(s, i))
  {
    hide Removed, Behind;
    var t := Removed(s, i);
    RemovedAt(s, i, 0);
    forall k | 0 <= k < |t| ensures t[k].next == Behind(t, k) && Behind(t, k).prev == t[k] {
      RemovedAt(s, i, k);
      if k >= i {
        assert t[k] == s[k + 1];
      }
    }
    forall j, k | 0 <= j < k < |t| ensures t[j] != t[k] {
      RemovedAt(s, i, j);
      RemovedAt(s, i, k);
    }
  }

  /** `list_del_`. */
  method Del(n: ListNode, ghost s: seq<ListNode>, ghost i: nat)
    requires Ring(s) && 0 < i < |s| && n == s[i]
    modifies Nodes(s)
    ensures Ring(s[..i] + s[i + 1..])
  {
    assert Behind(s, i - 1) == n;
    forall k | 0 <= k < |s| && k != i - 1 ensures s[k] != s[i - 1] && (k != i ==> Behind(s, k) != Behind(s, i)) {
      BehindOnce(s, k, i - 1);
      if k != i {
        BehindOnce(s, k, i);
      }
    }
    n.next.prev := n.prev;
    n.prev.next := n.next;
    RingOfRemoved(s, i);
  }

  lemma SwappedAt(s: seq<ListNode>, i: nat, n: ListNode, k: nat)
    requires 0 < i < |s| && k < |s|
    ensures s[i := n][k] == if k == i then n else s[k]
    ensures Behind(s[i := n], k) == if k == i - 1 then n else Behind(s, k)
  {
  }

  /** A ring whose neighbours of one place point to another node is a ring with that node there. */
  lemma RingOfSwapped(s: seq<ListNode>, i: nat, n: ListNode)
    requires Distinct(s) && n !in s && 0 < i < |s|
    requires forall k :: 0 <= k < |s| && k != i - 1 && k != i ==> s[k].next == Behind(s, k) && Behind(s, k).prev == s[k]
    requires s[i - 1].next == n && n.prev == s[i - 1] && n.next == Behind(s, i) && Behind(s, i).prev == n
    ensures Ring(s[i := n])
  {
    hide Behind;
    var t := s[i := n];
    forall k | 0 <= k < |t| ensures t[k].next == Behind(t, k) && Behind(t, k).prev == t[k] {
      SwappedAt(s, i, n, k);
    }
    forall j, k | 0 <= j < k < |t| ensures t[j] != t[k] {
      SwappedAt(s, i, n, j);
      SwappedAt(s, i, n, k);
    }
  }

  /** `list_swap_`. */
  method Swap(o: ListNode, n: ListNode, ghost s: seq<ListNode>, ghost i: nat)
    requires Ring(s) && 0 < i < |s| && o == s[i] && n !in s
    modifies Nodes(s), n
    ensures Ring(s[i := n])
  {
    assert Behind(s, i - 1) == o;
    forall k | 0 <= k < |s| && k != i ensures s[k] != s[i] && Behind(s, k) != Behind(s, i) {
      BehindOnce(s, k, i);
    }
    forall k | 0 <= k < |s| && k != i - 1 ensures s[k] != s[i - 1] && Behind(s, k) != o {
      BehindOnce(s, k, i - 1);
    }
    n.next := o.next;
    n.prev := o.prev;
    n.next.prev := n;
    n.prev.next := n;
    RingOfSwapped(s, i, n);
  }

  // ---- Operations on a list ----

  /** `list_add_`: at the front. */
  method Add(h: ListNode, n: ListNode, ghost entries: seq<ListNode>)
    requires List(h, entries) && n != h && n !in entries
    modifies Nodes([h] + entries), n
    ensures List(h, [n] + entries)
  {
    hide Ring, Nodes;
    ghost var s := [h] + entries;
    AddAfter(h, n, s, 0);
    assert s[..1] + [n] + s[1..] == [h] + ([n] + entries);
  }

  /** `list_add_tail_`. */
  method AddTail(h: ListNode, n: ListNode, ghost entries: seq<ListNode>)
    requires List(h, entries) && n != h && n !in entries
    modifies Nodes([h] + entries), n
    ensures List(h, entries + [n])
  {
    ghost var s := [h] + entries;
    AddBefore(h, n, s, 0);
    assert s + [n] == [h] + (entries + [n]);
  }

  /** `list_empty_`. */
  method Empty(h: ListNode, ghost entries: seq<ListNode>) returns (empty: bool)
    requires List(h, entries)
    ensures empty <==> entries == []
  {
    ghost var s := [h] + entries;
    assert s[0].next == Behind(s, 0);
    assert |entries| > 0 ==> s[0] != s[1];
    empty := h.next == h;
  }

  /** `list_for_each`: the entries in order. */
  method Entries(h: ListNode, ghost entries: seq<ListNode>) returns (visited: seq<ListNode>)
    requires List(h, entries)
    ensures visited == entries
  {
    ghost var s := [h] + entries;
    visited := [];
    var i := h.next;
    assert i == Behind(s, 0);
    while i != h
      invariant |visited| <= |entries| && visited == entries[..|visited|] && i == Behind(s, |visited|)
      decreases |entries| - |visited|
    {
      ghost var k := |visited|;
      assert k < |entries| && i == s[k + 1] == entries[k];
      visited := visited + [i];
      i := i.next;
    }
    HeadBehind(s, |visited|);
  }

  /** Two disjoint rings whose heads are sewn together form one, the second behind the first. */
  method Sew(to: ListNode, from: ListNode, ghost s: seq<ListNode>, ghost t: seq<ListNode>)
    requires Ring(s) && Ring(t) && to == s[0] && from == t[0] && Nodes(s) !! Nodes(t)
    modifies Nodes(s), Nodes(t)
    ensures Ring(s + t)
  {
    LastNode(s);
    LastNode(t);
    var from_tail, to_tail := from.prev, to.prev;
    to.prev := from_tail;
    from_tail.next := to;
    to_tail.next := from;
    from.prev := to_tail;
    RingOfBoth(s, t);
  }

  /** Inside a row of nodes the links lead forth and back. */
  ghost predicate Row(s: seq<ListNode>)
    reads Nodes(s)
  {
    forall k :: 0 <= k < |s| - 1 ==> s[k].next == Behind(s, k) && Behind(s, k).prev == s[k]
  }

  lemma LastNode(s: seq<ListNode>)
    requires Ring(s)
    ensures s[0].prev == s[|s| - 1] && s[|s| - 1].next == s[0] && Row(s)
    ensures forall k :: 0 <= k < |s| - 1 ==> s[k] != s[|s| - 1] && Behind(s, k) != s[0] && Behind(s, k) in s
  {
    assert Behind(s, |s| - 1) == s[0];
  }

  lemma HeadBehind(s: seq<ListNode>, k: nat)
    requires Ring(s) && k < |s|
    ensures Behind(s, k) == s[0] <==> k == |s| - 1
  {
    LastNode(s);
  }

  lemma RingOfBoth(s: seq<ListNode>, t: seq<ListNode>)
    requires |s| > 0 && |t| > 0 && Distinct(s) && Distinct(t) && Nodes(s) !! Nodes(t) && Row(s) && Row(t)
    requires s[|s| - 1].next == t[0] && t[0].prev == s[|s| - 1] && t[|t| - 1].next == s[0] && s[0].prev == t[|t| - 1]
    ensures Ring(s + t)
  {
    var r := s + t;
    forall i, j | 0 <= i < j < |r| ensures r[i] != r[j] {
      if i < |s| <= j {
        assert s[i] in Nodes(s) && t[j - |s|] in Nodes(t);
      }
    }
    forall k | 0 <= k < |r| ensures r[k].next == Behind(r, k) && Behind(r, k).prev == r[k] {
      if k < |s| - 1 {
        assert Behind(r, k) == Behind(s, k);
      } else if |s| <= k < |r| - 1 {
        assert r[k] == t[k - |s|] && Behind(r, k) == Behind(t, k - |s|);
      }
    }
  }

  /** Takes the head of the second ring out of the sewn ring, and makes it a list of its own. */
  method TakeHeadOut(from: ListNode, ghost r: seq<ListNode>, ghost i: nat)
    requires Ring(r) && 0 < i < |r| && from == r[i]
    modifies Nodes(r)
    ensures Ring(r[..i] + r[i + 1..]) && List(from, [])
  {
    Del(from, r, i);
    NotInRest(r, i);
    Reset(from, r[..i] + r[i + 1..]);
  }

  lemma NotInRest(r: seq<ListNode>, i: nat)
    requires Distinct(r) && i < |r|
    ensures r[i] !in r[..i] + r[i + 1..]
  {
    var rest := r[..i] + r[i + 1..];
    forall k | 0 <= k < |rest| ensures rest[k] != r[i] {
      assert rest[k] == if k < i then r[k] else r[k + 1];
    }
  }

  lemma SewnParts(to: ListNode, from: ListNode, a: seq<ListNode>, b: seq<ListNode>)
    ensures var r := ([to] + a) + ([from] + b);
      && r[|a| + 1] == from && r[..|a| + 1] + r[|a| + 2..] == [to] + (a + b)
      && Nodes(r) == Nodes([to] + a) + Nodes([from] + b)
  {
    var r := ([to] + a) + ([from] + b);
    assert r[..|a| + 1] == [to] + a && r[|a| + 2..] == b;
    assert [to] + a + b == [to] + (a + b);
  }

  /** `list_append_list_`: the entries of `from` behind those of `to`; `from` ends empty. */
  method AppendList(to: ListNode, from: ListNode, ghost a: seq<ListNode>, ghost b: seq<ListNode>)
    requires List(to, a) && List(from, b) && Nodes([to] + a) !! Nodes([from] + b)
    modifies Nodes([to] + a), Nodes([from] + b)
    ensures List(to, a + b) && List(from, [])
  {
    hide Ring, Nodes;
    SewnParts(to, from, a, b);
    Sew(to, from, [to] + a, [from] + b);
    TakeHeadOut(from, ([to] + a) + ([from] + b), |a| + 1);
  }

  /** A ring may be entered at the next node. */
  lemma Rotate(s: seq<ListNode>)
    requires Ring(s)
    ensures Ring(s[1..] + [s[0]])
  {
    var r := s[1..] + [s[0]];
    forall k | 0 <= k < |r| ensures r[k].next == Behind(r, k) && Behind(r, k).prev == r[k] {
      var j := if k + 1 == |s| then 0 else k + 1;
      assert r[k] == s[j] && Behind(r, k) == Behind(s, j);
    }
  }

  /** Or at the node before. */
  lemma RotateBack(s: seq<ListNode>)
    requires Ring(s)
    ensures Ring([s[|s| - 1]] + s[..|s| - 1])
  {
    var r := [s[|s| - 1]] + s[..|s| - 1];
    LastNode(s);
    forall k | 0 <= k < |r| ensures r[k].next == Behind(r, k) && Behind(r, k).prev == r[k] {
      var j := if k == 0 then |s| - 1 else k - 1;
      assert r[k] == s[j] && Behind(r, k) == Behind(s, j);
    }
  }

  /** The second ring sewn in behind the last node of the first, which is entered at the node
      after its head. */
  method SewBehind(to: ListNode, from: ListNode, ghost r: seq<ListNode>, ghost t: seq<ListNode>)
    requires Ring(r) && Ring(t) && to == r[|r| - 1] && from == t[0] && Nodes(r) !! Nodes(t)
    modifies Nodes(r), Nodes(t)
    ensures Ring(t + r)
  {
    LastNode(r);
    LastNode(t);
    ApartRows(r, t);
    ApartRows(t, r);
    var from_tail, to_head := from.prev, to.next;
    to.next := from;
    from.prev := to;
    to_head.prev := from_tail;
    from_tail.next := to_head;
    RingOfBoth(t, r);
  }

  lemma ApartRows(s: seq<ListNode>, t: seq<ListNode>)
    requires Ring(s) && Ring(t) && Nodes(s) !! Nodes(t)
    ensures forall k :: 0 <= k < |s| - 1 ==>
              && s[k] != s[|s| - 1] && s[k] != t[|t| - 1] && Behind(s, k) != s[0] && Behind(s, k) != t[0]
    ensures s[0] != t[0] && s[|s| - 1] != t[|t| - 1]
  {
    LastNode(s);
    assert t[0] in Nodes(t) && t[|t| - 1] in Nodes(t) && s[0] in Nodes(s) && s[|s| - 1] in Nodes(s);
    forall k | 0 <= k < |s| - 1 ensures s[k] in Nodes(s) && Behind(s, k) in Nodes(s) {
    }
  }

  lemma Turned(s: seq<ListNode>)
    requires |s| > 0
    ensures var r := s[1..] + [s[0]]; |r| == |s| && r[|r| - 1] == s[0] && Nodes(r) == Nodes(s)
  {
    var r := s[1..] + [s[0]];
    assert s == [s[0]] + s[1..];
  }

  lemma TurnedBack(s: seq<ListNode>, t: seq<ListNode>)
    requires |s| > 0 && Ring(t + (s[1..] + [s[0]]))
    ensures Ring([s[0]] + t + s[1..])
  {
    var all := t + (s[1..] + [s[0]]);
    RotateBack(all);
    assert all[|all| - 1] == s[0] && all[..|all| - 1] == t + s[1..];
    assert [s[0]] + (t + s[1..]) == [s[0]] + t + s[1..];
  }

  /** The second ring sewn in right behind the head of the first. */
  method SewFront(to: ListNode, from: ListNode, ghost s: seq<ListNode>, ghost t: seq<ListNode>)
    requires Ring(s) && Ring(t) && |s| > 0 && |t| > 0 && to == s[0] && from == t[0] && Nodes(s) !! Nodes(t)
    modifies Nodes(s), Nodes(t)
    ensures Ring([to] + t + s[1..])
  {
    hide Ring, Nodes;
    Rotate(s);
    Turned(s);
    SewBehind(to, from, s[1..] + [s[0]], t);
    TurnedBack(s, t);
  }

  lemma SewnInFront(to: ListNode, from: ListNode, a: seq<ListNode>, b: seq<ListNode>)
    ensures var r := [to] + ([from] + b) + ([to] + a)[1..];
      && r[1] == from && r[..1] + r[2..] == [to] + (b + a)
      && Nodes(r) == Nodes([to] + a) + Nodes([from] + b)
  {
    var r := [to] + ([from] + b) + ([to] + a)[1..];
    assert ([to] + a)[1..] == a;
    assert r[..1] == [to] && r[2..] == b + a;
  }

  /** `list_prepend_list_`: the entries of `from` before those of `to`; `from` ends empty. */
  method PrependList(to: ListNode, from: ListNode, ghost a: seq<ListNode>, ghost b: seq<ListNode>)
    requires List(to, a) && List(from, b) && Nodes([to] + a) !! Nodes([from] + b)
    modifies Nodes([to] + a), Nodes([from] + b)
    ensures List(to, b + a) && List(from, [])
  {
    hide Ring, Nodes;
    SewnInFront(to, from, a, b);
    SewFront(to, from, [to] + a, [from] + b);
    TakeHeadOut(from, [to] + ([from] + b) + ([to] + a)[1..], 1);
  }

  /** `list_head_init` of a node outside a ring. */
  method Reset(h: ListNode, ghost s: seq<ListNode>)
    requires Ring(s) && h !in s
    modifies h
    ensures Ring(s) && List(h, [])
  {
    h.next := h;
    h.prev := h;
  }
}
