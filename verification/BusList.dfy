/** The singly linked list of busses: appending at its end and sorting it in place. */
module BusList {
  import opened StableSort
  import opened UsbObjects

  ghost function BusNumber(b: UsbBus): int { b.busnum }

  /** The node that follows position `i` of `s`. */
  ghost function After(s: seq<UsbBus>, i: nat): UsbBus? {
    if i + 1 < |s| then s[i + 1] else null
  }

  /** `head` starts a null-terminated chain of exactly the distinct nodes `s`, in order. */
  ghost predicate Chain(head: UsbBus?, s: seq<UsbBus>)
    reads s`next
  {
    && (forall i, j :: 0 <= i < j < |s| ==> s[i] != s[j])
    && head == (if |s| == 0 then null else s[0])
    && (forall i :: 0 <= i < |s| ==> s[i].next == After(s, i))
  }

  lemma ExchangedAt(s: seq<UsbBus>, i: nat, k: nat)
    requires i + 1 < |s| && k < |s|
    ensures |Exchange(s, i)| == |s|
    ensures Exchange(s, i)[k] == if k == i then s[i + 1] else if k == i + 1 then s[i] else s[k]
    ensures After(Exchange(s, i), k)
         == if i > 0 && k == i - 1 then s[i + 1] else if k == i then s[i]
            else if k == i + 1 then After(s, i + 1) else After(s, k)
  {
  }

  /** A chain in which the links around two neighbours have been exchanged. */
  lemma ChainOfExchanged(head: UsbBus?, s: seq<UsbBus>, i: nat)
    requires i + 1 < |s| && forall j, k :: 0 <= j < k < |s| ==> s[j] != s[k]
    requires forall k :: 0 <= k < |s| && k != i && k != i + 1 && k != i - 1 ==> s[k].next == After(s, k)
    requires s[i + 1].next == s[i] && s[i].next == After(s, i + 1) && (i > 0 ==> s[i - 1].next == s[i + 1])
    requires head == if i == 0 then s[1] else s[0]
    ensures Chain(head, Exchange(s, i))
  {
    hide Exchange, After;
    var e := Exchange(s, i);
    ExchangedAt(s, i, 0);
    forall k | 0 <= k < |e| ensures e[k].next == After(e, k) {
      ExchangedAt(s, i, k);
    }
    forall j, k | 0 <= j < k < |e| ensures e[j] != e[k] {
      ExchangedAt(s, i, j);
      ExchangedAt(s, i, k);
    }
  }

  /** The pointer moves of an exchange, through the link that leads to `p`. */
  method Relink(head: UsbBus?, prev: UsbBus?, p: UsbBus, ghost s: seq<UsbBus>, ghost i: nat)
    returns (head': UsbBus?, t: UsbBus)
    requires Chain(head, s) && i + 1 < |s| && p == s[i]
    requires prev == (if i == 0 then null else s[i - 1])
    modifies s`next
    ensures Chain(head', Exchange(s, i)) && t == s[i + 1]
  {
    assert s[i].next == After(s, i) && s[i + 1].next == After(s, i + 1);
    t := p.next;
    p.next := t.next;
    t.next := p;
    if prev == null {
      head' := t;
    } else {
      prev.next := t;
      head' := head;
    }
    ChainOfExchanged(head', s, i);
  }

  class BusTable {
    var usbbuslist: UsbBus?
    ghost var Busses: seq<UsbBus>
    ghost var Repr: set<UsbBus>  // every node that may be linked in

    ghost predicate Valid()
      reads this, Repr`next
    {
      && (forall i :: 0 <= i < |Busses| ==> Busses[i] in Repr)
      && Chain(usbbuslist, Busses)
    }

    constructor ()
      ensures Valid() && Busses == [] && Repr == {}
    {
      usbbuslist := null;
      Busses := [];
      Repr := {};
    }

    /** The head of the list. */
    method First() returns (b: UsbBus?)
      requires Valid()
      ensures b == (if |Busses| > 0 then Busses[0] else null)
    {
      b := usbbuslist;
    }

    /** The bus after `b`, the one at position `k`. */
    method Following(b: UsbBus, ghost k: nat) returns (n: UsbBus?)
      requires Valid() && k < |Busses| && b == Busses[k]
      ensures n == (if k + 1 < |Busses| then Busses[k + 1] else null)
    {
      n := b.next;
    }

    method AppendBusnode(node: UsbBus)
      requires Valid() && node !in Repr && node.next == null
      modifies this, Repr`next
      ensures Valid() && Busses == old(Busses) + [node] && Repr == old(Repr) + {node}
    {
      var b := usbbuslist;
      if b != null {
        ghost var i := 0;
        while b.next != null
          invariant 0 <= i < |Busses| && b == Busses[i]
          modifies {}
          decreases |Busses| - i
        {
          b := b.next;
          i := i + 1;
        }
        b.next := node;
      } else {
        usbbuslist := node;
      }
      Busses := Busses + [node];
      Repr := Repr + {node};
    }

    /** Exchange `p` with its successor through the link that leads to `p`, and return
        the node that now stands in its place.  `prev` is null when that link is the
        list head itself. */
    method SwapWithNext(prev: UsbBus?, p: UsbBus, ghost i: nat) returns (t: UsbBus)
      requires Valid() && i + 1 < |Busses| && p == Busses[i]
      requires prev == (if i == 0 then null else Busses[i - 1])
      modifies this, Repr`next
      ensures Valid() && Repr == old(Repr)
      ensures Busses == Exchange(old(Busses), i) && t == Busses[i]
    {
      assert forall k :: 0 <= k < |Busses| ==> Busses[k] in Repr;
      usbbuslist, t := Relink(usbbuslist, prev, p, Busses, i);
      Busses := Exchange(Busses, i);
    }

    lemma NextOf(k: nat)
      requires Valid() && k < |Busses|
      ensures Busses[k].next == (if k + 1 < |Busses| then Busses[k + 1] else null) && usbbuslist == Busses[0]
    {
    }

    /** One pass over the neighbours, front to back. */
    method Pass() returns (swapped: bool)
      requires Valid() && |Busses| > 0
      modifies this, Repr`next
      ensures Valid() && Repr == old(Repr)
      ensures Busses == Bubbled(old(Busses), BusNumber, |old(Busses)| - 1)
      ensures swapped == Swaps(old(Busses), BusNumber, |old(Busses)| - 1)
    {
      hide Valid, Bubbled, Swaps;
      NextOf(0);
      BubbledStart(Busses, BusNumber);
      var p, prev: UsbBus? := usbbuslist, null;
      swapped := false;
      ghost var i := 0;
      while p != null && p.next != null
        invariant Valid() && Repr == old(Repr) && |Busses| == |old(Busses)|
        invariant i < |Busses| && p == Busses[i]
        invariant prev == (if i == 0 then null else Busses[i - 1])
        invariant Busses == Bubbled(old(Busses), BusNumber, i)
        invariant swapped == Swaps(old(Busses), BusNumber, i)
        decreases |Busses| - i
      {
        NextOf(i);
        BubbledStep(old(Busses), BusNumber, i);
        if p.busnum > p.next.busnum {
          p := SwapWithNext(prev, p, i);
          swapped := true;
        }
        NextOf(i);
        prev := p;
        p := p.next;
        i := i + 1;
      }
      NextOf(i);
    }

    lemma HeadOfNone()
      requires Valid()
      ensures usbbuslist == null <==> Busses == []
    {
    }

    /** Passes until one swaps nothing. */
    method SortBusses()
      requires Valid()
      modifies this, Repr`next
      ensures Valid() && Repr == old(Repr) && Busses == Sort(old(Busses), BusNumber)
    {
      hide Valid, Sort, Inversions, Bubbled, Swaps;
      var swapped := true;
      while swapped
        invariant Valid() && Repr == old(Repr)
        invariant Sort(Busses, BusNumber) == Sort(old(Busses), BusNumber)
        invariant !swapped ==> Busses == Sort(old(Busses), BusNumber)
        decreases Inversions(Busses, BusNumber), swapped
      {
        HeadOfNone();
        if usbbuslist == null {
          SortOfNothing(BusNumber);
          return;
        }
        WholePass(Busses, BusNumber);
        swapped := Pass();
      }
    }
  }
}
