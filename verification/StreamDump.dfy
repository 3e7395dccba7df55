/** `dump_iface_list_stream` and its callback, over the interface flags and the library's
    transfers. */
module StreamDump {
  import opened UhdIface
  import opened StreamProtocol

  /** A library transfer; `pending` says that the library holds it. */
  class UsbTransfer {
    var user_data: Iface?
    var pending: bool
    ghost var cancelFailed: bool

    constructor ()
      ensures user_data == null && !pending && !cancelFailed
    {
      user_data, pending, cancelFailed := null, false, false;
    }
  }

  ghost function All(ts: seq<UsbTransfer>): set<UsbTransfer> { set t | t in ts }

  /** Transfer `i` belongs to interface `i`. */
  ghost predicate Paired(ts: seq<UsbTransfer>, ifs: seq<Iface>)
    requires |ts| == |ifs|
    reads All(ts)`user_data
  {
    && Distinct(ifs)
    && (forall i, j :: 0 <= i < j < |ts| ==> ts[i] != ts[j])
    && (forall i :: 0 <= i < |ts| ==> ts[i].user_data == ifs[i])
  }

  /** The transfers as the protocol sees them. */
  ghost function View(ts: seq<UsbTransfer>, ifs: seq<Iface>): (v: seq<Transfer>)
    requires |ts| == |ifs|
    reads All(ts)`pending, All(ts)`cancelFailed, Members(ifs)`submitted
    ensures |v| == |ts|
    ensures forall i :: 0 <= i < |ts| ==> v[i] == Transfer(ifs[i].submitted, ts[i].pending, ts[i].cancelFailed)
    decreases |ts|
  {
    if |ts| == 0 then []
    else
      var last := |ts| - 1;
      View(ts[..last], ifs[..last]) + [Transfer(ifs[last].submitted, ts[last].pending, ts[last].cancelFailed)]
  }

  /** `dump_iface_list_stream_cb`.  The library has let go of the transfer when it calls;
      `accepts` is its answer to the resubmission. */
  method StreamCb(transfer: UsbTransfer, status: Status, accepts: bool)
    requires transfer.user_data != null && transfer.pending
    modifies transfer`pending, transfer.user_data`submitted
    ensures transfer.pending == transfer.user_data.submitted == (status == Completed && accepts)
  {
    var iface := transfer.user_data;
    transfer.pending := false;
    iface.submitted := false;
    match status {
      case Completed =>
        if accepts {
          transfer.pending := true;
          iface.submitted := true;
        }
      case Cancelled =>
      case _ =>
    }
  }

  /** Marks or unmarks one transfer on both sides. */
  method Mark(ts: seq<UsbTransfer>, ghost ifs: seq<Iface>, k: nat, held: bool)
    requires |ts| == |ifs| && Paired(ts, ifs) && k < |ts|
    modifies All(ts)`pending, Members(ifs)`submitted
    ensures View(ts, ifs) == old(View(ts, ifs))[k := old(View(ts, ifs))[k].(submitted := held, inFlight := held)]
  {
    ts[k].pending := held;
    ts[k].user_data.submitted := held;
  }

  /** Unmarks a transfer whose cancelling failed. */
  method Unmark(ts: seq<UsbTransfer>, ghost ifs: seq<Iface>, k: nat)
    requires |ts| == |ifs| && Paired(ts, ifs) && k < |ts|
    modifies All(ts)`cancelFailed, Members(ifs)`submitted
    ensures View(ts, ifs) == old(View(ts, ifs))[k := old(View(ts, ifs))[k].(submitted := false, cancelFailed := true)]
  {
    ts[k].user_data.submitted := false;
    ts[k].cancelFailed := true;
  }

  /** The callback for transfer `i`, if the library holds it. */
  method CallBack(ts: seq<UsbTransfer>, ghost ifs: seq<Iface>, i: nat, status: Status, accepts: bool)
    requires |ts| == |ifs| && Paired(ts, ifs)
    modifies All(ts)`pending, Members(ifs)`submitted
    ensures View(ts, ifs) == Fire(old(View(ts, ifs)), i, status, accepts)
  {
    if i < |ts| && ts[i].pending {
      StreamCb(ts[i], status, accepts);
    }
  }

  lemma LoopStep(ts: seq<Transfer>, signum: int, heedsSignal: bool, rounds: seq<Round>, k: nat, ts': seq<Transfer>, signum': int)
    requires k < |rounds| && !(heedsSignal && signum != 0) && (ts', signum') == Handle(ts, signum, rounds[k].events)
    ensures Loop(ts, signum, true, heedsSignal, rounds[k..])
         == if rounds[k].ok then Loop(ts', signum', AnySubmitted(ts'), heedsSignal, rounds[k + 1..])
            else LoopEnd(ts', signum', true, Broken)
  {
    assert rounds[k..][1..] == rounds[k + 1..];
  }

  lemma LoopStops(ts: seq<Transfer>, signum: int, submitted: bool, heedsSignal: bool, rounds: seq<Round>)
    ensures !submitted || (heedsSignal && signum != 0) ==>
              Loop(ts, signum, submitted, heedsSignal, rounds) == LoopEnd(ts, signum, submitted, Finished)
    ensures submitted && !(heedsSignal && signum != 0) ==>
              Loop(ts, signum, submitted, heedsSignal, []) == LoopEnd(ts, signum, submitted, Waiting)
  {
  }

  predicate AnyBefore(ts: seq<Transfer>, k: nat)
    requires k <= |ts|
  {
    exists i :: 0 <= i < k && ts[i].submitted
  }

  lemma CancelStep(ts: seq<Transfer>, cancels: seq<bool>, k: nat)
    requires k < |ts|
    ensures Cancel(ts, cancels, k)
         == if ts[k].submitted && !Answer(cancels, k) then
              Cancel(ts[k := ts[k].(submitted := false, cancelFailed := true)], cancels, k + 1)
            else Cancel(ts, cancels, k + 1)
    ensures AnyBefore(ts, k + 1) <==> AnyBefore(ts, k) || ts[k].submitted
    ensures AnyBefore(ts[k := ts[k].(submitted := false, cancelFailed := true)], k + 1) <==> AnyBefore(ts, k)
  {
    var next := ts[k := ts[k].(submitted := false, cancelFailed := true)];
    assert forall i :: 0 <= i < k ==> next[i] == ts[i];
  }

  lemma CancelEnds(ts: seq<Transfer>, cancels: seq<bool>)
    ensures Cancel(ts, cancels, |ts|) == ts && AnyBefore(ts, |ts|) == AnySubmitted(ts) && !AnyBefore(ts, 0)
  {
  }

  /** The first `k` transfers are marked, and no others. */
  predicate MarkedUpTo(ts: seq<Transfer>, k: nat) {
    forall i :: 0 <= i < |ts| ==> (ts[i].submitted <==> i < k)
  }

  lemma NoneMarked(ts: seq<Transfer>)
    requires !AnySubmitted(ts)
    ensures MarkedUpTo(ts, 0)
  {
  }

  lemma SubmitStep(ts: seq<Transfer>, accepts: seq<bool>, k: nat)
    requires k < |ts| && MarkedUpTo(ts, k)
    ensures var next := ts[k := ts[k].(submitted := true, inFlight := true)];
      && Submit(ts, accepts, k) == (if Answer(accepts, k) then Submit(next, accepts, k + 1) else (ts, false))
      && MarkedUpTo(next, k + 1)
    ensures AnySubmitted(ts) <==> k > 0
  {
    assert k > 0 ==> ts[0].submitted;
  }

  lemma SubmitEnds(ts: seq<Transfer>, accepts: seq<bool>)
    requires MarkedUpTo(ts, |ts|)
    ensures Submit(ts, accepts, |ts|) == (ts, true) && (AnySubmitted(ts) <==> |ts| > 0)
  {
    assert |ts| > 0 ==> ts[0].submitted;
  }

  lemma ViewAt(ts: seq<UsbTransfer>, ifs: seq<Iface>, k: nat)
    requires |ts| == |ifs| && Paired(ts, ifs) && k < |ts|
    ensures ts[k].user_data == ifs[k] && View(ts, ifs)[k].submitted == ifs[k].submitted
  {
  }

  lemma PairedData(ts: seq<UsbTransfer>, ifs: seq<Iface>)
    requires |ts| == |ifs| && Paired(ts, ifs)
    ensures forall i :: 0 <= i < |ts| ==> ts[i].user_data == ifs[i]
  {
  }

  /** The program between its signal handler and its event loops. */
  class Dumper {
    /** Number of the signal causing the exit. */
    var exit_signum: int

    /** No signal has been caught. */
    constructor ()
      ensures exit_signum == 0
    {
      exit_signum := 0;
    }

    /** `exit_sighandler`. */
    method ExitSighandler(signum: int)
      modifies this`exit_signum
      ensures exit_signum == Heard(old(exit_signum), signum)
    {
      if exit_signum == 0 {
        exit_signum := signum;
      }
    }

    /** What the library does in one `libusb_handle_events`. */
    method HandleEvents(ts: seq<UsbTransfer>, ghost ifs: seq<Iface>, events: seq<Event>)
      requires |ts| == |ifs| && Paired(ts, ifs)
      modifies this`exit_signum, All(ts)`pending, Members(ifs)`submitted
      ensures (View(ts, ifs), exit_signum) == Handle(old(View(ts, ifs)), old(exit_signum), events)
    {
      hide View, Fire, Paired;
      var k := 0;
      assert events[0..] == events;
      while k < |events|
        invariant 0 <= k <= |events| && |ts| == |ifs| && Paired(ts, ifs)
        invariant Handle(View(ts, ifs), exit_signum, events[k..]) == Handle(old(View(ts, ifs)), old(exit_signum), events)
      {
        assert events[k..][0] == events[k] && events[k..][1..] == events[k + 1..];
        match events[k] {
          case Signal(signum) => ExitSighandler(signum);
          case Callback(i, status, accepts) => CallBack(ts, ifs, i, status, accepts);
        }
        k := k + 1;
      }
    }

    /** The loop that looks for submitted transfers. */
    method AnyLeft(ts: seq<UsbTransfer>, ghost ifs: seq<Iface>) returns (submitted: bool)
      requires |ts| == |ifs| && Paired(ts, ifs)
      ensures submitted == AnySubmitted(View(ts, ifs))
    {
      submitted := false;
      var k := 0;
      while k < |ts|
        invariant 0 <= k <= |ts|
        invariant submitted <==> exists i :: 0 <= i < k && View(ts, ifs)[i].submitted
      {
        ViewAt(ts, ifs, k);
        var iface := ts[k].user_data;
        if iface != null && iface.submitted {
          submitted := true;
        }
        k := k + 1;
      }
    }

    /** The event loop and, not heeding the signal, the loop that waits for cancellation. */
    method EventLoop(ts: seq<UsbTransfer>, ghost ifs: seq<Iface>, start: bool, heedsSignal: bool, rounds: seq<Round>)
      returns (submitted: bool, why: Why)
      requires |ts| == |ifs| && Paired(ts, ifs)
      modifies this`exit_signum, All(ts)`pending, Members(ifs)`submitted
      ensures LoopEnd(View(ts, ifs), exit_signum, submitted, why)
           == Loop(old(View(ts, ifs)), old(exit_signum), start, heedsSignal, rounds)
    {
      hide View, Handle, AnySubmitted, Paired, Loop;
      submitted := start;
      var k := 0;
      assert rounds[0..] == rounds;
      while submitted && (!heedsSignal || exit_signum == 0)
        invariant 0 <= k <= |rounds| && |ts| == |ifs| && Paired(ts, ifs)
        invariant Loop(View(ts, ifs), exit_signum, submitted, heedsSignal, rounds[k..])
               == Loop(old(View(ts, ifs)), old(exit_signum), start, heedsSignal, rounds)
        decreases |rounds| - k
      {
        if k == |rounds| {
          assert rounds[k..] == [];
          LoopStops(View(ts, ifs), exit_signum, submitted, heedsSignal, []);
          return submitted, Waiting;
        }
        ghost var before, signum := View(ts, ifs), exit_signum;
        HandleEvents(ts, ifs, rounds[k].events);
        LoopStep(before, signum, heedsSignal, rounds, k, View(ts, ifs), exit_signum);
        if !rounds[k].ok {
          return submitted, Broken;
        }
        submitted := AnyLeft(ts, ifs);
        k := k + 1;
      }
      LoopStops(View(ts, ifs), exit_signum, submitted, heedsSignal, rounds[k..]);
      return submitted, Finished;
    }

    /** Submits the first requests; `accepts` are the library's answers. */
    method SubmitAll(ts: seq<UsbTransfer>, ghost ifs: seq<Iface>, accepts: seq<bool>) returns (submitted: bool, ok: bool)
      requires |ts| == |ifs| && Paired(ts, ifs) && !AnySubmitted(View(ts, ifs))
      modifies All(ts)`pending, Members(ifs)`submitted
      ensures (View(ts, ifs), ok) == Submit(old(View(ts, ifs)), accepts, 0)
      ensures submitted == AnySubmitted(View(ts, ifs))
    {
      hide Paired, View, Submit, AnySubmitted, Answer, MarkedUpTo;
      submitted, ok := false, true;
      var k := 0;
      NoneMarked(View(ts, ifs));
      while k < |ts|
        invariant 0 <= k <= |ts| == |ifs| && Paired(ts, ifs)
        invariant Submit(View(ts, ifs), accepts, k) == Submit(old(View(ts, ifs)), accepts, 0)
        invariant submitted == (k > 0) && MarkedUpTo(View(ts, ifs), k)
      {
        SubmitStep(View(ts, ifs), accepts, k);
        if !Answer(accepts, k) {
          return submitted, false;
        }
        Mark(ts, ifs, k, true);
        submitted := true;
        k := k + 1;
      }
      SubmitEnds(View(ts, ifs), accepts);
    }

    /** Cancels transfer `k` if it is submitted; `agrees` is the library's answer. */
    method CancelOne(ts: seq<UsbTransfer>, ghost ifs: seq<Iface>, k: nat, agrees: bool) returns (left: bool)
      requires |ts| == |ifs| && Paired(ts, ifs) && k < |ts|
      modifies All(ts)`cancelFailed, Members(ifs)`submitted
      ensures View(ts, ifs)
           == if old(View(ts, ifs))[k].submitted && !agrees then
                old(View(ts, ifs))[k := old(View(ts, ifs))[k].(submitted := false, cancelFailed := true)]
              else old(View(ts, ifs))
      ensures left == (old(View(ts, ifs))[k].submitted && agrees)
    {
      left := false;
      var iface := ts[k].user_data;
      if iface != null && iface.submitted {
        if agrees {
          left := true;
        } else {
          Unmark(ts, ifs, k);
        }
      }
    }

    /** Cancels what is submitted; `submitted` says whether anything is left to wait for. */
    method CancelAll(ts: seq<UsbTransfer>, ghost ifs: seq<Iface>, cancels: seq<bool>) returns (submitted: bool)
      requires |ts| == |ifs| && Paired(ts, ifs)
      modifies All(ts)`cancelFailed, Members(ifs)`submitted
      ensures View(ts, ifs) == Cancel(old(View(ts, ifs)), cancels, 0)
      ensures submitted == AnySubmitted(View(ts, ifs))
    {
      hide View, Paired, Cancel, AnyBefore, AnySubmitted, Answer;
      submitted := false;
      var k := 0;
      CancelEnds(View(ts, ifs), cancels);
      while k < |ts|
        invariant 0 <= k <= |ts| == |ifs| && Paired(ts, ifs)
        invariant Cancel(View(ts, ifs), cancels, k) == Cancel(old(View(ts, ifs)), cancels, 0)
        invariant submitted == AnyBefore(View(ts, ifs), k)
      {
        CancelStep(View(ts, ifs), cancels, k);
        var left := CancelOne(ts, ifs, k, Answer(cancels, k));
        submitted := submitted || left;
        k := k + 1;
      }
      CancelEnds(View(ts, ifs), cancels);
    }

    /** Frees what is not marked: the answer says of each transfer whether it was freed. */
    method FreeAll(ts: seq<UsbTransfer>, ghost ifs: seq<Iface>) returns (freed: seq<bool>)
      requires |ts| == |ifs|
      requires forall i :: 0 <= i < |ts| ==> ts[i].user_data == ifs[i] || (ts[i].user_data == null && !ifs[i].submitted)
      ensures freed == Freed(View(ts, ifs))
    {
      freed := [];
      var k := 0;
      while k < |ts|
        invariant 0 <= k <= |ts| && |freed| == k
        invariant forall i :: 0 <= i < k ==> freed[i] == !View(ts, ifs)[i].submitted
      {
        var iface := ts[k].user_data;
        freed := freed + [iface == null || !iface.submitted];
        k := k + 1;
      }
    }

    /** Everything behind the label `cleanup`. */
    method CleanUpAll(ts: seq<UsbTransfer>, ghost ifs: seq<Iface>, start: bool, result: bool, script: Script)
      returns (outcome: Outcome)
      requires |ts| == |ifs| && Paired(ts, ifs)
      modifies this`exit_signum, All(ts)`pending, All(ts)`cancelFailed, Members(ifs)`submitted
      ensures Run(View(ts, ifs), exit_signum, outcome) == CleanUp(old(View(ts, ifs)), old(exit_signum), start, result, script)
    {
      hide View, Paired, Cancel, Loop, AnySubmitted, Freed;
      var submitted := start;
      if submitted {
        submitted := CancelAll(ts, ifs, script.cancels);
      }
      var why;
      submitted, why := EventLoop(ts, ifs, submitted, false, script.waits);
      if why == Waiting {
        return Blocked;
      }
      PairedData(ts, ifs);
      var freed := FreeAll(ts, ifs);
      return Returned(result, freed);
    }

    /** Sets the report protocol and an infinite idle time on every interface. */
    method Prepare(list: Iface?, ghost ifs: seq<Iface>, protocols: seq<bool>) returns (ok: bool)
      requires Chain(list, ifs)
      ensures ok == AllAnswered(protocols, 2 * |ifs|)
    {
      var iface := list;
      var k := 0;
      while iface != null
        invariant 0 <= k <= |ifs| && Chain(iface, ifs[k..]) && AllAnswered(protocols, 2 * k)
        decreases |ifs| - k
      {
        if !Answer(protocols, 2 * k) {
          return false;
        }
        if !Answer(protocols, 2 * k + 1) {
          return false;
        }
        assert ifs[k..][1..] == ifs[k + 1..];
        iface := iface.next;
        k := k + 1;
      }
      return true;
    }

    /** Allocates the transfers, none of them belonging to an interface yet. */
    method Allocate(n: nat) returns (ts: seq<UsbTransfer>)
      ensures |ts| == n && (forall i, j :: 0 <= i < j < n ==> ts[i] != ts[j])
      ensures forall i :: 0 <= i < n ==> fresh(ts[i]) && ts[i].user_data == null && !ts[i].pending && !ts[i].cancelFailed
    {
      ts := [];
      while |ts| < n
        invariant |ts| <= n && (forall i, j :: 0 <= i < j < |ts| ==> ts[i] != ts[j])
        invariant forall i :: 0 <= i < |ts| ==> fresh(ts[i]) && ts[i].user_data == null && !ts[i].pending && !ts[i].cancelFailed
      {
        var t := new UsbTransfer();
        ts := ts + [t];
      }
    }

    /** Gives each transfer its interface, until a buffer cannot be allocated. */
    method Fill(list: Iface?, ghost ifs: seq<Iface>, ts: seq<UsbTransfer>, buffers: nat) returns (ok: bool)
      requires |ts| == |ifs| && Chain(list, ifs) && Distinct(ifs)
      requires forall i, j :: 0 <= i < j < |ts| ==> ts[i] != ts[j]
      requires forall i :: 0 <= i < |ts| ==> ts[i].user_data == null
      modifies All(ts)`user_data
      ensures ok <==> buffers >= |ts|
      ensures ok ==> Paired(ts, ifs)
      ensures forall i :: 0 <= i < |ts| ==> ts[i].user_data == ifs[i] || ts[i].user_data == null
    {
      var iface := list;
      var k := 0;
      while k < |ts|
        invariant 0 <= k <= |ts| && k <= buffers && Chain(iface, ifs[k..])
        invariant forall i :: 0 <= i < |ts| ==> ts[i].user_data == if i < k then ifs[i] else null
      {
        if k == buffers {
          return false;
        }
        assert ifs[k..][0] == ifs[k] && ifs[k..][1..] == ifs[k + 1..];
        ts[k].user_data := iface;
        iface := iface.next;
        k := k + 1;
      }
      return true;
    }

    /** As many transfers as interfaces, each belonging to its own if the buffers suffice. */
    method SetUp(list: Iface?, ghost ifs: seq<Iface>, buffers: nat) returns (ts: seq<UsbTransfer>, filled: bool)
      requires Chain(list, ifs) && Distinct(ifs) && forall i :: 0 <= i < |ifs| ==> !ifs[i].submitted
      ensures |ts| == |ifs| && fresh(All(ts)) && (filled <==> buffers >= |ts|)
      ensures View(ts, ifs) == seq(|ts|, _ => IDLE) && !AnySubmitted(View(ts, ifs))
      ensures filled ==> Paired(ts, ifs)
      ensures forall i :: 0 <= i < |ts| ==> ts[i].user_data == ifs[i] || (ts[i].user_data == null && !ifs[i].submitted)
    {
      hide Paired, Chain, Distinct, View;
      MembersExist(ifs);
      var n := ListLen(list, ifs);
      ts := Allocate(n);
      filled := Fill(list, ifs, ts, buffers);
      IdleView(ts, ifs);
    }

    /** `dump_iface_list_stream` of the interfaces `ifs` linked from `list`: the run the protocol
        describes.  `ts` are the transfers it allocated. */
    method DumpIfaceListStream(list: Iface?, ghost ifs: seq<Iface>, script: Script)
      returns (outcome: Outcome, ts: seq<UsbTransfer>)
      requires Chain(list, ifs) && Distinct(ifs) && exit_signum == script.early
      requires forall i :: 0 <= i < |ifs| ==> !ifs[i].submitted
      modifies this`exit_signum, Members(ifs)`submitted
      ensures outcome == Stream(|ifs|, script).outcome && exit_signum == Stream(|ifs|, script).signum
      ensures |ts| == |ifs| ==> View(ts, ifs) == Stream(|ifs|, script).ts
      ensures |ts| != |ifs| ==> Stream(|ifs|, script).ts == []
    {
      hide Work, Paired, AllAnswered, Chain, AnySubmitted, Freed, View, Distinct;
      var result := Prepare(list, ifs, script.protocols);
      if !result || !script.listOk {
        return Returned(false, []), [];
      }
      var filled;
      ts, filled := SetUp(list, ifs, script.buffers);
      if filled {
        outcome := RunAll(ts, ifs, script);
      } else {
        var freed := FreeAll(ts, ifs);
        outcome := Returned(false, freed);
      }
    }

    lemma IdleView(ts: seq<UsbTransfer>, ifs: seq<Iface>)
      requires |ts| == |ifs| && forall i :: 0 <= i < |ts| ==> !ts[i].pending && !ts[i].cancelFailed && !ifs[i].submitted
      ensures View(ts, ifs) == seq(|ts|, _ => IDLE) && !AnySubmitted(View(ts, ifs))
    {
    }

    /** Submission, the event machine and the clean-up. */
    method RunAll(ts: seq<UsbTransfer>, ghost ifs: seq<Iface>, script: Script) returns (outcome: Outcome)
      requires |ts| == |ifs| && Paired(ts, ifs) && !AnySubmitted(View(ts, ifs)) && exit_signum == script.early
      modifies this`exit_signum, All(ts)`pending, All(ts)`cancelFailed, Members(ifs)`submitted
      ensures Run(View(ts, ifs), exit_signum, outcome) == Work(old(View(ts, ifs)), script)
    {
      hide Cancel, Loop, CleanUp, Submit, Serve, Paired, View, AnySubmitted;
      var submitted, ok := SubmitAll(ts, ifs, script.accepts);
      if ok {
        outcome := RunMachine(ts, ifs, submitted, script);
      } else {
        outcome := CleanUpAll(ts, ifs, submitted, false, script);
      }
    }

    /** The event machine, and what is cleaned up after it. */
    method RunMachine(ts: seq<UsbTransfer>, ghost ifs: seq<Iface>, start: bool, script: Script) returns (outcome: Outcome)
      requires |ts| == |ifs| && Paired(ts, ifs) && |View(ts, ifs)| == |ts|
      modifies this`exit_signum, All(ts)`pending, All(ts)`cancelFailed, Members(ifs)`submitted
      ensures Run(View(ts, ifs), exit_signum, outcome) == Serve(old(View(ts, ifs)), old(exit_signum), start, script)
    {
      hide Cancel, Loop, CleanUp, Paired, View;
      var submitted, why := EventLoop(ts, ifs, start, true, script.rounds);
      if why == Waiting {
        return Blocked;
      }
      outcome := CleanUpAll(ts, ifs, submitted, why == Finished && (|ts| == 0 || submitted), script);
    }
  }
}
