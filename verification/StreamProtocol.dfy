/** The life of the interrupt transfers of a stream dump, seen from the program and from the
    library: submission, completion, resubmission, cancellation and release. */
module StreamProtocol {

  datatype Status = Completed | Failed | TimedOut | Stalled | NoDevice | Overflow | Cancelled

  /** What can happen while the library handles events: it calls back for a transfer in flight
      (and accepts or refuses it again), or a signal arrives. */
  datatype Event = Callback(i: nat, status: Status, accepts: bool) | Signal(signum: int)

  /** One `libusb_handle_events`; `ok` is success or interruption. */
  datatype Round = Round(events: seq<Event>, ok: bool)

  /** A transfer: the flag of its interface, whether the library holds it, and whether
      cancelling it ever failed. */
  datatype Transfer = Transfer(submitted: bool, inFlight: bool, cancelFailed: bool)

  /** Everything the library, the allocator and the user decide. */
  datatype Script = Script(
    protocols: seq<bool>, listOk: bool, buffers: nat, accepts: seq<bool>, early: int,
    rounds: seq<Round>, cancels: seq<bool>, waits: seq<Round>)

  const IDLE := Transfer(false, false, false)

  /** Answer `i` of the library; it agrees to what the script does not mention. */
  predicate Answer(answers: seq<bool>, i: nat) { i < |answers| ==> answers[i] }

  predicate AnySubmitted(ts: seq<Transfer>) { exists i :: 0 <= i < |ts| && ts[i].submitted }

  /** The library agrees to all of the first `n` requests. */
  predicate AllAnswered(answers: seq<bool>, n: nat) { forall i :: 0 <= i < n ==> Answer(answers, i) }

  // ---- Steps ----

  /** The callback for transfer `i`; the library makes one only for a transfer it holds. */
  function Fire(ts: seq<Transfer>, i: nat, status: Status, accepts: bool): seq<Transfer> {
    if i < |ts| && ts[i].inFlight then
      var again := status == Completed && accepts;
      ts[i := ts[i].(submitted := again, inFlight := again)]
    else ts
  }

  /** The handler keeps the first signal. */
  function Heard(signum: int, s: int): int { if signum == 0 then s else signum }

  function Handle(ts: seq<Transfer>, signum: int, events: seq<Event>): (seq<Transfer>, int)
    decreases |events|
  {
    if |events| == 0 then (ts, signum)
    else match events[0]
      case Callback(i, status, accepts) => Handle(Fire(ts, i, status, accepts), signum, events[1..])
      case Signal(s) => Handle(ts, Heard(signum, s), events[1..])
  }

  /** Why an event loop ended; `Waiting` means it has not, the script being over. */
  datatype Why = Finished | Broken | Waiting

  datatype LoopEnd = LoopEnd(ts: seq<Transfer>, signum: int, submitted: bool, why: Why)

  /** The two event loops; the first one also stops for a signal. */
  function Loop(ts: seq<Transfer>, signum: int, submitted: bool, heedsSignal: bool, rounds: seq<Round>): LoopEnd
    decreases |rounds|
  {
    if !submitted || (heedsSignal && signum != 0) then LoopEnd(ts, signum, submitted, Finished)
    else if |rounds| == 0 then LoopEnd(ts, signum, submitted, Waiting)
    else
      var (ts', signum') := Handle(ts, signum, rounds[0].events);
      if !rounds[0].ok then LoopEnd(ts', signum', submitted, Broken)
      else Loop(ts', signum', AnySubmitted(ts'), heedsSignal, rounds[1..])
  }

  /** Submits the transfers from `k` on until one is refused. */
  function Submit(ts: seq<Transfer>, accepts: seq<bool>, k: nat): (seq<Transfer>, bool)
    requires k <= |ts|
    decreases |ts| - k
  {
    if k == |ts| then (ts, true)
    else if Answer(accepts, k) then
      Submit(ts[k := ts[k].(submitted := true, inFlight := true)], accepts, k + 1)
    else (ts, false)
  }

  /** Cancels the submitted transfers from `k` on; a refusal clears the flag regardless. */
  function Cancel(ts: seq<Transfer>, cancels: seq<bool>, k: nat): seq<Transfer>
    requires k <= |ts|
    decreases |ts| - k
  {
    if k == |ts| then ts
    else if ts[k].submitted && !Answer(cancels, k) then
      Cancel(ts[k := ts[k].(submitted := false, cancelFailed := true)], cancels, k + 1)
    else Cancel(ts, cancels, k + 1)
  }

  // ---- The whole stream ----

  datatype Outcome = Returned(result: bool, freed: seq<bool>) | Blocked

  datatype Run = Run(ts: seq<Transfer>, signum: int, outcome: Outcome)

  /** What the clean-up frees: every transfer whose interface is not marked. */
  function Freed(ts: seq<Transfer>): seq<bool> { seq(|ts|, i requires 0 <= i < |ts| => !ts[i].submitted) }

  /** Cancelling what is marked, waiting for it, and freeing the rest. */
  function CleanUp(ts: seq<Transfer>, signum: int, submitted: bool, result: bool, script: Script): Run {
    var cancelled := if submitted then Cancel(ts, script.cancels, 0) else ts;
    var end := Loop(cancelled, signum, submitted && AnySubmitted(cancelled), false, script.waits);
    Run(end.ts, end.signum, if end.why == Waiting then Blocked else Returned(result, Freed(end.ts)))
  }

  /** The event machine and the clean-up after it. */
  function Serve(ts: seq<Transfer>, signum: int, submitted: bool, script: Script): Run {
    var end := Loop(ts, signum, submitted, true, script.rounds);
    if end.why == Waiting then Run(end.ts, end.signum, Blocked)
    else CleanUp(end.ts, end.signum, end.submitted, end.why == Finished && (|ts| == 0 || end.submitted), script)
  }

  /** From the first submission on. */
  function Work(ts: seq<Transfer>, script: Script): Run {
    var (ts', accepted) := Submit(ts, script.accepts, 0);
    if accepted then Serve(ts', script.early, AnySubmitted(ts'), script)
    else CleanUp(ts', script.early, AnySubmitted(ts'), false, script)
  }

  function Stream(n: nat, script: Script): Run {
    var idle := seq(n, _ => IDLE);
    if !AllAnswered(script.protocols, 2 * n) || !script.listOk then Run([], script.early, Returned(false, []))
    else if script.buffers < n then Run(idle, script.early, Returned(false, Freed(idle)))
    else Work(idle, script)
  }

  // ---- Safety ----

  /** A marked transfer is in flight; one in flight without a mark could not be cancelled,
      which only happens when the library refuses. */
  predicate Safe(ts: seq<Transfer>, cancels: seq<bool>) {
    forall i :: 0 <= i < |ts| ==>
      && (ts[i].submitted ==> ts[i].inFlight)
      && (ts[i].inFlight && !ts[i].submitted ==> ts[i].cancelFailed)
      && (ts[i].cancelFailed ==> !Answer(cancels, i))
  }

  predicate AllOk(rounds: seq<Round>) { forall i :: 0 <= i < |rounds| ==> rounds[i].ok }

  lemma {:induction false} HandleKeepsSafe(ts: seq<Transfer>, signum: int, events: seq<Event>, cancels: seq<bool>)
    requires Safe(ts, cancels)
    ensures Safe(Handle(ts, signum, events).0, cancels) && |Handle(ts, signum, events).0| == |ts|
    ensures signum != 0 ==> Handle(ts, signum, events).1 == signum
    decreases |events|
  {
    if |events| > 0 {
      match events[0] {
        case Callback(i, status, accepts) => HandleKeepsSafe(Fire(ts, i, status, accepts), signum, events[1..], cancels);
        case Signal(s) => HandleKeepsSafe(ts, Heard(signum, s), events[1..], cancels);
      }
    }
  }

  lemma {:induction false} LoopKeepsSafe(
      ts: seq<Transfer>, signum: int, submitted: bool, heedsSignal: bool, rounds: seq<Round>, cancels: seq<bool>)
    requires Safe(ts, cancels) && submitted == AnySubmitted(ts)
    ensures var end := Loop(ts, signum, submitted, heedsSignal, rounds);
      && Safe(end.ts, cancels) && |end.ts| == |ts| && (signum != 0 ==> end.signum == signum)
      && (end.why == Finished ==> end.submitted == AnySubmitted(end.ts))
      && (end.why == Finished && end.submitted ==> heedsSignal && end.signum != 0)
      && (end.why == Broken ==> end.submitted && !AllOk(rounds))
    decreases |rounds|
  {
    if submitted && !(heedsSignal && signum != 0) && |rounds| > 0 {
      HandleKeepsSafe(ts, signum, rounds[0].events, cancels);
      var (ts', signum') := Handle(ts, signum, rounds[0].events);
      if rounds[0].ok {
        LoopKeepsSafe(ts', signum', AnySubmitted(ts'), heedsSignal, rounds[1..], cancels);
      }
    }
  }

  lemma {:induction false} SubmitIsSafe(ts: seq<Transfer>, accepts: seq<bool>, k: nat, cancels: seq<bool>)
    requires k <= |ts| && Safe(ts, cancels)
    requires forall i :: 0 <= i < |ts| ==> (ts[i].submitted <==> i < k)
    ensures var (ts', accepted) := Submit(ts, accepts, k);
      && Safe(ts', cancels) && |ts'| == |ts|
      && (accepted ==> forall i :: 0 <= i < |ts| ==> ts'[i].submitted)
      && (accepted <==> forall i :: k <= i < |ts| ==> Answer(accepts, i))
      && (forall i :: 0 <= i < |ts| ==> (ts'[i].submitted <==> forall j :: k <= j <= i ==> Answer(accepts, j)))
      && (forall i :: 0 <= i < |ts| ==> (ts'[i].inFlight <==> ts[i].inFlight || ts'[i].submitted))
    decreases |ts| - k
  {
    if k < |ts| && Answer(accepts, k) {
      SubmitIsSafe(ts[k := ts[k].(submitted := true, inFlight := true)], accepts, k + 1, cancels);
    }
  }

  lemma {:induction false} CancelKeepsSafe(ts: seq<Transfer>, cancels: seq<bool>, k: nat)
    requires k <= |ts| && Safe(ts, cancels)
    ensures var ts' := Cancel(ts, cancels, k);
      && Safe(ts', cancels) && |ts'| == |ts|
      && (forall i :: 0 <= i < |ts| ==> ts'[i].inFlight == ts[i].inFlight)
      && (forall i :: 0 <= i < |ts| ==> (ts'[i].submitted <==> ts[i].submitted && (i >= k ==> Answer(cancels, i))))
    decreases |ts| - k
  {
    if k < |ts| {
      if ts[k].submitted && !Answer(cancels, k) {
        CancelKeepsSafe(ts[k := ts[k].(submitted := false, cancelFailed := true)], cancels, k + 1);
      } else {
        CancelKeepsSafe(ts, cancels, k + 1);
      }
    }
  }

  lemma CleanUpIsSafe(ts: seq<Transfer>, signum: int, submitted: bool, result: bool, script: Script)
    requires Safe(ts, script.cancels) && (AnySubmitted(ts) ==> submitted)
    ensures var r := CleanUp(ts, signum, submitted, result, script);
      && Safe(r.ts, script.cancels) && |r.ts| == |ts|
      && (r.outcome.Returned? ==> r.outcome == Returned(result, Freed(r.ts)))
      && (r.outcome.Returned? && AllOk(script.waits) ==> !AnySubmitted(r.ts))
      && (signum != 0 ==> r.signum == signum)
  {
    CancelKeepsSafe(ts, script.cancels, 0);
    var cancelled := if submitted then Cancel(ts, script.cancels, 0) else ts;
    LoopKeepsSafe(cancelled, signum, submitted && AnySubmitted(cancelled), false, script.waits, script.cancels);
  }

  lemma IdleIsSafe(n: nat, cancels: seq<bool>)
    ensures Safe(seq(n, _ => IDLE), cancels) && !AnySubmitted(seq(n, _ => IDLE))
  {
  }

  /** What a finished run guarantees about its transfers. */
  predicate FreedRightly(r: Run, script: Script)
    requires r.outcome.Returned?
  {
    && |r.outcome.freed| == |r.ts|
    && (forall i :: 0 <= i < |r.ts| ==>
          && (r.outcome.freed[i] && r.ts[i].inFlight ==> r.ts[i].cancelFailed && !Answer(script.cancels, i))
          && (!r.outcome.freed[i] ==> r.ts[i].inFlight && !AllOk(script.waits)))
  }

  /** Whatever the library answers and whenever it calls back: the transfers are safe wherever
      the run stands; a transfer freed in flight is one the library refused to cancel; a
      transfer kept is in flight, and that only after the library failed to handle events; and
      success means that a signal asked for the end or that there was nothing to dump. */
  lemma StreamIsSafe(n: nat, script: Script)
    ensures var r := Stream(n, script);
      && Safe(r.ts, script.cancels) && |r.ts| <= n
      && (r.outcome.Returned? ==> FreedRightly(r, script) && (r.outcome.result ==> n == 0 || r.signum != 0))
  {
    hide Loop, Submit, CleanUp, Cancel;
    IdleIsSafe(n, script.cancels);
    var idle := seq(n, _ => IDLE);
    if AllAnswered(script.protocols, 2 * n) && script.listOk && script.buffers >= n {
      SubmitIsSafe(idle, script.accepts, 0, script.cancels);
      var (ts, accepted) := Submit(idle, script.accepts, 0);
      if !accepted {
        CleanUpIsSafe(ts, script.early, AnySubmitted(ts), false, script);
      } else {
        LoopKeepsSafe(ts, script.early, AnySubmitted(ts), true, script.rounds, script.cancels);
        var end := Loop(ts, script.early, AnySubmitted(ts), true, script.rounds);
        if end.why != Waiting {
          CleanUpIsSafe(end.ts, end.signum, end.submitted, end.why == Finished && (n == 0 || end.submitted), script);
        }
      }
    }
  }

  // ---- When the stream succeeds ----

  /** The events of the first `k` rounds. */
  function Flat(rounds: seq<Round>, k: nat): seq<Event>
    requires k <= |rounds|
  {
    if k == 0 then [] else Flat(rounds, k - 1) + rounds[k - 1].events
  }

  /** No event ends transfer `i`: whenever it is called back, it has completed and is accepted
      again. */
  predicate Alive(events: seq<Event>, i: nat) {
    forall e :: e in events && e.Callback? && e.i == i ==> e.status == Completed && e.accepts
  }

  /** A signal has been caught, before the events or among them. */
  predicate Signalled(early: int, events: seq<Event>) {
    early != 0 || exists e :: e in events && e.Signal? && e.signum != 0
  }

  /** Exactly the marked transfers are in flight. */
  predicate InStep(ts: seq<Transfer>) { forall i :: 0 <= i < |ts| ==> ts[i].submitted == ts[i].inFlight }

  predicate AnyAlive(ts: seq<Transfer>, events: seq<Event>) {
    exists i :: 0 <= i < |ts| && ts[i].submitted && Alive(events, i)
  }

  lemma FireIs(ts: seq<Transfer>, i: nat, status: Status, accepts: bool, rest: seq<Event>)
    requires InStep(ts)
    ensures var ts' := Fire(ts, i, status, accepts);
      && InStep(ts') && |ts'| == |ts|
      && forall j :: 0 <= j < |ts| ==>
           (ts'[j].submitted && Alive(rest, j) <==> ts[j].submitted && Alive([Callback(i, status, accepts)] + rest, j))
  {
    var e := Callback(i, status, accepts);
    forall j | 0 <= j < |ts|
      ensures Alive([e] + rest, j) <==> Alive(rest, j) && (j == i ==> status == Completed && accepts)
    {
      AliveCons(e, rest, j);
    }
  }

  lemma AliveCons(e: Event, rest: seq<Event>, i: nat)
    ensures Alive([e] + rest, i) <==> Alive(rest, i) && (e.Callback? && e.i == i ==> e.status == Completed && e.accepts)
  {
    assert e in [e] + rest;
    assert forall x :: x in [e] + rest <==> x == e || x in rest;
  }

  lemma SignalledCons(early: int, e: Event, rest: seq<Event>)
    ensures Signalled(early, [e] + rest) <==> Signalled(early, rest) || (e.Signal? && e.signum != 0)
  {
    assert e in [e] + rest;
    assert forall x :: x in [e] + rest <==> x == e || x in rest;
  }

  lemma HandleStep(ts: seq<Transfer>, signum: int, e: Event, rest: seq<Event>)
    ensures Handle(ts, signum, [e] + rest)
         == Handle(if e.Callback? then Fire(ts, e.i, e.status, e.accepts) else ts,
                   if e.Signal? then Heard(signum, e.signum) else signum, rest)
  {
    assert ([e] + rest)[1..] == rest;
  }

  /** What a batch of events does: a transfer stays marked if no event ends it, and a signal is
      known of afterwards if one was before or is among them. */
  lemma {:induction false} HandleIs(ts: seq<Transfer>, signum: int, events: seq<Event>)
    requires InStep(ts)
    ensures var (ts', signum') := Handle(ts, signum, events);
      && InStep(ts') && |ts'| == |ts|
      && (forall i :: 0 <= i < |ts| ==> (ts'[i].submitted <==> ts[i].submitted && Alive(events, i)))
      && (signum' != 0 <==> Signalled(signum, events))
    decreases |events|
  {
    hide Handle, Fire, Alive, Signalled;
    if |events| == 0 {
      NothingHandled(ts, signum);
    } else {
      var e, rest := events[0], events[1..];
      assert events == [e] + rest;
      SignalledCons(signum, e, rest);
      HandleStep(ts, signum, e, rest);
      match e {
        case Callback(i, status, accepts) =>
          FireIs(ts, i, status, accepts, rest);
          HandleIs(Fire(ts, i, status, accepts), signum, rest);
        case Signal(heard) =>
          forall i | 0 <= i < |ts| ensures Alive(events, i) <==> Alive(rest, i) { AliveCons(e, rest, i); }
          HandleIs(ts, Heard(signum, heard), rest);
          HeardIs(signum, heard, rest);
      }
    }
  }

  lemma NothingHandled(ts: seq<Transfer>, signum: int)
    ensures Handle(ts, signum, []) == (ts, signum)
    ensures (forall i :: Alive([], i)) && (Signalled(signum, []) <==> signum != 0)
  {
  }

  lemma HeardIs(signum: int, s: int, rest: seq<Event>)
    ensures Signalled(Heard(signum, s), rest) <==> Signalled(signum, [Signal(s)] + rest)
  {
    SignalledCons(signum, Signal(s), rest);
  }

  /** Event `j` is the first signal. */
  predicate FirstSignal(events: seq<Event>, j: nat)
    requires j < |events|
  {
    events[j].Signal? && events[j].signum != 0
    && forall i :: 0 <= i < j && events[i].Signal? ==> events[i].signum == 0
  }

  /** The handler keeps the first signal. */
  lemma {:induction false} FirstIsKept(ts: seq<Transfer>, signum: int, events: seq<Event>)
    ensures signum != 0 ==> Handle(ts, signum, events).1 == signum
    ensures forall j :: 0 <= j < |events| && signum == 0 && FirstSignal(events, j) ==>
              Handle(ts, signum, events).1 == events[j].signum
    decreases |events|
  {
    hide Handle, Fire;
    if |events| == 0 {
      NothingHandled(ts, signum);
    } else {
      var e, rest := events[0], events[1..];
      assert events == [e] + rest;
      HandleStep(ts, signum, e, rest);
      FirstIsKept(
        if e.Callback? then Fire(ts, e.i, e.status, e.accepts) else ts,
        if e.Signal? then Heard(signum, e.signum) else signum, rest);
      forall j | 0 < j < |events| && FirstSignal(events, j) ensures FirstSignal(rest, j - 1) && rest[j - 1] == events[j] {
        forall i | 0 <= i < j - 1 && rest[i].Signal? ensures rest[i].signum == 0 {
          assert rest[i] == events[i + 1];
        }
      }
    }
  }

  lemma {:induction false} FlatCons(rounds: seq<Round>, k: nat)
    requires 0 < k <= |rounds|
    ensures Flat(rounds, k) == rounds[0].events + Flat(rounds[1..], k - 1)
  {
    if k > 1 {
      FlatCons(rounds, k - 1);
      assert rounds[k - 1] == rounds[1..][k - 2];
    }
  }

  lemma EventsJoin(early: int, a: seq<Event>, b: seq<Event>)
    ensures Signalled(early, a + b) <==> Signalled(early, a) || Signalled(0, b)
    ensures forall i :: Alive(a + b, i) <==> Alive(a, i) && Alive(b, i)
  {
    assert forall x :: x in a + b <==> x in a || x in b;
  }

  /** After `k` rounds, none of which failed, a signal has been caught and a transfer is marked. */
  predicate Interrupted(ts: seq<Transfer>, signum: int, rounds: seq<Round>, k: nat)
    requires k <= |rounds|
  {
    AllOk(rounds[..k]) && Signalled(signum, Flat(rounds, k)) && AnyAlive(ts, Flat(rounds, k))
  }

  lemma InterruptedTail(ts: seq<Transfer>, signum: int, rounds: seq<Round>, ts': seq<Transfer>, signum': int, k: nat)
    requires 0 < k <= |rounds| && rounds[0].ok && InStep(ts) && (ts', signum') == Handle(ts, signum, rounds[0].events)
    ensures Interrupted(ts, signum, rounds, k) <==> Interrupted(ts', signum', rounds[1..], k - 1)
    ensures Signalled(signum, Flat(rounds, k)) <==> Signalled(signum', Flat(rounds[1..], k - 1))
    ensures AnyAlive(ts, Flat(rounds, k)) <==> AnyAlive(ts', Flat(rounds[1..], k - 1))
  {
    hide Alive, Signalled, Handle, Flat;
    HandleIs(ts, signum, rounds[0].events);
    FlatCons(rounds, k);
    var first, rest := rounds[0].events, Flat(rounds[1..], k - 1);
    EventsJoin(signum, first, rest);
    SignalledLater(signum, signum', first, rest);
    OkTail(rounds, k);
    assert forall i :: 0 <= i < |ts| ==>
      (ts[i].submitted && Alive(first + rest, i) <==> ts'[i].submitted && Alive(rest, i));
  }

  lemma SignalledLater(signum: int, signum': int, first: seq<Event>, rest: seq<Event>)
    requires signum' != 0 <==> Signalled(signum, first)
    ensures Signalled(signum', rest) <==> Signalled(signum, first) || Signalled(0, rest)
  {
  }

  lemma OkTail(rounds: seq<Round>, k: nat)
    requires 0 < k <= |rounds| && rounds[0].ok
    ensures AllOk(rounds[..k]) <==> AllOk(rounds[1..][..k - 1])
  {
    var a, b := rounds[..k], rounds[1..][..k - 1];
    assert forall i :: 0 < i < k ==> a[i] == b[i - 1];
    assert a[0] == rounds[0];
    if AllOk(b) {
      forall i | 0 <= i < |a| ensures a[i].ok {
        assert i > 0 ==> b[i - 1].ok;
      }
    }
    if AllOk(a) {
      forall i | 0 <= i < |b| ensures b[i].ok {
        assert a[i + 1].ok;
      }
    }
  }

  lemma NothingFlat(ts: seq<Transfer>, signum: int, rounds: seq<Round>)
    ensures Flat(rounds, 0) == [] && AllOk(rounds[..0])
    ensures Signalled(signum, []) <==> signum != 0
    ensures AnyAlive(ts, []) <==> AnySubmitted(ts)
  {
    assert forall i: nat :: Alive([], i);
  }

  lemma {:induction false} HandleJoin(ts: seq<Transfer>, signum: int, a: seq<Event>, b: seq<Event>)
    ensures var (ts', signum') := Handle(ts, signum, a); Handle(ts, signum, a + b) == Handle(ts', signum', b)
    decreases |a|
  {
    hide Handle, Fire;
    if |a| == 0 {
      NothingHandled(ts, signum);
      assert a + b == b && a == [];
    } else {
      var e, rest := a[0], a[1..];
      assert a == [e] + rest && a + b == [e] + (rest + b);
      HandleStep(ts, signum, e, rest);
      HandleStep(ts, signum, e, rest + b);
      HandleJoin(if e.Callback? then Fire(ts, e.i, e.status, e.accepts) else ts,
        if e.Signal? then Heard(signum, e.signum) else signum, rest, b);
    }
  }

  /** The loop stops after `k` rounds: nothing is marked, or a signal it heeds has been caught. */
  predicate StopsAfter(ts: seq<Transfer>, signum: int, submitted: bool, heedsSignal: bool, rounds: seq<Round>, k: nat)
    requires k <= |rounds|
  {
    var (ts', signum') := Handle(ts, signum, Flat(rounds, k));
    !(if k == 0 then submitted else AnySubmitted(ts')) || (heedsSignal && signum' != 0)
  }

  /** It has handled the events of exactly `k` rounds, of which none but the last can have failed,
      and ends for the first reason there is. */
  ghost predicate RunsFor(ts: seq<Transfer>, signum: int, submitted: bool, heedsSignal: bool, rounds: seq<Round>, end: LoopEnd, k: nat) {
    && k <= |rounds|
    && (end.ts, end.signum) == Handle(ts, signum, Flat(rounds, k))
    && end.submitted == (end.why != Finished || if k == 0 then submitted else AnySubmitted(end.ts))
    && (forall m: nat :: m < k ==> !StopsAfter(ts, signum, submitted, heedsSignal, rounds, m))
    && (forall m: nat :: m + 1 < k ==> rounds[m].ok)
    && match end.why
       case Broken => k > 0 && !rounds[k - 1].ok
       case Finished => (k > 0 ==> rounds[k - 1].ok) && StopsAfter(ts, signum, submitted, heedsSignal, rounds, k)
       case Waiting => (k > 0 ==> rounds[k - 1].ok) && k == |rounds| && !StopsAfter(ts, signum, submitted, heedsSignal, rounds, k)
  }

  lemma StopsLater(
      ts: seq<Transfer>, signum: int, submitted: bool, heedsSignal: bool, rounds: seq<Round>, k: nat, ts': seq<Transfer>, signum': int)
    requires 0 < k <= |rounds| && (ts', signum') == Handle(ts, signum, rounds[0].events)
    ensures Handle(ts, signum, Flat(rounds, k)) == Handle(ts', signum', Flat(rounds[1..], k - 1))
    ensures StopsAfter(ts, signum, submitted, heedsSignal, rounds, k)
       <==> StopsAfter(ts', signum', AnySubmitted(ts'), heedsSignal, rounds[1..], k - 1)
  {
    hide Handle, AnySubmitted;
    FlatCons(rounds, k);
    HandleJoin(ts, signum, rounds[0].events, Flat(rounds[1..], k - 1));
    NothingHandled(ts', signum');
  }

  lemma StopsFirst(ts: seq<Transfer>, signum: int, submitted: bool, heedsSignal: bool, rounds: seq<Round>)
    ensures Handle(ts, signum, Flat(rounds, 0)) == (ts, signum)
    ensures StopsAfter(ts, signum, submitted, heedsSignal, rounds, 0) <==> !submitted || (heedsSignal && signum != 0)
  {
  }

  /** The event loops, without the recursion. */
  lemma {:induction false} LoopRuns(ts: seq<Transfer>, signum: int, submitted: bool, heedsSignal: bool, rounds: seq<Round>)
    ensures exists k: nat ::
              RunsFor(ts, signum, submitted, heedsSignal, rounds, Loop(ts, signum, submitted, heedsSignal, rounds), k)
    decreases |rounds|
  {
    hide Handle, AnySubmitted, StopsAfter, Flat;
    StopsFirst(ts, signum, submitted, heedsSignal, rounds);
    var end := Loop(ts, signum, submitted, heedsSignal, rounds);
    if !submitted || (heedsSignal && signum != 0) || |rounds| == 0 {
      assert RunsFor(ts, signum, submitted, heedsSignal, rounds, end, 0);
    } else {
      var (ts', signum') := Handle(ts, signum, rounds[0].events);
      if !rounds[0].ok {
        StopsLater(ts, signum, submitted, heedsSignal, rounds, 1, ts', signum');
        StopsFirst(ts', signum', AnySubmitted(ts'), heedsSignal, rounds[1..]);
        assert RunsFor(ts, signum, submitted, heedsSignal, rounds, end, 1);
      } else {
        LoopRuns(ts', signum', AnySubmitted(ts'), heedsSignal, rounds[1..]);
        var k: nat :| RunsFor(ts', signum', AnySubmitted(ts'), heedsSignal, rounds[1..], end, k);
        RunsLater(ts, signum, submitted, heedsSignal, rounds, end, k, ts', signum');
      }
    }
  }

  lemma RunsLater(
      ts: seq<Transfer>, signum: int, submitted: bool, heedsSignal: bool, rounds: seq<Round>, end: LoopEnd, k: nat,
      ts': seq<Transfer>, signum': int)
    requires |rounds| > 0 && rounds[0].ok && (ts', signum') == Handle(ts, signum, rounds[0].events)
    requires !StopsAfter(ts, signum, submitted, heedsSignal, rounds, 0)
    requires RunsFor(ts', signum', AnySubmitted(ts'), heedsSignal, rounds[1..], end, k)
    ensures RunsFor(ts, signum, submitted, heedsSignal, rounds, end, k + 1)
  {
    hide Handle, AnySubmitted, StopsAfter, Flat;
    StopsLater(ts, signum, submitted, heedsSignal, rounds, k + 1, ts', signum');
    StopsFirst(ts', signum', AnySubmitted(ts'), heedsSignal, rounds[1..]);
    forall m: nat | m < k + 1 ensures !StopsAfter(ts, signum, submitted, heedsSignal, rounds, m) {
      if m > 0 {
        StopsLater(ts, signum, submitted, heedsSignal, rounds, m, ts', signum');
        assert !StopsAfter(ts', signum', AnySubmitted(ts'), heedsSignal, rounds[1..], m - 1);
      }
    }
    forall m: nat | m + 1 < k + 1 ensures rounds[m].ok {
      assert m > 0 ==> rounds[m] == rounds[1..][m - 1];
    }
    assert k > 0 ==> rounds[k] == rounds[1..][k - 1];
  }

  /** The event loop ends with a transfer still marked exactly when, after some round, a signal has
      been caught while a transfer is marked. */
  lemma {:induction false} LoopIs(ts: seq<Transfer>, signum: int, rounds: seq<Round>)
    requires InStep(ts)
    ensures var end := Loop(ts, signum, AnySubmitted(ts), true, rounds);
      end.why == Finished && end.submitted <==> exists k: nat :: k <= |rounds| && Interrupted(ts, signum, rounds, k)
    ensures Loop(ts, signum, AnySubmitted(ts), true, rounds).why == Waiting <==>
              AllOk(rounds) && !Signalled(signum, Flat(rounds, |rounds|)) && AnyAlive(ts, Flat(rounds, |rounds|))
    decreases |rounds|
  {
    hide Alive, Signalled, Handle, Flat, AnyAlive, AllOk, AnySubmitted;
    NothingFlat(ts, signum, rounds);
    if !AnySubmitted(ts) {
      NoneAlive(ts, rounds);
    } else if signum != 0 {
      assert Interrupted(ts, signum, rounds, 0);
      SignalStays(signum, Flat(rounds, |rounds|));
    } else if |rounds| == 0 {
      assert rounds[..0] == rounds;
    } else if !rounds[0].ok {
      BrokenFirst(rounds);
    } else {
      var (ts', signum') := Handle(ts, signum, rounds[0].events);
      HandleIs(ts, signum, rounds[0].events);
      LoopIs(ts', signum', rounds[1..]);
      forall k: nat | 0 < k <= |rounds|
        ensures Interrupted(ts, signum, rounds, k) <==> Interrupted(ts', signum', rounds[1..], k - 1)
      {
        InterruptedTail(ts, signum, rounds, ts', signum', k);
      }
      InterruptedTail(ts, signum, rounds, ts', signum', |rounds|);
      OkTail(rounds, |rounds|);
      assert rounds[..|rounds|] == rounds && rounds[1..][..|rounds| - 1] == rounds[1..];
      if k: nat :| k <= |rounds[1..]| && Interrupted(ts', signum', rounds[1..], k) {
        assert Interrupted(ts, signum, rounds, k + 1);
      }
    }
  }

  lemma NoneAlive(ts: seq<Transfer>, rounds: seq<Round>)
    requires !AnySubmitted(ts)
    ensures forall events :: !AnyAlive(ts, events)
  {
  }

  lemma SignalStays(signum: int, events: seq<Event>)
    requires signum != 0
    ensures Signalled(signum, events)
  {
  }

  lemma BrokenFirst(rounds: seq<Round>)
    requires |rounds| > 0 && !rounds[0].ok
    ensures !AllOk(rounds) && forall k :: 0 < k <= |rounds| ==> !AllOk(rounds[..k])
  {
    forall k | 0 < k <= |rounds| ensures !AllOk(rounds[..k]) {
      assert rounds[..k][0] == rounds[0];
    }
  }

  /** Everything the dump needs has been granted. */
  predicate Granted(n: nat, script: Script) {
    && AllAnswered(script.protocols, 2 * n) && script.listOk && script.buffers >= n && AllAnswered(script.accepts, n)
  }

  /** A run that returns has succeeded if and only if everything was granted and there was nothing
      to dump or, after some round before which none failed, a signal had been caught while no
      event had ended every transfer. */
  lemma SucceedsExactly(n: nat, script: Script)
    ensures var r := Stream(n, script);
      r.outcome.Returned? ==>
        (r.outcome.result <==>
           && Granted(n, script)
           && (n == 0
               || exists k: nat :: k <= |script.rounds|
                    && AllOk(script.rounds[..k]) && Signalled(script.early, Flat(script.rounds, k))
                    && exists i: nat :: i < n && Alive(Flat(script.rounds, k), i)))
    ensures Granted(n, script) && AllOk(script.rounds) && !Signalled(script.early, Flat(script.rounds, |script.rounds|))
            && (exists i: nat :: i < n && Alive(Flat(script.rounds, |script.rounds|), i)) ==>
              Stream(n, script).outcome.Blocked?
  {
    hide Loop, Submit, CleanUp, Cancel, Alive, Signalled, Flat;
    IdleIsSafe(n, script.cancels);
    var idle := seq(n, _ => IDLE);
    if AllAnswered(script.protocols, 2 * n) && script.listOk && script.buffers >= n {
      SubmitIsSafe(idle, script.accepts, 0, script.cancels);
      var (ts, accepted) := Submit(idle, script.accepts, 0);
      if !accepted {
        CleanUpIsSafe(ts, script.early, AnySubmitted(ts), false, script);
      } else {
        LoopIs(ts, script.early, script.rounds);
        LoopKeepsSafe(ts, script.early, AnySubmitted(ts), true, script.rounds, script.cancels);
        var end := Loop(ts, script.early, AnySubmitted(ts), true, script.rounds);
        AllMarked(ts, script);
        LoopOfNone(ts, script.early, script.rounds);
        if end.why != Waiting {
          CleanUpIsSafe(end.ts, end.signum, end.submitted, end.why == Finished && (n == 0 || end.submitted), script);
        }
      }
    }
  }

  lemma LoopOfNone(ts: seq<Transfer>, signum: int, rounds: seq<Round>)
    ensures |ts| == 0 ==> Loop(ts, signum, AnySubmitted(ts), true, rounds).why == Finished
  {
  }

  lemma AllMarked(ts: seq<Transfer>, script: Script)
    requires forall i :: 0 <= i < |ts| ==> ts[i].submitted
    ensures forall events :: AnyAlive(ts, events) <==> exists i: nat :: i < |ts| && Alive(events, i)
    ensures forall k: nat :: k <= |script.rounds| ==>
              (Interrupted(ts, script.early, script.rounds, k) <==>
                && AllOk(script.rounds[..k]) && Signalled(script.early, Flat(script.rounds, k))
                && exists i: nat :: i < |ts| && Alive(Flat(script.rounds, k), i))
  {
    hide Alive, Signalled, Flat, AllOk;
    forall events ensures AnyAlive(ts, events) <==> exists i: nat :: i < |ts| && Alive(events, i) {
    }
  }

  // ---- Freeing in flight ----

  /** The run has freed transfer `i` while the library still holds it. */
  predicate FreesInFlight(r: Run, i: nat) {
    r.outcome.Returned? && i < |r.ts| == |r.outcome.freed| && r.ts[i].inFlight && r.outcome.freed[i]
  }

  /** A signal ends the stream at once, and waiting for what is cancelled fails at once. */
  function Hasty(n: nat, cancels: seq<bool>): Script { Script([], true, n, [], 15, [], cancels, [Round([], false)]) }

  lemma HastyFrees(n: nat, cancels: seq<bool>, i: nat)
    requires i < n && !Answer(cancels, i)
    ensures FreesInFlight(Stream(n, Hasty(n, cancels)), i)
  {
    hide Submit, Cancel;
    var script, idle := Hasty(n, cancels), seq(n, _ => IDLE);
    IdleIsSafe(n, cancels);
    SubmitIsSafe(idle, [], 0, cancels);
    var ts := Submit(idle, [], 0).0;
    assert ts[i].submitted;
    CancelKeepsSafe(ts, cancels, 0);
    var cancelled := Cancel(ts, cancels, 0);
    var r := CleanUp(ts, 15, true, true, script);
    assert Loop(ts, 15, true, true, []) == LoopEnd(ts, 15, true, Finished);
    assert r.ts == cancelled && r.outcome == Returned(true, Freed(cancelled));
    assert cancelled[i].inFlight && Freed(cancelled)[i];
  }

  /** Whatever else happens, a transfer is never freed while the library holds it, if and only if
      the library agrees to cancel it. */
  lemma RefusedCancelFreesInFlight(n: nat, cancels: seq<bool>, i: nat)
    requires i < n
    ensures (forall script: Script :: script.cancels == cancels ==> !FreesInFlight(Stream(n, script), i))
        <==> Answer(cancels, i)
  {
    hide Stream;
    if Answer(cancels, i) {
      forall script: Script | script.cancels == cancels
        ensures !FreesInFlight(Stream(n, script), i)
      {
        StreamIsSafe(n, script);
      }
    } else {
      HastyFrees(n, cancels, i);
      assert Hasty(n, cancels).cancels == cancels;
    }
  }

  /** No transfer ever is, if and only if the library agrees to every cancellation there can be. */
  lemma NoneFreedInFlight(n: nat, cancels: seq<bool>)
    ensures (forall script: Script, i: nat :: script.cancels == cancels ==> !FreesInFlight(Stream(n, script), i))
        <==> AllAnswered(cancels, n)
  {
    hide Stream;
    if AllAnswered(cancels, n) {
      forall script: Script, i: nat | script.cancels == cancels
        ensures !FreesInFlight(Stream(n, script), i)
      {
        StreamIsSafe(n, script);
      }
    } else {
      var i :| 0 <= i < n && !Answer(cancels, i);
      HastyFrees(n, cancels, i);
      assert Hasty(n, cancels).cancels == cancels;
    }
  }
}
