/** `run`: taking the interfaces from the kernel, dumping, and giving them back. */
module IfaceRun {
  import opened Words
  import opened UhdIface
  import opened IfaceList
  import opened IfaceScan
  import opened StreamProtocol
  import opened StreamDump

  /** What the library answers about one interface. */
  datatype Answers = Answers(detach: Error, claim: Error, release: Error, attach: Error)

  predicate Taken(a: Answers) { (a.detach == Success || a.detach == NotFound) && a.claim == Success }

  /** The first interface that cannot be detached or claimed, or how many there are. */
  function FirstRefused(answers: seq<Answers>, n: nat): (k: nat)
    requires n <= |answers|
    ensures k <= n && (k < n ==> !Taken(answers[k])) && forall i :: 0 <= i < k ==> Taken(answers[i])
  {
    if n == 0 then 0
    else
      var k := FirstRefused(answers, n - 1);
      if k < n - 1 || !Taken(answers[n - 1]) then k else n
  }

  /** The run took the kernel driver from interface `i`. */
  predicate Detached(answers: seq<Answers>, n: nat, i: nat)
    requires i < n <= |answers|
  {
    i <= FirstRefused(answers, n) && answers[i].detach == Success
  }

  /** The run claimed interface `i`. */
  predicate Claimed(answers: seq<Answers>, n: nat, i: nat)
    requires i < n <= |answers|
  {
    i < FirstRefused(answers, n)
  }

  /** The library lets go of the driver of interface `i`, or finds none, and the claim succeeds. */
  predicate CanTake(answers: seq<Answers>, i: nat)
    requires i < |answers|
  {
    (answers[i].detach == Success || answers[i].detach == NotFound) && answers[i].claim == Success
  }

  /** A driver is taken from an interface, and an interface claimed, exactly if the library
      granted everything before it and that call itself. */
  lemma TakenUpTo(answers: seq<Answers>, n: nat, i: nat)
    requires i < n <= |answers|
    ensures Detached(answers, n, i) <==> answers[i].detach == Success && forall j: nat :: j < i ==> CanTake(answers, j)
    ensures Claimed(answers, n, i) <==> forall j: nat :: j <= i ==> CanTake(answers, j)
    ensures FirstRefused(answers, n) == n <==> forall j: nat :: j < n ==> CanTake(answers, j)
  {
    var k := FirstRefused(answers, n);
    assert forall j: nat :: j < n ==> (CanTake(answers, j) <==> Taken(answers[j]));
    if k < n {
      assert !CanTake(answers, k);
    }
  }

  /** The program's flags say what the library has done, for every interface. */
  ghost predicate AllInStep(s: seq<Iface>)
    reads Members(s)
  {
    forall i :: 0 <= i < |s| ==> s[i].InStep()
  }

  /** One turn of the loop that takes the interfaces. */
  method TakeOne(iface: Iface, a: Answers) returns (ok: bool)
    requires !iface.driverAway && !iface.held && iface.InStep()
    modifies iface`detached, iface`claimed, iface`driverAway, iface`held
    ensures ok == Taken(a) && iface.InStep()
    ensures iface.driverAway == (a.detach == Success) && iface.held == ok
  {
    var err := iface.Detach(a.detach);
    if err != Success {
      return false;
    }
    err := iface.Claim(a.claim);
    return err == Success;
  }

  /** The loop that detaches and claims, until the library refuses. */
  method TakeAll(list: Iface?, ghost s: seq<Iface>, answers: seq<Answers>) returns (ok: bool)
    requires Chain(list, s) && Distinct(s) && Untouched(s) && |answers| >= |s|
    modifies Members(s)`detached, Members(s)`claimed, Members(s)`driverAway, Members(s)`held
    ensures ok <==> FirstRefused(answers, |s|) == |s|
    ensures AllInStep(s)
    ensures forall i :: 0 <= i < |s| ==>
              s[i].driverAway == Detached(answers, |s|, i) && s[i].held == Claimed(answers, |s|, i)
  {
    hide Chain, Taken;
    var iface := list;
    var k := 0;
    assert s[0..] == s;
    while iface != null
      invariant 0 <= k <= |s| && Chain(iface, s[k..]) && k <= FirstRefused(answers, |s|) && AllInStep(s)
      invariant forall i :: 0 <= i < k ==> s[i].driverAway == (answers[i].detach == Success) && s[i].held
      invariant forall i :: k <= i < |s| ==> !s[i].driverAway && !s[i].held
      decreases |s| - k
    {
      ChainNext(iface, s[k..]);
      MembersExist(s[k + 1..]);
      assert s[k..][0] == s[k] && s[k..][1..] == s[k + 1..];
      var taken := TakeOne(iface, answers[k]);
      if !taken {
        return false;
      }
      iface := iface.next;
      k := k + 1;
    }
    ChainNext(iface, s[k..]);
    return true;
  }

  /** The clean-up: the library is asked to release every interface and to attach every driver
      it has taken away, whatever fails. */
  method GiveBack(list: Iface?, ghost s: seq<Iface>, answers: seq<Answers>)
    requires Chain(list, s) && Distinct(s) && |answers| >= |s| && AllInStep(s)
    modifies Members(s)`detached, Members(s)`claimed, Members(s)`driverAway, Members(s)`held
    ensures AllInStep(s)
    ensures forall i :: 0 <= i < |s| ==>
              && s[i].driverAway == (old(s[i].driverAway) && answers[i].attach != Success)
              && s[i].held == (old(s[i].held) && answers[i].release != Success)
  {
    hide Chain;
    var iface := list;
    var k := 0;
    assert s[0..] == s;
    while iface != null
      invariant 0 <= k <= |s| && Chain(iface, s[k..]) && AllInStep(s)
      invariant forall i :: 0 <= i < k ==>
                  && s[i].driverAway == (old(s[i].driverAway) && answers[i].attach != Success)
                  && s[i].held == (old(s[i].held) && answers[i].release != Success)
      invariant forall i :: k <= i < |s| ==> s[i].driverAway == old(s[i].driverAway) && s[i].held == old(s[i].held)
      decreases |s| - k
    {
      ChainNext(iface, s[k..]);
      MembersExist(s[k + 1..]);
      assert s[k..][0] == s[k] && s[k..][1..] == s[k + 1..];
      var err := iface.Release(answers[k].release);
      err := iface.Attach(answers[k].attach);
      iface := iface.next;
      k := k + 1;
    }
    ChainNext(iface, s[k..]);
  }

  /** All report descriptors can be read. */
  predicate DescriptorsOk(infos: seq<Info>, replies: seq<bool>) {
    forall i :: 0 <= i < |infos| ==> infos[i].rdLen <= UHD_MAX_DESCRIPTOR_SIZE && Answer(replies, i)
  }

  lemma {:induction false} InfosAt(s: seq<Iface>, k: nat)
    requires k < |s|
    ensures InfosOf(s)[k] == Info(s[k].number, s[k].endpoint, s[k].maxPacket, s[k].rdLen)
  {
    if k > 0 {
      InfosAt(s[1..], k - 1);
    }
  }

  /** `dump_iface_list_descriptor`, but for the output. */
  method DumpDescriptors(list: Iface?, ghost s: seq<Iface>, replies: seq<bool>) returns (ok: bool)
    requires Chain(list, s)
    ensures ok <==> DescriptorsOk(InfosOf(s), replies)
  {
    var iface := list;
    var k := 0;
    while iface != null
      invariant 0 <= k <= |s| && Chain(iface, s[k..])
      invariant forall i :: 0 <= i < k ==> InfosOf(s)[i].rdLen <= UHD_MAX_DESCRIPTOR_SIZE && Answer(replies, i)
      decreases |s| - k
    {
      assert s[k..][0] == s[k] && s[k..][1..] == s[k + 1..];
      InfosAt(s, k);
      if iface.rdLen > UHD_MAX_DESCRIPTOR_SIZE {
        return false;
      }
      if !Answer(replies, k) {
        return false;
      }
      iface := iface.next;
      k := k + 1;
    }
    return true;
  }

  // ---- The whole run ----

  const UHD_IFACE_NUM_ANY: byte := 255

  /** What the user asks for. */
  datatype Request = Request(dumpDescriptor: bool, dumpStream: bool, ifaceNum: byte)

  /** What the library and its devices answer. */
  datatype World = World(
    initOk: bool, devsOk: bool, devs: seq<Device>, answers: seq<Answers>, replies: seq<bool>, script: Script)

  /** 255 asks for every interface, any other number for those that have it; the last found comes
      first. */
  lemma ChosenIs(devs: seq<Device>, number: byte)
    ensures Chosen(devs, 255) == Reversed(Found(devs))
    ensures number != 255 ==> Chosen(devs, number) == WithNumber(Reversed(Found(devs)), number)
  {
  }

  function IfNumber(info: Info, number: byte): seq<Info> { if info.number == number then [info] else [] }

  function WithNumber(infos: seq<Info>, number: byte): seq<Info> {
    if |infos| == 0 then [] else IfNumber(infos[0], number) + WithNumber(infos[1..], number)
  }

  /** The interfaces a run works on, in order. */
  function Chosen(devs: seq<Device>, number: byte): seq<Info> {
    var all := Reversed(Found(devs));
    if number == UHD_IFACE_NUM_ANY then all else WithNumber(all, number)
  }

  /** The requested interfaces, each as often as found and in the same order. */
  lemma {:induction false} WithNumberInOrder(a: seq<Info>, x: Info, b: seq<Info>, number: byte)
    ensures WithNumber(a + [x] + b, number)
         == WithNumber(a, number) + (if x.number == number then [x] else []) + WithNumber(b, number)
    decreases |a|
  {
    hide IfNumber;
    IfNumberIs(x, number);
    if |a| == 0 {
      assert (a + [x] + b)[1..] == b;
      assert [] + IfNumber(x, number) == IfNumber(x, number);
    } else {
      assert (a + [x] + b)[1..] == a[1..] + [x] + b;
      WithNumberInOrder(a[1..], x, b, number);
      Regrouped(IfNumber(a[0], number), WithNumber(a[1..], number), IfNumber(x, number), WithNumber(b, number));
    }
  }

  lemma IfNumberIs(info: Info, number: byte)
    ensures IfNumber(info, number) == if info.number == number then [info] else []
  {
  }

  lemma {:induction false} NumberedInfos(s: seq<Iface>, number: byte)
    ensures InfosOf(Numbered(s, number)) == WithNumber(InfosOf(s), number)
  {
    if |s| > 0 {
      NumberedInfos(s[1..], number);
      if s[0].number == number {
        assert ([s[0]] + Numbered(s[1..], number))[1..] == Numbered(s[1..], number);
      }
    }
  }

  /** What the dumping of taken interfaces comes to; nothing while the stream goes on. */
  function Dumped(infos: seq<Info>, request: Request, world: World): Option<bool> {
    if request.dumpDescriptor && !DescriptorsOk(infos, world.replies) then Some(false)
    else if !request.dumpStream then Some(true)
    else match Stream(|infos|, world.script).outcome
      case Blocked => None
      case Returned(result, _) => Some(result)
  }

  /** The exit code of a run with something to dump; none while the stream goes on. */
  function ExitCode(infos: seq<Info>, request: Request, world: World): Option<int>
    requires |infos| <= |world.answers|
  {
    if FirstRefused(world.answers, |infos|) < |infos| then Some(1)
    else match Dumped(infos, request, world)
      case None => None
      case Some(ok) => Some(if ok then 0 else 1)
  }

  /** A stream of that many interfaces comes to an end and has succeeded. */
  predicate Streamed(n: nat, script: Script) {
    Stream(n, script).outcome.Returned? && Stream(n, script).outcome.result
  }

  /** The run succeeds exactly if the library granted every interface, the report descriptors
      asked for have at most 4096 bytes and were all answered, and the stream asked for succeeded.
      It goes on only with a stream. */
  predicate ExitIs(infos: seq<Info>, request: Request, world: World, exitCode: Option<int>)
    requires |infos| <= |world.answers|
  {
    && exitCode in {None, Some(0), Some(1)}
    && (exitCode == Some(0) <==>
          && (forall j: nat :: j < |infos| ==> CanTake(world.answers, j))
          && (request.dumpDescriptor ==> forall j: nat :: j < |infos| ==> infos[j].rdLen <= 4096 && Answer(world.replies, j))
          && (request.dumpStream ==> Streamed(|infos|, world.script)))
    && (exitCode == None ==>
          && request.dumpStream && Stream(|infos|, world.script).outcome.Blocked?
          && forall j: nat :: j < |infos| ==> CanTake(world.answers, j))
  }

  lemma ExitCodeIs(infos: seq<Info>, request: Request, world: World)
    requires 0 < |infos| <= |world.answers|
    ensures ExitIs(infos, request, world, ExitCode(infos, request, world))
  {
    hide Stream;
    TakenUpTo(world.answers, |infos|, 0);
    if request.dumpDescriptor {
      assert DescriptorsOk(infos, world.replies) <==>
        forall j: nat :: j < |infos| ==> infos[j].rdLen <= 4096 && Answer(world.replies, j);
    }
  }

  /** Each interface is given back: the kernel is without its driver, or the library still holds
      it claimed, only if the run took it and the call that returns it failed. */
  ghost predicate GivenBack(s: seq<Iface>, answers: seq<Answers>)
    requires |s| <= |answers|
    reads Members(s)
  {
    forall i :: 0 <= i < |s| ==>
      && s[i].driverAway == (Detached(answers, |s|, i) && answers[i].attach != Success)
      && s[i].held == (Claimed(answers, |s|, i) && answers[i].release != Success)
  }

  /** The library holds every interface, and every driver it found is away. */
  ghost predicate AllTaken(s: seq<Iface>, answers: seq<Answers>)
    requires |s| <= |answers|
    reads Members(s)
  {
    forall i :: 0 <= i < |s| ==> s[i].held && s[i].driverAway == (answers[i].detach == Success)
  }

  /** The dumps, one after the other. */
  method DumpAll(list: Iface?, ghost s: seq<Iface>, request: Request, world: World, dumper: Dumper)
    returns (result: Option<bool>)
    requires Chain(list, s) && Distinct(s) && dumper.exit_signum == world.script.early
    requires forall i :: 0 <= i < |s| ==> !s[i].submitted
    modifies dumper`exit_signum, Members(s)`submitted
    ensures result == Dumped(InfosOf(s), request, world)
  {
    hide Chain, Distinct, InfosOf, Stream, DescriptorsOk;
    if request.dumpDescriptor {
      var ok := DumpDescriptors(list, s, world.replies);
      if !ok {
        return Some(false);
      }
    }
    if !request.dumpStream {
      return Some(true);
    }
    var outcome, ts := dumper.DumpIfaceListStream(list, s, world.script);
    return if outcome.Blocked? then None else Some(outcome.result);
  }

  lemma NoneRefused(s: seq<Iface>, answers: seq<Answers>)
    requires |answers| >= |s| && FirstRefused(answers, |s|) == |s|
    requires forall i :: 0 <= i < |s| ==>
              s[i].driverAway == Detached(answers, |s|, i) && s[i].held == Claimed(answers, |s|, i)
    ensures AllTaken(s, answers)
  {
  }

  /** From the first detaching to the end of the clean-up. */
  method TakeDumpGive(list: Iface?, ghost s: seq<Iface>, request: Request, world: World, dumper: Dumper)
    returns (exitCode: Option<int>)
    requires Chain(list, s) && Distinct(s) && Untouched(s) && |world.answers| >= |s|
    requires dumper.exit_signum == world.script.early
    modifies dumper`exit_signum, Members(s)`submitted
    modifies Members(s)`detached, Members(s)`claimed, Members(s)`driverAway, Members(s)`held
    ensures exitCode.Some? ==> GivenBack(s, world.answers)
    ensures exitCode.None? ==> AllTaken(s, world.answers)
    ensures AllInStep(s)
    ensures exitCode == ExitCode(InfosOf(s), request, world)
  {
    hide Chain, Distinct, InfosOf, FirstRefused, Dumped, Detached, Claimed, AllTaken;
    var code := 1;
    var ok := TakeAll(list, s, world.answers);
    if ok {
      var result := DumpAll(list, s, request, world, dumper);
      if result.None? {
        NoneRefused(s, world.answers);
        return None;
      }
      code := if result.value then 0 else 1;
    }
    GiveBack(list, s, world.answers);
    return Some(code);
  }

  /** `run`, from the opening of the library on: it works on exactly the interfaces with the
      requested number, in order, and gives every one of them back on every way out.  There is
      no exit code while the stream goes on, and then all are taken. */
  method Run(request: Request, world: World, dumper: Dumper) returns (exitCode: Option<int>, ghost s: seq<Iface>)
    requires dumper.exit_signum == world.script.early
    requires |world.answers| >= |Chosen(world.devs, request.ifaceNum)|
    modifies dumper`exit_signum
    ensures fresh(Members(s)) && |s| <= |world.answers| && AllInStep(s)
    ensures exitCode.Some? ==> GivenBack(s, world.answers)
    ensures exitCode.None? ==> AllTaken(s, world.answers)
    ensures var infos := Chosen(world.devs, request.ifaceNum);
      if !world.initOk || !world.devsOk || (exists i :: 0 <= i < |world.devs| && !world.devs[i].configOk) || infos == [] then
        exitCode == Some(1) && s == []
      else
        && InfosOf(s) == infos
        && exitCode == ExitCode(infos, request, world) && ExitIs(infos, request, world, exitCode)
  {
    hide Chain, Distinct, InfosOf, FirstRefused, Dumped, Found, Reversed, Detached, Claimed, ExitIs, ExitCode;
    s := [];
    if !world.initOk || !world.devsOk {
      return Some(1), [];
    }
    var list: Iface?;
    var ok;
    ok, list, s := ListNew(world.devs);
    if !ok {
      return Some(1), [];
    }
    if request.ifaceNum != UHD_IFACE_NUM_ANY {
      list, s := Filter(list, s, request.ifaceNum);
    }
    EmptyChain(list, s);
    if list == null {
      return Some(1), [];
    }
    exitCode := TakeDumpGive(list, s, request, world, dumper);
    ExitCodeIs(InfosOf(s), request, world);
  }

  lemma EmptyChain(list: Iface?, s: seq<Iface>)
    requires Chain(list, s)
    ensures list == null <==> s == []
    ensures s == [] <==> InfosOf(s) == []
  {
  }

  /** The filter and what is left of the fresh list. */
  method Filter(list: Iface?, ghost s: seq<Iface>, number: byte) returns (head: Iface?, ghost s': seq<Iface>)
    requires Chain(list, s) && Distinct(s) && Untouched(s)
    modifies Members(s)`next
    ensures Chain(head, s') && Distinct(s') && Untouched(s') && Members(s') <= Members(s)
    ensures InfosOf(s') == WithNumber(InfosOf(s), number)
  {
    hide Chain, Distinct, InfosOf, WithNumber, Numbered;
    NumberedIsFilter(s, number);
    NumberedInfos(s, number);
    s' := Numbered(s, number);
    StillUntouched(s, s');
    head := FltrByNum(list, s, number);
    StillUntouched(s, s');
  }

  lemma StillUntouched(s: seq<Iface>, part: seq<Iface>)
    requires Untouched(s) && forall i :: 0 <= i < |part| ==> part[i] in s
    ensures Untouched(part) && Members(part) <= Members(s)
  {
  }
}
