/** The interfaces of usbhid-dump: their flags, and the library calls that change them. */
module UhdIface {
  import opened Words

  /** What a library call answers. */
  datatype Error = Success | NotFound | Other(code: int)

  class Iface {
    var next: Iface?
    const number: byte
    const endpoint: byte
    const maxPacket: nat
    const rdLen: nat
    var detached: bool
    var claimed: bool
    var submitted: bool

    /** The library's side: it has taken the kernel driver away and not put it back; it holds
        the interface claimed.  Only the calls of the library below change these. */
    ghost var driverAway: bool
    ghost var held: bool

    /** The program's flags say what the library has done. */
    ghost predicate InStep()
      reads this
    {
      detached == driverAway && claimed == held
    }

    /** `uhd_iface_new`: not linked, no flag set, nothing asked of the library. */
    constructor (number: byte, endpoint: byte, maxPacket: nat, rdLen: nat)
      ensures this.number == number && this.endpoint == endpoint && this.maxPacket == maxPacket && this.rdLen == rdLen
      ensures next == null && !detached && !claimed && !submitted && !driverAway && !held
    {
      this.number, this.endpoint, this.maxPacket, this.rdLen := number, endpoint, maxPacket, rdLen;
      next, detached, claimed, submitted := null, false, false, false;
      driverAway, held := false, false;
    }

    // ---- What the library does ----

    method DetachKernelDriver(rc: Error) returns (err: Error)
      modifies this`driverAway
      ensures driverAway == (old(driverAway) || rc == Success) && err == rc
    {
      driverAway := driverAway || rc == Success;
      return rc;
    }

    method AttachKernelDriver(rc: Error) returns (err: Error)
      modifies this`driverAway
      ensures driverAway == (old(driverAway) && rc != Success) && err == rc
    {
      driverAway := driverAway && rc != Success;
      return rc;
    }

    method ClaimInterface(rc: Error) returns (err: Error)
      modifies this`held
      ensures held == (old(held) || rc == Success) && err == rc
    {
      held := held || rc == Success;
      return rc;
    }

    method ReleaseInterface(rc: Error) returns (err: Error)
      modifies this`held
      ensures held == (old(held) && rc != Success) && err == rc
    {
      held := held && rc != Success;
      return rc;
    }

    // ---- What the program does ----

    /** `uhd_iface_detach`; `rc` is the library's answer.  No driver to detach is no error. */
    method Detach(rc: Error) returns (err: Error)
      modifies this`detached, this`driverAway
      ensures detached == (old(detached) || rc == Success)
      ensures driverAway == (old(driverAway) || rc == Success) && (old(InStep()) ==> InStep())
      ensures err == if rc == NotFound then Success else rc
    {
      err := DetachKernelDriver(rc);
      if err == Success {
        detached := true;
      } else if err != NotFound {
        return err;
      }
      return Success;
    }

    /** `uhd_iface_attach`: the library is asked only for drivers that were detached. */
    method Attach(rc: Error) returns (err: Error)
      modifies this`detached, this`driverAway
      ensures detached == (old(detached) && rc != Success)
      ensures driverAway == (old(driverAway) && !(old(detached) && rc == Success)) && (old(InStep()) ==> InStep())
      ensures err == if old(detached) then rc else Success
    {
      if detached {
        err := AttachKernelDriver(rc);
        if err != Success {
          return err;
        }
        detached := false;
      }
      return Success;
    }

    /** `uhd_iface_claim`. */
    method Claim(rc: Error) returns (err: Error)
      modifies this`claimed, this`held
      ensures claimed == (old(claimed) || rc == Success) && err == rc
      ensures held == (old(held) || rc == Success) && (old(InStep()) ==> InStep())
    {
      err := ClaimInterface(rc);
      if err != Success {
        return err;
      }
      claimed := true;
      return Success;
    }

    /** `uhd_iface_release`: the library is asked whether or not the interface was claimed. */
    method Release(rc: Error) returns (err: Error)
      modifies this`claimed, this`held
      ensures claimed == (old(claimed) && rc != Success) && err == rc
      ensures held == (old(held) && rc != Success) && (old(InStep()) ==> InStep())
    {
      err := ReleaseInterface(rc);
      if err != Success {
        return err;
      }
      claimed := false;
      return Success;
    }
  }

  ghost function Members(s: seq<Iface>): set<Iface> { set x | x in s }

  lemma MembersExist(s: seq<Iface>)
    ensures forall x :: x in Members(s) ==> allocated(x)
  {
  }

  /** The interfaces `s`, in order, are those reached from `p` by `next`. */
  ghost predicate Chain(p: Iface?, s: seq<Iface>)
    reads Members(s)`next
    decreases |s|
  {
    if |s| == 0 then p == null else p == s[0] && Chain(s[0].next, s[1..])
  }

  ghost predicate Distinct(s: seq<Iface>) { forall i, j :: 0 <= i < j < |s| ==> s[i] != s[j] }

  /** `uhd_iface_list_len`. */
  method ListLen(list: Iface?, ghost s: seq<Iface>) returns (len: nat)
    requires Chain(list, s)
    ensures len == |s|
  {
    len := 0;
    var p := list;
    while p != null
      invariant len <= |s| && Chain(p, s[len..])
      decreases |s| - len
    {
      assert s[len..][1..] == s[len + 1..];
      p := p.next;
      len := len + 1;
    }
  }
}
