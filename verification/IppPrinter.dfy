/** The capabilities in an IPP printer descriptor: a counted chain of records that start with
    a type and the length of what follows. */
module IppPrinter {
  import opened Words

  const BASIC_CAPABILITIES := 0x00

  /** A capability shown, with the bytes behind its type and length. */
  datatype Capability = Capability(kind: byte, data: seq<byte>)

  datatype Parsed = Parsed(shown: seq<Capability>, tooShort: bool)

  /** What is shown of at most `count` capabilities from `n` on.  A basic capability is read
      without regard to its own length, so the descriptor must go on for six bytes. */
  function Capabilities(buf: seq<byte>, n: nat, count: nat): Parsed
    decreases count
  {
    if count == 0 then Parsed([], false)
    else if n + 2 > |buf| || n + 2 + buf[n + 1] > |buf| then Parsed([], true)
    else if buf[n] == BASIC_CAPABILITIES && n + 6 > |buf| then Parsed([], true)
    else
      var rest := Capabilities(buf, n + 2 + buf[n + 1], count - 1);
      Parsed([Capability(buf[n], buf[n + 2..n + 2 + buf[n + 1]])] + rest.shown, rest.tooShort)
  }

  /** `dump_printer_device` for the IPP-over-USB protocol, given a descriptor as long as it says. */
  method DumpPrinterDevice(buf: seq<byte>) returns (p: Parsed)
    requires |buf| >= 2 && buf[0] == |buf|
    ensures p == if |buf| < 4 then Parsed([], true) else Capabilities(buf, 4, buf[3])
  {
    if buf[0] < 4 {
      return Parsed([], true);
    }
    var shown := [];
    var n: nat, i: nat := 4, 0;
    while i < buf[3]
      invariant 0 <= i <= buf[3]
      invariant var rest := Capabilities(buf, n, buf[3] - i);
        Parsed(shown + rest.shown, rest.tooShort) == Capabilities(buf, 4, buf[3])
    {
      if n + 2 > buf[0] || n + 2 + buf[n + 1] > buf[0] {
        return Parsed(shown, true);
      }
      if buf[n] == BASIC_CAPABILITIES {
        if n + 6 > buf[0] {
          return Parsed(shown, true);
        }
      }
      ghost var rest := Capabilities(buf, n + 2 + buf[n + 1], buf[3] - i - 1);
      ghost var c := Capability(buf[n], buf[n + 2..n + 2 + buf[n + 1]]);
      assert shown + ([c] + rest.shown) == (shown + [c]) + rest.shown;
      shown := shown + [Capability(buf[n], buf[n + 2..n + 2 + buf[n + 1]])];
      n := n + 2 + buf[n + 1];
      i := i + 1;
    }
    return Parsed(shown, false);
  }

  function Encode(cs: seq<Capability>): seq<byte>
    requires forall i :: 0 <= i < |cs| ==> |cs[i].data| < 256
  {
    if |cs| == 0 then [] else [cs[0].kind, |cs[0].data|] + cs[0].data + Encode(cs[1..])
  }

  lemma SliceOfSlice(buf: seq<byte>, n: nat, len: nat, i: nat, j: nat)
    requires n + len <= |buf| && i <= j <= len
    ensures buf[n..n + len][i..j] == buf[n + i..n + j]
  {
    var a, b := buf[n..n + len][i..j], buf[n + i..n + j];
    forall k | 0 <= k < j - i ensures a[k] == b[k] {
      assert a[k] == buf[n..n + len][i + k];
    }
  }

  lemma ThreeParts(kind: byte, d: seq<byte>, rest: seq<byte>)
    requires |d| < 256
    ensures var all := [kind, |d|] + d + rest;
      all[0] == kind && all[1] == |d| && all[2..2 + |d|] == d && all[2 + |d|..|all|] == rest
  {
  }

  lemma EncodeStep(cs: seq<Capability>)
    requires |cs| > 0 && forall i :: 0 <= i < |cs| ==> |cs[i].data| < 256
    ensures Encode(cs) == [cs[0].kind, |cs[0].data|] + cs[0].data + Encode(cs[1..])
    ensures |Encode(cs)| == 2 + |cs[0].data| + |Encode(cs[1..])|
  {
  }

  lemma FirstTwo(buf: seq<byte>, n: nat, len: nat)
    requires len >= 2 && n + len <= |buf|
    ensures buf[n..n + len][0] == buf[n] && buf[n..n + len][1] == buf[n + 1]
  {
  }

  lemma FirstStands(buf: seq<byte>, n: nat, cs: seq<Capability>)
    requires |cs| > 0 && forall i :: 0 <= i < |cs| ==> |cs[i].data| < 256
    requires n + |Encode(cs)| <= |buf| && buf[n..n + |Encode(cs)|] == Encode(cs)
    ensures var d, next := cs[0].data, n + 2 + |cs[0].data|;
      && next + |Encode(cs[1..])| <= |buf| && buf[n] == cs[0].kind && buf[n + 1] == |d|
      && buf[n + 2..next] == d && buf[next..next + |Encode(cs[1..])|] == Encode(cs[1..])
  {
    hide Encode;
    EncodeStep(cs);
    var kind, d, rest := cs[0].kind, cs[0].data, Encode(cs[1..]);
    ThreeParts(kind, d, rest);
    var len := 2 + |d| + |rest|;
    SliceOfSlice(buf, n, len, 2, 2 + |d|);
    SliceOfSlice(buf, n, len, 2 + |d|, len);
    FirstTwo(buf, n, len);
  }

  /** Capabilities written one after the other, basic ones with at least their four bytes, are
      all shown, in order and as written. */
  lemma {:induction false} EncodedAreShown(buf: seq<byte>, n: nat, cs: seq<Capability>)
    requires forall i :: 0 <= i < |cs| ==> |cs[i].data| < 256 && (cs[i].kind == 0 ==> |cs[i].data| >= 4)
    requires n + |Encode(cs)| <= |buf| && buf[n..n + |Encode(cs)|] == Encode(cs)
    ensures Capabilities(buf, n, |cs|) == Parsed(cs, false)
    decreases |cs|
  {
    hide Encode;
    if |cs| > 0 {
      FirstStands(buf, n, cs);
      EncodedAreShown(buf, n + 2 + |cs[0].data|, cs[1..]);
      assert cs == [cs[0]] + cs[1..];
    }
  }

  /** Capabilities whose lengths fit into a byte. */
  predicate Writable(cs: seq<Capability>) { forall i :: 0 <= i < |cs| ==> |cs[i].data| < 256 }

  /** No capability can be read at `n`. */
  predicate EndsAt(buf: seq<byte>, n: nat) {
    n + 2 > |buf| || n + 2 + buf[n + 1] > |buf| || (buf[n] == 0 && n + 6 > |buf|)
  }

  lemma FrontIsWritten(buf: seq<byte>, n: nat, len: byte, rest: seq<Capability>)
    requires Writable(rest) && n + 2 + len + |Encode(rest)| <= |buf| && buf[n + 1] == len
    requires buf[n + 2 + len..n + 2 + len + |Encode(rest)|] == Encode(rest)
    ensures var cs := [Capability(buf[n], buf[n + 2..n + 2 + len])] + rest;
      Writable(cs) && |Encode(cs)| == 2 + len + |Encode(rest)| && buf[n..n + |Encode(cs)|] == Encode(cs)
  {
    var c := Capability(buf[n], buf[n + 2..n + 2 + len]);
    var cs := [c] + rest;
    assert cs[1..] == rest;
    assert forall i :: 0 <= i < |cs| ==> cs[i] == if i == 0 then c else rest[i - 1];
    var m := |Encode(rest)|;
    assert buf[n..n + 2 + len + m] == [buf[n], buf[n + 1]] + buf[n + 2..n + 2 + len] + buf[n + 2 + len..n + 2 + len + m];
  }

  /** On any descriptor the capabilities shown, written one after the other, are its bytes as far
      as they were read; it is reported as too short exactly when fewer are shown than announced,
      and then no further one can be read there. */
  lemma {:induction false} ShownAreEncoded(buf: seq<byte>, n: nat, count: nat)
    requires n <= |buf|
    ensures var p := Capabilities(buf, n, count);
      && Writable(p.shown) && n + |Encode(p.shown)| <= |buf| && buf[n..n + |Encode(p.shown)|] == Encode(p.shown)
      && |p.shown| <= count && (p.tooShort <==> |p.shown| < count)
      && (p.tooShort ==> EndsAt(buf, n + |Encode(p.shown)|))
    decreases count
  {
    hide Encode;
    if count == 0 || EndsAt(buf, n) {
      NothingWritten();
      assert buf[n..n + 0] == [];
    } else {
      var next := n + 2 + buf[n + 1];
      ShownAreEncoded(buf, next, count - 1);
      FrontIsWritten(buf, n, buf[n + 1], Capabilities(buf, next, count - 1).shown);
    }
  }

  lemma NothingWritten()
    ensures Encode([]) == []
  {
  }
}
