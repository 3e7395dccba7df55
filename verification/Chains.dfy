/** Chains of descriptors that start with their own length, and the search for an OTG
    descriptor along them. */
module Chains {
  import opened Words

  /** A descriptor in a chain: where it starts and how long it says it is. */
  datatype Record = Record(at: nat, len: nat)

  /** A descriptor of at least `least` bytes starts at `at` and ends inside the chain. */
  predicate Fits(buf: seq<byte>, at: nat, least: nat)
    requires least > 0
  {
    at + least <= |buf| && least <= buf[at] <= |buf| - at
  }

  /** The descriptors met from `at` on. */
  function Records(buf: seq<byte>, at: nat, least: nat): seq<Record>
    requires least > 0
    decreases |buf| - at
  {
    if Fits(buf, at, least) then [Record(at, buf[at])] + Records(buf, at + buf[at], least) else []
  }

  /** Where they end. */
  function ChainEnd(buf: seq<byte>, at: nat, least: nat): (e: nat)
    requires least > 0 && at <= |buf|
    ensures at <= e <= |buf| && !Fits(buf, e, least)
    decreases |buf| - at
  {
    if Fits(buf, at, least) then ChainEnd(buf, at + buf[at], least) else at
  }

  /** The loop over extra descriptors of a configuration, an interface setting or an endpoint
      (`least` 2) and over device capabilities (`least` 3).  `bad` is the complaint about a
      length that is too small or points beyond the end. */
  method Walk(extra: seq<byte>, least: nat) returns (records: seq<Record>, bad: bool)
    requires least > 0
    ensures records == Records(extra, 0, least)
    ensures bad <==> ChainEnd(extra, 0, least) + least <= |extra|
  {
    records, bad := [], false;
    var size, buf := |extra|, 0;
    while size >= least
      invariant 0 <= buf <= |extra| && size == |extra| - buf
      invariant records + Records(extra, buf, least) == Records(extra, 0, least)
      invariant ChainEnd(extra, buf, least) == ChainEnd(extra, 0, least)
      decreases size
    {
      if extra[buf] < least || extra[buf] > size {
        assert Records(extra, buf, least) == [];
        return records, true;
      }
      assert Records(extra, buf, least) == [Record(buf, extra[buf])] + Records(extra, buf + extra[buf], least);
      records := records + [Record(buf, extra[buf])];
      size := size - extra[buf];
      buf := buf + extra[buf];
    }
  }

  // ---- What a walk means ----

  /** A descriptor with a true length. */
  predicate TrueLength(d: seq<byte>, least: nat) { |d| >= least && |d| > 0 && d[0] == |d| }

  predicate AllTrue(ds: seq<seq<byte>>, least: nat) { forall i :: 0 <= i < |ds| ==> TrueLength(ds[i], least) }

  function Concat(ds: seq<seq<byte>>): seq<byte> {
    if |ds| == 0 then [] else ds[0] + Concat(ds[1..])
  }

  /** The records that descriptors of these lengths make up. */
  function Placed(ds: seq<seq<byte>>, at: nat): (rs: seq<Record>)
    ensures |rs| == |ds|
  {
    if |ds| == 0 then [] else [Record(at, |ds[0]|)] + Placed(ds[1..], at + |ds[0]|)
  }

  /** The bytes from `at` on begin with `front`. */
  predicate StandsAt(buf: seq<byte>, at: nat, front: seq<byte>) {
    at + |front| <= |buf| && buf[at..at + |front|] == front
  }

  lemma FirstStands(buf: seq<byte>, at: nat, ds: seq<seq<byte>>, least: nat)
    requires least > 0 && |ds| > 0 && TrueLength(ds[0], least) && StandsAt(buf, at, Concat(ds))
    ensures Fits(buf, at, least) && buf[at] == |ds[0]| && StandsAt(buf, at + |ds[0]|, Concat(ds[1..]))
  {
    var d, rest := ds[0], Concat(ds[1..]);
    assert buf[at..at + |d| + |rest|] == d + rest;
    assert buf[at] == (d + rest)[0];
    assert buf[at + |d|..at + |d| + |rest|] == (d + rest)[|d|..];
  }

  /** Descriptors with true lengths that stand somewhere in a chain are met there, whatever
      comes behind them. */
  lemma {:induction false} WalkMeetsAll(buf: seq<byte>, at: nat, ds: seq<seq<byte>>, least: nat)
    requires least > 0 && AllTrue(ds, least) && StandsAt(buf, at, Concat(ds))
    ensures Records(buf, at, least) == Placed(ds, at) + Records(buf, at + |Concat(ds)|, least)
    ensures ChainEnd(buf, at, least) == ChainEnd(buf, at + |Concat(ds)|, least)
    decreases |ds|
  {
    hide StandsAt, TrueLength, Fits, Records, Placed, Concat;
    PartsMet(ds, at);
    if |ds| == 0 {
      assert [] + Records(buf, at, least) == Records(buf, at, least);
    } else {
      FirstStands(buf, at, ds, least);
      WalkMeetsAll(buf, at + |ds[0]|, ds[1..], least);
      FirstMet(buf, at, least);
      var first, rest := [Record(at, buf[at])], Placed(ds[1..], at + |ds[0]|);
      var behind := Records(buf, at + |Concat(ds)|, least);
      assert first + (rest + behind) == (first + rest) + behind;
    }
  }

  lemma PartsMet(ds: seq<seq<byte>>, at: nat)
    ensures |ds| == 0 ==> Concat(ds) == [] && Placed(ds, at) == []
    ensures |ds| > 0 ==>
              && |Concat(ds)| == |ds[0]| + |Concat(ds[1..])|
              && Placed(ds, at) == [Record(at, |ds[0]|)] + Placed(ds[1..], at + |ds[0]|)
  {
  }

  lemma FirstMet(buf: seq<byte>, at: nat, least: nat)
    requires least > 0 && Fits(buf, at, least)
    ensures Records(buf, at, least) == [Record(at, buf[at])] + Records(buf, at + buf[at], least)
  {
  }

  /** A concatenation of descriptors with true lengths is walked record by record, to the end
      and without complaint. */
  lemma WalkOfConcatenation(ds: seq<seq<byte>>, least: nat)
    requires least > 0 && AllTrue(ds, least)
    ensures Records(Concat(ds), 0, least) == Placed(ds, 0)
    ensures ChainEnd(Concat(ds), 0, least) == |Concat(ds)|
  {
    WalkMeetsAll(Concat(ds), 0, ds, least);
  }

  function Cut(buf: seq<byte>, rs: seq<Record>): (ds: seq<seq<byte>>)
    requires forall i :: 0 <= i < |rs| ==> rs[i].at + rs[i].len <= |buf|
    ensures |ds| == |rs|
  {
    if |rs| == 0 then [] else [buf[rs[0].at..rs[0].at + rs[0].len]] + Cut(buf, rs[1..])
  }

  lemma TwoSlices(buf: seq<byte>, i: nat, j: nat, k: nat)
    requires i <= j <= k <= |buf|
    ensures buf[i..k] == buf[i..j] + buf[j..k]
  {
  }

  lemma RecordsStep(buf: seq<byte>, at: nat, least: nat)
    requires least > 0 && at <= |buf|
    ensures Fits(buf, at, least) ==>
              var next := at + buf[at];
              && Records(buf, at, least) == [Record(at, buf[at])] + Records(buf, next, least)
              && next <= |buf| && ChainEnd(buf, at, least) == ChainEnd(buf, next, least)
    ensures !Fits(buf, at, least) ==> Records(buf, at, least) == [] && ChainEnd(buf, at, least) == at
  {
  }

  lemma CutStep(buf: seq<byte>, r: Record, rs: seq<Record>)
    requires r.at + r.len <= |buf| && forall i :: 0 <= i < |rs| ==> rs[i].at + rs[i].len <= |buf|
    ensures var all := [r] + rs;
      && (forall i :: 0 <= i < |all| ==> all[i].at + all[i].len <= |buf|)
      && Cut(buf, all) == [buf[r.at..r.at + r.len]] + Cut(buf, rs)
      && Concat(Cut(buf, all)) == buf[r.at..r.at + r.len] + Concat(Cut(buf, rs))
  {
    assert ([r] + rs)[1..] == rs;
  }

  /** The records met are descriptors with true lengths that make up the chain as far as its end. */
  lemma {:induction false} RecordsAreTrue(buf: seq<byte>, at: nat, least: nat)
    requires least > 0 && at <= |buf|
    ensures forall i :: 0 <= i < |Records(buf, at, least)| ==>
              Records(buf, at, least)[i].at + Records(buf, at, least)[i].len <= |buf|
    ensures var ds := Cut(buf, Records(buf, at, least));
      AllTrue(ds, least) && Concat(ds) == buf[at..ChainEnd(buf, at, least)]
    decreases |buf| - at
  {
    hide Records, ChainEnd, Concat;
    RecordsStep(buf, at, least);
    if Fits(buf, at, least) {
      var next := at + buf[at];
      RecordsAreTrue(buf, next, least);
      CutStep(buf, Record(at, buf[at]), Records(buf, next, least));
      TwoSlices(buf, at, next, ChainEnd(buf, at, least));
      assert TrueLength(buf[at..next], least);
    } else {
      NoDescriptors();
    }
  }

  lemma NoDescriptors()
    ensures Concat([]) == []
  {
  }

  /** The walk covers the longest front of the chain that consists of descriptors with true
      lengths: no list of such descriptors reaches further. */
  lemma WalkIsLongest(buf: seq<byte>, least: nat, ds: seq<seq<byte>>)
    requires least > 0 && AllTrue(ds, least) && Concat(ds) <= buf
    ensures |ds| <= |Records(buf, 0, least)| && Placed(ds, 0) == Records(buf, 0, least)[..|ds|]
    ensures |Concat(ds)| <= ChainEnd(buf, 0, least)
  {
    WalkMeetsAll(buf, 0, ds, least);
    assert ChainEnd(buf, 0, least) >= |Concat(ds)|;
  }

  // ---- The OTG descriptor ----

  const USB_DT_OTG := 9

  predicate IsOtg(buf: seq<byte>, at: nat) { at + 3 <= |buf| && buf[at] == 3 && buf[at + 1] == USB_DT_OTG }

  /** `find_otg`: where in `extra` the descriptor starts, if anywhere. */
  method FindOtg(extra: seq<byte>) returns (desc: Option<nat>)
    ensures desc == FirstOtg(extra, Records(extra, 0, 2))
  {
    var buf, buflen := 0, |extra|;
    while buflen >= 3
      invariant 0 <= buf <= |extra| && buflen == |extra| - buf
      invariant FirstOtg(extra, Records(extra, buf, 2)) == FirstOtg(extra, Records(extra, 0, 2))
      decreases buflen
    {
      if extra[buf] == 3 && extra[buf + 1] == USB_DT_OTG {
        return Some(buf);
      }
      if extra[buf] < 2 || extra[buf] > buflen {
        return None;
      }
      assert Records(extra, buf, 2)[1..] == Records(extra, buf + extra[buf], 2);
      buflen := buflen - extra[buf];
      buf := buf + extra[buf];
    }
    ShortTail(extra, buf);
    return None;
  }

  /** The first OTG descriptor among the records of a walk. */
  function FirstOtg(buf: seq<byte>, rs: seq<Record>): (at: Option<nat>)
    ensures at.Some? ==> IsOtg(buf, at.value)
  {
    if |rs| == 0 then None
    else if IsOtg(buf, rs[0].at) then Some(rs[0].at)
    else FirstOtg(buf, rs[1..])
  }

  lemma ShortTail(buf: seq<byte>, at: nat)
    requires |buf| - 3 < at <= |buf|
    ensures FirstOtg(buf, Records(buf, at, 2)) == None
  {
    if Fits(buf, at, 2) {
      assert Records(buf, at, 2)[1..] == Records(buf, at + buf[at], 2);
      assert Records(buf, at + buf[at], 2) == [];
    }
  }

  /** `FirstOtg` is the record of that kind with no such record before it. */
  lemma {:induction false} FirstOtgIsFirst(buf: seq<byte>, rs: seq<Record>)
    ensures FirstOtg(buf, rs).None? <==> forall i :: 0 <= i < |rs| ==> !IsOtg(buf, rs[i].at)
    ensures FirstOtg(buf, rs).Some? ==>
              exists i :: 0 <= i < |rs| && rs[i].at == FirstOtg(buf, rs).value && IsOtg(buf, rs[i].at)
                          && forall j :: 0 <= j < i ==> !IsOtg(buf, rs[j].at)
  {
    if |rs| > 0 {
      if IsOtg(buf, rs[0].at) {
        assert rs[0].at == FirstOtg(buf, rs).value;
      } else {
        FirstOtgIsFirst(buf, rs[1..]);
        if FirstOtg(buf, rs).Some? {
          var i :| 0 <= i < |rs[1..]| && rs[1..][i].at == FirstOtg(buf, rs).value && IsOtg(buf, rs[1..][i].at)
                   && forall j :: 0 <= j < i ==> !IsOtg(buf, rs[1..][j].at);
          assert rs[i + 1].at == FirstOtg(buf, rs).value;
          forall j | 0 <= j < i + 1 ensures !IsOtg(buf, rs[j].at) {
            assert j > 0 ==> rs[j] == rs[1..][j - 1];
          }
        } else {
          forall i | 0 <= i < |rs| ensures !IsOtg(buf, rs[i].at) {
            assert i > 0 ==> rs[i] == rs[1..][i - 1];
          }
        }
      }
    }
  }

  // ---- A whole configuration ----

  datatype Setting = Setting(extra: seq<byte>, endpoints: seq<seq<byte>>)

  datatype Config = Config(extra: seq<byte>, interfaces: seq<seq<Setting>>)

  function SettingExtras(settings: seq<Setting>): seq<seq<byte>> {
    if |settings| == 0 then [] else [settings[0].extra] + settings[0].endpoints + SettingExtras(settings[1..])
  }

  function InterfaceExtras(interfaces: seq<seq<Setting>>): seq<seq<byte>> {
    if |interfaces| == 0 then [] else SettingExtras(interfaces[0]) + InterfaceExtras(interfaces[1..])
  }

  /** All extra descriptors of a configuration in the order of the document. */
  function Extras(config: Config): seq<seq<byte>> { [config.extra] + InterfaceExtras(config.interfaces) }

  function OtgIn(extra: seq<byte>): Option<seq<byte>> {
    match FirstOtg(extra, Records(extra, 0, 2))
    case None => None
    case Some(at) => Some(extra[at..])
  }

  /** The first OTG descriptor of a list of chains, with what follows it in its chain. */
  function FirstIn(extras: seq<seq<byte>>): Option<seq<byte>> {
    if |extras| == 0 then None
    else if OtgIn(extras[0]).Some? then OtgIn(extras[0])
    else FirstIn(extras[1..])
  }

  lemma {:induction false} FirstInThen(a: seq<seq<byte>>, b: seq<seq<byte>>)
    ensures FirstIn(a + b) == if FirstIn(a).Some? then FirstIn(a) else FirstIn(b)
  {
    if |a| == 0 {
      assert a + b == b;
    } else {
      assert (a + b)[1..] == a[1..] + b;
      FirstInThen(a[1..], b);
    }
  }

  method FindIn(extra: seq<byte>) returns (desc: Option<seq<byte>>)
    ensures desc == OtgIn(extra)
  {
    var at := FindOtg(extra);
    return match at case None => None case Some(i) => Some(extra[i..]);
  }

  /** The guarded loop nest of `do_otg` finds the first OTG descriptor of the configuration in
      document order. */
  method DoOtg(config: Config) returns (desc: Option<seq<byte>>)
    ensures desc == FirstIn(Extras(config))
    ensures desc.None? <==>
              && !HasOtg(config.extra)
              && forall i, j :: 0 <= i < |config.interfaces| && 0 <= j < |config.interfaces[i]| ==>
                   SettingFree(config.interfaces[i][j])
  {
    OtgIsFirstInConfig(config, 0, 0, 0, 0);
    desc := FindIn(config.extra);
    var i := 0;
    assert config.interfaces[0..] == config.interfaces;
    while desc.None? && i < |config.interfaces|
      invariant 0 <= i <= |config.interfaces|
      invariant (if desc.Some? then desc else FirstIn(InterfaceExtras(config.interfaces[i..]))) == FirstIn(Extras(config))
    {
      var intf := config.interfaces[i];
      assert config.interfaces[i..][1..] == config.interfaces[i + 1..];
      FirstInThen(SettingExtras(intf), InterfaceExtras(config.interfaces[i + 1..]));
      desc := FindInInterface(intf);
      i := i + 1;
    }
  }

  method FindInInterface(intf: seq<Setting>) returns (desc: Option<seq<byte>>)
    ensures desc == FirstIn(SettingExtras(intf))
  {
    desc := None;
    var j := 0;
    assert intf[0..] == intf;
    while desc.None? && j < |intf|
      invariant 0 <= j <= |intf|
      invariant (if desc.Some? then desc else FirstIn(SettingExtras(intf[j..]))) == FirstIn(SettingExtras(intf))
    {
      var alt := intf[j];
      assert intf[j..][1..] == intf[j + 1..];
      FirstInThen([alt.extra] + alt.endpoints, SettingExtras(intf[j + 1..]));
      FirstInThen([alt.extra], alt.endpoints);
      desc := FindIn(alt.extra);
      var k := 0;
      assert alt.endpoints[0..] == alt.endpoints;
      while desc.None? && k < |alt.endpoints|
        invariant 0 <= k <= |alt.endpoints|
        invariant (if desc.Some? then desc else FirstIn(alt.endpoints[k..])) == FirstIn([alt.extra] + alt.endpoints)
      {
        assert alt.endpoints[k..][1..] == alt.endpoints[k + 1..];
        desc := FindIn(alt.endpoints[k]);
        k := k + 1;
      }
      j := j + 1;
    }
  }

  // ---- What is found ----

  /** Some descriptor of a chain is an OTG descriptor: three bytes, of that type. */
  predicate HasOtg(extra: seq<byte>) {
    var rs := Records(extra, 0, 2);
    exists i :: 0 <= i < |rs| && OtgAt(extra, rs[i].at)
  }

  predicate OtgAt(extra: seq<byte>, at: nat) { at + 3 <= |extra| && extra[at] == 3 && extra[at + 1] == 9 }

  /** The first of them stands at `at`. */
  predicate FirstOtgAt(extra: seq<byte>, at: nat) {
    var rs := Records(extra, 0, 2);
    exists i :: 0 <= i < |rs| && rs[i].at == at && OtgAt(extra, at) && forall j :: 0 <= j < i ==> !OtgAt(extra, rs[j].at)
  }

  lemma OtgInIs(extra: seq<byte>, at: nat)
    ensures OtgIn(extra).None? <==> !HasOtg(extra)
    ensures FirstOtgAt(extra, at) ==> HasOtg(extra) && at <= |extra| && OtgIn(extra) == Some(extra[at..])
  {
    var rs := Records(extra, 0, 2);
    FirstOtgIsFirst(extra, rs);
    assert forall a: nat :: OtgAt(extra, a) <==> IsOtg(extra, a);
    if FirstOtgAt(extra, at) {
      var i :| 0 <= i < |rs| && rs[i].at == at && OtgAt(extra, at) && forall j :: 0 <= j < i ==> !OtgAt(extra, rs[j].at);
      var k :| 0 <= k < |rs| && rs[k].at == FirstOtg(extra, rs).value && IsOtg(extra, rs[k].at)
               && forall j :: 0 <= j < k ==> !IsOtg(extra, rs[j].at);
      assert i == k;
    }
  }

  lemma {:induction false} FirstInIs(extras: seq<seq<byte>>, k: nat, at: nat)
    ensures FirstIn(extras).None? <==> forall i :: 0 <= i < |extras| ==> !HasOtg(extras[i])
    ensures k < |extras| && (forall i :: 0 <= i < k ==> !HasOtg(extras[i])) && FirstOtgAt(extras[k], at) ==>
              at <= |extras[k]| && FirstIn(extras) == Some(extras[k][at..])
    decreases |extras|
  {
    hide HasOtg, FirstOtgAt, OtgIn;
    if |extras| > 0 {
      OtgInIs(extras[0], at);
      var rest := extras[1..];
      assert forall i :: 0 < i < |extras| ==> extras[i] == rest[i - 1];
      FirstInIs(rest, if k > 0 then k - 1 else 0, at);
      if FirstIn(extras).None? {
        forall i | 0 <= i < |extras| ensures !HasOtg(extras[i]) {
          assert i > 0 ==> !HasOtg(rest[i - 1]);
        }
      }
      if k < |extras| && k > 0 && forall i :: 0 <= i < k ==> !HasOtg(extras[i]) {
        forall i | 0 <= i < k - 1 ensures !HasOtg(rest[i]) {
          assert rest[i] == extras[i + 1];
        }
      }
      if forall i :: 0 <= i < |extras| ==> !HasOtg(extras[i]) {
        forall i | 0 <= i < |rest| ensures !HasOtg(rest[i]) {
          assert rest[i] == extras[i + 1];
        }
      }
    }
  }

  /** Neither the setting nor one of its endpoints has an OTG descriptor. */
  predicate SettingFree(s: Setting) {
    !HasOtg(s.extra) && forall k :: 0 <= k < |s.endpoints| ==> !HasOtg(s.endpoints[k])
  }

  predicate InterfaceFree(settings: seq<Setting>) { forall j :: 0 <= j < |settings| ==> SettingFree(settings[j]) }

  function OfSetting(s: Setting): seq<seq<byte>> { [s.extra] + s.endpoints }

  lemma ChainsOfSetting(s: Setting)
    ensures var all := OfSetting(s);
      && |all| == |s.endpoints| + 1 && all[0] == s.extra && forall i :: 0 <= i < |s.endpoints| ==> all[i + 1] == s.endpoints[i]
  {
  }

  lemma FreeIsNone(s: Setting)
    ensures SettingFree(s) <==> forall i :: 0 <= i < |OfSetting(s)| ==> !HasOtg(OfSetting(s)[i])
  {
    hide HasOtg, OfSetting;
    ChainsOfSetting(s);
    var all := OfSetting(s);
    assert forall i :: 0 < i < |all| ==> all[i] == s.endpoints[i - 1];
    if SettingFree(s) {
      forall i | 0 <= i < |all| ensures !HasOtg(all[i]) {
        assert i > 0 ==> !HasOtg(s.endpoints[i - 1]);
      }
    }
    if forall i :: 0 <= i < |all| ==> !HasOtg(all[i]) {
      assert !HasOtg(all[0]);
      forall i | 0 <= i < |s.endpoints| ensures !HasOtg(s.endpoints[i]) {
        assert !HasOtg(all[i + 1]);
      }
    }
  }

  lemma FreeUpTo(s: Setting, k: nat)
    requires !HasOtg(s.extra) && k < |s.endpoints| && forall i :: 0 <= i < k ==> !HasOtg(s.endpoints[i])
    ensures k + 1 < |OfSetting(s)| && OfSetting(s)[k + 1] == s.endpoints[k]
    ensures forall i :: 0 <= i < k + 1 ==> !HasOtg(OfSetting(s)[i])
  {
    hide HasOtg, OfSetting;
    ChainsOfSetting(s);
    forall i | 0 <= i < k + 1 ensures !HasOtg(OfSetting(s)[i]) {
      assert i > 0 ==> OfSetting(s)[i] == s.endpoints[i - 1];
    }
  }

  lemma SettingIs(s: Setting, k: nat, at: nat)
    ensures FirstIn(OfSetting(s)).None? <==> SettingFree(s)
    ensures FirstOtgAt(s.extra, at) ==> at <= |s.extra| && FirstIn(OfSetting(s)) == Some(s.extra[at..])
    ensures !HasOtg(s.extra) && k < |s.endpoints| && (forall i :: 0 <= i < k ==> !HasOtg(s.endpoints[i]))
            && FirstOtgAt(s.endpoints[k], at) ==>
              at <= |s.endpoints[k]| && FirstIn(OfSetting(s)) == Some(s.endpoints[k][at..])
  {
    hide HasOtg, FirstOtgAt, FirstIn, OfSetting, SettingFree;
    ChainsOfSetting(s);
    FreeIsNone(s);
    FirstInIs(OfSetting(s), 0, at);
    if !HasOtg(s.extra) && k < |s.endpoints| && forall i :: 0 <= i < k ==> !HasOtg(s.endpoints[i]) {
      FreeUpTo(s, k);
      FirstInIs(OfSetting(s), k + 1, at);
    }
  }

  lemma {:induction false} SettingsAre(settings: seq<Setting>, j: nat)
    ensures FirstIn(SettingExtras(settings)).None? <==> InterfaceFree(settings)
    ensures j < |settings| && InterfaceFree(settings[..j]) && !SettingFree(settings[j]) ==>
              FirstIn(SettingExtras(settings)) == FirstIn(OfSetting(settings[j]))
    decreases |settings|
  {
    hide SettingFree, FirstIn;
    if |settings| == 0 {
      NothingFirst();
    } else {
      var rest := settings[1..];
      SettingIs(settings[0], 0, 0);
      FirstInThen(OfSetting(settings[0]), SettingExtras(rest));
      SettingsAre(rest, if j > 0 then j - 1 else 0);
      FreeParts(settings, j);
    }
  }

  lemma NothingFirst()
    ensures FirstIn([]) == None
  {
  }

  lemma FreeParts(settings: seq<Setting>, j: nat)
    requires |settings| > 0
    ensures InterfaceFree(settings) <==> SettingFree(settings[0]) && InterfaceFree(settings[1..])
    ensures 0 < j < |settings| ==>
              settings[1..][j - 1] == settings[j]
              && (InterfaceFree(settings[..j]) <==> SettingFree(settings[0]) && InterfaceFree(settings[1..][..j - 1]))
  {
    hide SettingFree;
    var rest := settings[1..];
    assert forall i :: 0 < i < |settings| ==> settings[i] == rest[i - 1];
    assert forall i :: 0 <= i < |rest| ==> rest[i] == settings[i + 1];
    if 0 < j < |settings| {
      var a, b := settings[..j], rest[..j - 1];
      assert a[0] == settings[0];
      assert forall i :: 0 < i < |a| ==> a[i] == b[i - 1];
      assert forall i :: 0 <= i < |b| ==> b[i] == a[i + 1];
    }
  }

  lemma {:induction false} InterfacesAre(interfaces: seq<seq<Setting>>, i: nat)
    ensures FirstIn(InterfaceExtras(interfaces)).None? <==> forall m :: 0 <= m < |interfaces| ==> InterfaceFree(interfaces[m])
    ensures i < |interfaces| && (forall m :: 0 <= m < i ==> InterfaceFree(interfaces[m])) && !InterfaceFree(interfaces[i]) ==>
              FirstIn(InterfaceExtras(interfaces)) == FirstIn(SettingExtras(interfaces[i]))
    decreases |interfaces|
  {
    hide InterfaceFree, FirstIn;
    if |interfaces| == 0 {
      NothingFirst();
    } else {
      var rest := interfaces[1..];
      SettingsAre(interfaces[0], 0);
      FirstInThen(SettingExtras(interfaces[0]), InterfaceExtras(rest));
      InterfacesAre(rest, if i > 0 then i - 1 else 0);
      assert forall m :: 0 < m < |interfaces| ==> interfaces[m] == rest[m - 1];
      assert forall m :: 0 <= m < |rest| ==> rest[m] == interfaces[m + 1];
    }
  }

  /** Nothing in front of setting `j` of interface `i` has an OTG descriptor. */
  predicate FreeBefore(config: Config, i: nat, j: nat)
    requires i < |config.interfaces| && j < |config.interfaces[i]|
  {
    && !HasOtg(config.extra)
    && (forall m :: 0 <= m < i ==> InterfaceFree(config.interfaces[m]))
    && InterfaceFree(config.interfaces[i][..j])
  }

  lemma ExtrasAre(config: Config, i: nat, j: nat)
    ensures FirstIn(Extras(config)).None? <==>
              !HasOtg(config.extra) && forall m :: 0 <= m < |config.interfaces| ==> InterfaceFree(config.interfaces[m])
    ensures HasOtg(config.extra) ==> FirstIn(Extras(config)) == OtgIn(config.extra)
    ensures i < |config.interfaces| && j < |config.interfaces[i]| && FreeBefore(config, i, j)
            && !SettingFree(config.interfaces[i][j]) ==>
              FirstIn(Extras(config)) == FirstIn(OfSetting(config.interfaces[i][j]))
  {
    hide HasOtg, SettingFree, FirstIn, OtgIn;
    OtgInIs(config.extra, 0);
    FirstInOne(config.extra);
    FirstInThen([config.extra], InterfaceExtras(config.interfaces));
    InterfacesAre(config.interfaces, i);
    if i < |config.interfaces| && j < |config.interfaces[i]| {
      SettingsAre(config.interfaces[i], j);
    }
  }

  lemma FirstInOne(extra: seq<byte>)
    ensures FirstIn([extra]) == OtgIn(extra)
  {
    assert [extra][1..] == [] && FirstIn([]) == None;
  }

  /** What is found in a configuration: nothing if and only if no chain in it has an OTG descriptor;
      else the first one, from its first byte on, in the chain of the configuration itself before
      all others, then setting by setting, the chain of a setting before those of its endpoints. */
  lemma OtgIsFirstInConfig(config: Config, i: nat, j: nat, k: nat, at: nat)
    ensures FirstIn(Extras(config)).None? <==>
              && !HasOtg(config.extra)
              && forall i, j :: 0 <= i < |config.interfaces| && 0 <= j < |config.interfaces[i]| ==>
                   SettingFree(config.interfaces[i][j])
    ensures FirstOtgAt(config.extra, at) ==>
              at <= |config.extra| && FirstIn(Extras(config)) == Some(config.extra[at..])
    ensures i < |config.interfaces| && j < |config.interfaces[i]| && FreeBefore(config, i, j) ==>
              var s := config.interfaces[i][j];
              && (FirstOtgAt(s.extra, at) ==> at <= |s.extra| && FirstIn(Extras(config)) == Some(s.extra[at..]))
              && (!HasOtg(s.extra) && k < |s.endpoints| && (forall m :: 0 <= m < k ==> !HasOtg(s.endpoints[m]))
                  && FirstOtgAt(s.endpoints[k], at) ==>
                    at <= |s.endpoints[k]| && FirstIn(Extras(config)) == Some(s.endpoints[k][at..]))
  {
    hide HasOtg, FirstIn, OtgIn, FirstOtgAt, FreeBefore, Extras;
    ExtrasAre(config, i, j);
    OtgInIs(config.extra, at);
    if i < |config.interfaces| && j < |config.interfaces[i]| {
      var s := config.interfaces[i][j];
      SettingIs(s, k, at);
      OtgInIs(s.extra, at);
      if k < |s.endpoints| {
        OtgInIs(s.endpoints[k], at);
      }
    }
  }
}
