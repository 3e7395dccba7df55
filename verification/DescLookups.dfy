/** Which shipped definitions look up the lengths they show, and which do not always. */
module DescLookups {
  import opened Words
  import opened DescTable
  import opened DescCount
  import opened DescDump
  import opened DescLayout
  import opened DescShown
  import opened DescRegular
  import opened DescDefs

  lemma StandsFirstAt(desc: Desc, name: string, k: nat)
    requires k < |desc| && desc[k].name == name && desc[k].sizeField.None? && !desc[k].kind.Bcd?
    requires forall i :: 0 <= i < k ==> desc[i].name != name
    requires forall i :: 0 <= i <= k ==> desc[i].repeat.Once? && !desc[i].kind.Extension?
    ensures StandsFirst(desc, name)
  {
    FindIs(desc, name, k);
  }

  /** The definitions that refer only to fields in front of all their arrays. */
  const SAFE_DEFS: seq<Desc> := [
    AUDIO_3_AC_POWER_DOMAIN,
    AUDIO_3_AC_MIXER_UNIT,
    AUDIO_1_AC_SELECTOR_UNIT,
    AUDIO_2_AC_SELECTOR_UNIT,
    AUDIO_3_AC_SELECTOR_UNIT,
    AUDIO_1_AC_PROC_UNIT_EXTENDED,
    AUDIO_2_AC_PROC_UNIT_UP_DOWN_MIX,
    AUDIO_2_AC_PROC_UNIT_DOLBY_PROLOGIC,
    AUDIO_2_AC_PROCESSING_UNIT,
    AUDIO_3_AC_PROC_UNIT_UP_DOWN_MIX,
    AUDIO_3_AC_PROCESSING_UNIT,
    AUDIO_1_AC_FEATURE_UNIT,
    AUDIO_2_AC_EXTENSION_UNIT,
    AUDIO_3_AC_EXTENSION_UNIT,
    AUDIO_2_AC_CLOCK_SELECTOR,
    AUDIO_3_AC_CLOCK_SELECTOR,
    MIDI_MS_OUT_JACK,
    MIDI_MS_ENDPOINT_GENERAL,
    USB3_DC_CONFIGURATION_SUMMARY
  ]

  lemma Audio3AcPowerDomainLooksUpFirst()
    ensures LookupSafe(AUDIO_3_AC_POWER_DOMAIN)
  {
    hide StandsFirst;
    StandsFirstAt(AUDIO_3_AC_POWER_DOMAIN, "bNrEntities", 3);
  }

  lemma Audio3AcMixerUnitLooksUpFirst()
    ensures LookupSafe(AUDIO_3_AC_MIXER_UNIT)
  {
    hide StandsFirst;
    StandsFirstAt(AUDIO_3_AC_MIXER_UNIT, "bNrInPins", 1);
  }

  lemma Audio1AcSelectorUnitLooksUpFirst()
    ensures LookupSafe(AUDIO_1_AC_SELECTOR_UNIT)
  {
    hide StandsFirst;
    StandsFirstAt(AUDIO_1_AC_SELECTOR_UNIT, "bNrInPins", 1);
  }

  lemma Audio2AcSelectorUnitLooksUpFirst()
    ensures LookupSafe(AUDIO_2_AC_SELECTOR_UNIT)
  {
    hide StandsFirst;
    StandsFirstAt(AUDIO_2_AC_SELECTOR_UNIT, "bNrInPins", 1);
  }

  lemma Audio3AcSelectorUnitLooksUpFirst()
    ensures LookupSafe(AUDIO_3_AC_SELECTOR_UNIT)
  {
    hide StandsFirst;
    StandsFirstAt(AUDIO_3_AC_SELECTOR_UNIT, "bNrInPins", 1);
  }

  lemma Audio1AcProcUnitExtendedLooksUpFirst()
    ensures LookupSafe(AUDIO_1_AC_PROC_UNIT_EXTENDED)
  {
    hide StandsFirst;
    StandsFirstAt(AUDIO_1_AC_PROC_UNIT_EXTENDED, "bNrModes", 0);
  }

  lemma Audio2AcProcUnitUpDownMixLooksUpFirst()
    ensures LookupSafe(AUDIO_2_AC_PROC_UNIT_UP_DOWN_MIX)
  {
    hide StandsFirst;
    StandsFirstAt(AUDIO_2_AC_PROC_UNIT_UP_DOWN_MIX, "bNrModes", 0);
  }

  lemma Audio2AcProcUnitDolbyPrologicLooksUpFirst()
    ensures LookupSafe(AUDIO_2_AC_PROC_UNIT_DOLBY_PROLOGIC)
  {
    hide StandsFirst;
    StandsFirstAt(AUDIO_2_AC_PROC_UNIT_DOLBY_PROLOGIC, "bNrModes", 0);
  }

  lemma Audio2AcProcessingUnitLooksUpFirst()
    ensures LookupSafe(AUDIO_2_AC_PROCESSING_UNIT)
  {
    hide StandsFirst;
    StandsFirstAt(AUDIO_2_AC_PROCESSING_UNIT, "bNrInPins", 2);
    StandsFirstAt(AUDIO_2_AC_PROCESSING_UNIT, "wProcessType", 1);
  }

  lemma Audio3AcProcUnitUpDownMixLooksUpFirst()
    ensures LookupSafe(AUDIO_3_AC_PROC_UNIT_UP_DOWN_MIX)
  {
    hide StandsFirst;
    StandsFirstAt(AUDIO_3_AC_PROC_UNIT_UP_DOWN_MIX, "bNrModes", 1);
  }

  lemma Audio3AcProcessingUnitLooksUpFirst()
    ensures LookupSafe(AUDIO_3_AC_PROCESSING_UNIT)
  {
    hide StandsFirst;
    StandsFirstAt(AUDIO_3_AC_PROCESSING_UNIT, "bNrInPins", 2);
    StandsFirstAt(AUDIO_3_AC_PROCESSING_UNIT, "wProcessType", 1);
  }

  lemma Audio1AcFeatureUnitLooksUpFirst()
    ensures LookupSafe(AUDIO_1_AC_FEATURE_UNIT)
  {
    hide StandsFirst;
    StandsFirstAt(AUDIO_1_AC_FEATURE_UNIT, "bControlSize", 2);
  }

  lemma Audio2AcExtensionUnitLooksUpFirst()
    ensures LookupSafe(AUDIO_2_AC_EXTENSION_UNIT)
  {
    hide StandsFirst;
    StandsFirstAt(AUDIO_2_AC_EXTENSION_UNIT, "bNrInPins", 2);
  }

  lemma Audio3AcExtensionUnitLooksUpFirst()
    ensures LookupSafe(AUDIO_3_AC_EXTENSION_UNIT)
  {
    hide StandsFirst;
    StandsFirstAt(AUDIO_3_AC_EXTENSION_UNIT, "bNrInPins", 2);
  }

  lemma Audio2AcClockSelectorLooksUpFirst()
    ensures LookupSafe(AUDIO_2_AC_CLOCK_SELECTOR)
  {
    hide StandsFirst;
    StandsFirstAt(AUDIO_2_AC_CLOCK_SELECTOR, "bNrInPins", 1);
  }

  lemma Audio3AcClockSelectorLooksUpFirst()
    ensures LookupSafe(AUDIO_3_AC_CLOCK_SELECTOR)
  {
    hide StandsFirst;
    StandsFirstAt(AUDIO_3_AC_CLOCK_SELECTOR, "bNrInPins", 1);
  }

  lemma MidiMsOutJackLooksUpFirst()
    ensures LookupSafe(MIDI_MS_OUT_JACK)
  {
    hide StandsFirst;
    StandsFirstAt(MIDI_MS_OUT_JACK, "bNrInputPins", 2);
  }

  lemma MidiMsEndpointGeneralLooksUpFirst()
    ensures LookupSafe(MIDI_MS_ENDPOINT_GENERAL)
  {
    hide StandsFirst;
    StandsFirstAt(MIDI_MS_ENDPOINT_GENERAL, "bNumEmbMIDIJack", 0);
  }

  lemma Usb3DcConfigurationSummaryLooksUpFirst()
    ensures LookupSafe(USB3_DC_CONFIGURATION_SUMMARY)
  {
    hide StandsFirst;
    StandsFirstAt(USB3_DC_CONFIGURATION_SUMMARY, "bConfigurationCount", 7);
  }

  /** These definitions refer only to fields in front of all their arrays. */
  lemma SafeDefsLookUpFirst(desc: Desc)
    requires desc in SAFE_DEFS
    ensures LookupSafe(desc)
  {
    hide LookupSafe;
    Audio3AcPowerDomainLooksUpFirst();
    Audio3AcMixerUnitLooksUpFirst();
    Audio1AcSelectorUnitLooksUpFirst();
    Audio2AcSelectorUnitLooksUpFirst();
    Audio3AcSelectorUnitLooksUpFirst();
    Audio1AcProcUnitExtendedLooksUpFirst();
    Audio2AcProcUnitUpDownMixLooksUpFirst();
    Audio2AcProcUnitDolbyPrologicLooksUpFirst();
    Audio2AcProcessingUnitLooksUpFirst();
    Audio3AcProcUnitUpDownMixLooksUpFirst();
    Audio3AcProcessingUnitLooksUpFirst();
    Audio1AcFeatureUnitLooksUpFirst();
    Audio2AcExtensionUnitLooksUpFirst();
    Audio3AcExtensionUnitLooksUpFirst();
    Audio2AcClockSelectorLooksUpFirst();
    Audio3AcClockSelectorLooksUpFirst();
    MidiMsOutJackLooksUpFirst();
    MidiMsEndpointGeneralLooksUpFirst();
    Usb3DcConfigurationSummaryLooksUpFirst();
  }

  lemma SafeIsLinked(desc: Desc)
    requires desc in SAFE_DEFS
    ensures desc in LINKED_DEFS
  {
  }

  /** So in these definitions every length and selector looked up is the one shown, for every
      descriptor. */
  lemma SafeDefsAgree(desc: Desc, buf: seq<byte>, base: nat, k: nat, name: string)
    requires desc in SAFE_DEFS && k < |desc| && Refers(desc[k], name) && |buf| < NO_COUNT
    ensures var p := Find(desc, name);
      && p < |desc| && WellFormed(desc) && Known(desc, buf, p) && LooksUpWhatIsShown(desc, buf, base, p)
      && FieldValue(desc, buf, name) == Got(ValueAt(desc, buf, p))
  {
    hide *;
    SafeIsLinked(desc);
    LinkedDefsAreRegular();
    RegularResolves(desc);
    SafeDefsLookUpFirst(desc);
    SafeLookupsAgree(desc, buf, base, k, name);
  }

  // ---- The processing units and their extensions ----

  predicate IsProcessingUnit(desc: Desc) {
    desc == AUDIO_1_AC_PROCESSING_UNIT || desc == AUDIO_2_AC_PROCESSING_UNIT || desc == AUDIO_3_AC_PROCESSING_UNIT
  }

  /** The definition for each type of processing unit that has one. */
  function ProcessSpecific(desc: Desc, processType: nat): Option<Desc> {
    if desc == AUDIO_1_AC_PROCESSING_UNIT then
      if processType == 1 || processType == 2 then Some(AUDIO_1_AC_PROC_UNIT_EXTENDED) else None
    else if desc == AUDIO_2_AC_PROCESSING_UNIT then
      if processType == 1 then Some(AUDIO_2_AC_PROC_UNIT_UP_DOWN_MIX)
      else if processType == 2 then Some(AUDIO_2_AC_PROC_UNIT_DOLBY_PROLOGIC)
      else None
    else
      if processType == 1 then Some(AUDIO_3_AC_PROC_UNIT_UP_DOWN_MIX)
      else if processType == 2 then Some(AUDIO_3_AC_PROC_UNIT_STEREO_EXTENDER)
      else if processType == 3 then Some(AUDIO_3_AC_PROC_UNIT_MULTI_FUNCTION)
      else None
  }

  lemma ProcessTypeRead(desc: Desc, buf: seq<byte>, v: nat)
    requires Resolves(desc) && |desc| > 2 && |buf| >= 3 && Sized(desc, |desc|)
    requires desc[0].name != "wProcessType" && desc[1].name == "wProcessType"
    requires desc[0].size == 1 && desc[0].sizeField.None? && desc[1].size == 2
    requires v == (buf[1] as nat) + 256 * (buf[2] as nat)
    ensures FieldValue(desc, buf, "wProcessType") == Got(v)
  {
    FindIs(desc, "wProcessType", 1);
    hide Resolves, Find;
    assert LookupOffset(desc, buf, 0) == 0 && Size(desc, buf, 0) == 1;
    assert LookupOffset(desc, buf, 1) == 1;
    assert buf[1..3] == [buf[1], buf[2]];
    FewBytes(buf[1], buf[2], 0, 0);
  }

  lemma ProcessTable(desc: Desc, processType: nat)
    requires IsProcessingUnit(desc)
    ensures var k := |desc| - 1;
      && k > 2 && desc[k].kind.Extension? && desc[k].kind.typeField == "wProcessType"
      && desc[k].repeat.Once? && desc[k].sizeField.None? && desc[k].size == 1
      && (forall i :: 0 <= i < k ==> !desc[i].kind.Extension?)
      && desc[0].name != "wProcessType" && desc[1].name == "wProcessType"
      && desc[0].size == 1 && desc[0].sizeField.None? && desc[1].size == 2
    ensures var descs := desc[|desc| - 1].kind.descs;
      match ProcessSpecific(desc, processType)
      case None => forall j: nat :: !Picks(descs, processType, j)
      case Some(d) => d != [] && exists j: nat :: j < |descs| && Picks(descs, processType, j) && descs[j].desc == d
  {
    var descs := desc[|desc| - 1].kind.descs;
    assert |descs| >= 2 && descs[0].selector == 1 && descs[1].selector == 2;
    if processType == 1 {
      assert Picks(descs, processType, 0);
    } else if processType == 2 {
      assert Picks(descs, processType, 1);
    } else if processType == 3 && |descs| > 2 {
      assert Picks(descs, processType, 2);
    }
  }

  lemma ProcessingUnitIsRegular(desc: Desc)
    requires IsProcessingUnit(desc)
    ensures Regular(desc)
  {
    hide Regular;
    Audio1AcProcessingUnitIsRegular();
    Audio2AcProcessingUnitIsRegular();
    Audio3AcProcessingUnitIsRegular();
  }

  lemma SizeOne(desc: Desc, buf: seq<byte>, k: nat)
    requires Resolves(desc) && k < |desc| && desc[k].size == 1 && desc[k].sizeField.None?
    ensures EntrySize(desc, buf, k) == Got(1)
  {
  }

  lemma SpecificIsWellFormed(desc: Desc, processType: nat)
    requires IsProcessingUnit(desc) && ProcessSpecific(desc, processType).Some?
    ensures WellFormed(ProcessSpecific(desc, processType).value)
  {
    hide *;
    ProcessTable(desc, processType);
    ProcessingUnitIsRegular(desc);
    RegularResolves(desc);
    var k := |desc| - 1;
    ListedAreWellFormed(desc, k);
    var descs := desc[k].kind.descs;
    var j: nat :| j < |descs| && Picks(descs, processType, j) && descs[j].desc == ProcessSpecific(desc, processType).value;
  }

  lemma ListedAreWellFormed(desc: Desc, k: nat)
    requires WellFormed(desc) && k < |desc| && desc[k].kind.Extension?
    ensures var descs := desc[k].kind.descs; forall j :: 0 <= j < |descs| ==> WellFormed(descs[j].desc)
  {
  }

  /** What is shown behind the fields that all processing units have. */
  function ProcessPart(desc: Desc, processType: nat, buf: seq<byte>, base: nat, at: nat): seq<Event>
    requires IsProcessingUnit(desc) && at < |buf| < NO_COUNT
  {
    match ProcessSpecific(desc, processType)
    case Some(d) =>
      SpecificIsWellFormed(desc, processType);
      Dump(d, buf[at..], base + at).events
    case None => [Junk(base + at, |buf| - at, buf[at..])]
  }

  lemma ExtensionFor(events: seq<Event>, desc: Desc, descs: seq<DescExt>, v: nat, buf: seq<byte>, base: nat, at: nat)
    requires IsProcessingUnit(desc) && at < |buf| < NO_COUNT && v < 0x1_0000_0000
    requires desc != [] && desc[|desc| - 1].kind.Extension? && descs == desc[|desc| - 1].kind.descs
    requires forall j :: 0 <= j < |descs| ==> WellFormed(descs[j].desc)
    requires ShowsExtension(events, descs, v % 0x1_0000_0000, buf, base, at)
    ensures events == ProcessPart(desc, v, buf, base, at)
  {
    hide IsProcessingUnit, WellFormed, Dump, ProcessSpecific, Picks;
    ProcessTable(desc, v);
    if ProcessSpecific(desc, v).Some? {
      var j: nat :| j < |descs| && Picks(descs, v, j) && descs[j].desc == ProcessSpecific(desc, v).value;
      assert v % 0x1_0000_0000 == v;
    }
  }

  /** A processing unit in any descriptor that reaches its extension: behind the fields before it,
      each at its place, stands the dump of the rest as what the two bytes of its type name, or
      junk for any other type. */
  lemma ProcessingUnitDump(desc: Desc, buf: seq<byte>, base: nat, v: nat)
    requires IsProcessingUnit(desc) && 3 <= |buf| < NO_COUNT && v == (buf[1] as nat) + 256 * (buf[2] as nat)
    ensures WellFormed(desc) && desc != [] && Known(desc, buf, |desc| - 1)
    ensures var at := Start(desc, buf, |desc| - 1);
      at < |buf| ==> Dump(desc, buf, base).events == Layout(desc, buf, base, |desc| - 1) + ProcessPart(desc, v, buf, base, at)
  {
    hide *;
    var k := |desc| - 1;
    ProcessingUnitIsRegular(desc);
    RegularResolves(desc);
    ProcessTable(desc, v);
    RegularKnown(desc, buf, k);
    DoesNotExitFirst(desc, buf);
    SizeOne(desc, buf, k);
    ProcessTypeRead(desc, buf, v);
    var at := Start(desc, buf, k);
    ListedAreWellFormed(desc, k);
    if at < |buf| {
      ExtensionDump(desc, buf, base, k, v);
      var front, events := Layout(desc, buf, base, k), Dump(desc, buf, base).events;
      ExtensionFor(events[|front|..], desc, desc[k].kind.descs, v, buf, base, at);
      assert events == front + events[|front|..];
    }
  }

  // ---- The five definitions with a length behind an array ----

  /** Fields of one entry and fixed size, except that field `a` is an array counted by the one
      byte of field `c` before it; no two of the first `c + 1` have the same name. */
  predicate OneArrayBefore(desc: Desc, c: nat, a: nat, k: nat) {
    && 1 <= c <= 2 && c < a < k < |desc| && desc[c].size == 1
    && desc[a].repeat == Counted(desc[c].name, None, false)
    && (forall i :: 0 <= i < k ==> !desc[i].kind.Extension? && desc[i].sizeField.None? && (i != a ==> desc[i].repeat.Once?))
    && (forall i :: 0 <= i < c ==> desc[i].name != desc[c].name)
  }

  function CountPlace(desc: Desc, c: nat): nat
    requires c < |desc| && 1 <= c <= 2
  {
    desc[0].size + if c == 2 then desc[1].size else 0
  }

  lemma OffsetOfCount(desc: Desc, buf: seq<byte>, c: nat)
    requires Resolves(desc) && 1 <= c <= 2 && c < |desc|
    requires forall i :: 0 <= i < c ==> desc[i].sizeField.None?
    ensures LookupOffset(desc, buf, c) == CountPlace(desc, c)
  {
    hide Resolves, ValueAt, Find;
    assert LookupOffset(desc, buf, 0) == 0;
    assert Size(desc, buf, 0) == desc[0].size;
    assert LookupOffset(desc, buf, 1) == desc[0].size;
    assert c == 2 ==> Size(desc, buf, 1) == desc[1].size;
  }

  lemma CountIsByte(desc: Desc, buf: seq<byte>, c: nat)
    requires Resolves(desc) && 1 <= c <= 2 && c < |desc| && desc[c].size == 1 && CountPlace(desc, c) < |buf|
    requires forall i :: 0 <= i < c ==> desc[i].sizeField.None?
    requires Find(desc, desc[c].name) == c
    ensures Value(desc, buf, desc[c].name) == buf[CountPlace(desc, c)]
  {
    hide Resolves, Find, LookupOffset, CountPlace;
    OffsetOfCount(desc, buf, c);
    OneByte(buf, CountPlace(desc, c));
  }

  lemma OneByte(buf: seq<byte>, at: nat)
    requires at < |buf|
    ensures NumberAt(buf, at, 1) == buf[at]
  {
    var b := buf[at..at + 1];
    assert b[0] == buf[at] && b[1..] == [];
    assert LittleEndian(b) == b[0] + 256 * LittleEndian(b[1..]);
  }

  /** Behind one array, lookup and dump agree on the place of a field exactly when the byte
      that counts the array is 1. */
  lemma BehindOneArray(desc: Desc, buf: seq<byte>, c: nat, a: nat, k: nat)
    requires Regular(desc) && OneArrayBefore(desc, c, a, k) && CountPlace(desc, c) < |buf| < UINT_RANGE
    ensures Known(desc, buf, k)
    ensures LookupOffset(desc, buf, k) == Start(desc, buf, k) <==> buf[CountPlace(desc, c)] == 1
  {
    RegularResolves(desc);
    FindIs(desc, desc[c].name, c);
    hide Regular, Resolves, Start, LookupOffset, Known, Value, Find;
    CountIsByte(desc, buf, c);
    DisplacedLookup(desc, buf, a, k);
  }

  lemma Audio1AcMixerUnitShape()
    ensures OneArrayBefore(AUDIO_1_AC_MIXER_UNIT, 1, 2, 3) && CountPlace(AUDIO_1_AC_MIXER_UNIT, 1) == 1
        && Find(AUDIO_1_AC_MIXER_UNIT, "bNrChannels") == 3
  {
    hide Find;
    FindIs(AUDIO_1_AC_MIXER_UNIT, "bNrChannels", 3);
  }

  lemma Audio2AcMixerUnitShape()
    ensures OneArrayBefore(AUDIO_2_AC_MIXER_UNIT, 1, 2, 3) && CountPlace(AUDIO_2_AC_MIXER_UNIT, 1) == 1
        && Find(AUDIO_2_AC_MIXER_UNIT, "bNrChannels") == 3
  {
    hide Find;
    FindIs(AUDIO_2_AC_MIXER_UNIT, "bNrChannels", 3);
  }

  lemma Audio1AcProcessingUnitShape()
    ensures OneArrayBefore(AUDIO_1_AC_PROCESSING_UNIT, 2, 3, 7) && CountPlace(AUDIO_1_AC_PROCESSING_UNIT, 2) == 3
        && Find(AUDIO_1_AC_PROCESSING_UNIT, "bControlSize") == 7
  {
    hide Find;
    FindIs(AUDIO_1_AC_PROCESSING_UNIT, "bControlSize", 7);
  }

  lemma Audio1AcExtensionUnitShape()
    ensures OneArrayBefore(AUDIO_1_AC_EXTENSION_UNIT, 2, 3, 7) && CountPlace(AUDIO_1_AC_EXTENSION_UNIT, 2) == 3
        && Find(AUDIO_1_AC_EXTENSION_UNIT, "bControlSize") == 7
  {
    hide Find;
    FindIs(AUDIO_1_AC_EXTENSION_UNIT, "bControlSize", 7);
  }

  lemma MidiMsElementShape()
    ensures OneArrayBefore(MIDI_MS_ELEMENT, 1, 2, 6) && CountPlace(MIDI_MS_ELEMENT, 1) == 1
        && Find(MIDI_MS_ELEMENT, "bElCapsSize") == 6
  {
    hide Find;
    FindIs(MIDI_MS_ELEMENT, "bElCapsSize", 6);
  }

  /** The definitions in which field `late`, which gives a length, stands behind an array that
      the byte at `place` counts. */
  predicate LengthBehindArray(desc: Desc, late: string, place: nat) {
    || (desc == AUDIO_1_AC_MIXER_UNIT && late == "bNrChannels" && place == 1)
    || (desc == AUDIO_2_AC_MIXER_UNIT && late == "bNrChannels" && place == 1)
    || (desc == AUDIO_1_AC_PROCESSING_UNIT && late == "bControlSize" && place == 3)
    || (desc == AUDIO_1_AC_EXTENSION_UNIT && late == "bControlSize" && place == 3)
    || (desc == MIDI_MS_ELEMENT && late == "bElCapsSize" && place == 1)
  }

  /** In these five definitions the length is looked up where it is shown exactly when the
      array in front of it has one entry. */
  lemma LengthsBehindArrays(desc: Desc, late: string, place: nat, buf: seq<byte>)
    requires LengthBehindArray(desc, late, place) && place < |buf| < UINT_RANGE
    ensures Regular(desc) && Find(desc, late) < |desc| && Known(desc, buf, Find(desc, late))
    ensures LookupOffset(desc, buf, Find(desc, late)) == Start(desc, buf, Find(desc, late)) <==> buf[place] == 1
  {
    var c, a := ShapeOf(desc, late, place);
    hide *;
    BehindOneArray(desc, buf, c, a, Find(desc, late));
  }

  lemma ShapeOf(desc: Desc, late: string, place: nat) returns (c: nat, a: nat)
    requires LengthBehindArray(desc, late, place)
    ensures OneArrayBefore(desc, c, a, Find(desc, late)) && CountPlace(desc, c) == place && Regular(desc)
  {
    hide OneArrayBefore, CountPlace, Regular, Find;
    if desc == AUDIO_1_AC_MIXER_UNIT && late == "bNrChannels" {
      Audio1AcMixerUnitShape();
      Audio1AcMixerUnitIsRegular();
      c, a := 1, 2;
    } else if desc == AUDIO_2_AC_MIXER_UNIT && late == "bNrChannels" {
      Audio2AcMixerUnitShape();
      Audio2AcMixerUnitIsRegular();
      c, a := 1, 2;
    } else if desc == AUDIO_1_AC_PROCESSING_UNIT && late == "bControlSize" {
      Audio1AcProcessingUnitShape();
      Audio1AcProcessingUnitIsRegular();
      c, a := 2, 3;
    } else if desc == AUDIO_1_AC_EXTENSION_UNIT && late == "bControlSize" {
      Audio1AcExtensionUnitShape();
      Audio1AcExtensionUnitIsRegular();
      c, a := 2, 3;
    } else if desc == MIDI_MS_ELEMENT && late == "bElCapsSize" {
      MidiMsElementShape();
      MidiMsElementIsRegular();
      c, a := 1, 2;
    }
  }

  // ---- The values looked up there ----

  /** All of fixed size: the bytes of one entry of each field before `k`. */
  function Sizes(desc: Desc, k: nat): nat
    requires k <= |desc|
  {
    if k == 0 then 0 else Sizes(desc, k - 1) + desc[k - 1].size
  }

  lemma {:induction false} OffsetIsSizes(desc: Desc, buf: seq<byte>, k: nat)
    requires Resolves(desc) && k <= |desc| && forall i :: 0 <= i < k ==> desc[i].sizeField.None?
    ensures LookupOffset(desc, buf, k) == Sizes(desc, k)
  {
    hide Resolves;
    if k > 0 {
      OffsetIsSizes(desc, buf, k - 1);
    }
  }

  lemma {:induction false} SizesGrow(desc: Desc, i: nat, k: nat)
    requires i < k <= |desc|
    ensures Sizes(desc, i) + desc[i].size <= Sizes(desc, k)
  {
    if i < k - 1 {
      SizesGrow(desc, i, k - 1);
    }
  }

  lemma {:induction false} SizesAreSmall(desc: Desc, k: nat)
    requires Regular(desc) && k <= |desc|
    ensures Sizes(desc, k) <= 255 * k
  {
    hide Regular;
    if k > 0 {
      RegularLengths(desc, k - 1);
      SizesAreSmall(desc, k - 1);
    }
  }

  /** Where the field behind the array stands, given the count. */
  function Behind(desc: Desc, a: nat, k: nat, n: byte): int
    requires a < k <= |desc|
  {
    Sizes(desc, k) - desc[a].size + n * desc[a].size
  }

  lemma StartBehindArray(desc: Desc, buf: seq<byte>, c: nat, a: nat, k: nat, n: byte)
    requires Regular(desc) && OneArrayBefore(desc, c, a, k) && |buf| < UINT_RANGE
    requires CountPlace(desc, c) < |buf| && buf[CountPlace(desc, c)] == n
    ensures Known(desc, buf, k)
    ensures Start(desc, buf, k) == Behind(desc, a, k, n) && LookupOffset(desc, buf, k) == Sizes(desc, k)
  {
    RegularResolves(desc);
    RegularLengths(desc, a);
    FindIs(desc, desc[c].name, c);
    hide Regular, Resolves, Start, LookupOffset, Known, Value, Find, Span, Sizes, CountPlace, EntrySize, CountedEntries, Sized;
    CountIsByte(desc, buf, c);
    RegularKnown(desc, buf, k);
    ArrayDisplaces(desc, buf, a, k);
    CountIsMeant(desc, buf, a);
    EntriesAreCounted(desc, buf, a);
    SizeOfArray(desc, buf, a);
    SpanIsProduct(desc[a].size, n);
    OffsetIsSizes(desc, buf, k);
  }

  lemma SizeOfArray(desc: Desc, buf: seq<byte>, a: nat)
    requires Resolves(desc) && a < |desc| && desc[a].sizeField.None? && Sized(desc, |desc|)
    ensures EntrySize(desc, buf, a) == Got(desc[a].size) && desc[a].size > 0
  {
  }

  /** A field of one byte that stands once. */
  predicate ByteField(f: Field) { f.size == 1 && f.sizeField.None? && f.repeat.Once? && !f.kind.Bcd? && !f.kind.Extension? }

  /** The descriptor goes on to the end of field `k`. */
  predicate Reaches(desc: Desc, buf: seq<byte>, k: nat)
    requires Resolves(desc) && k < |desc|
  {
    |buf| < NO_COUNT && Known(desc, buf, k) && Start(desc, buf, k) + desc[k].size <= |buf|
  }

  /** The value that lookups of field `k` use is the value the dump shows for it. */
  predicate SameValue(desc: Desc, buf: seq<byte>, k: nat)
    requires WellFormed(desc) && k < |desc| && Reaches(desc, buf, k)
  {
    var shown := ShownAt(desc, buf, 0, k);
    shown.Some? && shown.value.Shown? && LittleEndian(shown.value.shown) == ValueAt(desc, buf, k)
  }

  lemma ByteShown(desc: Desc, buf: seq<byte>, k: nat)
    requires Regular(desc) && WellFormed(desc) && k < |desc| && ByteField(desc[k]) && Reaches(desc, buf, k)
    requires forall i :: 0 <= i < k ==> !desc[i].kind.Extension?
    requires LookupOffset(desc, buf, k) < |buf|
    ensures SameValue(desc, buf, k) <==> buf[Start(desc, buf, k)] == buf[LookupOffset(desc, buf, k)]
  {
    hide Regular, WellFormed, Start, LookupOffset, Known, ShownAt, EntrySize, LittleEndian;
    RegularResolves(desc);
    RegularFieldShown(desc, buf, 0, k);
    RegularByte(desc, buf, k);
    OneByte(buf, LookupOffset(desc, buf, k));
    OneByte(buf, Start(desc, buf, k));
  }

  lemma RegularByte(desc: Desc, buf: seq<byte>, k: nat)
    requires Regular(desc) && k < |desc| && ByteField(desc[k])
    ensures Resolves(desc) && EntrySize(desc, buf, k) == Got(1)
  {
    RegularResolves(desc);
    SizeOfArray(desc, buf, k);
  }

  /** Zeros but for the count and one byte. */
  function Marked(len: nat, place: nat, n: byte, mark: nat): (b: seq<byte>)
    ensures |b| == len && forall i :: 0 <= i < len ==> b[i] == if i == place then n else if i == mark then 1 else 0
  {
    seq(len, i => if i == place then n else if i == mark then 1 else 0)
  }

  lemma NotWhereItStands(size: nat, n: byte)
    requires size > 0 && n != 1
    ensures n * size != size && (n == 0 ==> n * size == 0) && (n > 0 ==> n * size >= size)
    ensures size <= 255 ==> n * size <= 65025
  {
    if n > 1 {
      assert n * size == size + (n - 1) * size && (n - 1) * size >= size;
    }
    if size <= 255 {
      assert n * size <= 255 * size;
    }
  }

  lemma PlaceIsSizes(desc: Desc, c: nat)
    requires 1 <= c <= 2 && c < |desc|
    ensures CountPlace(desc, c) == Sizes(desc, c)
  {
    assert Sizes(desc, 1) == Sizes(desc, 0) + desc[0].size;
    assert c == 2 ==> Sizes(desc, 2) == Sizes(desc, 1) + desc[1].size;
  }

  /** With any other count some descriptor shows another value there. */
  lemma OtherCountDiffers(desc: Desc, c: nat, a: nat, k: nat, n: byte) returns (buf: seq<byte>)
    requires Regular(desc) && WellFormed(desc) && OneArrayBefore(desc, c, a, k) && ByteField(desc[k]) && k <= 7 && n != 1
    ensures CountPlace(desc, c) < |buf| && buf[CountPlace(desc, c)] == n && Reaches(desc, buf, k) && !SameValue(desc, buf, k)
  {
    RegularResolves(desc);
    RegularLengths(desc, a);
    SizeOfArray(desc, [], a);
    hide Regular, WellFormed, Resolves, Start, LookupOffset, Known, SameValue, Sizes, CountPlace, Sized;
    PlaceIsSizes(desc, c);
    SizesGrow(desc, c, a);
    SizesGrow(desc, a, k);
    SizesAreSmall(desc, k);
    NotWhereItStands(desc[a].size, n);
    var at, off := Behind(desc, a, k, n), Sizes(desc, k);
    buf := Marked(if at > off then at + 1 else off + 1, CountPlace(desc, c), n, at);
    StartBehindArray(desc, buf, c, a, k, n);
    ByteShown(desc, buf, k);
  }

  lemma OneEntryAgrees(desc: Desc, buf: seq<byte>, c: nat, a: nat, k: nat)
    requires Regular(desc) && WellFormed(desc) && OneArrayBefore(desc, c, a, k) && ByteField(desc[k]) && Reaches(desc, buf, k)
    requires CountPlace(desc, c) < |buf| && buf[CountPlace(desc, c)] == 1
    ensures SameValue(desc, buf, k)
  {
    hide Regular, WellFormed, Resolves, Start, LookupOffset, Known, SameValue, Sizes, CountPlace;
    StartBehindArray(desc, buf, c, a, k, 1);
    ByteShown(desc, buf, k);
  }

  lemma LateIsByte(desc: Desc, late: string, place: nat)
    requires LengthBehindArray(desc, late, place)
    ensures Find(desc, late) < |desc| && Find(desc, late) <= 7 && ByteField(desc[Find(desc, late)])
  {
    hide OneArrayBefore, CountPlace, Find;
    if desc == AUDIO_1_AC_MIXER_UNIT && late == "bNrChannels" {
      Audio1AcMixerUnitShape();
    } else if desc == AUDIO_2_AC_MIXER_UNIT && late == "bNrChannels" {
      Audio2AcMixerUnitShape();
    } else if desc == AUDIO_1_AC_PROCESSING_UNIT && late == "bControlSize" {
      Audio1AcProcessingUnitShape();
    } else if desc == AUDIO_1_AC_EXTENSION_UNIT && late == "bControlSize" {
      Audio1AcExtensionUnitShape();
    } else if desc == MIDI_MS_ELEMENT && late == "bElCapsSize" {
      MidiMsElementShape();
    }
  }

  /** In these five definitions the length looked up is the length shown in every descriptor that
      goes on to it and has this count, if and only if the count is 1. */
  lemma LateValuesAgree(desc: Desc, late: string, place: nat, n: byte)
    requires LengthBehindArray(desc, late, place)
    ensures WellFormed(desc) && Find(desc, late) < |desc|
    ensures (forall buf: seq<byte> :: place < |buf| && buf[place] == n && Reaches(desc, buf, Find(desc, late)) ==>
               SameValue(desc, buf, Find(desc, late)))
        <==> n == 1
  {
    var c, a := ShapeOf(desc, late, place);
    LateIsByte(desc, late, place);
    hide *;
    RegularResolves(desc);
    var k := Find(desc, late);
    if n == 1 {
      forall buf: seq<byte> | place < |buf| && buf[place] == n && Reaches(desc, buf, k) ensures SameValue(desc, buf, k) {
        OneEntryAgrees(desc, buf, c, a, k);
      }
    } else {
      var buf := OtherCountDiffers(desc, c, a, k, n);
    }
  }

  // ---- An example ----

  lemma Offset3(desc: Desc, buf: seq<byte>)
    requires Resolves(desc) && 3 < |desc| && forall i :: 0 <= i < 3 ==> desc[i].sizeField.None?
    ensures LookupOffset(desc, buf, 3) == desc[0].size + desc[1].size + desc[2].size
  {
    hide Resolves, ValueAt, Find;
    assert Size(desc, buf, 0) == desc[0].size && Size(desc, buf, 1) == desc[1].size && Size(desc, buf, 2) == desc[2].size;
    assert LookupOffset(desc, buf, 1) == desc[0].size;
    assert LookupOffset(desc, buf, 2) == desc[0].size + desc[1].size;
  }

  /** With two inputs the second source stands where lookups expect the number of channels. */
  lemma LateLength(desc: Desc, buf: seq<byte>)
    requires Regular(desc) && OneArrayBefore(desc, 1, 2, 3) && |buf| == 5 && buf[1] == 2
    requires desc[0].size == 1 && desc[2].size == 1 && desc[3].size == 1
    requires desc[3].repeat.Once? && desc[3].kind.Number? && desc[3].sizeField.None?
    requires Find(desc, desc[3].name) == 3
    ensures Value(desc, buf, desc[3].name) == buf[3]
    ensures Known(desc, buf, 3) && Start(desc, buf, 3) == 4
    ensures ShownAt(desc, buf, 0, 3) == Some(Shown(desc[3].name, 0, 4, 1, [buf[4]]))
  {
    RegularResolves(desc);
    FindIs(desc, desc[1].name, 1);
    hide Regular, Resolves, Start, LookupOffset, Known, Value, Find, ShownAt, EntrySize,
      CountedEntries, Meant, Span, ArrayCount, Sized, ByteLengths;
    CountIsByte(desc, buf, 1);
    Offset3(desc, buf);
    RegularKnown(desc, buf, 3);
    ArrayDisplaces(desc, buf, 2, 3);
    EntriesOfCounted(desc, buf);
    SizesOfOne(desc, buf);
    SpanOfTwo();
    RegularFieldShown(desc, buf, 0, 3);
    LateValue(desc, buf);
    assert buf[4..5] == [buf[4]];
  }

  lemma EntriesOfCounted(desc: Desc, buf: seq<byte>)
    requires Regular(desc) && OneArrayBefore(desc, 1, 2, 3) && Value(desc, buf, desc[1].name) == 2 && |buf| < UINT_RANGE
    ensures Entries(desc, buf, 2) == Got(2)
  {
    RegularResolves(desc);
    RegularLengths(desc, 2);
    hide Regular, Resolves, Value, Find, CountedEntries;
    CountIsMeant(desc, buf, 2);
  }

  lemma SizesOfOne(desc: Desc, buf: seq<byte>)
    requires Resolves(desc) && 3 < |desc| && desc[2].size == 1 && desc[3].size == 1
    requires desc[2].sizeField.None? && desc[3].sizeField.None?
    ensures EntrySize(desc, buf, 2) == Got(1) && EntrySize(desc, buf, 3) == Got(1)
  {
  }

  lemma SpanOfTwo()
    ensures Span(1, 2) == 2
  {
    SpanIsProduct(1, 2);
  }

  lemma LateValue(desc: Desc, buf: seq<byte>)
    requires Resolves(desc) && 3 < |desc| && Find(desc, desc[3].name) == 3 && desc[3].size == 1
    requires LookupOffset(desc, buf, 3) == 3 < |buf|
    ensures Value(desc, buf, desc[3].name) == buf[3]
  {
    hide Resolves, LookupOffset, Find;
    OneByte(buf, 3);
  }

  /** A mixer unit with two sources, 3 and 4, and two channels: the dump shows 2 for
      bNrChannels, and computes the length of bmControls from the source 4. */
  lemma MixerCountsTheWrongByte()
    ensures var buf: seq<byte> := [1, 2, 3, 4, 2];
      && Regular(AUDIO_1_AC_MIXER_UNIT) && Known(AUDIO_1_AC_MIXER_UNIT, buf, 3)
          && Start(AUDIO_1_AC_MIXER_UNIT, buf, 3) == 4
      && ShownAt(AUDIO_1_AC_MIXER_UNIT, buf, 0, 3) == Some(Shown("bNrChannels", 0, 4, 1, [2]))
      && Value(AUDIO_1_AC_MIXER_UNIT, buf, "bNrChannels") == 4
  {
    hide Regular, Find, Known, Start, ShownAt, Value;
    Audio1AcMixerUnitIsRegular();
    Audio1AcMixerUnitShape();
    LateLength(AUDIO_1_AC_MIXER_UNIT, [1, 2, 3, 4, 2]);
  }
}
