/** The descriptor definitions of the audio, MIDI and USB 3 classes, and what they satisfy. */
module DescDefs {
  import opened Words
  import opened DescTable
  import opened DescCount
  import opened DescDump
  import opened DescLayout
  import opened DescInferred
  import opened DescRegular

  function Single(name: string, size: uint32, kind: FieldType): Field { Field(name, size, None, kind, Once) }

  const UNDEFINED: Desc := []

  // Table 4-2 in section 4.3.2 of USB Audio 1.0.
  const AUDIO_1_AC_HEADER: Desc := [
    Single("bcdADC", 2, Bcd),
    Single("wTotalLength", 2, Constant),
    Single("bInCollection", 1, Constant),
    Field("baInterfaceNr", 1, None, Number, Inferred)
  ]

  // Table 4-5 in section 4.7.2 of USB Audio 2.0.
  const AUDIO_2_AC_HEADER: Desc := [
    Single("bcdADC", 2, Bcd),
    Single("bCategory", 1, Constant),
    Single("wTotalLength", 2, Number),
    Single("bmControls", 1, BmControl2)
  ]

  // Table 4-15 in section 4.5.2 of USB Audio 3.0.
  const AUDIO_3_AC_HEADER: Desc := [
    Single("bCategory", 1, Constant),
    Single("wTotalLength", 2, Number),
    Single("bmControls", 4, BmControl2)
  ]

  // Table 4-15 in section 4.7.2.10 of USB Audio 2.0.
  const AUDIO_2_AC_EFFECT_UNIT: Desc := [
    Single("bUnitID", 1, Number),
    Single("wEffectType", 2, Constant),
    Single("bSourceID", 1, Constant),
    Field("bmaControls", 4, None, Bitmap, Inferred),
    Single("iEffects", 1, StrDescIndex)
  ]

  // Table 4-33 in section 4.5.2.9 of USB Audio 3.0.
  const AUDIO_3_AC_EFFECT_UNIT: Desc := [
    Single("bUnitID", 1, Number),
    Single("wEffectType", 2, Constant),
    Single("bSourceID", 1, Constant),
    Field("bmaControls", 4, None, Bitmap, Inferred),
    Single("wEffectsDescrStr", 2, CsStrDescId)
  ]

  // Table 4-3 in section 4.3.2.1 of USB Audio 1.0.
  const AUDIO_1_AC_INPUT_TERMINAL: Desc := [
    Single("bTerminalID", 1, Number),
    Single("wTerminalType", 2, TerminalStr),
    Single("bAssocTerminal", 1, Constant),
    Single("bNrChannels", 1, Number),
    Single("wChannelConfig", 2, BitmapStrings),
    Single("iChannelNames", 1, StrDescIndex),
    Single("iTerminal", 1, StrDescIndex)
  ]

  // Table 4-9 in section 4.7.2.4 of USB Audio 2.0.
  const AUDIO_2_AC_INPUT_TERMINAL: Desc := [
    Single("bTerminalID", 1, Number),
    Single("wTerminalType", 2, TerminalStr),
    Single("bAssocTerminal", 1, Constant),
    Single("bCSourceID", 1, Constant),
    Single("bNrChannels", 1, Number),
    Single("bmChannelConfig", 4, BitmapStrings),
    Single("iChannelNames", 1, StrDescIndex),
    Single("bmControls", 2, BmControl2),
    Single("iTerminal", 1, StrDescIndex)
  ]

  // Table 4-16 in section 4.5.2.1 of USB Audio 3.0.
  const AUDIO_3_AC_INPUT_TERMINAL: Desc := [
    Single("bTerminalID", 1, Number),
    Single("wTerminalType", 2, TerminalStr),
    Single("bAssocTerminal", 1, Number),
    Single("bCSourceID", 1, Number),
    Single("bmControls", 4, BmControl2),
    Single("wClusterDescrID", 2, Number),
    Single("wExTerminalDescrID", 2, Number),
    Single("wConnectorsDescrID", 2, Number),
    Single("wTerminalDescrStr", 2, CsStrDescId)
  ]

  // Table 4-4 in section 4.3.2.2 of USB Audio 1.0.
  const AUDIO_1_AC_OUTPUT_TERMINAL: Desc := [
    Single("bTerminalID", 1, Number),
    Single("wTerminalType", 2, TerminalStr),
    Single("bAssocTerminal", 1, Number),
    Single("bSourceID", 1, Number),
    Single("iTerminal", 1, StrDescIndex)
  ]

  // Table 4-10 in section 4.7.2.5 of USB Audio 2.0.
  const AUDIO_2_AC_OUTPUT_TERMINAL: Desc := [
    Single("bTerminalID", 1, Number),
    Single("wTerminalType", 2, TerminalStr),
    Single("bAssocTerminal", 1, Number),
    Single("bSourceID", 1, Number),
    Single("bCSourceID", 1, Number),
    Single("bmControls", 2, BmControl2),
    Single("iTerminal", 1, StrDescIndex)
  ]

  // Table 4-17 in section 4.5.2.2 of USB Audio 3.0.
  const AUDIO_3_AC_OUTPUT_TERMINAL: Desc := [
    Single("bTerminalID", 1, Number),
    Single("wTerminalType", 2, TerminalStr),
    Single("bAssocTerminal", 1, Number),
    Single("bSourceID", 1, Number),
    Single("bCSourceID", 1, Number),
    Single("bmControls", 4, BmControl2),
    Single("wExTerminalDescrID", 2, Number),
    Single("wConnectorsDescrID", 2, Number),
    Single("wTerminalDescrStr", 2, CsStrDescId)
  ]

  // Table 4-18 in section 4.5.2.3.1 of USB Audio 3.0.
  const AUDIO_3_AC_EXTENDED_TERMINAL_HEADER: Desc := [
    Single("wDescriptorID", 2, Number),
    Single("bNrChannels", 1, Number)
  ]

  // Table 4-46 in section 4.5.2.15 of USB Audio 3.0.
  const AUDIO_3_AC_POWER_DOMAIN: Desc := [
    Single("bPowerDomainID", 1, Number),
    Single("waRecoveryTime(1)", 2, Number),
    Single("waRecoveryTime(2)", 2, Number),
    Single("bNrEntities", 1, Number),
    Field("baEntityID", 1, None, Number, Counted("bNrEntities", None, false)),
    Single("wPDomainDescrStr", 2, CsStrDescId)
  ]

  // Table 4-5 in section 4.3.2.3 of USB Audio 1.0.
  const AUDIO_1_AC_MIXER_UNIT: Desc := [
    Single("bUnitID", 1, Number),
    Single("bNrInPins", 1, Number),
    Field("baSourceID", 1, None, Number, Counted("bNrInPins", None, false)),
    Single("bNrChannels", 1, Number),
    Single("wChannelConfig", 2, BitmapStrings),
    Single("iChannelNames", 1, StrDescIndex),
    Field("bmControls", 1, None, Bitmap, Counted("bNrInPins", Some("bNrChannels"), true)),
    Single("iMixer", 1, StrDescIndex)
  ]

  // Table 4-11 in section 4.7.2.6 of USB Audio 2.0.
  const AUDIO_2_AC_MIXER_UNIT: Desc := [
    Single("bUnitID", 1, Number),
    Single("bNrInPins", 1, Number),
    Field("baSourceID", 1, None, Number, Counted("bNrInPins", None, false)),
    Single("bNrChannels", 1, Number),
    Single("bmChannelConfig", 4, BitmapStrings),
    Single("iChannelNames", 1, StrDescIndex),
    Field("bmMixerControls", 1, None, Bitmap, Counted("bNrInPins", Some("bNrChannels"), true)),
    Single("bmControls", 1, BmControl2),
    Single("iMixer", 1, StrDescIndex)
  ]

  // Table 4-29 in section 4.5.2.5 of USB Audio 3.0.
  const AUDIO_3_AC_MIXER_UNIT: Desc := [
    Single("bUnitID", 1, Number),
    Single("bNrInPins", 1, Number),
    Field("baSourceID", 1, None, Number, Counted("bNrInPins", None, false)),
    Single("wClusterDescrID", 2, Number),
    Field("bmMixerControls", 1, None, Bitmap, Inferred),
    Single("bmControls", 4, BmControl2),
    Single("wMixerDescrStr", 2, CsStrDescId)
  ]

  // Table 4-6 in section 4.3.2.4 of USB Audio 1.0.
  const AUDIO_1_AC_SELECTOR_UNIT: Desc := [
    Single("bUnitID", 1, Number),
    Single("bNrInPins", 1, Number),
    Field("baSourceID", 1, None, Number, Counted("bNrInPins", None, false)),
    Single("iSelector", 1, StrDescIndex)
  ]

  // Table 4-12 in section 4.7.2.7 of USB Audio 2.0.
  const AUDIO_2_AC_SELECTOR_UNIT: Desc := [
    Single("bUnitID", 1, Number),
    Single("bNrInPins", 1, Number),
    Field("baSourceID", 1, None, Number, Counted("bNrInPins", None, false)),
    Single("bmControls", 1, BmControl2),
    Single("iSelector", 1, StrDescIndex)
  ]

  // Table 4-30 in section 4.5.2.6 of USB Audio 3.0.
  const AUDIO_3_AC_SELECTOR_UNIT: Desc := [
    Single("bUnitID", 1, Number),
    Single("bNrInPins", 1, Number),
    Field("baSourceID", 1, None, Number, Counted("bNrInPins", None, false)),
    Single("bmControls", 4, BmControl2),
    Single("wSelectorDescrStr", 2, CsStrDescId)
  ]

  // Tables 4-9 and 4-10 of USB Audio 1.0: what both add to a processing unit.
  const AUDIO_1_AC_PROC_UNIT_EXTENDED: Desc := [
    Single("bNrModes", 1, Number),
    Field("waModes", 2, None, Bitmap, Counted("bNrModes", None, false))
  ]

  // Table 4-8 in section 4.3.2.6 of USB Audio 1.0.
  const AUDIO_1_AC_PROCESSING_UNIT: Desc := [
    Single("bUnitID", 1, Number),
    Single("wProcessType", 2, NumberStrings),
    Single("bNrInPins", 1, Number),
    Field("baSourceID", 1, None, Number, Counted("bNrInPins", None, false)),
    Single("bNrChannels", 1, Number),
    Single("wChannelConfig", 2, BitmapStrings),
    Single("iChannelNames", 1, StrDescIndex),
    Single("bControlSize", 1, Number),
    Field("bmControls", 1, None, Bitmap, Counted("bControlSize", None, false)),
    Single("iProcessing", 1, StrDescIndex),
    Single("Process-specific", 1, Extension("wProcessType", [
      DescExt(1, AUDIO_1_AC_PROC_UNIT_EXTENDED),
      DescExt(2, AUDIO_1_AC_PROC_UNIT_EXTENDED)]))
  ]

  // Table 4-21 in section 4.7.2.11.1 of USB Audio 2.0.
  const AUDIO_2_AC_PROC_UNIT_UP_DOWN_MIX: Desc := [
    Single("bNrModes", 1, Number),
    Field("daModes", 4, None, Bitmap, Counted("bNrModes", None, false))
  ]

  // Table 4-22 in section 4.7.2.11.2 of USB Audio 2.0.
  const AUDIO_2_AC_PROC_UNIT_DOLBY_PROLOGIC: Desc := [
    Single("bNrModes", 1, Number),
    Field("daModes", 4, None, Bitmap, Counted("bNrModes", None, false))
  ]

  // Table 4-20 in section 4.7.2.11 of USB Audio 2.0.
  const AUDIO_2_AC_PROCESSING_UNIT: Desc := [
    Single("bUnitID", 1, Number),
    Single("wProcessType", 2, NumberStrings),
    Single("bNrInPins", 1, Number),
    Field("baSourceID", 1, None, Number, Counted("bNrInPins", None, false)),
    Single("bNrChannels", 1, Number),
    Single("bmChannelConfig", 4, BitmapStrings),
    Single("iChannelNames", 1, StrDescIndex),
    Single("bmControls", 2, Bitmap),
    Single("iProcessing", 1, StrDescIndex),
    Single("Process-specific", 1, Extension("wProcessType", [
      DescExt(1, AUDIO_2_AC_PROC_UNIT_UP_DOWN_MIX),
      DescExt(2, AUDIO_2_AC_PROC_UNIT_DOLBY_PROLOGIC)]))
  ]

  // Table 4-39 in section 4.5.2.10.1 of USB Audio 3.0.
  const AUDIO_3_AC_PROC_UNIT_UP_DOWN_MIX: Desc := [
    Single("bmControls", 4, BmControl2),
    Single("bNrModes", 1, Number),
    Field("waClusterDescrID", 2, None, Number, Counted("bNrModes", None, false))
  ]

  // Table 4-40 in section 4.5.2.10.2 of USB Audio 3.0.
  const AUDIO_3_AC_PROC_UNIT_STEREO_EXTENDER: Desc := [
    Single("bmControls", 4, BmControl2)
  ]

  // Table 4-41 in section 4.5.2.10.3 of USB Audio 3.0.
  const AUDIO_3_AC_PROC_UNIT_MULTI_FUNCTION: Desc := [
    Single("bmControls", 4, BmControl2),
    Single("wClusterDescrID", 2, Number),
    Single("bmAlgorithms", 4, BitmapStrings)
  ]

  // Table 4-38 in section 4.5.2.10 of USB Audio 3.0.
  const AUDIO_3_AC_PROCESSING_UNIT: Desc := [
    Single("bUnitID", 1, Number),
    Single("wProcessType", 2, NumberStrings),
    Single("bNrInPins", 1, Number),
    Field("baSourceID", 1, None, Number, Counted("bNrInPins", None, false)),
    Single("wProcessingDescrStr", 2, CsStrDescId),
    Single("Process-specific", 1, Extension("wProcessType", [
      DescExt(1, AUDIO_3_AC_PROC_UNIT_UP_DOWN_MIX),
      DescExt(2, AUDIO_3_AC_PROC_UNIT_STEREO_EXTENDER),
      DescExt(3, AUDIO_3_AC_PROC_UNIT_MULTI_FUNCTION)]))
  ]

  // Table 4-7 in section 4.3.2.5 of USB Audio 1.0.
  const AUDIO_1_AC_FEATURE_UNIT: Desc := [
    Single("bUnitID", 1, Number),
    Single("bSourceID", 1, Constant),
    Single("bControlSize", 1, Number),
    Field("bmaControls", 0, Some("bControlSize"), BmControl1, Inferred),
    Single("iFeature", 1, StrDescIndex)
  ]

  // Table 4-13 in section 4.7.2.8 of USB Audio 2.0.
  const AUDIO_2_AC_FEATURE_UNIT: Desc := [
    Single("bUnitID", 1, Number),
    Single("bSourceID", 1, Constant),
    Field("bmaControls", 4, None, BmControl2, Inferred),
    Single("iFeature", 1, StrDescIndex)
  ]

  // Table 4-31 in section 4.5.2.7 of USB Audio 3.0.
  const AUDIO_3_AC_FEATURE_UNIT: Desc := [
    Single("bUnitID", 1, Number),
    Single("bSourceID", 1, Number),
    Field("bmaControls", 4, None, BmControl2, Inferred),
    Single("wFeatureDescrStr", 2, CsStrDescId)
  ]

  // Table 4-15 in section 4.3.2.7 of USB Audio 1.0.
  const AUDIO_1_AC_EXTENSION_UNIT: Desc := [
    Single("bUnitID", 1, Number),
    Single("wExtensionCode", 2, Constant),
    Single("bNrInPins", 1, Number),
    Field("baSourceID", 1, None, Number, Counted("bNrInPins", None, false)),
    Single("bNrChannels", 1, Number),
    Single("wChannelConfig", 2, BitmapStrings),
    Single("iChannelNames", 1, StrDescIndex),
    Single("bControlSize", 1, Number),
    Field("bmControls", 1, None, Bitmap, Counted("bControlSize", None, false)),
    Single("iExtension", 1, StrDescIndex)
  ]

  // Table 4-24 in section 4.7.2.12 of USB Audio 2.0.
  const AUDIO_2_AC_EXTENSION_UNIT: Desc := [
    Single("bUnitID", 1, Number),
    Single("wExtensionCode", 2, Constant),
    Single("bNrInPins", 1, Number),
    Field("baSourceID", 1, None, Number, Counted("bNrInPins", None, false)),
    Single("bNrChannels", 1, Number),
    Single("bmChannelConfig", 4, BitmapStrings),
    Single("iChannelNames", 1, StrDescIndex),
    Single("bmControls", 1, BmControl2),
    Single("iExtension", 1, StrDescIndex)
  ]

  // Table 4-42 in section 4.5.2.11 of USB Audio 3.0.
  const AUDIO_3_AC_EXTENSION_UNIT: Desc := [
    Single("bUnitID", 1, Number),
    Single("wExtensionCode", 2, Constant),
    Single("bNrInPins", 1, Number),
    Field("baSourceID", 1, None, Number, Counted("bNrInPins", None, false)),
    Single("wExtensionDescrStr", 2, CsStrDescId),
    Single("bmControls", 4, BmControl2),
    Single("wClusterDescrID", 2, Number)
  ]

  // Table 4-6 in section 4.7.2.1 of USB Audio 2.0.
  const AUDIO_2_AC_CLOCK_SOURCE: Desc := [
    Single("bClockID", 1, Constant),
    Single("bmAttributes", 1, Snowflake),
    Single("bmControls", 1, BmControl2),
    Single("bAssocTerminal", 1, Constant),
    Single("iClockSource", 1, StrDescIndex)
  ]

  // Table 4-43 in section 4.5.2.12 of USB Audio 3.0.
  const AUDIO_3_AC_CLOCK_SOURCE: Desc := [
    Single("bClockID", 1, Number),
    Single("bmAttributes", 1, Snowflake),
    Single("bmControls", 4, BmControl2),
    Single("bReferenceTerminal", 1, Number),
    Single("wClockSourceStr", 2, CsStrDescId)
  ]

  // Table 4-7 in section 4.7.2.2 of USB Audio 2.0.
  const AUDIO_2_AC_CLOCK_SELECTOR: Desc := [
    Single("bClockID", 1, Number),
    Single("bNrInPins", 1, Number),
    Field("baCSourceID", 1, None, Number, Counted("bNrInPins", None, false)),
    Single("bmControls", 1, BmControl2),
    Single("iClockSelector", 1, StrDescIndex)
  ]

  // Table 4-44 in section 4.5.2.13 of USB Audio 3.0.
  const AUDIO_3_AC_CLOCK_SELECTOR: Desc := [
    Single("bClockID", 1, Number),
    Single("bNrInPins", 1, Number),
    Field("baCSourceID", 1, None, Number, Counted("bNrInPins", None, false)),
    Single("bmControls", 4, BmControl2),
    Single("wCSelectorDescrStr", 2, CsStrDescId)
  ]

  // Table 4-8 in section 4.7.2.3 of USB Audio 2.0.
  const AUDIO_2_AC_CLOCK_MULTIPLIER: Desc := [
    Single("bClockID", 1, Constant),
    Single("bCSourceID", 1, Number),
    Single("bmControls", 1, BmControl2),
    Single("iClockMultiplier", 1, StrDescIndex)
  ]

  // Table 4-45 in section 4.5.2.14 of USB Audio 3.0.
  const AUDIO_3_AC_CLOCK_MULTIPLIER: Desc := [
    Single("bClockID", 1, Number),
    Single("bCSourceID", 1, Number),
    Single("bmControls", 4, BmControl2),
    Single("wCMultiplierDescrStr", 2, CsStrDescId)
  ]

  // Table 4-14 in section 4.7.2.9 of USB Audio 2.0.
  const AUDIO_2_AC_SAMPLE_RATE_CONVERTER: Desc := [
    Single("bUnitID", 1, Constant),
    Single("bSourceID", 1, Constant),
    Single("bCSourceInID", 1, Constant),
    Single("bCSourceOutID", 1, Constant),
    Single("iSRC", 1, StrDescIndex)
  ]

  // Table 4-32 in section 4.5.2.8 of USB Audio 3.0.
  const AUDIO_3_AC_SAMPLE_RATE_CONVERTER: Desc := [
    Single("bUnitID", 1, Number),
    Single("bSourceID", 1, Number),
    Single("bCSourceInID", 1, Number),
    Single("bCSourceOutID", 1, Number),
    Single("wSRCDescrStr", 2, CsStrDescId)
  ]

  // Table 4-19 in section 4.5.2 of USB Audio 1.0.
  const AUDIO_1_AS_INTERFACE: Desc := [
    Single("bTerminalLink", 1, Constant),
    Single("bDelay", 1, NumberPostfix),
    Single("wFormatTag", 2, Snowflake)
  ]

  // Table 4-27 in section 4.9.2 of USB Audio 2.0.
  const AUDIO_2_AS_INTERFACE: Desc := [
    Single("bTerminalLink", 1, Number),
    Single("bmControls", 1, BmControl2),
    Single("bFormatType", 1, Constant),
    Single("bmFormats", 4, Snowflake),
    Single("bNrChannels", 1, Number),
    Single("bmChannelConfig", 4, BitmapStrings),
    Single("iChannelNames", 1, StrDescIndex)
  ]

  // Table 4-49 in section 4.7.2 of USB Audio 3.0.
  const AUDIO_3_AS_INTERFACE: Desc := [
    Single("bTerminalLink", 1, Number),
    Single("bmControls", 4, BmControl2),
    Single("wClusterDescrID", 2, Number),
    Single("bmFormats", 8, Bitmap),
    Single("bSubslotSize", 1, Number),
    Single("bBitResolution", 1, Number),
    Single("bmAuxProtocols", 2, Bitmap),
    Single("bControlSize", 1, Number)
  ]

  // Table 4-21 in section 4.6.1.2 of USB Audio 1.0.
  const AUDIO_1_AS_ISOCHRONOUS_AUDIO_DATA_ENDPOINT: Desc := [
    Single("bmAttributes", 1, BitmapStrings),
    Single("bLockDelayUnits", 1, NumberStrings),
    Single("wLockDelay", 2, Number)
  ]

  // Table 4-34 in section 4.10.1.2 of USB Audio 2.0.
  const AUDIO_2_AS_ISOCHRONOUS_AUDIO_DATA_ENDPOINT: Desc := [
    Single("bmAttributes", 1, BitmapStrings),
    Single("bmControls", 1, BmControl2),
    Single("bLockDelayUnits", 1, NumberStrings),
    Single("wLockDelay", 2, Number)
  ]

  // Table 4-52 in section 4.8.1.2 of USB Audio 3.0.
  const AUDIO_3_AS_ISOCHRONOUS_AUDIO_DATA_ENDPOINT: Desc := [
    Single("bmControls", 4, BmControl2),
    Single("bLockDelayUnits", 1, NumberStrings),
    Single("wLockDelay", 2, Number)
  ]

  // Table 6-2 in section 6.1.2.1 of USB MIDI 1.0.
  const MIDI_MS_HEADER: Desc := [
    Single("bcdMSC", 2, Bcd),
    Single("wTotalLength", 2, Constant)
  ]

  // Table 6-3 in section 6.1.2.2 of USB MIDI 1.0.
  const MIDI_MS_IN_JACK: Desc := [
    Single("bJackType", 1, NumberStrings),
    Single("bJackID", 1, Number),
    Single("iJack", 1, StrDescIndex)
  ]

  // Table 6-4 in section 6.1.2.3 of USB MIDI 1.0.
  const MIDI_MS_OUT_JACK: Desc := [
    Single("bJackType", 1, NumberStrings),
    Single("bJackID", 1, Number),
    Single("bNrInputPins", 1, Number),
    Field("baSource", 2, None, Snowflake, Counted("bNrInputPins", None, false)),
    Single("iJack", 1, StrDescIndex)
  ]

  // Table 6-5 in section 6.1.2.4 of USB MIDI 1.0.
  const MIDI_MS_ELEMENT: Desc := [
    Single("bElementID", 1, Number),
    Single("bNrInputPins", 1, Number),
    Field("baSource", 2, None, Snowflake, Counted("bNrInputPins", None, false)),
    Single("bNrOutputPins", 1, Number),
    Single("bInTerminalLink", 1, Number),
    Single("bOutTerminalLink", 1, Number),
    Single("bElCapsSize", 1, Number),
    Field("bmElementCaps", 0, Some("bElCapsSize"), BitmapStrings, Once),
    Single("iElement", 1, StrDescIndex)
  ]

  // Table 6-7 in section 6.2.2 of USB MIDI 1.0.
  const MIDI_MS_ENDPOINT_GENERAL: Desc := [
    Single("bNumEmbMIDIJack", 1, Number),
    Field("baAssocJackID", 1, None, Number, Counted("bNumEmbMIDIJack", None, false))
  ]

  // Table 9-21 in section 9.6.2.7 of USB 3.0.
  const USB3_DC_CONFIGURATION_SUMMARY: Desc := [
    Single("bLength", 1, Number),
    Single("bDescriptorType", 1, Constant),
    Single("bDevCapabilityType", 1, Number),
    Single("bcdVersion", 2, Bcd),
    Single("bClass", 1, Number),
    Single("bSubClass", 1, Number),
    Single("bProtocol", 1, Number),
    Single("bConfigurationCount", 1, Number),
    Field("bConfigurationIndex", 1, None, Number, Counted("bConfigurationCount", None, false))
  ]

  // ---- The definitions are regular ----

  /** Fields that stand on their own. */
  predicate Simple(f: Field) { f.sizeField.None? && 0 < f.size <= 255 && !f.repeat.Counted? && !f.kind.Extension? }

  lemma SimpleIsRegular(desc: Desc)
    requires forall k :: 0 <= k < |desc| ==> Simple(desc[k])
    requires OneInferred(desc)
    ensures Regular(desc)
  {
  }

  /** Definitions whose fields do not refer to one another: input terminals. */
  const INPUT_DEFS: seq<Desc> := [
    AUDIO_1_AC_INPUT_TERMINAL,
    AUDIO_2_AC_INPUT_TERMINAL,
    AUDIO_3_AC_INPUT_TERMINAL
  ]

  /** Definitions whose fields do not refer to one another: other terminals. */
  const TERMINAL_DEFS: seq<Desc> := [
    AUDIO_1_AC_OUTPUT_TERMINAL,
    AUDIO_2_AC_OUTPUT_TERMINAL,
    AUDIO_3_AC_OUTPUT_TERMINAL,
    AUDIO_3_AC_EXTENDED_TERMINAL_HEADER
  ]

  /** Definitions whose fields do not refer to one another: clocks and rate converters. */
  const CLOCK_DEFS: seq<Desc> := [
    AUDIO_2_AC_CLOCK_SOURCE,
    AUDIO_3_AC_CLOCK_SOURCE,
    AUDIO_2_AC_CLOCK_MULTIPLIER,
    AUDIO_3_AC_CLOCK_MULTIPLIER,
    AUDIO_2_AC_SAMPLE_RATE_CONVERTER,
    AUDIO_3_AC_SAMPLE_RATE_CONVERTER
  ]

  /** Definitions whose fields do not refer to one another: units. */
  const UNIT_DEFS: seq<Desc> := [
    AUDIO_2_AC_EFFECT_UNIT,
    AUDIO_3_AC_EFFECT_UNIT,
    AUDIO_3_AC_PROC_UNIT_STEREO_EXTENDER,
    AUDIO_3_AC_PROC_UNIT_MULTI_FUNCTION,
    AUDIO_2_AC_FEATURE_UNIT,
    AUDIO_3_AC_FEATURE_UNIT
  ]

  /** Definitions whose fields do not refer to one another: streaming interfaces and endpoints. */
  const STREAM_DEFS: seq<Desc> := [
    AUDIO_1_AS_INTERFACE,
    AUDIO_2_AS_INTERFACE,
    AUDIO_3_AS_INTERFACE,
    AUDIO_1_AS_ISOCHRONOUS_AUDIO_DATA_ENDPOINT,
    AUDIO_2_AS_ISOCHRONOUS_AUDIO_DATA_ENDPOINT,
    AUDIO_3_AS_ISOCHRONOUS_AUDIO_DATA_ENDPOINT
  ]

  /** Definitions whose fields do not refer to one another: headers and MIDI. */
  const HEADER_DEFS: seq<Desc> := [
    UNDEFINED,
    AUDIO_1_AC_HEADER,
    AUDIO_2_AC_HEADER,
    AUDIO_3_AC_HEADER,
    MIDI_MS_HEADER,
    MIDI_MS_IN_JACK
  ]

  /** The definitions with sizes, counts or extensions given by other fields. */
  const LINKED_DEFS: seq<Desc> := [
    AUDIO_3_AC_POWER_DOMAIN,
    AUDIO_1_AC_MIXER_UNIT,
    AUDIO_2_AC_MIXER_UNIT,
    AUDIO_3_AC_MIXER_UNIT,
    AUDIO_1_AC_SELECTOR_UNIT,
    AUDIO_2_AC_SELECTOR_UNIT,
    AUDIO_3_AC_SELECTOR_UNIT,
    AUDIO_1_AC_PROC_UNIT_EXTENDED,
    AUDIO_1_AC_PROCESSING_UNIT,
    AUDIO_2_AC_PROC_UNIT_UP_DOWN_MIX,
    AUDIO_2_AC_PROC_UNIT_DOLBY_PROLOGIC,
    AUDIO_2_AC_PROCESSING_UNIT,
    AUDIO_3_AC_PROC_UNIT_UP_DOWN_MIX,
    AUDIO_3_AC_PROCESSING_UNIT,
    AUDIO_1_AC_FEATURE_UNIT,
    AUDIO_1_AC_EXTENSION_UNIT,
    AUDIO_2_AC_EXTENSION_UNIT,
    AUDIO_3_AC_EXTENSION_UNIT,
    AUDIO_2_AC_CLOCK_SELECTOR,
    AUDIO_3_AC_CLOCK_SELECTOR,
    MIDI_MS_OUT_JACK,
    MIDI_MS_ELEMENT,
    MIDI_MS_ENDPOINT_GENERAL,
    USB3_DC_CONFIGURATION_SUMMARY
  ]

  /** One field of a definition seen by itself. */
  predicate Linked(desc: Desc, f: Field, k: nat) {
    && !ZeroSized(f) && ReadsItsOwn(f) && ByteLengths(desc, f)
    && (f.sizeField.Some? ==> Find(desc, f.sizeField.value) < k)
    && (f.kind.Extension? ==> forall j :: 0 <= j < |f.kind.descs| ==> Regular(f.kind.descs[j].desc))
  }

  /** A field that others refer to, found at its place. */
  lemma ByteAt(desc: Desc, name: string, k: nat)
    requires k < |desc| && desc[k].name == name && forall i :: 0 <= i < k ==> desc[i].name != name
    ensures Find(desc, name) == k && (desc[k].size <= 1 ==> IsByte(desc, name))
  {
    FindIs(desc, name, k);
  }

  lemma LinkedIsRegular(desc: Desc)
    requires forall k :: 0 <= k < |desc| ==> Linked(desc, desc[k], k)
    requires OneInferred(desc)
    ensures Regular(desc)
  {
  }

  lemma Audio3AcPowerDomainIsRegular()
    ensures Regular(AUDIO_3_AC_POWER_DOMAIN)
  {
    hide Find, IsByte, Regular;
    ByteAt(AUDIO_3_AC_POWER_DOMAIN, "bNrEntities", 3);
    LinkedIsRegular(AUDIO_3_AC_POWER_DOMAIN);
  }

  lemma Audio1AcMixerUnitNames()
    ensures Find(AUDIO_1_AC_MIXER_UNIT, "bNrInPins") == 1 && IsByte(AUDIO_1_AC_MIXER_UNIT, "bNrInPins")
    ensures Find(AUDIO_1_AC_MIXER_UNIT, "bNrChannels") == 3 && IsByte(AUDIO_1_AC_MIXER_UNIT, "bNrChannels")
  {
    hide Find, IsByte;
    ByteAt(AUDIO_1_AC_MIXER_UNIT, "bNrInPins", 1);
    ByteAt(AUDIO_1_AC_MIXER_UNIT, "bNrChannels", 3);
  }

  lemma Audio1AcMixerUnitIsRegular()
    ensures Regular(AUDIO_1_AC_MIXER_UNIT)
  {
    hide Find, IsByte, Regular;
    Audio1AcMixerUnitNames();
    LinkedIsRegular(AUDIO_1_AC_MIXER_UNIT);
  }

  lemma Audio2AcMixerUnitNames()
    ensures Find(AUDIO_2_AC_MIXER_UNIT, "bNrInPins") == 1 && IsByte(AUDIO_2_AC_MIXER_UNIT, "bNrInPins")
    ensures Find(AUDIO_2_AC_MIXER_UNIT, "bNrChannels") == 3 && IsByte(AUDIO_2_AC_MIXER_UNIT, "bNrChannels")
  {
    hide Find, IsByte;
    ByteAt(AUDIO_2_AC_MIXER_UNIT, "bNrInPins", 1);
    ByteAt(AUDIO_2_AC_MIXER_UNIT, "bNrChannels", 3);
  }

  lemma Audio2AcMixerUnitIsRegular()
    ensures Regular(AUDIO_2_AC_MIXER_UNIT)
  {
    hide Find, IsByte, Regular;
    Audio2AcMixerUnitNames();
    LinkedIsRegular(AUDIO_2_AC_MIXER_UNIT);
  }

  lemma Audio3AcMixerUnitIsRegular()
    ensures Regular(AUDIO_3_AC_MIXER_UNIT)
  {
    hide Find, IsByte, Regular;
    ByteAt(AUDIO_3_AC_MIXER_UNIT, "bNrInPins", 1);
    LinkedIsRegular(AUDIO_3_AC_MIXER_UNIT);
  }

  lemma Audio1AcSelectorUnitIsRegular()
    ensures Regular(AUDIO_1_AC_SELECTOR_UNIT)
  {
    hide Find, IsByte, Regular;
    ByteAt(AUDIO_1_AC_SELECTOR_UNIT, "bNrInPins", 1);
    LinkedIsRegular(AUDIO_1_AC_SELECTOR_UNIT);
  }

  lemma Audio2AcSelectorUnitIsRegular()
    ensures Regular(AUDIO_2_AC_SELECTOR_UNIT)
  {
    hide Find, IsByte, Regular;
    ByteAt(AUDIO_2_AC_SELECTOR_UNIT, "bNrInPins", 1);
    LinkedIsRegular(AUDIO_2_AC_SELECTOR_UNIT);
  }

  lemma Audio3AcSelectorUnitIsRegular()
    ensures Regular(AUDIO_3_AC_SELECTOR_UNIT)
  {
    hide Find, IsByte, Regular;
    ByteAt(AUDIO_3_AC_SELECTOR_UNIT, "bNrInPins", 1);
    LinkedIsRegular(AUDIO_3_AC_SELECTOR_UNIT);
  }

  lemma Audio1AcProcUnitExtendedIsRegular()
    ensures Regular(AUDIO_1_AC_PROC_UNIT_EXTENDED)
  {
    hide Find, IsByte, Regular;
    ByteAt(AUDIO_1_AC_PROC_UNIT_EXTENDED, "bNrModes", 0);
    LinkedIsRegular(AUDIO_1_AC_PROC_UNIT_EXTENDED);
  }

  lemma Audio1AcProcessingUnitNames()
    ensures Find(AUDIO_1_AC_PROCESSING_UNIT, "bNrInPins") == 2 && IsByte(AUDIO_1_AC_PROCESSING_UNIT, "bNrInPins")
    ensures Find(AUDIO_1_AC_PROCESSING_UNIT, "bControlSize") == 7 && IsByte(AUDIO_1_AC_PROCESSING_UNIT, "bControlSize")
    ensures Find(AUDIO_1_AC_PROCESSING_UNIT, "wProcessType") == 1
  {
    hide Find, IsByte;
    ByteAt(AUDIO_1_AC_PROCESSING_UNIT, "bNrInPins", 2);
    ByteAt(AUDIO_1_AC_PROCESSING_UNIT, "bControlSize", 7);
    ByteAt(AUDIO_1_AC_PROCESSING_UNIT, "wProcessType", 1);
  }

  lemma Audio1AcProcessingUnitIsRegular()
    ensures Regular(AUDIO_1_AC_PROCESSING_UNIT)
  {
    hide Find, IsByte, Regular;
    Audio1AcProcessingUnitNames();
    Audio1AcProcUnitExtendedIsRegular();
    LinkedIsRegular(AUDIO_1_AC_PROCESSING_UNIT);
  }

  lemma Audio2AcProcUnitUpDownMixIsRegular()
    ensures Regular(AUDIO_2_AC_PROC_UNIT_UP_DOWN_MIX)
  {
    hide Find, IsByte, Regular;
    ByteAt(AUDIO_2_AC_PROC_UNIT_UP_DOWN_MIX, "bNrModes", 0);
    LinkedIsRegular(AUDIO_2_AC_PROC_UNIT_UP_DOWN_MIX);
  }

  lemma Audio2AcProcUnitDolbyPrologicIsRegular()
    ensures Regular(AUDIO_2_AC_PROC_UNIT_DOLBY_PROLOGIC)
  {
    hide Find, IsByte, Regular;
    ByteAt(AUDIO_2_AC_PROC_UNIT_DOLBY_PROLOGIC, "bNrModes", 0);
    LinkedIsRegular(AUDIO_2_AC_PROC_UNIT_DOLBY_PROLOGIC);
  }

  lemma Audio2AcProcessingUnitNames()
    ensures Find(AUDIO_2_AC_PROCESSING_UNIT, "bNrInPins") == 2 && IsByte(AUDIO_2_AC_PROCESSING_UNIT, "bNrInPins")
    ensures Find(AUDIO_2_AC_PROCESSING_UNIT, "wProcessType") == 1
  {
    hide Find, IsByte;
    ByteAt(AUDIO_2_AC_PROCESSING_UNIT, "bNrInPins", 2);
    ByteAt(AUDIO_2_AC_PROCESSING_UNIT, "wProcessType", 1);
  }

  lemma Audio2AcProcessingUnitIsRegular()
    ensures Regular(AUDIO_2_AC_PROCESSING_UNIT)
  {
    hide Find, IsByte, Regular;
    Audio2AcProcessingUnitNames();
    Audio2AcProcUnitUpDownMixIsRegular();
    Audio2AcProcUnitDolbyPrologicIsRegular();
    LinkedIsRegular(AUDIO_2_AC_PROCESSING_UNIT);
  }

  lemma Audio3AcProcUnitUpDownMixIsRegular()
    ensures Regular(AUDIO_3_AC_PROC_UNIT_UP_DOWN_MIX)
  {
    hide Find, IsByte, Regular;
    ByteAt(AUDIO_3_AC_PROC_UNIT_UP_DOWN_MIX, "bNrModes", 1);
    LinkedIsRegular(AUDIO_3_AC_PROC_UNIT_UP_DOWN_MIX);
  }

  lemma Audio3AcProcessingUnitNames()
    ensures Find(AUDIO_3_AC_PROCESSING_UNIT, "bNrInPins") == 2 && IsByte(AUDIO_3_AC_PROCESSING_UNIT, "bNrInPins")
    ensures Find(AUDIO_3_AC_PROCESSING_UNIT, "wProcessType") == 1
  {
    hide Find, IsByte;
    ByteAt(AUDIO_3_AC_PROCESSING_UNIT, "bNrInPins", 2);
    ByteAt(AUDIO_3_AC_PROCESSING_UNIT, "wProcessType", 1);
  }

  lemma Audio3AcProcessingUnitIsRegular()
    ensures Regular(AUDIO_3_AC_PROCESSING_UNIT)
  {
    hide Find, IsByte, Regular;
    Audio3AcProcessingUnitNames();
    Audio3AcProcUnitUpDownMixIsRegular();
    SimpleIsRegular(AUDIO_3_AC_PROC_UNIT_STEREO_EXTENDER);
    SimpleIsRegular(AUDIO_3_AC_PROC_UNIT_MULTI_FUNCTION);
    LinkedIsRegular(AUDIO_3_AC_PROCESSING_UNIT);
  }

  lemma Audio1AcFeatureUnitIsRegular()
    ensures Regular(AUDIO_1_AC_FEATURE_UNIT)
  {
    hide Find, IsByte, Regular;
    ByteAt(AUDIO_1_AC_FEATURE_UNIT, "bControlSize", 2);
    LinkedIsRegular(AUDIO_1_AC_FEATURE_UNIT);
  }

  lemma Audio1AcExtensionUnitNames()
    ensures Find(AUDIO_1_AC_EXTENSION_UNIT, "bNrInPins") == 2 && IsByte(AUDIO_1_AC_EXTENSION_UNIT, "bNrInPins")
    ensures Find(AUDIO_1_AC_EXTENSION_UNIT, "bControlSize") == 7 && IsByte(AUDIO_1_AC_EXTENSION_UNIT, "bControlSize")
  {
    hide Find, IsByte;
    ByteAt(AUDIO_1_AC_EXTENSION_UNIT, "bNrInPins", 2);
    ByteAt(AUDIO_1_AC_EXTENSION_UNIT, "bControlSize", 7);
  }

  lemma Audio1AcExtensionUnitIsRegular()
    ensures Regular(AUDIO_1_AC_EXTENSION_UNIT)
  {
    hide Find, IsByte, Regular;
    Audio1AcExtensionUnitNames();
    LinkedIsRegular(AUDIO_1_AC_EXTENSION_UNIT);
  }

  lemma Audio2AcExtensionUnitIsRegular()
    ensures Regular(AUDIO_2_AC_EXTENSION_UNIT)
  {
    hide Find, IsByte, Regular;
    ByteAt(AUDIO_2_AC_EXTENSION_UNIT, "bNrInPins", 2);
    LinkedIsRegular(AUDIO_2_AC_EXTENSION_UNIT);
  }

  lemma Audio3AcExtensionUnitIsRegular()
    ensures Regular(AUDIO_3_AC_EXTENSION_UNIT)
  {
    hide Find, IsByte, Regular;
    ByteAt(AUDIO_3_AC_EXTENSION_UNIT, "bNrInPins", 2);
    LinkedIsRegular(AUDIO_3_AC_EXTENSION_UNIT);
  }

  lemma Audio2AcClockSelectorIsRegular()
    ensures Regular(AUDIO_2_AC_CLOCK_SELECTOR)
  {
    hide Find, IsByte, Regular;
    ByteAt(AUDIO_2_AC_CLOCK_SELECTOR, "bNrInPins", 1);
    LinkedIsRegular(AUDIO_2_AC_CLOCK_SELECTOR);
  }

  lemma Audio3AcClockSelectorIsRegular()
    ensures Regular(AUDIO_3_AC_CLOCK_SELECTOR)
  {
    hide Find, IsByte, Regular;
    ByteAt(AUDIO_3_AC_CLOCK_SELECTOR, "bNrInPins", 1);
    LinkedIsRegular(AUDIO_3_AC_CLOCK_SELECTOR);
  }

  lemma MidiMsOutJackIsRegular()
    ensures Regular(MIDI_MS_OUT_JACK)
  {
    hide Find, IsByte, Regular;
    ByteAt(MIDI_MS_OUT_JACK, "bNrInputPins", 2);
    LinkedIsRegular(MIDI_MS_OUT_JACK);
  }

  lemma MidiMsElementNames()
    ensures Find(MIDI_MS_ELEMENT, "bNrInputPins") == 1 && IsByte(MIDI_MS_ELEMENT, "bNrInputPins")
    ensures Find(MIDI_MS_ELEMENT, "bElCapsSize") == 6 && IsByte(MIDI_MS_ELEMENT, "bElCapsSize")
  {
    hide Find, IsByte;
    ByteAt(MIDI_MS_ELEMENT, "bNrInputPins", 1);
    ByteAt(MIDI_MS_ELEMENT, "bElCapsSize", 6);
  }

  lemma MidiMsElementIsRegular()
    ensures Regular(MIDI_MS_ELEMENT)
  {
    hide Find, IsByte, Regular;
    MidiMsElementNames();
    LinkedIsRegular(MIDI_MS_ELEMENT);
  }

  lemma MidiMsEndpointGeneralIsRegular()
    ensures Regular(MIDI_MS_ENDPOINT_GENERAL)
  {
    hide Find, IsByte, Regular;
    ByteAt(MIDI_MS_ENDPOINT_GENERAL, "bNumEmbMIDIJack", 0);
    LinkedIsRegular(MIDI_MS_ENDPOINT_GENERAL);
  }

  lemma Usb3DcConfigurationSummaryIsRegular()
    ensures Regular(USB3_DC_CONFIGURATION_SUMMARY)
  {
    hide Find, IsByte, Regular;
    ByteAt(USB3_DC_CONFIGURATION_SUMMARY, "bConfigurationCount", 7);
    LinkedIsRegular(USB3_DC_CONFIGURATION_SUMMARY);
  }

  lemma InputDefsAreRegular()
    ensures forall desc :: desc in INPUT_DEFS ==> Regular(desc)
  {
    hide Regular;
    SimpleIsRegular(AUDIO_1_AC_INPUT_TERMINAL);
    SimpleIsRegular(AUDIO_2_AC_INPUT_TERMINAL);
    SimpleIsRegular(AUDIO_3_AC_INPUT_TERMINAL);
  }

  lemma TerminalDefsAreRegular()
    ensures forall desc :: desc in TERMINAL_DEFS ==> Regular(desc)
  {
    hide Regular;
    SimpleIsRegular(AUDIO_1_AC_OUTPUT_TERMINAL);
    SimpleIsRegular(AUDIO_2_AC_OUTPUT_TERMINAL);
    SimpleIsRegular(AUDIO_3_AC_OUTPUT_TERMINAL);
    SimpleIsRegular(AUDIO_3_AC_EXTENDED_TERMINAL_HEADER);
  }

  lemma ClockDefsAreRegular()
    ensures forall desc :: desc in CLOCK_DEFS ==> Regular(desc)
  {
    hide Regular;
    SimpleIsRegular(AUDIO_2_AC_CLOCK_SOURCE);
    SimpleIsRegular(AUDIO_3_AC_CLOCK_SOURCE);
    SimpleIsRegular(AUDIO_2_AC_CLOCK_MULTIPLIER);
    SimpleIsRegular(AUDIO_3_AC_CLOCK_MULTIPLIER);
    SimpleIsRegular(AUDIO_2_AC_SAMPLE_RATE_CONVERTER);
    SimpleIsRegular(AUDIO_3_AC_SAMPLE_RATE_CONVERTER);
  }

  lemma UnitDefsAreRegular()
    ensures forall desc :: desc in UNIT_DEFS ==> Regular(desc)
  {
    hide Regular;
    SimpleIsRegular(AUDIO_2_AC_EFFECT_UNIT);
    SimpleIsRegular(AUDIO_3_AC_EFFECT_UNIT);
    SimpleIsRegular(AUDIO_3_AC_PROC_UNIT_STEREO_EXTENDER);
    SimpleIsRegular(AUDIO_3_AC_PROC_UNIT_MULTI_FUNCTION);
    SimpleIsRegular(AUDIO_2_AC_FEATURE_UNIT);
    SimpleIsRegular(AUDIO_3_AC_FEATURE_UNIT);
  }

  lemma StreamDefsAreRegular()
    ensures forall desc :: desc in STREAM_DEFS ==> Regular(desc)
  {
    hide Regular;
    SimpleIsRegular(AUDIO_1_AS_INTERFACE);
    SimpleIsRegular(AUDIO_2_AS_INTERFACE);
    SimpleIsRegular(AUDIO_3_AS_INTERFACE);
    SimpleIsRegular(AUDIO_1_AS_ISOCHRONOUS_AUDIO_DATA_ENDPOINT);
    SimpleIsRegular(AUDIO_2_AS_ISOCHRONOUS_AUDIO_DATA_ENDPOINT);
    SimpleIsRegular(AUDIO_3_AS_ISOCHRONOUS_AUDIO_DATA_ENDPOINT);
  }

  lemma HeaderDefsAreRegular()
    ensures forall desc :: desc in HEADER_DEFS ==> Regular(desc)
  {
    hide Regular;
    SimpleIsRegular(UNDEFINED);
    SimpleIsRegular(AUDIO_1_AC_HEADER);
    SimpleIsRegular(AUDIO_2_AC_HEADER);
    SimpleIsRegular(AUDIO_3_AC_HEADER);
    SimpleIsRegular(MIDI_MS_HEADER);
    SimpleIsRegular(MIDI_MS_IN_JACK);
  }

  lemma LinkedDefsAreRegular()
    ensures forall desc :: desc in LINKED_DEFS ==> Regular(desc)
  {
    hide Regular;
    Audio3AcPowerDomainIsRegular();
    Audio1AcMixerUnitIsRegular();
    Audio2AcMixerUnitIsRegular();
    Audio3AcMixerUnitIsRegular();
    Audio1AcSelectorUnitIsRegular();
    Audio2AcSelectorUnitIsRegular();
    Audio3AcSelectorUnitIsRegular();
    Audio1AcProcUnitExtendedIsRegular();
    Audio1AcProcessingUnitIsRegular();
    Audio2AcProcUnitUpDownMixIsRegular();
    Audio2AcProcUnitDolbyPrologicIsRegular();
    Audio2AcProcessingUnitIsRegular();
    Audio3AcProcUnitUpDownMixIsRegular();
    Audio3AcProcessingUnitIsRegular();
    Audio1AcFeatureUnitIsRegular();
    Audio1AcExtensionUnitIsRegular();
    Audio2AcExtensionUnitIsRegular();
    Audio3AcExtensionUnitIsRegular();
    Audio2AcClockSelectorIsRegular();
    Audio3AcClockSelectorIsRegular();
    MidiMsOutJackIsRegular();
    MidiMsElementIsRegular();
    MidiMsEndpointGeneralIsRegular();
    Usb3DcConfigurationSummaryIsRegular();
  }

  predicate Shipped(desc: Desc) {
    desc in INPUT_DEFS || desc in TERMINAL_DEFS || desc in CLOCK_DEFS || desc in UNIT_DEFS || desc in STREAM_DEFS
    || desc in HEADER_DEFS || desc in LINKED_DEFS
  }

  /** Every shipped definition is regular: sizes come from earlier fields, lengths are bytes, at
      most one length is inferred, and so it is for the definitions of its extensions. */
  lemma ShippedIsRegular(desc: Desc)
    requires Shipped(desc)
    ensures Regular(desc)
  {
    hide Regular;
    InputDefsAreRegular();
    TerminalDefsAreRegular();
    ClockDefsAreRegular();
    UnitDefsAreRegular();
    StreamDefsAreRegular();
    HeaderDefsAreRegular();
    LinkedDefsAreRegular();
  }
}
