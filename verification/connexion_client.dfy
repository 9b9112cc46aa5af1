/** The data contract of the 3Dconnexion macOS client framework
    (ConnexionClient.h): the four-character tags, the capability, button and
    switch bit masks, the packing of control-command parameters, and the
    byte layout of the two packed records the driver exchanges with a client.
    The header leaves byte order to the host; this model fixes little-endian,
    the order of every Mac the framework ships for. */
module ConnexionClient {
  import opened Common

  // ---------------------------------------------------------------------------
  // Four-character codes

  /** A C multi-character constant such as '3dSR': the characters' codes,
      first character most significant. */
  function FourCharCode(s: string): (r: nat)
    requires |s| == 4
    ensures (forall i :: 0 <= i < 4 ==> s[i] as int < 256) ==> r < 0x1_0000_0000
  {
    s[0] as int * 0x100_0000 + s[1] as int * 0x1_0000 + s[2] as int * 0x100 + s[3] as int
  }

  /** A two-character record tag such as 'MS', first character most significant. */
  function TwoCharCode(s: string): (r: nat)
    requires |s| == 2
    ensures (forall i :: 0 <= i < 2 ==> s[i] as int < 256) ==> r < 0x1_0000
  {
    s[0] as int * 0x100 + s[1] as int
  }

  const ClientWildcard: uint32 := 0x2A2A2A2A

  const ClientModeTakeOver: uint16 := 1
  const ClientModePlugin: uint16 := 2

  const CmdNone: uint16 := 0
  const CmdHandleRawData: uint16 := 1
  const CmdHandleButtons: uint16 := 2
  const CmdHandleAxis: uint16 := 3
  const CmdAppSpecific: uint16 := 10

  const UserClientType := FourCharCode("3dUC")

  // Messages from the kernel driver to the clients.
  const MsgDeviceState := FourCharCode("3dSR")
  const MsgCalibrateDevice := FourCharCode("3dSC")
  const MsgPrefsChanged := FourCharCode("3dPC")
  const MsgDoMapping := FourCharCode("3dDA")
  const MsgDoMappingDown := FourCharCode("3dMD")
  const MsgDoMappingUp := FourCharCode("3dMU")
  const MsgDoLongPress := FourCharCode("3dLP")
  const MsgBatteryStatus := FourCharCode("3dBS")

  // Control messages to the kernel driver.
  const CtlSetLedState := FourCharCode("3dsl")
  const CtlGetDeviceId := FourCharCode("3did")
  const CtlTypeKeystroke := FourCharCode("3dke")
  const CtlMoveMouse := FourCharCode("3dmm")
  const CtlClickButton := FourCharCode("3dcb")
  const CtlRollWheel := FourCharCode("3dro")
  const CtlReleaseMods := FourCharCode("3dre")
  const CtlCalibrate := FourCharCode("3dca")
  const CtlUncalibrate := FourCharCode("3dde")
  const CtlDoMapping := FourCharCode("3ddm")
  const CtlOpenPrefPane := FourCharCode("3dop")
  const CtlSetSwitches := FourCharCode("3dss")
  const CtlPopupMenuRunning := FourCharCode("3dme")

  const DeviceStateType: uint16 := 0x4D53
  const DeviceStateVers: uint16 := 0x6D33
  const DevicePrefsType: uint16 := 0x4D50
  const DevicePrefsVers: uint16 := 0x7031

  /** The numeric record tags and the wildcard signature spell their labels
      in ASCII, first character most significant. */
  lemma TagsSpellTheirLabels()
    ensures DeviceStateType == TwoCharCode("MS") && DeviceStateVers == TwoCharCode("m3")
    ensures DevicePrefsType == TwoCharCode("MP") && DevicePrefsVers == TwoCharCode("p1")
    ensures ClientWildcard == FourCharCode("****")
  {
  }

  /** The eight driver-to-client messages are told apart by their tags. */
  lemma MessageTagsDistinct()
    ensures var tags := [MsgDeviceState, MsgCalibrateDevice, MsgPrefsChanged, MsgDoMapping,
                         MsgDoMappingDown, MsgDoMappingUp, MsgDoLongPress, MsgBatteryStatus];
      forall i, j :: 0 <= i < j < |tags| ==> tags[i] != tags[j]
  {
  }

  // ---------------------------------------------------------------------------
  // Capability and button masks

  /** The mask with only bit k set. */
  function Bit(k: nat): bv32
    requires k < 32
  {
    1 << k
  }

  /** The mask with bits 0 to n - 1 set. */
  function LowBits(n: nat): bv32
    requires n <= 32
  {
    if n == 32 then 0xFFFF_FFFF else (1 << n) - 1
  }

  /** kConnexionMaskButton1 … kConnexionMaskButton32. */
  const MaskButton: seq<bv32> := [
    0x0000_0001, 0x0000_0002, 0x0000_0004, 0x0000_0008, 0x0000_0010, 0x0000_0020, 0x0000_0040, 0x0000_0080,
    0x0000_0100, 0x0000_0200, 0x0000_0400, 0x0000_0800, 0x0000_1000, 0x0000_2000, 0x0000_4000, 0x0000_8000,
    0x0001_0000, 0x0002_0000, 0x0004_0000, 0x0008_0000, 0x0010_0000, 0x0020_0000, 0x0040_0000, 0x0080_0000,
    0x0100_0000, 0x0200_0000, 0x0400_0000, 0x0800_0000, 0x1000_0000, 0x2000_0000, 0x4000_0000, 0x8000_0000
  ]

  /** kConnexionMaskAxis1 … kConnexionMaskAxis6. */
  const MaskAxisN: seq<bv32> := [0x0100, 0x0200, 0x0400, 0x0800, 0x1000, 0x2000]

  const MaskButtons: bv32 := 0x00FF
  const MaskAxisTrans: bv32 := 0x0700
  const MaskAxisRot: bv32 := 0x3800
  const MaskAxis: bv32 := 0x3F00
  const MaskAll: bv32 := 0x3FFF
  const MaskAllButtons: bv32 := 0xFFFF_FFFF

  /** kConnexionMaskButtonN is bit N - 1. The proof is split by ranges of
      four buttons (`ButtonMasksFrom1` and the rest) because checking all 32
      constants in one proof costs the solver far more than eight small ones. */
  lemma ButtonMaskIsBit(n: nat)
    requires 1 <= n <= 32
    ensures MaskButton[n - 1] == Bit(n - 1)
  {
    if n <= 4 {
      ButtonMasksFrom1(n);
    } else if n <= 8 {
      ButtonMasksFrom5(n);
    } else if n <= 12 {
      ButtonMasksFrom9(n);
    } else if n <= 16 {
      ButtonMasksFrom13(n);
    } else if n <= 20 {
      ButtonMasksFrom17(n);
    } else if n <= 24 {
      ButtonMasksFrom21(n);
    } else if n <= 28 {
      ButtonMasksFrom25(n);
    } else {
      ButtonMasksFrom29(n);
    }
  }

  lemma ButtonMasksFrom1(n: nat)
    requires 1 <= n <= 4
    ensures MaskButton[n - 1] == Bit(n - 1)
  {
    if n == 1 {
      assert Bit(0) == 0x00000001;
    } else if n == 2 {
      assert Bit(1) == 0x00000002;
    } else if n == 3 {
      assert Bit(2) == 0x00000004;
    } else {
      assert Bit(3) == 0x00000008;
    }
  }

  lemma ButtonMasksFrom5(n: nat)
    requires 5 <= n <= 8
    ensures MaskButton[n - 1] == Bit(n - 1)
  {
    if n == 5 {
      assert Bit(4) == 0x00000010;
    } else if n == 6 {
      assert Bit(5) == 0x00000020;
    } else if n == 7 {
      assert Bit(6) == 0x00000040;
    } else {
      assert Bit(7) == 0x00000080;
    }
  }

  lemma ButtonMasksFrom9(n: nat)
    requires 9 <= n <= 12
    ensures MaskButton[n - 1] == Bit(n - 1)
  {
    if n == 9 {
      assert Bit(8) == 0x00000100;
    } else if n == 10 {
      assert Bit(9) == 0x00000200;
    } else if n == 11 {
      assert Bit(10) == 0x00000400;
    } else {
      assert Bit(11) == 0x00000800;
    }
  }

  lemma ButtonMasksFrom13(n: nat)
    requires 13 <= n <= 16
    ensures MaskButton[n - 1] == Bit(n - 1)
  {
    if n == 13 {
      assert Bit(12) == 0x00001000;
    } else if n == 14 {
      assert Bit(13) == 0x00002000;
    } else if n == 15 {
      assert Bit(14) == 0x00004000;
    } else {
      assert Bit(15) == 0x00008000;
    }
  }

  lemma ButtonMasksFrom17(n: nat)
    requires 17 <= n <= 20
    ensures MaskButton[n - 1] == Bit(n - 1)
  {
    if n == 17 {
      assert Bit(16) == 0x00010000;
    } else if n == 18 {
      assert Bit(17) == 0x00020000;
    } else if n == 19 {
      assert Bit(18) == 0x00040000;
    } else {
      assert Bit(19) == 0x00080000;
    }
  }

  lemma ButtonMasksFrom21(n: nat)
    requires 21 <= n <= 24
    ensures MaskButton[n - 1] == Bit(n - 1)
  {
    if n == 21 {
      assert Bit(20) == 0x00100000;
    } else if n == 22 {
      assert Bit(21) == 0x00200000;
    } else if n == 23 {
      assert Bit(22) == 0x00400000;
    } else {
      assert Bit(23) == 0x00800000;
    }
  }

  lemma ButtonMasksFrom25(n: nat)
    requires 25 <= n <= 28
    ensures MaskButton[n - 1] == Bit(n - 1)
  {
    if n == 25 {
      assert Bit(24) == 0x01000000;
    } else if n == 26 {
      assert Bit(25) == 0x02000000;
    } else if n == 27 {
      assert Bit(26) == 0x04000000;
    } else {
      assert Bit(27) == 0x08000000;
    }
  }

  lemma ButtonMasksFrom29(n: nat)
    requires 29 <= n <= 32
    ensures MaskButton[n - 1] == Bit(n - 1)
  {
    if n == 29 {
      assert Bit(28) == 0x10000000;
    } else if n == 30 {
      assert Bit(29) == 0x20000000;
    } else if n == 31 {
      assert Bit(30) == 0x40000000;
    } else {
      assert Bit(31) == 0x80000000;
    }
  }

  /** kConnexionMaskAxisN is 0x0100 shifted left by N - 1. */
  lemma AxisMaskIsShiftedBit(n: nat)
    requires 1 <= n <= 6
    ensures MaskAxisN[n - 1] == 0x0100 << (n - 1)
  {
  }

  /** The union of the masks of buttons 1 to n. */
  function ButtonUnion(n: nat): bv32
    requires n <= 32
  {
    if n == 0 then 0 else ButtonUnion(n - 1) | MaskButton[n - 1]
  }

  lemma {:induction false} ButtonUnionIsLowBits(n: nat)
    requires n <= 32
    ensures ButtonUnion(n) == LowBits(n)
  {
    if n > 0 {
      ButtonUnionIsLowBits(n - 1);
      ButtonMaskIsBit(n);
      LowBitsStep(n);
    }
  }

  lemma LowBitsStep(n: nat)
    requires 1 <= n <= 32
    ensures LowBits(n - 1) | Bit(n - 1) == LowBits(n)
  {
    if n == 32 {
      assert LowBits(31) == 0x7FFF_FFFF && Bit(31) == 0x8000_0000;
    } else if n <= 16 {
      LowBitsStepLow(n);
    } else {
      LowBitsStepHigh(n);
    }
  }

  // The same step, split by range to keep each bit-vector proof small.
  lemma LowBitsStepLow(n: nat)
    requires 1 <= n <= 16
    ensures LowBits(n - 1) | Bit(n - 1) == LowBits(n)
  {
    var m: bv32 := 1 << (n - 1);
    assert (1 as bv32) << n == m + m;
  }

  lemma LowBitsStepHigh(n: nat)
    requires 17 <= n <= 31
    ensures LowBits(n - 1) | Bit(n - 1) == LowBits(n)
  {
    var m: bv32 := 1 << (n - 1);
    assert (1 as bv32) << n == m + m;
  }

  /** kConnexionMaskButtons is the union of buttons 1 to 8, and
      kConnexionMaskAllButtons the union of all 32. */
  lemma ButtonAggregates()
    ensures ButtonUnion(8) == MaskButtons
    ensures ButtonUnion(32) == MaskAllButtons
  {
    ButtonUnionIsLowBits(8);
    ButtonUnionIsLowBits(32);
  }

  /** The axis aggregates are the unions of their axes; translation and
      rotation are disjoint and together make all axes; kConnexionMaskAll is
      the legacy buttons plus the axes, which share no bit. Buttons 9 to 14
      reuse the bits of axes 1 to 6, which is why they have a mask of their
      own (SetConnexionClientButtonMask). */
  lemma AxisAggregates()
    ensures MaskAxisTrans == MaskAxisN[0] | MaskAxisN[1] | MaskAxisN[2]
    ensures MaskAxisRot == MaskAxisN[3] | MaskAxisN[4] | MaskAxisN[5]
    ensures MaskAxisTrans & MaskAxisRot == 0 && MaskAxisTrans | MaskAxisRot == MaskAxis
    ensures MaskAll == MaskButtons | MaskAxis && MaskButtons & MaskAxis == 0
    ensures forall k :: 0 <= k < 6 ==> MaskButton[8 + k] == MaskAxisN[k]
  {
  }

  // ---------------------------------------------------------------------------
  // Client-controlled feature switches

  const SwitchZoomOnY: bv32 := 0x0001
  const SwitchDominant: bv32 := 0x0002
  /** kConnexionSwitchEnableAxis1 … 6. */
  const SwitchEnableAxis: seq<bv32> := [0x0004, 0x0008, 0x0010, 0x0020, 0x0040, 0x0080]
  /** kConnexionSwitchReverseAxis1 … 6. */
  const SwitchReverseAxis: seq<bv32> := [0x0100, 0x0200, 0x0400, 0x0800, 0x1000, 0x2000]
  const SwitchEnableTrans: bv32 := 0x001C
  const SwitchEnableRot: bv32 := 0x00E0
  const SwitchEnableAll: bv32 := 0x00FC
  const SwitchReverseTrans: bv32 := 0x0700
  const SwitchReverseRot: bv32 := 0x3800
  const SwitchReverseAll: bv32 := 0x3F00
  const SwitchesDisabled: bv32 := 0x8000_0000

  /** The union of the masks t[lo..hi]. */
  function Union(t: seq<bv32>, lo: nat, hi: nat): bv32
    requires lo <= hi <= |t|
    decreases hi - lo
  {
    if lo == hi then 0 else t[lo] | Union(t, lo + 1, hi)
  }

  /** Each aggregate switch is the union of its single-axis switches; zoom,
      dominant, the enable bits and the reverse bits are pairwise disjoint,
      and the "disabled" bit 31 is disjoint from all of them. */
  lemma SwitchAggregates()
    ensures SwitchEnableTrans == Union(SwitchEnableAxis, 0, 3) && SwitchEnableRot == Union(SwitchEnableAxis, 3, 6)
    ensures SwitchEnableAll == Union(SwitchEnableAxis, 0, 6)
    ensures SwitchReverseTrans == Union(SwitchReverseAxis, 0, 3) && SwitchReverseRot == Union(SwitchReverseAxis, 3, 6)
    ensures SwitchReverseAll == Union(SwitchReverseAxis, 0, 6)
    ensures SwitchZoomOnY & SwitchDominant == 0
    ensures (SwitchZoomOnY | SwitchDominant) & (SwitchEnableAll | SwitchReverseAll) == 0
    ensures SwitchEnableAll & SwitchReverseAll == 0
    ensures SwitchesDisabled & (SwitchZoomOnY | SwitchDominant | SwitchEnableAll | SwitchReverseAll) == 0
  {
    assert Union(SwitchEnableAxis, 0, 3) == 0x001C;
    assert Union(SwitchEnableAxis, 3, 6) == 0x00E0;
    assert Union(SwitchEnableAxis, 0, 6) == 0x00FC;
    assert Union(SwitchReverseAxis, 0, 3) == 0x0700;
    assert Union(SwitchReverseAxis, 3, 6) == 0x3800;
    assert Union(SwitchReverseAxis, 0, 6) == 0x3F00;
  }

  // ---------------------------------------------------------------------------
  // Control-command parameters

  /** The keystroke and roll-wheel parameter: `(modifiers << 16) | (b << 8) | c`,
      where (b, c) is (keyCode, charCode) or (direction, amount). */
  function PackModifiersAndBytes(modifiers: bv32, b: bv32, c: bv32): (param: bv32)
    ensures modifiers < 0x1_0000 && b < 0x100 && c < 0x100 ==> UnpackModifiersAndBytes(param) == (modifiers, b, c)
  {
    (modifiers << 16) | (b << 8) | c
  }

  function UnpackModifiersAndBytes(param: bv32): (r: (bv32, bv32, bv32))
    ensures r.0 < 0x1_0000 && r.1 < 0x100 && r.2 < 0x100
  {
    (param >> 16, (param >> 8) & 0xFF, param & 0xFF)
  }

  /** Unpacking recovers the three fields when each fits its slot, and every
      parameter is the packing of its unpacked fields. */
  lemma ModifiersAndBytesRoundTrip(modifiers: bv32, b: bv32, c: bv32, param: bv32)
    ensures modifiers < 0x1_0000 && b < 0x100 && c < 0x100 ==>
      UnpackModifiersAndBytes(PackModifiersAndBytes(modifiers, b, c)) == (modifiers, b, c)
    ensures var f := UnpackModifiersAndBytes(param); PackModifiersAndBytes(f.0, f.1, f.2) == param
  {
  }

  /** The move-mouse, click-button, do-mapping and release-modifiers
      parameter: `(high << 16) | low`. */
  function PackHalves(high: bv32, low: bv32): (param: bv32)
    ensures high < 0x1_0000 && low < 0x1_0000 ==> UnpackHalves(param) == (high, low)
  {
    (high << 16) | low
  }

  function UnpackHalves(param: bv32): (r: (bv32, bv32))
    ensures r.0 < 0x1_0000 && r.1 < 0x1_0000
  {
    (param >> 16, param & 0xFFFF)
  }

  lemma HalvesRoundTrip(high: bv32, low: bv32, param: bv32)
    ensures high < 0x1_0000 && low < 0x1_0000 ==> UnpackHalves(PackHalves(high, low)) == (high, low)
    ensures var f := UnpackHalves(param); PackHalves(f.0, f.1) == param
  {
  }

  // ---------------------------------------------------------------------------
  // Device state record (pack(2))

  datatype DeviceState = DeviceState(
    version: uint16, client: uint16,
    command: uint16, param: int16, value: int32, time: uint64,
    report: seq<uint8>,
    buttons8: uint16, axis: seq<int16>,
    address: uint16, buttons: uint32)

  /** The two C arrays have their declared lengths. */
  predicate DeviceStateShaped(s: DeviceState)
  {
    |s.report| == 8 && |s.axis| == 6
  }

  const DeviceStateSize: nat := 48

  // Field offsets under 2-byte packing.
  const VersionOffset: nat := 0
  const ClientOffset: nat := 2
  const CommandOffset: nat := 4
  const ParamOffset: nat := 6
  const ValueOffset: nat := 8
  const TimeOffset: nat := 12
  const ReportOffset: nat := 20
  const Buttons8Offset: nat := 28
  const AxisOffset: nat := 30
  const AddressOffset: nat := 42
  const ButtonsOffset: nat := 44

  function Int16s(xs: seq<int>): (r: seq<int16>)
    requires forall i :: 0 <= i < |xs| ==> FitsSigned(xs[i], 2)
    ensures r == xs
  {
    assert Pow256(2) == 0x1_0000;
    forall i | 0 <= i < |xs|
      ensures -0x8000 <= xs[i] < 0x8000
    {
      assert FitsSigned(xs[i], 2);
    }
    xs
  }

  function EncodeDeviceState(s: DeviceState): (b: seq<uint8>)
    requires DeviceStateShaped(s)
    ensures |b| == DeviceStateSize
  {
    assert Pow256(2) == 0x1_0000;
    EncodeU16(s.version) + EncodeU16(s.client) + EncodeU16(s.command) + EncodeI16(s.param)
      + EncodeI32(s.value) + EncodeU64(s.time) + s.report + EncodeU16(s.buttons8)
      + EncodeSignedArray(s.axis, 2) + EncodeU16(s.address) + EncodeU32(s.buttons)
  }

  function DecodeDeviceState(b: seq<uint8>): (s: DeviceState)
    requires |b| == DeviceStateSize
    ensures DeviceStateShaped(s)
  {
    DeviceState(
      DecodeU16(b[0..2]), DecodeU16(b[2..4]),
      DecodeU16(b[4..6]), DecodeI16(b[6..8]), DecodeI32(b[8..12]), DecodeU64(b[12..20]),
      b[20..28],
      DecodeU16(b[28..30]), Int16s(DecodeSignedArray(b[30..42], 2, 6)),
      DecodeU16(b[42..44]), DecodeU32(b[44..48]))
  }

  /** Each field is stored at its pack(2) offset. */
  lemma DeviceStateFieldOffsets(s: DeviceState)
    requires DeviceStateShaped(s)
    ensures var b := EncodeDeviceState(s);
      b[VersionOffset..ClientOffset] == EncodeU16(s.version) &&
      b[ClientOffset..CommandOffset] == EncodeU16(s.client) &&
      b[CommandOffset..ParamOffset] == EncodeU16(s.command) &&
      b[ParamOffset..ValueOffset] == EncodeI16(s.param) &&
      b[ValueOffset..TimeOffset] == EncodeI32(s.value) &&
      b[TimeOffset..ReportOffset] == EncodeU64(s.time) &&
      b[ReportOffset..Buttons8Offset] == s.report &&
      b[Buttons8Offset..AxisOffset] == EncodeU16(s.buttons8) &&
      b[AxisOffset..AddressOffset] == EncodeSignedArray(s.axis, 2) &&
      b[AddressOffset..ButtonsOffset] == EncodeU16(s.address) &&
      b[ButtonsOffset..DeviceStateSize] == EncodeU32(s.buttons)
  {
    assert Pow256(2) == 0x1_0000;
  }

  /** Decoding an encoded record returns every field unchanged. */
  lemma DeviceStateRoundTrip(s: DeviceState)
    requires DeviceStateShaped(s)
    ensures DecodeDeviceState(EncodeDeviceState(s)) == s
  {
    assert Pow256(2) == 0x1_0000;
    DeviceStateFieldOffsets(s);
    FieldRoundTrips(s.version, s.buttons, s.time, s.param, s.value);
    FieldRoundTrips(s.client, 0, 0, 0, 0);
    FieldRoundTrips(s.command, 0, 0, 0, 0);
    FieldRoundTrips(s.buttons8, 0, 0, 0, 0);
    FieldRoundTrips(s.address, 0, 0, 0, 0);
    SignedArrayRoundTrip(s.axis, 2);
  }

  /** Encoding a decoded record gives back the same 48 bytes. */
  lemma DeviceStateBytesRoundTrip(b: seq<uint8>)
    requires |b| == DeviceStateSize
    ensures EncodeDeviceState(DecodeDeviceState(b)) == b
  {
    StateHeadBytes(b);
    StateDataBytes(b);
    SliceSplit(b, 0, 20, 28);
    SliceSplit(b, 0, 28, 30);
    SliceSplit(b, 0, 30, 42);
    SliceSplit(b, 0, 42, 44);
    SliceSplit(b, 0, 44, 48);
    assert b[0..48] == b;
  }

  lemma StateHeadBytes(b: seq<uint8>)
    requires |b| == DeviceStateSize
    ensures var s := DecodeDeviceState(b);
      EncodeU16(s.version) + EncodeU16(s.client) + EncodeU16(s.command) + EncodeI16(s.param)
        + EncodeI32(s.value) + EncodeU64(s.time) == b[0..20]
  {
    U16Bytes(b[0..2]);
    U16Bytes(b[2..4]);
    U16Bytes(b[4..6]);
    I16Bytes(b[6..8]);
    I32Bytes(b[8..12]);
    U64Bytes(b[12..20]);
    SliceSplit(b, 0, 2, 4);
    SliceSplit(b, 0, 4, 6);
    SliceSplit(b, 0, 6, 8);
    SliceSplit(b, 0, 8, 12);
    SliceSplit(b, 0, 12, 20);
  }

  lemma StateDataBytes(b: seq<uint8>)
    requires |b| == DeviceStateSize
    ensures var s := DecodeDeviceState(b);
      EncodeU16(s.buttons8) == b[28..30] && EncodeSignedArray(s.axis, 2) == b[30..42] &&
      EncodeU16(s.address) == b[42..44] && EncodeU32(s.buttons) == b[44..48]
  {
    U16Bytes(b[28..30]);
    SignedArrayRoundTripBytes(b[30..42], 2, 6);
    U16Bytes(b[42..44]);
    U32Bytes(b[44..48]);
  }

  /** A valid record carries the current version, and its legacy
      `buttons8` field repeats the first 8 bits of `buttons`. */
  predicate WellFormedDeviceState(s: DeviceState)
  {
    s.version == DeviceStateVers && s.buttons8 == s.buttons % 0x100
  }

  /** The same condition read off the bytes: version bytes 0x33 0x6D, byte 28
      equal to byte 44, byte 29 zero. */
  predicate WellFormedDeviceStateBytes(b: seq<uint8>)
    requires |b| == DeviceStateSize
  {
    b[0] == 0x33 && b[1] == 0x6D && b[28] == b[44] && b[29] == 0
  }

  lemma WellFormedDeviceStateIff(b: seq<uint8>)
    requires |b| == DeviceStateSize
    ensures WellFormedDeviceState(DecodeDeviceState(b)) <==> WellFormedDeviceStateBytes(b)
  {
    var s := DecodeDeviceState(b);
    DecodeTwo(b[0..2]);
    DecodeTwo(b[28..30]);
    DecodeLowByte(b[44..48]);
  }

  lemma DecodeTwo(b: seq<uint8>)
    requires |b| == 2
    ensures DecodeLE(b) == b[0] as int + 256 * (b[1] as int)
  {
    assert b[1..][1..] == [];
  }

  lemma DecodeLowByte(b: seq<uint8>)
    requires |b| >= 1
    ensures DecodeLE(b) % 0x100 == b[0]
  {
    LowByteOf(DecodeLE(b), b[0], DecodeLE(b[1..]));
  }

  // ---------------------------------------------------------------------------
  // Device IDs

  const DevIdSpaceNavigator: uint16 := 0x00
  const DevIdSpaceNavigatorNb: uint16 := 0x01
  const DevIdSpaceExplorer: uint16 := 0x02
  const DevIdSpaceTraveler: uint16 := 0x03
  const DevIdSpacePilot: uint16 := 0x04
  const DevIdSpacePilotPro: uint16 := 0x05
  const DevIdSpaceMousePro: uint16 := 0x06
  const DevIdCount: uint16 := 7
  const DevIdAnyDevice: uint16 := 0x7FFF

  predicate ValidDeviceId(id: uint16)
  {
    id < DevIdCount || id == DevIdAnyDevice
  }

  // ---------------------------------------------------------------------------
  // Device prefs record (pack(2))

  datatype DevicePrefs = DevicePrefs(
    prefsType: uint16, version: uint16, deviceId: uint16, reserved1: uint16,
    appSignature: uint32, reserved2: uint32, appName: seq<uint8>,
    mainSpeed: uint8, zoomOnY: uint8, dominant: uint8, reserved3: uint8,
    mapV: seq<int8>, mapH: seq<int8>,
    enabled: seq<uint8>, reversed: seq<uint8>, speed: seq<uint8>, sensitivity: seq<uint8>,
    scale: seq<int32>,
    gamma: uint32, intersect: uint32)

  predicate DevicePrefsShaped(p: DevicePrefs)
  {
    |p.appName| == 64 && |p.mapV| == 6 && |p.mapH| == 6 && |p.enabled| == 6 && |p.reversed| == 6
      && |p.speed| == 6 && |p.sensitivity| == 6 && |p.scale| == 6
  }

  const DevicePrefsSize: nat := 152

  // Field offsets under 2-byte packing.
  const AppSignatureOffset: nat := 8
  const AppNameOffset: nat := 16
  const MainSpeedOffset: nat := 80
  const Reserved3Offset: nat := 83
  const MapVOffset: nat := 84
  const SpeedOffset: nat := 108
  const SensitivityOffset: nat := 114
  const ScaleOffset: nat := 120
  const GammaOffset: nat := 144
  const IntersectOffset: nat := 148

  function Int8s(xs: seq<int>): (r: seq<int8>)
    requires forall i :: 0 <= i < |xs| ==> FitsSigned(xs[i], 1)
    ensures r == xs
  {
    assert Pow256(1) == 0x100;
    forall i | 0 <= i < |xs|
      ensures -0x80 <= xs[i] < 0x80
    {
      assert FitsSigned(xs[i], 1);
    }
    xs
  }

  function Int32s(xs: seq<int>): (r: seq<int32>)
    requires forall i :: 0 <= i < |xs| ==> FitsSigned(xs[i], 4)
    ensures r == xs
  {
    assert Pow256(4) == 0x1_0000_0000;
    forall i | 0 <= i < |xs|
      ensures -0x8000_0000 <= xs[i] < 0x8000_0000
    {
      assert FitsSigned(xs[i], 4);
    }
    xs
  }

  /** The header, target application, and the single-byte settings. */
  function EncodePrefsHead(p: DevicePrefs): (b: seq<uint8>)
    requires DevicePrefsShaped(p)
    ensures |b| == MapVOffset
  {
    EncodeU16(p.prefsType) + EncodeU16(p.version) + EncodeU16(p.deviceId) + EncodeU16(p.reserved1)
      + EncodeU32(p.appSignature) + EncodeU32(p.reserved2) + p.appName
      + [p.mainSpeed, p.zoomOnY, p.dominant, p.reserved3]
  }

  /** The per-axis mappings, switches, speeds and sensitivities. */
  function EncodePrefsMaps(p: DevicePrefs): (b: seq<uint8>)
    requires DevicePrefsShaped(p)
    ensures |b| == ScaleOffset - MapVOffset
  {
    assert Pow256(1) == 0x100;
    EncodeSignedArray(p.mapV, 1) + EncodeSignedArray(p.mapH, 1)
      + p.enabled + p.reversed + p.speed + p.sensitivity
  }

  /** The per-axis scales and the gamma settings. */
  function EncodePrefsGains(p: DevicePrefs): (b: seq<uint8>)
    requires DevicePrefsShaped(p)
    ensures |b| == DevicePrefsSize - ScaleOffset
  {
    assert Pow256(4) == 0x1_0000_0000;
    EncodeSignedArray(p.scale, 4) + EncodeU32(p.gamma) + EncodeU32(p.intersect)
  }

  function EncodeDevicePrefs(p: DevicePrefs): (b: seq<uint8>)
    requires DevicePrefsShaped(p)
    ensures |b| == DevicePrefsSize
  {
    EncodePrefsHead(p) + EncodePrefsMaps(p) + EncodePrefsGains(p)
  }

  function DecodeDevicePrefs(b: seq<uint8>): (p: DevicePrefs)
    requires |b| == DevicePrefsSize
    ensures DevicePrefsShaped(p)
  {
    DevicePrefs(
      DecodeU16(b[0..2]), DecodeU16(b[2..4]), DecodeU16(b[4..6]), DecodeU16(b[6..8]),
      DecodeU32(b[8..12]), DecodeU32(b[12..16]), b[16..80],
      b[80], b[81], b[82], b[83],
      Int8s(DecodeSignedArray(b[84..90], 1, 6)), Int8s(DecodeSignedArray(b[90..96], 1, 6)),
      b[96..102], b[102..108], b[108..114], b[114..120],
      Int32s(DecodeSignedArray(b[120..144], 4, 6)),
      DecodeU32(b[144..148]), DecodeU32(b[148..152]))
  }

  lemma DevicePrefsHeadRoundTrip(p: DevicePrefs)
    requires DevicePrefsShaped(p)
    ensures var b := EncodePrefsHead(p);
      DecodeU16(b[0..2]) == p.prefsType && DecodeU16(b[2..4]) == p.version &&
      DecodeU16(b[4..6]) == p.deviceId && DecodeU16(b[6..8]) == p.reserved1 &&
      DecodeU32(b[8..12]) == p.appSignature && DecodeU32(b[12..16]) == p.reserved2 &&
      b[AppNameOffset..MainSpeedOffset] == p.appName &&
      b[80] == p.mainSpeed && b[81] == p.zoomOnY && b[82] == p.dominant && b[83] == p.reserved3
  {
    var b := EncodePrefsHead(p);
    assert b[0..2] == EncodeU16(p.prefsType) && b[2..4] == EncodeU16(p.version);
    assert b[4..6] == EncodeU16(p.deviceId) && b[6..8] == EncodeU16(p.reserved1);
    assert b[8..12] == EncodeU32(p.appSignature) && b[12..16] == EncodeU32(p.reserved2);
    FieldRoundTrips(p.prefsType, p.appSignature, 0, 0, 0);
    FieldRoundTrips(p.version, p.reserved2, 0, 0, 0);
    FieldRoundTrips(p.deviceId, 0, 0, 0, 0);
    FieldRoundTrips(p.reserved1, 0, 0, 0, 0);
  }

  lemma DevicePrefsMapsRoundTrip(p: DevicePrefs)
    requires DevicePrefsShaped(p)
    ensures var b := EncodePrefsMaps(p);
      DecodeSignedArray(b[0..6], 1, 6) == p.mapV && DecodeSignedArray(b[6..12], 1, 6) == p.mapH &&
      b[12..18] == p.enabled && b[18..24] == p.reversed && b[24..30] == p.speed && b[30..36] == p.sensitivity
  {
    assert Pow256(1) == 0x100;
    var b := EncodePrefsMaps(p);
    assert b[0..6] == EncodeSignedArray(p.mapV, 1) && b[6..12] == EncodeSignedArray(p.mapH, 1);
    SignedArrayRoundTrip(p.mapV, 1);
    SignedArrayRoundTrip(p.mapH, 1);
  }

  lemma DevicePrefsGainsRoundTrip(p: DevicePrefs)
    requires DevicePrefsShaped(p)
    ensures var b := EncodePrefsGains(p);
      DecodeSignedArray(b[0..24], 4, 6) == p.scale && DecodeU32(b[24..28]) == p.gamma && DecodeU32(b[28..32]) == p.intersect
  {
    assert Pow256(4) == 0x1_0000_0000;
    var b := EncodePrefsGains(p);
    assert b[0..24] == EncodeSignedArray(p.scale, 4);
    assert b[24..28] == EncodeU32(p.gamma) && b[28..32] == EncodeU32(p.intersect);
    SignedArrayRoundTrip(p.scale, 4);
    FieldRoundTrips(0, p.gamma, 0, 0, 0);
    FieldRoundTrips(0, p.intersect, 0, 0, 0);
  }

  /** Decoding an encoded prefs record returns every field unchanged. */
  lemma DevicePrefsRoundTrip(p: DevicePrefs)
    requires DevicePrefsShaped(p)
    ensures DecodeDevicePrefs(EncodeDevicePrefs(p)) == p
  {
    EncodedHeadFields(p);
    EncodedMapsFields(p);
    EncodedGainsFields(p);
  }

  lemma EncodedHeadFields(p: DevicePrefs)
    requires DevicePrefsShaped(p)
    ensures var b := EncodeDevicePrefs(p);
      DecodeU16(b[0..2]) == p.prefsType && DecodeU16(b[2..4]) == p.version &&
      DecodeU16(b[4..6]) == p.deviceId && DecodeU16(b[6..8]) == p.reserved1 &&
      DecodeU32(b[8..12]) == p.appSignature && DecodeU32(b[12..16]) == p.reserved2 &&
      b[16..80] == p.appName &&
      b[80] == p.mainSpeed && b[81] == p.zoomOnY && b[82] == p.dominant && b[83] == p.reserved3
  {
    var b := EncodeDevicePrefs(p);
    var head := EncodePrefsHead(p);
    assert b[0..MapVOffset] == head;
    DevicePrefsHeadRoundTrip(p);
    SliceOfSlice(b, 0, MapVOffset, 0, 2);
    SliceOfSlice(b, 0, MapVOffset, 2, 4);
    SliceOfSlice(b, 0, MapVOffset, 4, 6);
    SliceOfSlice(b, 0, MapVOffset, 6, 8);
    SliceOfSlice(b, 0, MapVOffset, 8, 12);
    SliceOfSlice(b, 0, MapVOffset, 12, 16);
    SliceOfSlice(b, 0, MapVOffset, 16, 80);
    assert b[80] == head[80] && b[81] == head[81] && b[82] == head[82] && b[83] == head[83];
  }

  lemma EncodedMapsFields(p: DevicePrefs)
    requires DevicePrefsShaped(p)
    ensures var b := EncodeDevicePrefs(p);
      DecodeSignedArray(b[84..90], 1, 6) == p.mapV && DecodeSignedArray(b[90..96], 1, 6) == p.mapH &&
      b[96..102] == p.enabled && b[102..108] == p.reversed && b[108..114] == p.speed && b[114..120] == p.sensitivity
  {
    var b := EncodeDevicePrefs(p);
    assert b[MapVOffset..ScaleOffset] == EncodePrefsMaps(p);
    DevicePrefsMapsRoundTrip(p);
    SliceOfSlice(b, MapVOffset, ScaleOffset, 0, 6);
    SliceOfSlice(b, MapVOffset, ScaleOffset, 6, 12);
    SliceOfSlice(b, MapVOffset, ScaleOffset, 12, 18);
    SliceOfSlice(b, MapVOffset, ScaleOffset, 18, 24);
    SliceOfSlice(b, MapVOffset, ScaleOffset, 24, 30);
    SliceOfSlice(b, MapVOffset, ScaleOffset, 30, 36);
  }

  lemma EncodedGainsFields(p: DevicePrefs)
    requires DevicePrefsShaped(p)
    ensures var b := EncodeDevicePrefs(p);
      DecodeSignedArray(b[120..144], 4, 6) == p.scale &&
      DecodeU32(b[144..148]) == p.gamma && DecodeU32(b[148..152]) == p.intersect
  {
    var b := EncodeDevicePrefs(p);
    assert b[ScaleOffset..DevicePrefsSize] == EncodePrefsGains(p);
    DevicePrefsGainsRoundTrip(p);
    SliceOfSlice(b, ScaleOffset, DevicePrefsSize, 0, 24);
    SliceOfSlice(b, ScaleOffset, DevicePrefsSize, 24, 28);
    SliceOfSlice(b, ScaleOffset, DevicePrefsSize, 28, 32);
  }

  /** Encoding a decoded prefs record gives back the same 152 bytes. */
  lemma DevicePrefsBytesRoundTrip(b: seq<uint8>)
    requires |b| == DevicePrefsSize
    ensures EncodeDevicePrefs(DecodeDevicePrefs(b)) == b
  {
    PrefsHeadBytesRoundTrip(b);
    PrefsMapsBytesRoundTrip(b);
    PrefsGainsBytesRoundTrip(b);
    SliceSplit(b, 0, MapVOffset, ScaleOffset);
    SliceSplit(b, 0, ScaleOffset, DevicePrefsSize);
    assert b[0..DevicePrefsSize] == b;
  }

  lemma PrefsHeadBytesRoundTrip(b: seq<uint8>)
    requires |b| == DevicePrefsSize
    ensures EncodePrefsHead(DecodeDevicePrefs(b)) == b[0..MapVOffset]
  {
    U16Bytes(b[0..2]);
    U16Bytes(b[2..4]);
    U16Bytes(b[4..6]);
    U16Bytes(b[6..8]);
    U32Bytes(b[8..12]);
    U32Bytes(b[12..16]);
    assert [b[80], b[81], b[82], b[83]] == b[80..84];
    SliceSplit(b, 0, 2, 4);
    SliceSplit(b, 0, 4, 6);
    SliceSplit(b, 0, 6, 8);
    SliceSplit(b, 0, 8, 12);
    SliceSplit(b, 0, 12, 16);
    SliceSplit(b, 0, 16, 80);
    SliceSplit(b, 0, 80, 84);
  }

  lemma PrefsMapsBytesRoundTrip(b: seq<uint8>)
    requires |b| == DevicePrefsSize
    ensures EncodePrefsMaps(DecodeDevicePrefs(b)) == b[MapVOffset..ScaleOffset]
  {
    SignedArrayRoundTripBytes(b[84..90], 1, 6);
    SignedArrayRoundTripBytes(b[90..96], 1, 6);
    SliceSplit(b, 84, 90, 96);
    SliceSplit(b, 84, 96, 102);
    SliceSplit(b, 84, 102, 108);
    SliceSplit(b, 84, 108, 114);
    SliceSplit(b, 84, 114, 120);
  }

  lemma PrefsGainsBytesRoundTrip(b: seq<uint8>)
    requires |b| == DevicePrefsSize
    ensures EncodePrefsGains(DecodeDevicePrefs(b)) == b[ScaleOffset..DevicePrefsSize]
  {
    SignedArrayRoundTripBytes(b[120..144], 4, 6);
    U32Bytes(b[144..148]);
    U32Bytes(b[148..152]);
    SliceSplit(b, 120, 144, 148);
    SliceSplit(b, 120, 148, 152);
  }

  /** A well-formed prefs record: current type and version, zero reserved
      fields, a Pascal application name of at most 63 characters, per-axis
      speed and sensitivity in 0..200, and a known device ID. */
  predicate WellFormedDevicePrefs(p: DevicePrefs)
    requires DevicePrefsShaped(p)
  {
    && p.prefsType == DevicePrefsType && p.version == DevicePrefsVers
    && p.reserved1 == 0 && p.reserved2 == 0 && p.reserved3 == 0
    && p.appName[0] <= 63
    && (forall i :: 0 <= i < 6 ==> p.speed[i] <= 200 && p.sensitivity[i] <= 200)
    && ValidDeviceId(p.deviceId)
  }

  /** The same condition read off the bytes of the record. */
  predicate WellFormedDevicePrefsBytes(b: seq<uint8>)
    requires |b| == DevicePrefsSize
  {
    && b[0] == 0x50 && b[1] == 0x4D && b[2] == 0x31 && b[3] == 0x70
    && b[6] == 0 && b[7] == 0 && b[12] == 0 && b[13] == 0 && b[14] == 0 && b[15] == 0
    && b[AppNameOffset] <= 63 && b[Reserved3Offset] == 0
    && (forall i :: SpeedOffset <= i < ScaleOffset ==> b[i] <= 200)
    && ((b[5] == 0 && b[4] < 7) || (b[4] == 0xFF && b[5] == 0x7F))
  }

  lemma WellFormedDevicePrefsIff(b: seq<uint8>)
    requires |b| == DevicePrefsSize
    ensures WellFormedDevicePrefs(DecodeDevicePrefs(b)) <==> WellFormedDevicePrefsBytes(b)
  {
    var p := DecodeDevicePrefs(b);
    PrefsHeaderWellFormedIff(b);
    PrefsDeviceIdIff(b);
    PrefsReserved2Iff(b);
    PrefsGainsInRangeIff(b);
    assert p.appName[0] == b[AppNameOffset];
    assert p.reserved3 == b[Reserved3Offset];
  }

  lemma PrefsHeaderWellFormedIff(b: seq<uint8>)
    requires |b| == DevicePrefsSize
    ensures var p := DecodeDevicePrefs(b);
      (p.prefsType == DevicePrefsType && p.version == DevicePrefsVers && p.reserved1 == 0)
      <==> (b[0] == 0x50 && b[1] == 0x4D && b[2] == 0x31 && b[3] == 0x70 && b[6] == 0 && b[7] == 0)
  {
    DecodeTwo(b[0..2]);
    DecodeTwo(b[2..4]);
    DecodeTwo(b[6..8]);
  }

  lemma PrefsDeviceIdIff(b: seq<uint8>)
    requires |b| == DevicePrefsSize
    ensures ValidDeviceId(DecodeDevicePrefs(b).deviceId)
      <==> ((b[5] == 0 && b[4] < 7) || (b[4] == 0xFF && b[5] == 0x7F))
  {
    DecodeTwo(b[4..6]);
  }

  lemma PrefsReserved2Iff(b: seq<uint8>)
    requires |b| == DevicePrefsSize
    ensures DecodeDevicePrefs(b).reserved2 == 0 <==> (b[12] == 0 && b[13] == 0 && b[14] == 0 && b[15] == 0)
  {
    DecodeZero(b[12..16]);
  }

  lemma PrefsGainsInRangeIff(b: seq<uint8>)
    requires |b| == DevicePrefsSize
    ensures var p := DecodeDevicePrefs(b);
      (forall i :: 0 <= i < 6 ==> p.speed[i] <= 200 && p.sensitivity[i] <= 200)
      <==> (forall i :: SpeedOffset <= i < ScaleOffset ==> b[i] <= 200)
  {
    var p := DecodeDevicePrefs(b);
    assert p.speed == b[SpeedOffset..SensitivityOffset] && p.sensitivity == b[SensitivityOffset..ScaleOffset];
    if forall i :: 0 <= i < 6 ==> p.speed[i] <= 200 && p.sensitivity[i] <= 200 {
      forall i | SpeedOffset <= i < ScaleOffset
        ensures b[i] <= 200
      {
        if i < SensitivityOffset {
          assert b[i] == p.speed[i - SpeedOffset];
        } else {
          assert b[i] == p.sensitivity[i - SensitivityOffset];
        }
      }
    }
  }

  /** Little-endian bytes decode to zero exactly when every byte is zero. */
  lemma {:induction false} DecodeZero(s: seq<uint8>)
    ensures DecodeLE(s) == 0 <==> forall i :: 0 <= i < |s| ==> s[i] == 0
  {
    if s != [] {
      DecodeZero(s[1..]);
      assert forall i :: 1 <= i < |s| ==> s[i] == s[1..][i - 1];
    }
  }

  /** The characters of the Pascal application name. */
  function AppName(p: DevicePrefs): (name: seq<uint8>)
    requires DevicePrefsShaped(p) && WellFormedDevicePrefs(p)
    ensures |name| <= 63 && |name| == p.appName[0]
  {
    p.appName[1..1 + p.appName[0]]
  }

  /** A Pascal string in a 64-byte field: length byte, characters, zero fill. */
  function PascalName(name: seq<uint8>): (field: seq<uint8>)
    requires |name| <= 63
    ensures |field| == 64
  {
    [|name|] + name + seq(63 - |name|, _ => 0)
  }

  lemma PascalNameRoundTrip(name: seq<uint8>, p: DevicePrefs)
    requires |name| <= 63
    requires DevicePrefsShaped(p) && WellFormedDevicePrefs(p) && p.appName == PascalName(name)
    ensures AppName(p) == name
  {
    assert p.appName[1..1 + |name|] == name;
  }
}
