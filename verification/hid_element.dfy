/** Runtime/HIDElementDescriptorExtensions.cs: how one element of a HID report
    descriptor is classified into an Input System control. Usage numbers are
    those of the USB HID Usage Tables 1.12 (section 4, Generic Desktop page;
    section 12, Button page). Float results are exact reals. */
module HidElementDescriptor {
  import opened Common
  import NumberHelpers

  const UsagePageGenericDesktop: int32 := 0x01
  const UsagePageButton: int32 := 0x09

  // Generic Desktop usages (HID Usage Tables 1.12, section 4).
  const UsageX: int32 := 0x30
  const UsageY: int32 := 0x31
  const UsageZ: int32 := 0x32
  const UsageRx: int32 := 0x33
  const UsageRy: int32 := 0x34
  const UsageRz: int32 := 0x35
  const UsageSlider: int32 := 0x36
  const UsageDial: int32 := 0x37
  const UsageWheel: int32 := 0x38
  const UsageHatSwitch: int32 := 0x39
  const UsageStart: int32 := 0x3D
  const UsageSelect: int32 := 0x3E
  const UsageVx: int32 := 0x40
  const UsageVbrz: int32 := 0x45
  const UsageDpadUp: int32 := 0x90
  const UsageDpadLeft: int32 := 0x93

  datatype ReportType = Input | Output | Feature

  /** The descriptor fields the classification reads. */
  datatype Element = Element(
    usage: int32,
    usagePage: int32,
    reportType: ReportType,
    reportId: int32,
    reportOffsetInBits: int32,
    reportSizeInBits: int32,
    logicalMin: int32,
    logicalMax: int32,
    hasNullState: bool)  // the Null State bit of the Input item, section 6.2.2.5 of HID 1.11

  /** A four-character code such as a state or value format. */
  datatype FourCC = FourCC(a: char, b: char, c: char, d: char)

  const FormatBit := FourCC('B', 'I', 'T', ' ')
  const FormatSByte := FourCC('S', 'B', 'Y', 'T')
  const FormatByte := FourCC('B', 'Y', 'T', 'E')
  const FormatShort := FourCC('S', 'H', 'R', 'T')
  const FormatUShort := FourCC('U', 'S', 'H', 'T')
  const FormatInt := FourCC('I', 'N', 'T', ' ')
  const FormatUInt := FourCC('U', 'I', 'N', 'T')

  /** Width of a fixed-size value format, in bits; the bit format has none. */
  function FormatSizeInBits(f: FourCC): Option<int>
  {
    if f == FormatSByte || f == FormatByte then Some(8)
    else if f == FormatShort || f == FormatUShort then Some(16)
    else if f == FormatInt || f == FormatUInt then Some(32)
    else None
  }

  predicate IsSignedFormat(f: FourCC)
  {
    f == FormatSByte || f == FormatShort || f == FormatInt
  }

  /** Text in which a computed float is kept as an exact number (how
      `string.Format` prints it is not modelled). */
  datatype Glyph = Ch(c: char) | Num(value: real)
  type Text = seq<Glyph>

  function Chars(s: string): (t: Text)
    ensures |t| == |s| && forall i :: 0 <= i < |s| ==> t[i] == Ch(s[i])
  {
    seq(|s|, i requires 0 <= i < |s| => Ch(s[i]))
  }

  /** The Input System's value for an unset default state, or an integer. */
  datatype PrimitiveValue = Empty | IntValue(v: int32)

  // ---------------------------------------------------------------------------
  // Usage sets, as independent references for the switches below

  /** The fifteen Generic Desktop usages the driver treats as axes. */
  const AxisUsages: set<int> := {0x30, 0x31, 0x32, 0x33, 0x34, 0x35, 0x40, 0x41, 0x42, 0x43, 0x44, 0x45, 0x36, 0x37, 0x38}

  /** The Generic Desktop usages laid out as buttons: Select, Start and the four D-pad directions. */
  const ButtonUsages: set<int> := {0x3E, 0x3D, 0x90, 0x91, 0x93, 0x92}

  predicate IsAxis(e: Element)
  {
    e.usagePage == UsagePageGenericDesktop && e.usage as int in AxisUsages
  }

  /** The Generic Desktop usages given a name here: the axes, the buttons,
      the hat switch and 0x3A..0x3C. */
  const NamedUsages: set<int> := {0x30, 0x31, 0x32, 0x33, 0x34, 0x35, 0x36, 0x37, 0x38, 0x39, 0x3A, 0x3B, 0x3C, 0x3D, 0x3E,
    0x40, 0x41, 0x42, 0x43, 0x44, 0x45, 0x90, 0x91, 0x92, 0x93}

  /** `GenericDesktop.ToString()` for the named usages; any other value
      prints as its decimal number. */
  function GenericDesktopName(usage: int32): (s: string)
    ensures |s| >= 1
    ensures usage as int in NamedUsages ==> 'A' <= s[0] <= 'Z'
    ensures usage as int !in NamedUsages ==> s == IntToDecimal(usage)
  {
    match usage
    case 0x30 => "X"
    case 0x31 => "Y"
    case 0x32 => "Z"
    case 0x33 => "Rx"
    case 0x34 => "Ry"
    case 0x35 => "Rz"
    case 0x36 => "Slider"
    case 0x37 => "Dial"
    case 0x38 => "Wheel"
    case 0x39 => "HatSwitch"
    case 0x3A => "CountedBuffer"
    case 0x3B => "ByteCount"
    case 0x3C => "MotionWakeup"
    case 0x3D => "Start"
    case 0x3E => "Select"
    case 0x40 => "Vx"
    case 0x41 => "Vy"
    case 0x42 => "Vz"
    case 0x43 => "Vbrx"
    case 0x44 => "Vbry"
    case 0x45 => "Vbrz"
    case 0x90 => "DpadUp"
    case 0x91 => "DpadDown"
    case 0x92 => "DpadRight"
    case 0x93 => "DpadLeft"
    case _ => IntToDecimal(usage)
  }

  // ---------------------------------------------------------------------------
  // Classification

  /** `isSigned`: the logical minimum is negative. */
  predicate IsSigned(e: Element): (b: bool)
    ensures b <==> e.logicalMin < 0
  {
    e.logicalMin < 0
  }

  /** `DetermineName`: "button<usage>", "hat", the Generic Desktop usage name
      with a lower-case first letter, or the hexadecimal fallback. */
  function DetermineName(e: Element): (r: string)
    ensures |r| >= 1
    ensures e.usagePage == UsagePageButton ==> r == "button" + IntToDecimal(e.usage)
    ensures e.usagePage == UsagePageGenericDesktop && e.usage == UsageHatSwitch ==> r == "hat"
    ensures e.usagePage == UsagePageGenericDesktop && e.usage != UsageHatSwitch ==>
      var text := GenericDesktopName(e.usage);
      |r| == |text| && r[0] == LowerChar(text[0]) && r[1..] == text[1..]
    ensures e.usagePage == UsagePageGenericDesktop ==> !('A' <= r[0] <= 'Z')
    ensures e.usagePage != UsagePageButton && e.usagePage != UsagePageGenericDesktop ==>
      r == "UsagePage(" + HexUpper(U32(e.usagePage), 8) + ") Usage(" + HexUpper(U32(e.usage), 0) + ")"
  {
    if e.usagePage == UsagePageButton then "button" + IntToDecimal(e.usage)
    else if e.usagePage == UsagePageGenericDesktop then
      if e.usage == UsageHatSwitch then "hat"
      else
        var text := GenericDesktopName(e.usage);
        [LowerChar(text[0])] + text[1..]
    else
      // An enum formatted with "X" is padded to its 32-bit width; the int usage is not.
      "UsagePage(" + HexUpper(U32(e.usagePage), 8) + ") Usage(" + HexUpper(U32(e.usage), 0) + ")"
  }

  /** `DetermineDisplayName`: "Button <usage>", the Generic Desktop usage name, or null. */
  function DetermineDisplayName(e: Element): (r: Option<string>)
    ensures r.Some? <==> e.usagePage == UsagePageButton || e.usagePage == UsagePageGenericDesktop
    ensures e.usagePage == UsagePageButton ==> r == Some("Button " + IntToDecimal(e.usage))
    ensures e.usagePage == UsagePageGenericDesktop ==> r == Some(GenericDesktopName(e.usage))
    ensures e.usagePage == UsagePageGenericDesktop && e.usage == UsageHatSwitch ==> r == Some("HatSwitch")
  {
    if e.usagePage == UsagePageButton then Some("Button " + IntToDecimal(e.usage))
    else if e.usagePage == UsagePageGenericDesktop then Some(GenericDesktopName(e.usage))
    else None
  }

  /** `DetermineLayout`: only Input elements get a layout; axes are "Axis",
      buttons "Button", an eight-direction hat "Dpad". */
  function DetermineLayout(e: Element): (r: Option<string>)
    ensures e.reportType != Input ==> r.None?
    ensures r == Some("Axis") <==> e.reportType == Input && IsAxis(e)
    ensures r == Some("Button") <==> (e.reportType == Input &&
      (e.usagePage == UsagePageButton || (e.usagePage == UsagePageGenericDesktop && e.usage as int in ButtonUsages)))
    ensures r == Some("Dpad") ==> e.reportType == Input && e.usagePage == UsagePageGenericDesktop && e.usage == UsageHatSwitch
    ensures (e.reportType == Input && e.usagePage == UsagePageGenericDesktop && e.usage == UsageHatSwitch &&
      e.logicalMin <= e.logicalMax) ==> (r == Some("Dpad") <==> e.logicalMax - e.logicalMin + 1 == 8)
    ensures r.Some? ==> r.value in {"Axis", "Button", "Dpad"}
  {
    if e.reportType != Input then None
    else if e.usagePage == UsagePageButton then Some("Button")
    else if e.usagePage == UsagePageGenericDesktop then
      match e.usage
      case 0x30 | 0x31 | 0x32 | 0x33 | 0x34 | 0x35 | 0x40 | 0x41 | 0x42 | 0x43 | 0x44 | 0x45 | 0x36 | 0x37 | 0x38 =>
        Some("Axis")
      case 0x3E | 0x3D | 0x90 | 0x91 | 0x93 | 0x92 =>
        Some("Button")
      case 0x39 =>
        // Only hat switches with 8 directions (a 32-bit int subtraction in the source).
        if I32(I32(e.logicalMax - e.logicalMin) + 1) == 8 then Some("Dpad") else None
      case _ => None
    else None
  }

  /** `DetermineFormat`: the fixed-width format of the element's size and
      signedness, the bit format for every other size. */
  function DetermineFormat(e: Element): (r: FourCC)
    ensures r == FormatBit <==> e.reportSizeInBits !in {8, 16, 32}
    ensures r != FormatBit ==>
      FormatSizeInBits(r) == Some(e.reportSizeInBits as int) && (IsSignedFormat(r) <==> IsSigned(e))
  {
    match e.reportSizeInBits
    case 8 => if IsSigned(e) then FormatSByte else FormatByte
    case 16 => if IsSigned(e) then FormatShort else FormatUShort
    case 32 => if IsSigned(e) then FormatInt else FormatUInt
    case _ => FormatBit
  }

  /** `DetermineUsages`: trigger and action usages for buttons 1 and 2, Twist for Rz. */
  function DetermineUsages(e: Element): (r: Option<seq<string>>)
    ensures r.Some? <==> ((e.usagePage == UsagePageButton && e.usage in {1, 2}) ||
      (e.usagePage == UsagePageGenericDesktop && e.usage == UsageRz))
    ensures e.usagePage == UsagePageButton && e.usage == 1 ==> r == Some(["PrimaryTrigger", "PrimaryAction"])
    ensures e.usagePage == UsagePageButton && e.usage == 2 ==> r == Some(["SecondaryTrigger", "SecondaryAction"])
    ensures e.usagePage == UsagePageGenericDesktop && e.usage == UsageRz ==> r == Some(["Twist"])
  {
    if e.usagePage == UsagePageButton && e.usage == 1 then Some(["PrimaryTrigger", "PrimaryAction"])
    else if e.usagePage == UsagePageButton && e.usage == 2 then Some(["SecondaryTrigger", "SecondaryAction"])
    else if e.usagePage == UsagePageGenericDesktop && e.usage == UsageRz then Some(["Twist"])
    else None
  }

  /** The signed range of `reportSizeInBits`, as the source's casts compute it:
      `(int)-(long)(1UL << (bits - 1))` and `(int)((1UL << (bits - 1)) - 1)`.
      A `ulong` shift uses the low six bits of its count. */
  function SignedRange(bits: int32): (r: (int32, int32))
    ensures 1 <= bits <= 32 ==> r.0 + Pow2(bits - 1) == 0 && r.1 == Pow2(bits - 1) - 1
  {
    var k := (bits - 1) % 64;
    Pow2UpTo31(k);
    var p: int := Pow2(k);
    assert 1 <= bits <= 32 ==> k == bits - 1 && I32(-p) == -p && I32(p - 1) == p - 1;
    (I32(-p), I32(p - 1))
  }

  /** The unsigned maximum `(uint)((1UL << bits) - 1)`. */
  function UnsignedMax(bits: int32): (r: uint32)
    ensures 0 <= bits <= 32 ==> r == Pow2(bits) - 1
  {
    var k := bits % 64;
    Pow2UpTo32(k);
    assert 0 <= bits <= 32 ==> k == bits && U32(Pow2(k) - 1) == Pow2(k) - 1;
    U32(Pow2(k) - 1)
  }

  lemma Pow2UpTo32(n: nat)
    ensures n <= 32 ==> Pow2(n) <= 0x1_0000_0000
  {
    if n <= 32 {
      Pow2Monotone(n, 32);
      Pow2Of32();
    }
  }

  lemma Pow2UpTo31(n: nat)
    ensures n <= 31 ==> Pow2(n) <= 0x8000_0000
  {
    if n <= 31 {
      Pow2Monotone(n, 31);
      Pow2Of32();
      assert Pow2(32) == 2 * Pow2(31);
    }
  }

  lemma Pow2Of32()
    ensures Pow2(32) == 0x1_0000_0000
  {
    assert Pow2(4) == 16;
    Pow2Add(4, 4);
    assert Pow2(8) == 0x100;
    Pow2Add(8, 8);
    assert Pow2(16) == 0x1_0000;
    Pow2Add(16, 16);
  }

  lemma {:induction false} Pow2Add(a: nat, b: nat)
    ensures Pow2(a + b) == Pow2(a) * Pow2(b)
  {
    if a > 0 {
      Pow2Add(a - 1, b);
    }
  }

  lemma {:induction false} Pow2Monotone(a: nat, b: nat)
    requires a <= b
    ensures Pow2(a) <= Pow2(b)
    decreases b
  {
    if a < b {
      Pow2Monotone(a, b - 1);
    }
  }

  /** `minFloatValue` / `maxFloatValue` for a logical bound v: the position of
      v in the element's full range, mapped to [-1, 1] when signed and [0, 1]
      when unsigned. */
  function FloatValue(e: Element, v: int32): (r: real)
    ensures IsSigned(e) ==> -1.0 <= r <= 1.0
    ensures !IsSigned(e) ==> 0.0 <= r <= 1.0
  {
    if IsSigned(e) then
      var range := SignedRange(e.reportSizeInBits);
      NumberHelpers.NormalizedInUnitInterval(v, range.0, range.1);
      NumberHelpers.IntToNormalizedFloat(v, range.0, range.1) * 2.0 - 1.0
    else
      NumberHelpers.UIntToNormalizedFloat(U32(v), 0, UnsignedMax(e.reportSizeInBits))
  }

  function MinFloatValue(e: Element): real { FloatValue(e, e.logicalMin) }
  function MaxFloatValue(e: Element): real { FloatValue(e, e.logicalMax) }

  const FixedNormalization := "normalize,normalizeMin=0,normalizeMax=1,normalizeZero=0.5"

  /** `DetermineAxisNormalizationParameters`: the fixed unit normalisation when
      both logical bounds are 0; nothing when the converted bounds are both 0;
      otherwise min, max and their midpoint. */
  function DetermineAxisNormalizationParameters(e: Element): (r: Option<Text>)
    ensures e.logicalMin == 0 && e.logicalMax == 0 ==> r == Some(Chars(FixedNormalization))
  {
    if e.logicalMin == 0 && e.logicalMax == 0 then Some(Chars(FixedNormalization))
    else
      var min := MinFloatValue(e);
      var max := MaxFloatValue(e);
      if min == 0.0 && max == 0.0 then None
      else
        var zero := min + (max - min) / 2.0;
        Some(Chars("normalize,normalizeMin=") + [Num(min)] + Chars(",normalizeMax=") + [Num(max)] +
          Chars(",normalizeZero=") + [Num(zero)])
  }

  /** `DetermineParameters`: axis normalisation for the axis usages, nothing otherwise. */
  function DetermineParameters(e: Element): (r: Option<Text>)
    ensures !IsAxis(e) ==> r.None?
  {
    if e.usagePage == UsagePageGenericDesktop then
      match e.usage
      case 0x30 | 0x31 | 0x32 | 0x33 | 0x34 | 0x35 | 0x40 | 0x41 | 0x42 | 0x43 | 0x44 | 0x45 | 0x36 | 0x37 | 0x38 =>
        DetermineAxisNormalizationParameters(e)
      case _ => None
    else None
  }

  /** `DetermineProcessors`: a dead zone on exactly the axis usages. */
  function DetermineProcessors(e: Element): (r: Option<string>)
    ensures r.Some? <==> IsAxis(e)
    ensures r.Some? ==> r.value == "axisDeadzone"
  {
    if e.usagePage == UsagePageGenericDesktop then
      match e.usage
      case 0x30 | 0x31 | 0x32 | 0x33 | 0x34 | 0x35 | 0x40 | 0x41 | 0x42 | 0x43 | 0x44 | 0x45 | 0x36 | 0x37 | 0x38 =>
        Some("axisDeadzone")
      case _ => None
    else None
  }

  /** C# integer division, which truncates toward zero. */
  function CDiv(a: int, b: int): int
    requires b != 0
  {
    if (a >= 0) == (b > 0) then
      if a >= 0 then a / b else (-a) / (-b)
    else
      -((if a >= 0 then a else -a) / (if b > 0 then b else -b))
  }

  /** `DetermineDefaultState`: a null state outside the logical range for a
      hat that has one, the midpoint for an unsigned axis, otherwise empty. */
  function DetermineDefaultState(e: Element): (r: PrimitiveValue)
    ensures r.IntValue? ==>
      e.usagePage == UsagePageGenericDesktop && (e.usage == UsageHatSwitch || (IsAxis(e) && !IsSigned(e)))
  {
    if e.usagePage == UsagePageGenericDesktop then
      match e.usage
      case 0x39 =>
        if e.hasNullState && e.logicalMin >= 1 then IntValue(e.logicalMin - 1)
        else if e.hasNullState && U64(e.logicalMax) < Pow2(e.reportSizeInBits % 64) - 1 then
          IntValue(I32(e.logicalMax + 1))
        else Empty
      case 0x30 | 0x31 | 0x32 | 0x33 | 0x34 | 0x35 | 0x40 | 0x41 | 0x42 | 0x43 | 0x44 | 0x45 | 0x36 | 0x37 | 0x38 =>
        if !IsSigned(e) then
          var defaultValue := I32(e.logicalMin + CDiv(I32(e.logicalMax - e.logicalMin), 2));
          if defaultValue != 0 then IntValue(defaultValue) else Empty
        else Empty
      case _ => Empty
    else Empty
  }

  /** C# `(ulong)x` for an int: keep the low 64 bits. */
  function U64(x: int): (r: uint64)
    ensures 0 <= x < 0x1_0000_0000_0000_0000 ==> r == x
  {
    x % 0x1_0000_0000_0000_0000
  }

  // ---------------------------------------------------------------------------
  // Properties

  /** The four switches over the axis usages list the same fifteen usages:
      layout "Axis", processors, parameters and the midpoint default. */
  lemma AxisSwitchesAgree(e: Element)
    requires e.reportType == Input
    ensures DetermineLayout(e) == Some("Axis") <==> DetermineProcessors(e).Some?
    ensures DetermineParameters(e).Some? ==> DetermineLayout(e) == Some("Axis")
    ensures IsAxis(e) ==> DetermineParameters(e) == DetermineAxisNormalizationParameters(e)
  {
  }

  /** The element name is the display name with a lower-case first letter
      (Generic Desktop, except the hat) or with the space dropped and the
      first letter lowered (buttons). */
  lemma NameFollowsDisplayName(e: Element)
    requires e.usagePage == UsagePageButton || (e.usagePage == UsagePageGenericDesktop && e.usage != UsageHatSwitch)
    ensures DetermineDisplayName(e).Some?
    ensures var d := DetermineDisplayName(e).value;
      if e.usagePage == UsagePageButton then
        d[..7] == "Button " && DetermineName(e) == "button" + d[7..]
      else
        DetermineName(e) == [LowerChar(d[0])] + d[1..]
  {
  }

  /** A button's name is "button" followed by its usage in decimal, which
      reads back as the usage (after a minus sign when it is negative). */
  lemma ButtonNameReadsBack(e: Element)
    requires e.usagePage == UsagePageButton
    ensures var r := DetermineName(e);
      |r| > 6 && r[..6] == "button" &&
      (e.usage >= 0 ==> IsDecimal(r[6..]) && ParseDecimal(r[6..]) == e.usage) &&
      (e.usage < 0 ==> |r| > 7 && r[6] == '-' && IsDecimal(r[7..]) && ParseDecimal(r[7..]) == -(e.usage as int))
  {
    var r := DetermineName(e);
    if e.usage >= 0 {
      assert r[6..] == NatToDecimal(e.usage);
      ParseNatToDecimal(e.usage);
    } else {
      assert r[7..] == NatToDecimal(-(e.usage as int));
      ParseNatToDecimal(-(e.usage as int));
    }
  }

  /** Outside the Button and Generic Desktop pages the name carries the page
      as exactly eight hexadecimal digits and the usage as one or more; both
      read back as the values' low 32 bits. */
  lemma FallbackNameReadsBack(e: Element)
    requires e.usagePage != UsagePageButton && e.usagePage != UsagePageGenericDesktop
    ensures var r := DetermineName(e);
      |r| >= 28 && r[..10] == "UsagePage(" && r[18..26] == ") Usage(" && r[|r| - 1] == ')' &&
      AllHexDigits(r[10..18]) && ParseHex(r[10..18]) == U32(e.usagePage) &&
      AllHexDigits(r[26..|r| - 1]) && ParseHex(r[26..|r| - 1]) == U32(e.usage)
  {
    var page, usage := HexUpper(U32(e.usagePage), 8), HexUpper(U32(e.usage), 0);
    assert Pow16(8) == 0x1_0000_0000;
    HexUpperWidth(U32(e.usagePage), 8);
    ParseHexUpper(U32(e.usagePage), 8);
    ParseHexUpper(U32(e.usage), 0);
    var r := DetermineName(e);
    assert r == "UsagePage(" + page + ") Usage(" + usage + ")";
    assert r[10..18] == page;
    assert r[26..|r| - 1] == usage;
  }

  /** Signed bounds normalise into [-1, 1], unsigned ones into [0, 1]; when
      the bounds are ordered so are the normalised values, and the midpoint of
      the normalisation string lies between them. */
  lemma NormalizationBounds(e: Element)
    requires DetermineAxisNormalizationParameters(e).Some?
    requires !(e.logicalMin == 0 && e.logicalMax == 0)
    requires e.logicalMin <= e.logicalMax
    ensures var min, max := MinFloatValue(e), MaxFloatValue(e);
      min <= max && min <= min + (max - min) / 2.0 <= max &&
      (IsSigned(e) ==> -1.0 <= min && max <= 1.0) &&
      (!IsSigned(e) ==> 0.0 <= min && max <= 1.0)
  {
    if IsSigned(e) {
      var range := SignedRange(e.reportSizeInBits);
      NumberHelpers.IntToNormalizedMonotone(e.logicalMin, e.logicalMax, range.0, range.1);
    } else {
      NumberHelpers.UIntAgreesWithInt(U32(e.logicalMin), 0, UnsignedMax(e.reportSizeInBits));
      NumberHelpers.UIntAgreesWithInt(U32(e.logicalMax), 0, UnsignedMax(e.reportSizeInBits));
      NumberHelpers.IntToNormalizedMonotone(U32(e.logicalMin), U32(e.logicalMax), 0, UnsignedMax(e.reportSizeInBits));
    }
  }

  /** The null state of a hat lies outside its logical range; when that
      range fits the report's bits, so does the null state (section 6.2.2.5
      of HID 1.11). The value below the range is taken without looking at
      the width. */
  lemma HatNullStateOutOfRange(e: Element)
    requires e.usagePage == UsagePageGenericDesktop && e.usage == UsageHatSwitch && e.hasNullState
    requires 0 <= e.logicalMin <= e.logicalMax < 0x7FFF_FFFF
    requires 0 <= e.reportSizeInBits < 64
    ensures var s := DetermineDefaultState(e);
      s.IntValue? ==>
        (s.v < e.logicalMin || e.logicalMax < s.v) && 0 <= s.v &&
        (e.logicalMax < Pow2(e.reportSizeInBits) ==> s.v <= Pow2(e.reportSizeInBits) - 1)
    ensures e.logicalMin >= 1 ==> DetermineDefaultState(e) == IntValue(e.logicalMin - 1)
    ensures e.logicalMin == 0 ==>
      (DetermineDefaultState(e).IntValue? <==> e.logicalMax < Pow2(e.reportSizeInBits) - 1)
  {
    var bits := e.reportSizeInBits;
    assert bits % 64 == bits;
    assert U64(e.logicalMax) == e.logicalMax;
    assert I32(e.logicalMax + 1) == e.logicalMax + 1;
  }

  /** The default state of an unsigned axis is the midpoint of its logical
      range (0 is stored as the empty default); signed axes default to empty. */
  lemma AxisDefaultIsMidpoint(e: Element)
    requires IsAxis(e)
    ensures IsSigned(e) ==> DetermineDefaultState(e) == Empty
    ensures !IsSigned(e) && e.logicalMin <= e.logicalMax ==>
      var mid := e.logicalMin + (e.logicalMax - e.logicalMin) / 2;
      e.logicalMin <= mid <= e.logicalMax &&
      DetermineDefaultState(e) == (if mid == 0 then Empty else IntValue(mid))
  {
  }

  /** Elements outside the Generic Desktop page have no processors,
      parameters or default state. */
  lemma OtherPagesUnprocessed(e: Element)
    requires e.usagePage != UsagePageGenericDesktop
    ensures DetermineProcessors(e).None? && DetermineParameters(e).None? && DetermineDefaultState(e) == Empty
  {
  }
}
