# SpaceNavigator driver core in Dafny

A model of the logic at the centre of the SpaceNavigator Unity driver for 3Dconnexion 3D mice. It covers five parts.

- **The macOS 3Dconnexion client wire contract** (`ConnexionClient.h`, `ConnexionClientAPI.h`):
  - the capability, button and switch bitmasks;
  - the four- and two-character tags;
  - the packed `ConnexionDeviceState` (48 bytes) and `ConnexionDevicePrefs` (152 bytes) records, with a byte-level encoder and decoder for each;
  - the bit packing of control-command parameters;
  - the message-type to argument contract;
  - the button-label blob: 32 NUL-terminated strings.

  Module `ConnexionClient` holds the records and masks. Module `ConnexionClientApi` holds messages, control calls and labels. The header leaves byte order to the host; the model uses little-endian, the order of every macOS host (x86-64 and arm64).
- **HID element classification** (`HIDElementDescriptorExtensions.cs`, module `HidElementDescriptor`). These are pure functions from a USB HID element descriptor to:
  - a control name, display name, layout and format;
  - usages, processors and parameters;
  - a default state.

  The usage values are those of the USB HID Usage Tables 1.12: section 4 for the Generic Desktop page, section 12 for the Button page.
- **Layout building over merged reports** (`SpaceMouseHIDLayoutBuilder.cs`, module `SpaceMouseHidLayoutBuilder`), with its helpers `StringHelpers.cs` and `NumberHelpers.cs` (modules `StringHelpers` and `NumberHelpers`). The `Build` loop does three things:
  - it groups X..Z and Rx..Rz into `translation` and `rotation`, with y and z swapped and `invert` parameters;
  - it relocates each element into a merged state by its Report ID;
  - it makes control names unique.

  `Build`, `Join`, `MakeUniqueName` and `TryDetermineGroup` are methods with loops, each proved equal to a specification function. The properties are proved about those functions.

  `Build` and `BuildStep` use the corrected parameter join: an element's own parameters are joined with its own group's only. The source also joins the group carried over from an earlier element; `BuildStepAsWritten` models that, and the Findings section shows where the two differ.
- **Report merging** (`SpaceNavigatorDummyHID.cs`, `SpaceNavigatorEnterpriseHID.cs`, modules `SpaceNavigatorDummyHid` and `SpaceNavigatorEnterpriseHid`, shared pieces in `MergedReportState`). A device class owns its 28-byte state array. `OnStateEvent` copies the state, overwrites one report section with `MemCpy`, and commits the copy. Its contract ties the new array to a pure `Merge`.
- **LED commands and the current device** (`SpaceNavigatorHID.cs`, module `SpaceNavigatorHid`). These are the LED command record and a class holding the static `current` device and the log of LED commands sent. `MakeCurrent`, `OnRemoved` and `Quit` update both.

Module `Common` holds fixed-width integer types, little-endian fields, decimal and hexadecimal text, ASCII lower-casing and an in-place `MemCpy` on arrays.

## Model

Paths are relative to the repository root. `ConnexionClient.h` stands at `XCodePlugin/3DconnexionClient.framework/Versions/A/Headers/ConnexionClient.h`, and `ConnexionClientAPI.h` at `3DConnexionWrapper/3DconnexionClient.framework/Versions/A/Headers/ConnexionClientAPI.h`.

| member | source | states |
|---|---|---|
| Common.FieldRoundTrips | XCodePlugin/3DconnexionClient.framework/Versions/A/Headers/ConnexionClient.h:172-189 | every 16-, 32- and 64-bit field, signed or unsigned, decodes to the value it was encoded from |
| Common.FieldBytesRoundTrip | XCodePlugin/3DconnexionClient.framework/Versions/A/Headers/ConnexionClient.h:172-189 | any 2, 4 or 8 bytes re-encode to themselves after decoding, so every byte pattern is some field value |
| Common.SignedArrayRoundTrip | XCodePlugin/3DconnexionClient.framework/Versions/A/Headers/ConnexionClient.h:185 | an array of signed fields (such as `axis[6]`) decodes element by element to the values encoded |
| Common.ParseHexUpper | Runtime/HIDElementDescriptorExtensions.cs:70 | the upper-case hex digits written for a number read back as that number, whatever the padding |
| Common.HexUpperWidth | Runtime/HIDElementDescriptorExtensions.cs:70 | a number below 16^w is written in exactly w hex digits, so a 32-bit page takes eight |
| Common.MemCpy | Runtime/SpaceNavigatorDummyHID.cs:89 | the destination holds `count` source bytes at the offset, and every byte outside that window keeps its old value |
| NumberHelpers.IntToNormalizedFloat | Runtime/NumberHelpers.cs:10-19 | 0 at or below the minimum; 1 above the minimum and at or above the maximum; otherwise the exact ratio (value − min)/(max − min), strictly between 0 and 1 |
| NumberHelpers.UIntToNormalizedFloat | Runtime/NumberHelpers.cs:22-30 | the same three cases for unsigned operands |
| NumberHelpers.NormalizedInUnitInterval | Runtime/NumberHelpers.cs:12-18 | the result always lies in [0, 1]; when max ≤ min it is 0 or 1, so no division by zero can happen |
| NumberHelpers.IntToNormalizedMonotone | Runtime/NumberHelpers.cs:10-19 | for fixed bounds the result never decreases as the value grows |
| NumberHelpers.UIntAgreesWithInt | Runtime/NumberHelpers.cs:10-30 | on non-negative operands the unsigned and signed normalisers agree |
| StringHelpers.Joined | Runtime/StringHelpers.cs:16-55 | the join is null exactly when no value is non-null and non-empty; with one such value it is that value unchanged |
| StringHelpers.Join | Runtime/StringHelpers.cs:16-55 | the loop, with its value count, first value and builder, returns `Joined` |
| StringHelpers.JoinSkipsNullOrEmpty | Runtime/StringHelpers.cs:26-30 | inserting a null or empty value anywhere does not change the join |
| StringHelpers.JoinPair | Runtime/StringHelpers.cs:33-54 | two values give `a + separator + b` when both are non-empty, the non-empty one when one is, and null when neither is |
| StringHelpers.JoinSplitRoundTrip | Runtime/StringHelpers.cs:33-54 | splitting the join at a separator char that no value contains gives back exactly the non-empty values in input order: one separator between neighbours, none at either end |
| StringHelpers.TrailingDigitsStart | Runtime/StringHelpers.cs:72-76 | the index where the maximal run of trailing digits starts |
| StringHelpers.SplitTrailingNumber | Runtime/StringHelpers.cs:72-82 | the digit-stripping loop yields the prefix before the trailing digits, and the counter starts one past their value (at 1 when there are none) |
| StringHelpers.MatchesAny | Runtime/StringHelpers.cs:88-99 | false exactly when no existing name lower-cases to the candidate |
| StringHelpers.LongCandidateIsFree | Runtime/StringHelpers.cs:85-100 | a candidate longer than every existing name is free, so the retry loop ends for a finite set |
| StringHelpers.FirstFreeIndex | Runtime/StringHelpers.cs:85-100 | the smallest counter at or above the start whose candidate is free; every smaller counter is taken |
| StringHelpers.UniqueName | Runtime/StringHelpers.cs:57-103 | the base name when the set is null or the name is free; otherwise prefix + k for the first free k from the start counter; the result is always free (case-insensitively) |
| StringHelpers.RetryStep | Runtime/StringHelpers.cs:85-100 | a retry keeps the name the loop will settle on and strictly decreases the loop's measure |
| StringHelpers.MakeUniqueName | Runtime/StringHelpers.cs:57-103 | the two loops return `UniqueName` |
| HidElementDescriptor.FloatValue | Runtime/HIDElementDescriptorExtensions.cs:18-48 | `minFloatValue`/`maxFloatValue`: a bound's position in the element's full range, in [−1, 1] when signed and [0, 1] when unsigned |
| HidElementDescriptor.SignedRange | Runtime/HIDElementDescriptorExtensions.cs:22-23 | the signed range of an n-bit field is −2^(n−1) … 2^(n−1) − 1 |
| HidElementDescriptor.UnsignedMax | Runtime/HIDElementDescriptorExtensions.cs:29 | the unsigned maximum of an n-bit field is 2^n − 1 |
| HidElementDescriptor.DetermineName | Runtime/HIDElementDescriptorExtensions.cs:50-71 | a Button-page element is named "button" + its usage in decimal; the hat is "hat"; another Generic Desktop usage gets its enum name with the first letter lower-cased, so never a capital first letter; any other page gives `UsagePage(<page as eight hex digits>) Usage(<usage in hex>)` |
| HidElementDescriptor.ButtonNameReadsBack | Runtime/HIDElementDescriptorExtensions.cs:58-59 | a button's name is "button" followed by decimal digits that read back as the usage, after a '-' when it is negative |
| HidElementDescriptor.FallbackNameReadsBack | Runtime/HIDElementDescriptorExtensions.cs:69-70 | the fallback name holds the page as exactly eight upper-case hex digits and the usage as one or more; both read back as their low 32 bits |
| HidElementDescriptor.GenericDesktopName | Runtime/HIDElementDescriptorExtensions.cs:63 | every named usage prints as a name starting with a capital letter; any other usage prints as its decimal number |
| HidElementDescriptor.IsSigned | Runtime/HIDElementDescriptorExtensions.cs:16 | an element is signed exactly when its logical minimum is negative |
| HidElementDescriptor.DetermineDisplayName | Runtime/HIDElementDescriptorExtensions.cs:73-84 | a display name exists exactly for the Button and Generic Desktop pages: "Button " + the usage in decimal for a button, the usage's Generic Desktop name otherwise ("HatSwitch" for the hat); null on any other page |
| HidElementDescriptor.DetermineLayout | Runtime/HIDElementDescriptorExtensions.cs:86-135 | null for non-Input elements; "Axis" exactly for the 15 axis usages; "Button" exactly for the Button page and for Select, Start and the four D-pad usages; "Dpad" for a hat exactly when it has 8 logical values |
| HidElementDescriptor.DetermineFormat | Runtime/HIDElementDescriptorExtensions.cs:137-151 | the bit format exactly for sizes other than 8, 16 and 32; otherwise a format of that size that is signed exactly when `logicalMin < 0` |
| HidElementDescriptor.DetermineUsages | Runtime/HIDElementDescriptorExtensions.cs:153-163 | usages exist exactly for buttons 1 and 2 and for Generic Desktop Rz: PrimaryTrigger and PrimaryAction for button 1, SecondaryTrigger and SecondaryAction for button 2, Twist for Rz |
| HidElementDescriptor.DetermineParameters | Runtime/HIDElementDescriptorExtensions.cs:165-191 | no parameters for anything but the axis usages |
| HidElementDescriptor.DetermineAxisNormalizationParameters | Runtime/HIDElementDescriptorExtensions.cs:198-199 | when both logical bounds are 0, the fixed `normalize,normalizeMin=0,normalizeMax=1,normalizeZero=0.5` |
| HidElementDescriptor.DetermineProcessors | Runtime/HIDElementDescriptorExtensions.cs:209-237 | "axisDeadzone" exactly for the axis usages, null otherwise |
| HidElementDescriptor.DetermineDefaultState | Runtime/HIDElementDescriptorExtensions.cs:239-294 | a non-empty default only for a Generic Desktop hat or unsigned axis |
| HidElementDescriptor.AxisSwitchesAgree | Runtime/HIDElementDescriptorExtensions.cs:100-237 | for Input elements the layout is "Axis" exactly when processors are set, parameters are set only for axes, and an axis's parameters are its normalisation parameters |
| HidElementDescriptor.NameFollowsDisplayName | Runtime/HIDElementDescriptorExtensions.cs:50-84 | a button's name is "button" + the number in "Button n"; a Generic Desktop name other than the hat is its display name with the first letter lower-cased |
| HidElementDescriptor.NormalizationBounds | Runtime/HIDElementDescriptorExtensions.cs:193-207 | when normalisation is computed, min ≤ zero ≤ max and both bounds lie in [−1, 1] (signed) or [0, 1] (unsigned) |
| HidElementDescriptor.HatNullStateOutOfRange | Runtime/HIDElementDescriptorExtensions.cs:246-262 | a hat's null state is `logicalMin − 1` when `logicalMin ≥ 1`; when `logicalMin = 0` one exists exactly when `logicalMax < 2^bits − 1`; either lies outside the logical range and is non-negative, and it lies inside [0, 2^bits − 1] whenever `logicalMax` does |
| HidElementDescriptor.AxisDefaultIsMidpoint | Runtime/HIDElementDescriptorExtensions.cs:280-293 | a signed axis has no default; an unsigned axis defaults to the midpoint of its logical range, which lies inside it, and to none when that is 0 |
| HidElementDescriptor.OtherPagesUnprocessed | Runtime/HIDElementDescriptorExtensions.cs:165-294 | elements off the Generic Desktop page get no processors, no parameters and no default |
| SpaceMouseHidLayoutBuilder.TryGetGroupInfo | Runtime/SpaceMouseHIDLayoutBuilder.cs:161-179 | a group matches exactly the Generic Desktop usages in its range, and names the element group + "/" + the entry at `usage − UsageMin` |
| SpaceMouseHidLayoutBuilder.FirstGroup | Runtime/SpaceMouseHIDLayoutBuilder.cs:128-137 | a group is found exactly when some group of the table matches |
| SpaceMouseHidLayoutBuilder.TryDetermineGroup | Runtime/SpaceMouseHIDLayoutBuilder.cs:128-137 | the loop over the table reports a group exactly when one matches; it replaces the carried group info only then |
| SpaceMouseHidLayoutBuilder.GroupRangesDisjoint | Runtime/SpaceMouseHIDLayoutBuilder.cs:18-45 | no element matches both groups |
| SpaceMouseHidLayoutBuilder.GroupAssignment | Runtime/SpaceMouseHIDLayoutBuilder.cs:18-45 | X..Rz and nothing else is grouped; X, Y, Z become translation/x, /z, /y with parameters "", "invert", "invert"; Rx, Ry, Rz become rotation/x, /z, /y with "invert", "", "" |
| SpaceMouseHidLayoutBuilder.OffsetInBits | Runtime/SpaceMouseHIDLayoutBuilder.cs:99 | the element's offset moved by (reportId − 1) reports of `reportSize` bytes, with 32-bit wrap-around |
| SpaceMouseHidLayoutBuilder.ByteAndBitOffset | Runtime/SpaceMouseHIDLayoutBuilder.cs:108-109 | byte × 8 + bit equals the offset taken as `uint`, and bit < 8 |
| SpaceMouseHidLayoutBuilder.GroupControlOf | Runtime/SpaceMouseHIDLayoutBuilder.cs:85-90 | the group control carries the group's name at byte and bit offset 0 |
| SpaceMouseHidLayoutBuilder.ControlParameters | Runtime/SpaceMouseHIDLayoutBuilder.cs:115-117 | an ungrouped element keeps its own non-empty parameters and nothing else (corrected form, see Findings); a grouped element gets its own and its group's non-empty parameters, comma-joined in that order, or none when both are empty |
| SpaceMouseHidLayoutBuilder.NewElementControl | Runtime/SpaceMouseHIDLayoutBuilder.cs:104-113 | the element control carries the unique name it was given |
| SpaceMouseHidLayoutBuilder.BuildStep | Runtime/SpaceMouseHIDLayoutBuilder.cs:70-122 | a non-Input element or one without a layout adds nothing; any other element extends the controls (never rewriting earlier ones) and ends them with its element control, after at most its group control (corrected parameter join, see Findings) |
| SpaceMouseHidLayoutBuilder.Build | Runtime/SpaceMouseHIDLayoutBuilder.cs:53-126 | the loop builds exactly the controls of the fold of `BuildStep`, a state of `reportCount × reportSize` bytes, extending "HID" with format 'HID ' (corrected parameter join, see Findings) |
| SpaceMouseHidLayoutBuilder.ExpectedControl | Runtime/SpaceMouseHIDLayoutBuilder.cs:99-113 | the element control's layout and size come from the element, and its byte and bit offsets recompose the relocated offset |
| SpaceMouseHidLayoutBuilder.ElementControlsMatchElements | Runtime/SpaceMouseHIDLayoutBuilder.cs:70-122 | apart from names, the element controls are exactly one per qualifying element, in order (corrected parameter join, see Findings) |
| SpaceMouseHidLayoutBuilder.BuildNamesUnique | Runtime/SpaceMouseHIDLayoutBuilder.cs:93-96 | each element control's name differs case-insensitively from every control added before it |
| SpaceMouseHidLayoutBuilder.BuildGroupControlsWellPlaced | Runtime/SpaceMouseHIDLayoutBuilder.cs:79-91 | every group control is immediately followed by an element control |
| SpaceMouseHidLayoutBuilder.StaleGroupParametersLeak | Runtime/SpaceMouseHIDLayoutBuilder.cs:115-117 | after Z, an ungrouped Slider gets ",invert" appended as written, and only its own parameters when corrected |
| SpaceMouseHidLayoutBuilder.ControlParametersAsWritten | Runtime/SpaceMouseHIDLayoutBuilder.cs:115-117 | as written, a grouped element's parameters are the corrected ones, and so are an ungrouped element's when the carried group has no parameters; an ungrouped element with parameters after a group with parameters gets the group's appended after a comma |
| SpaceMouseHidLayoutBuilder.BuildStepAsWritten | Runtime/SpaceMouseHIDLayoutBuilder.cs:70-122 | the loop step as written adds what the corrected step adds unless the element is ungrouped and the carried group has parameters; both carry the same group info |
| SpaceMouseHidLayoutBuilder.FoldsAgreeWithoutGroupParameters | Runtime/SpaceMouseHIDLayoutBuilder.cs:67-122 | when no element's group has parameters, the loop as written builds exactly the corrected state |
| MergedReportState.Overwrite | Runtime/SpaceNavigatorDummyHID.cs:93-103 | a section copy writes the `count` bytes at the offset from the source and keeps every other byte |
| SpaceNavigatorDummyHid.ReportSection | Runtime/SpaceNavigatorDummyHID.cs:91-105 | the section each report ID overwrites lies inside the 28-byte state |
| SpaceNavigatorDummyHid.Merge | Runtime/SpaceNavigatorDummyHID.cs:69-110 | delta and non-HID events keep the state; a HID event overwrites exactly its report's section with the bytes after the ID and keeps every other byte |
| SpaceNavigatorDummyHid.SpaceNavigatorDummyHidDevice.OnStateEvent | Runtime/SpaceNavigatorDummyHID.cs:69-110 | the state array becomes `Merge` of the old one; the change is committed exactly for HID state events |
| SpaceNavigatorDummyHid.MergeIdempotent | Runtime/SpaceNavigatorDummyHID.cs:87-109 | the same event twice leaves the state it left once |
| SpaceNavigatorDummyHid.ReportsCommute | Runtime/SpaceNavigatorDummyHID.cs:91-105 | reports with different IDs may arrive in either order |
| SpaceNavigatorDummyHid.LastReportWins | Runtime/SpaceNavigatorDummyHID.cs:87-109 | of two reports with the same ID only the later is visible |
| SpaceNavigatorDummyHid.ControlsInsideTheirReport | Runtime/SpaceNavigatorDummyHID.cs:31-46 | every declared control's bytes lie inside its report's section, so a report sets them all |
| SpaceNavigatorEnterpriseHid.ReportSection | Runtime/SpaceNavigatorEnterpriseHID.cs:95-105 | only IDs 1 and 3 select a section, inside the 28-byte state |
| SpaceNavigatorEnterpriseHid.Merge | Runtime/SpaceNavigatorEnterpriseHID.cs:73-110 | delta and non-HID events keep the state; ID 1 or 3 overwrites exactly its section; any other ID commits the state unchanged |
| SpaceNavigatorEnterpriseHid.SpaceNavigatorEnterpriseHidDevice.OnStateEvent | Runtime/SpaceNavigatorEnterpriseHID.cs:73-110 | the state array becomes `Merge` of the old one; the change is committed exactly for HID state events |
| SpaceNavigatorEnterpriseHid.Report2NeverWritten | Runtime/SpaceNavigatorEnterpriseHID.cs:95-105 | no event changes the report-2 field |
| SpaceNavigatorEnterpriseHid.MergeIdempotent | Runtime/SpaceNavigatorEnterpriseHID.cs:91-109 | the same event twice leaves the state it left once |
| SpaceNavigatorEnterpriseHid.ReportsCommute | Runtime/SpaceNavigatorEnterpriseHID.cs:95-105 | axis and button reports may arrive in either order |
| SpaceNavigatorEnterpriseHid.RotationZSpansPastReport1 | Runtime/SpaceNavigatorEnterpriseHID.cs:33-43 | every control but rotation/z lies inside its report's section; rotation/z spans bytes 11–12 while report 1 writes bytes 0–11, and byte 12 never changes |
| SpaceNavigatorHid.ReadStatus | Runtime/SpaceNavigatorHID.cs:117-140 | a command reads as a status only if it is a 'HIDO' command for report 4 whose status byte is that status |
| SpaceNavigatorHid.Create | Runtime/SpaceNavigatorHID.cs:132-139 | a created command reads back as its status and carries report 4 and a 2-byte payload after the base command |
| SpaceNavigatorHid.CreateReadRoundTrip | Runtime/SpaceNavigatorHID.cs:132-139 | a created command reads back as its status, carries a 2-byte payload, and differs between On and Off |
| SpaceNavigatorHid.OnCommand | Runtime/SpaceNavigatorHID.cs:129 | `LEDCommand.On` reads as On |
| SpaceNavigatorHid.OffCommand | Runtime/SpaceNavigatorHID.cs:130 | `LEDCommand.Off` reads as Off |
| SpaceNavigatorHid.DeviceBookkeeping.SetLedStatus | Runtime/SpaceNavigatorHID.cs:108-113 | appends the created command for that device to the log; `current` is unchanged |
| SpaceNavigatorHid.DeviceBookkeeping.MakeCurrent | Runtime/SpaceNavigatorHID.cs:76-82 | makes the device current, then logs LED On for it |
| SpaceNavigatorHid.DeviceBookkeeping.OnRemoved | Runtime/SpaceNavigatorHID.cs:86-93 | clears `current` only if it is this device, then logs LED Off for it |
| SpaceNavigatorHid.DeviceBookkeeping.Quit | Runtime/SpaceNavigatorHID.cs:51-55 | logs LED Off for the current device, if any |
| SpaceNavigatorHid.LastStatusAfterSend | Runtime/SpaceNavigatorHID.cs:108-113 | after a send, that device's last status is the one sent, and every other device's is unchanged |
| SpaceNavigatorHid.MakeCurrentLightsDevice | Runtime/SpaceNavigatorHID.cs:76-82 | after `MakeCurrent` the device is current and its LED is on |
| SpaceNavigatorHid.OnRemovedTurnsDeviceOff | Runtime/SpaceNavigatorHID.cs:86-93 | after `OnRemoved` the device is not current and its LED is off; another current device stays current and stays lit |
| SpaceNavigatorHid.QuitTurnsCurrentOff | Runtime/SpaceNavigatorHID.cs:51-55 | `Quit` turns the current device's LED off, sends nothing without one, and keeps `current` |
| SpaceNavigatorHid.ReplayKeepsCurrentLit | Runtime/SpaceNavigatorHID.cs:75-93 | through any sequence of `MakeCurrent` and `OnRemoved`, the current device's LED stays on |
| ConnexionClient.TagsSpellTheirLabels | XCodePlugin/3DconnexionClient.framework/Versions/A/Headers/ConnexionClient.h:167-217 | the state and prefs type and version tags are the ASCII bytes of 'MS', 'm3', 'MP', 'p1', high byte first, and the client wildcard is '****' |
| ConnexionClient.MessageTagsDistinct | XCodePlugin/3DconnexionClient.framework/Versions/A/Headers/ConnexionClient.h:55-62 | the eight driver-to-client message tags are pairwise different |
| ConnexionClient.ButtonMaskIsBit | XCodePlugin/3DconnexionClient.framework/Versions/A/Headers/ConnexionClient.h:83-132 | button mask N is `1 << (N − 1)` for N in 1..32 |
| ConnexionClient.AxisMaskIsShiftedBit | XCodePlugin/3DconnexionClient.framework/Versions/A/Headers/ConnexionClient.h:92-97 | axis mask N is `0x0100 << (N − 1)` |
| ConnexionClient.ButtonAggregates | XCodePlugin/3DconnexionClient.framework/Versions/A/Headers/ConnexionClient.h:83-134 | `MaskButtons` is the union of buttons 1–8 and `MaskAllButtons` the union of all 32 |
| ConnexionClient.AxisAggregates | XCodePlugin/3DconnexionClient.framework/Versions/A/Headers/ConnexionClient.h:92-103 | `AxisTrans` = Axis1∣2∣3 and `AxisRot` = Axis4∣5∣6 are disjoint with union `MaskAxis`; `MaskAll` = buttons ∣ axes; the axis bits are disjoint from the legacy button bits and coincide with buttons 9–14 |
| ConnexionClient.SwitchAggregates | XCodePlugin/3DconnexionClient.framework/Versions/A/Headers/ConnexionClient.h:138-160 | the enable and reverse aggregates are the unions of their single-axis switches; ZoomOnY, Dominant, enable and reverse bits are disjoint; `SwitchesDisabled` is disjoint from all |
| ConnexionClient.UnpackModifiersAndBytes | XCodePlugin/3DconnexionClient.framework/Versions/A/Headers/ConnexionClient.h:68-71 | the fields of a keystroke or roll-wheel parameter fit 16, 8 and 8 bits |
| ConnexionClient.PackModifiersAndBytes | XCodePlugin/3DconnexionClient.framework/Versions/A/Headers/ConnexionClient.h:68-71 | modifiers, key (or direction) and char (or amount) that fit their 16-, 8- and 8-bit slots unpack from the parameter unchanged |
| ConnexionClient.ModifiersAndBytesRoundTrip | XCodePlugin/3DconnexionClient.framework/Versions/A/Headers/ConnexionClient.h:68-71 | `(a << 16) ∣ (b << 8) ∣ c` unpacks to a, b, c when they fit, and every parameter repacks to itself |
| ConnexionClient.UnpackHalves | XCodePlugin/3DconnexionClient.framework/Versions/A/Headers/ConnexionClient.h:69-75 | both halves of a move-mouse, click-button or do-mapping parameter fit 16 bits |
| ConnexionClient.PackHalves | XCodePlugin/3DconnexionClient.framework/Versions/A/Headers/ConnexionClient.h:69-75 | a high and a low half that fit 16 bits each unpack from the parameter unchanged |
| ConnexionClient.HalvesRoundTrip | XCodePlugin/3DconnexionClient.framework/Versions/A/Headers/ConnexionClient.h:69-75 | `(high << 16) ∣ low` unpacks to high and low when they fit, and every parameter repacks to itself |
| ConnexionClient.EncodeDeviceState | XCodePlugin/3DconnexionClient.framework/Versions/A/Headers/ConnexionClient.h:172-193 | an encoded state record is 48 bytes |
| ConnexionClient.DecodeDeviceState | XCodePlugin/3DconnexionClient.framework/Versions/A/Headers/ConnexionClient.h:172-193 | any 48 bytes decode to a record whose arrays have their declared lengths |
| ConnexionClient.DeviceStateFieldOffsets | XCodePlugin/3DconnexionClient.framework/Versions/A/Headers/ConnexionClient.h:172-189 | under pack(2) the fields sit at 0, 2, 4, 6, 8, 12, 20, 28, 30, 42 and 44 |
| ConnexionClient.DeviceStateRoundTrip | XCodePlugin/3DconnexionClient.framework/Versions/A/Headers/ConnexionClient.h:172-189 | decoding an encoded state record returns every field unchanged |
| ConnexionClient.DeviceStateBytesRoundTrip | XCodePlugin/3DconnexionClient.framework/Versions/A/Headers/ConnexionClient.h:172-189 | re-encoding a decoded 48-byte record gives back the same bytes |
| ConnexionClient.WellFormedDeviceStateIff | XCodePlugin/3DconnexionClient.framework/Versions/A/Headers/ConnexionClient.h:168-188 | a record has version 'm3' and `buttons8 == buttons & 0xFF` exactly when its bytes hold 'm3' at 0..1, byte 28 equals byte 44 and byte 29 is zero |
| ConnexionClient.EncodeDevicePrefs | XCodePlugin/3DconnexionClient.framework/Versions/A/Headers/ConnexionClient.h:221-250 | an encoded prefs record is 152 bytes |
| ConnexionClient.DecodeDevicePrefs | XCodePlugin/3DconnexionClient.framework/Versions/A/Headers/ConnexionClient.h:221-250 | any 152 bytes decode to a record whose arrays have their declared lengths |
| ConnexionClient.DevicePrefsHeadRoundTrip | XCodePlugin/3DconnexionClient.framework/Versions/A/Headers/ConnexionClient.h:221-235 | the header, signature, name and speed fields sit at their packed offsets |
| ConnexionClient.DevicePrefsMapsRoundTrip | XCodePlugin/3DconnexionClient.framework/Versions/A/Headers/ConnexionClient.h:236-241 | the six per-axis byte arrays sit at 84..119 in order |
| ConnexionClient.DevicePrefsGainsRoundTrip | XCodePlugin/3DconnexionClient.framework/Versions/A/Headers/ConnexionClient.h:242-245 | `scale`, `gamma` and `intersect` sit at 120, 144 and 148 |
| ConnexionClient.DevicePrefsRoundTrip | XCodePlugin/3DconnexionClient.framework/Versions/A/Headers/ConnexionClient.h:221-246 | decoding an encoded prefs record returns every field unchanged |
| ConnexionClient.DevicePrefsBytesRoundTrip | XCodePlugin/3DconnexionClient.framework/Versions/A/Headers/ConnexionClient.h:221-246 | re-encoding decoded 152 bytes gives back the same bytes |
| ConnexionClient.WellFormedDevicePrefsIff | XCodePlugin/3DconnexionClient.framework/Versions/A/Headers/ConnexionClient.h:201-246 | a prefs record has type 'MP', version 'p1', zero reserved fields, a name length ≤ 63, per-axis speed and sensitivity ≤ 200 and a device ID in 0..6 or 0x7FFF exactly when its bytes satisfy the same conditions |
| ConnexionClient.AppName | XCodePlugin/3DconnexionClient.framework/Versions/A/Headers/ConnexionClient.h:230 | the Pascal name is as long as its length byte and at most 63 bytes |
| ConnexionClient.PascalName | XCodePlugin/3DconnexionClient.framework/Versions/A/Headers/ConnexionClient.h:230 | a name becomes the 64-byte `appName` field |
| ConnexionClient.PascalNameRoundTrip | XCodePlugin/3DconnexionClient.framework/Versions/A/Headers/ConnexionClient.h:230 | a name stored as a Pascal string reads back unchanged |
| ConnexionClientApi.DecodeMessage | 3DConnexionWrapper/3DconnexionClient.framework/Versions/A/Headers/ConnexionClientAPI.h:19-23 | a device-state message is accepted exactly when its argument is 48 bytes, and a prefs-changed message exactly when it is 4 bytes |
| ConnexionClientApi.MessageRoundTrip | 3DConnexionWrapper/3DconnexionClient.framework/Versions/A/Headers/ConnexionClientAPI.h:21-23 | an encoded message decodes to itself |
| ConnexionClientApi.MessageBytesRoundTrip | 3DConnexionWrapper/3DconnexionClient.framework/Versions/A/Headers/ConnexionClientAPI.h:21-23 | an accepted type and argument re-encode to themselves |
| ConnexionClientApi.ForClient | 3DConnexionWrapper/3DconnexionClient.framework/Versions/A/Headers/ConnexionClientAPI.h:41-48 | any call moved to the per-client form keeps its message and parameter and is valid |
| ConnexionClientApi.SetSwitchesNeedsClient | 3DConnexionWrapper/3DconnexionClient.framework/Versions/A/Headers/ConnexionClientAPI.h:41-48 | SetSwitches is invalid through `ConnexionControl` and valid through `ConnexionClientControl`; every other defined control code is valid in either form |
| ConnexionClientApi.EncodeLabels | 3DConnexionWrapper/3DconnexionClient.framework/Versions/A/Headers/ConnexionClientAPI.h:60-62 | the blob holds every label's bytes plus one terminator per label |
| ConnexionClientApi.FirstNul | 3DConnexionWrapper/3DconnexionClient.framework/Versions/A/Headers/ConnexionClientAPI.h:60 | an index within the blob that holds a NUL, or the blob's length when there is none |
| ConnexionClientApi.NoNulBeforeFirstNul | 3DConnexionWrapper/3DconnexionClient.framework/Versions/A/Headers/ConnexionClientAPI.h:60 | no NUL comes before that index, so it is the first NUL |
| ConnexionClientApi.ParseLabels | 3DConnexionWrapper/3DconnexionClient.framework/Versions/A/Headers/ConnexionClientAPI.h:60-62 | a parsed blob has exactly 32 labels |
| ConnexionClientApi.ParseEncodedStrings | 3DConnexionWrapper/3DconnexionClient.framework/Versions/A/Headers/ConnexionClientAPI.h:60-61 | parsing encoded NUL-free labels returns them |
| ConnexionClientApi.EncodeParsedStrings | 3DConnexionWrapper/3DconnexionClient.framework/Versions/A/Headers/ConnexionClientAPI.h:60-61 | encoding the labels parsed from a blob gives back the blob |
| ConnexionClientApi.LabelsRoundTrip | 3DConnexionWrapper/3DconnexionClient.framework/Versions/A/Headers/ConnexionClientAPI.h:60-61 | 32 NUL-free labels survive encode-then-parse, and a parsable blob survives parse-then-encode with NUL-free labels |
| ConnexionClientApi.ShownLabels | 3DConnexionWrapper/3DconnexionClient.framework/Versions/A/Headers/ConnexionClientAPI.h:62 | an empty label shows the default for its button; any other label shows itself |
| ConnexionClientApi.AllEmptyRevertsEverything | 3DConnexionWrapper/3DconnexionClient.framework/Versions/A/Headers/ConnexionClientAPI.h:62 | 32 zero bytes parse to 32 empty labels, which revert every button to its default |
| ConnexionClientApi.ExampleHeadEncoding | 3DConnexionWrapper/3DconnexionClient.framework/Versions/A/Headers/ConnexionClientAPI.h:66-69 | the first four labels of the example encode to its first seven bytes |
| ConnexionClientApi.ExampleEncodable | 3DConnexionWrapper/3DconnexionClient.framework/Versions/A/Headers/ConnexionClientAPI.h:63-76 | the example's labels contain no NUL |
| ConnexionClientApi.ExampleParses | 3DConnexionWrapper/3DconnexionClient.framework/Versions/A/Headers/ConnexionClientAPI.h:63-76 | the worked example is 35 bytes and parses to "Top" in slot 2 with the other 31 slots empty |
| ConnexionClientApi.SetButtonLabelsArguments | 3DConnexionWrapper/3DconnexionClient.framework/Versions/A/Headers/ConnexionClientAPI.h:58-62 | 32 labels can be passed exactly when their blob fits the `UInt16` size; the blob passed parses back to them and the size is its length |

## Left out

- Byte order: `ConnexionClient.h` does not fix it. The records are modelled little-endian, as on every macOS host.
- Reserved fields: the record encoders write `reserved1`..`reserved3` as given rather than forcing them to zero. "Set to 0" is part of `WellFormedDevicePrefs`, which follows the header's comments.
- The client session lifecycle is not modelled: install, register, set mask, unregister, `ConnexionGetCurrentDevicePrefs` and the result word of a control call. `ConnexionClientAPI.h` declares these only as prototypes of a foreign library.
- `kConnexionCtlClearSwitches`: `ConnexionClientAPI.h` requires the per-client form for it, but `ConnexionClient.h` defines no value for it, so `ValidControlCall` knows only SetSwitches.
- Control commands are modelled as a message code with a 32-bit parameter, as the header declares them, not as typed command variants. `kConnexionCtlSetLEDState` (a `uint8_t` parameter) and `kConnexionCtlReleaseMods` have no packing function of their own.
- Dominant-axis filtering, gamma curves and `intersect` are not modelled: in the header they are only record fields.
- ConnexionClientApi.EncodeLabels: labels are byte strings. UTF-8 validity is not checked, only the absence of NUL bytes.
- The float arithmetic is done on reals: `minFloatValue`/`maxFloatValue`, the `(float)` casts in `NumberHelpers.cs` and the `double` intermediate. `Mathf.Approximately(0, x)` is taken as `x == 0`.
- HidElementDescriptor.DetermineAxisNormalizationParameters: its contract states only the integer branch, the fixed string for bounds 0 and 0. In the computed branch each `float.ToString` is an opaque number glyph in the text, because IEEE formatting is not modelled.
- HidElementDescriptor.HatNullStateOutOfRange: requires `logicalMax < 0x7FFFFFFF` and `reportSizeInBits < 64`. The source's `logicalMax + 1` wraps at the first bound, and its `1UL << bits` masks the shift at the second (the function itself models both).
- HidElementDescriptor.HatNullStateOutOfRange: for a logical range wider than the report bits it promises only that the null state is outside the range and non-negative. The source returns `logicalMin - 1` without checking the width: 2 bits with range 5..6 give 4, which 2 bits cannot hold.
- `GenericDesktop.ToString()` is modelled for 0x30–0x3E, 0x40–0x45 and 0x90–0x93. The enum's other named members (Pointer, Mouse, SystemControl and the rest) render as their decimal number here, not as their names.
- `DetermineName`'s fallback pads the page to eight hex digits (Unity's enum "X" format) and prints the usage in minimal hex.
- StringHelpers.MakeUniqueName: lower-casing covers ASCII A–Z only, and `char.IsDigit` covers '0'–'9' only. `int.Parse` of a long digit run cannot overflow in the model.
- The `getNameFunc` argument and its `ArgumentNullException` are not modelled: the names are passed directly.
- `DebugLog`, `Debug.Assert`, the unused `HID.UsageToString` result, Unity layout registration, `FinishSetup`, `OnNextUpdate` and `GetStateOffsetForEvent` are not modelled.
- `InputControlLayout.Builder` becomes a record of a control list and the layout fields. The Unity `Build()` that turns it into a layout is outside the model, as are the display name and device type it only passes through.
- SpaceNavigatorDummyHid.SpaceNavigatorDummyHidDevice.OnStateEvent: requires the event to carry the report-ID byte and the bytes the copy reads. The source copies from raw event memory with no length check, and what it reads past a short event is unknown. The same holds for SpaceNavigatorEnterpriseHid.SpaceNavigatorEnterpriseHidDevice.OnStateEvent.
- `InputState.Change` is modelled as a copy of the new state over the device's state block. Event timestamps, state-change monitors and the `InputEventPtr` plumbing are not modelled.
- The `Vector3` composite controls (`translation`, `rotation`) in the two state structs have no byte span of their own, so they are not in the control tables; their children are. The `scale` parameters of those controls are not modelled.
- `sizeof` of the state structs is taken as 28: 12 + 12 + 1 bytes, padded to the 4-byte alignment of `Vector3`.
- Devices are identified by a number, standing for C# reference identity. `base.MakeCurrent()`, `base.OnRemoved()` and the result of `ExecuteCommand` are not modelled; the LED commands executed are recorded as a log.
- `InputDeviceCommand.BaseCommandSize` is 8 (Unity's type and size fields), a constant that is not part of the source.

## Findings

| source | as written | input that shows it | evidently intended | confidence | as-written member | corrected member |
|---|---|---|---|---|---|---|
| Runtime/SpaceMouseHIDLayoutBuilder.cs:115-117 | `groupInfo` keeps the last matched group across loop iterations, and `Join(",", parameters, groupInfo.ElementParameters)` reads it even when the current element has no group (only the guard checks `hasGroup`) | a descriptor with Generic Desktop Z (grouped, parameter "invert") followed by an ungrouped Slider with logical range 0..255: the Slider's parameters become its normalisation string + ",invert" | only a grouped element's own group parameters are joined in; an ungrouped element keeps its own parameters | medium, not executed | SpaceMouseHidLayoutBuilder.ControlParametersAsWritten (shown by SpaceMouseHidLayoutBuilder.StaleGroupParametersLeak) | SpaceMouseHidLayoutBuilder.ControlParameters |
