/** Runtime/SpaceMouseHIDLayoutBuilder.cs: builds the Input System layout of a
    3D mouse from its HID descriptor. All reports are merged into one state
    of reportCount * reportSize bytes, report N starting at byte
    (N - 1) * reportSize (the Report ID of section 6.2.2.7 of HID 1.11), and
    the six motion axes are grouped into the "translation" and "rotation"
    vector controls. */
module SpaceMouseHidLayoutBuilder {
  import opened Common
  import opened StringHelpers
  import opened HidElementDescriptor

  // ---------------------------------------------------------------------------
  // Groups

  /** `GenericDesktopRangeGroupDefinition`: a run of Generic Desktop usages
      that become the children of one vector control. */
  datatype GroupDefinition = GroupDefinition(
    usageMin: int32,
    usageMax: int32,
    name: string,
    displayName: string,
    format: FourCC,
    layout: string,
    elementNames: seq<string>,
    elementDisplayNames: seq<string>,
    elementParameters: Option<seq<string>>)

  /** The per-element arrays have one entry per usage of the range. */
  predicate WellFormedGroup(g: GroupDefinition)
  {
    g.usageMin <= g.usageMax &&
    |g.elementNames| == g.usageMax - g.usageMin + 1 &&
    |g.elementDisplayNames| == g.usageMax - g.usageMin + 1 &&
    (g.elementParameters.Some? ==> |g.elementParameters.value| == g.usageMax - g.usageMin + 1)
  }

  const FormatVector3 := FourCC('V', 'C', '3', 'S')

  /** The group table: X..Z is translation, Rx..Rz rotation; y and z swap
      places, and Y, Z and Rx are inverted. */
  const Groups: seq<GroupDefinition> := [
    GroupDefinition(UsageX, UsageZ, "translation", "Translation", FormatVector3, "Vector3",
      ["x", "z", "y"], ["X", "Z", "Y"], Some(["", "invert", "invert"])),
    GroupDefinition(UsageRx, UsageRz, "rotation", "Rotation", FormatVector3, "Vector3",
      ["x", "z", "y"], ["X", "Z", "Y"], Some(["invert", "", ""]))
  ]

  /** `GroupInfo`: the group an element belongs to and its name, display name
      and extra parameters within it. */
  datatype GroupInfo = GroupInfo(
    group: GroupDefinition,
    elementName: string,
    elementDisplayName: string,
    elementParameters: Option<string>)

  /** `TryGetGroupInfo`: the group information when the element's usage lies
      in the definition's range, nothing otherwise. */
  function TryGetGroupInfo(g: GroupDefinition, e: Element): (r: Option<GroupInfo>)
    requires WellFormedGroup(g)
    ensures r.Some? <==> e.usagePage == UsagePageGenericDesktop && g.usageMin <= e.usage <= g.usageMax
    ensures r.Some? ==> r.value.group == g && r.value.elementName == g.name + "/" + g.elementNames[e.usage - g.usageMin]
  {
    if e.usagePage != UsagePageGenericDesktop then None
    else if e.usage < g.usageMin || e.usage > g.usageMax then None
    else
      var elementIndex := e.usage - g.usageMin;
      Some(GroupInfo(
        g,
        g.name + "/" + g.elementNames[elementIndex],
        g.elementDisplayNames[elementIndex],
        if g.elementParameters.None? then None else Some(g.elementParameters.value[elementIndex])))
  }

  /** The first group of the table whose range holds the element. */
  function FirstGroup(groups: seq<GroupDefinition>, e: Element): (r: Option<GroupInfo>)
    requires forall i :: 0 <= i < |groups| ==> WellFormedGroup(groups[i])
    ensures r.Some? <==> exists i :: 0 <= i < |groups| && TryGetGroupInfo(groups[i], e).Some?
  {
    if groups == [] then None
    else if TryGetGroupInfo(groups[0], e).Some? then TryGetGroupInfo(groups[0], e)
    else
      var r := FirstGroup(groups[1..], e);
      assert forall i :: 1 <= i < |groups| ==> groups[i] == groups[1..][i - 1];
      r
  }

  /** The group `TryDetermineGroup` assigns to an element. */
  function DetermineGroup(e: Element): Option<GroupInfo>
  {
    FirstGroup(Groups, e)
  }

  /** `TryDetermineGroup(e, ref groupInfo)`: try the definitions in table
      order; the first that matches overwrites the caller's group information,
      and when none matches it keeps its previous value. */
  method TryDetermineGroup(e: Element, groupInfo: Option<GroupInfo>) returns (found: bool, info: Option<GroupInfo>)
    ensures found <==> DetermineGroup(e).Some?
    ensures info == if found then DetermineGroup(e) else groupInfo
  {
    info := groupInfo;
    for i := 0 to |Groups|
      invariant FirstGroup(Groups[i..], e) == DetermineGroup(e)
      invariant info == groupInfo
    {
      var candidate := TryGetGroupInfo(Groups[i], e);
      if candidate.Some? {
        info := candidate;
        return true, info;
      }
      assert Groups[i..][1..] == Groups[i + 1..];
    }
    return false, info;
  }

  /** At most one range holds any usage, so the table order never matters. */
  lemma GroupRangesDisjoint(e: Element)
    ensures !(TryGetGroupInfo(Groups[0], e).Some? && TryGetGroupInfo(Groups[1], e).Some?)
  {
  }

  /** Exactly X..Z and Rx..Rz are grouped; Y and Z exchange names, and the
      extra parameters are "", "invert", "invert" for X, Y, Z and
      "invert", "", "" for Rx, Ry, Rz. */
  lemma GroupAssignment(e: Element)
    ensures DetermineGroup(e).Some? <==> e.usagePage == UsagePageGenericDesktop && UsageX <= e.usage <= UsageRz
    ensures DetermineGroup(e).Some? ==>
      var g := DetermineGroup(e).value;
      var k := (e.usage - UsageX) % 3;
      g.group.name == (if e.usage <= UsageZ then "translation" else "rotation") &&
      g.elementName == g.group.name + "/" + ["x", "z", "y"][k] &&
      g.elementDisplayName == ["X", "Z", "Y"][k] &&
      g.elementParameters == Some(if e.usage <= UsageZ then ["", "invert", "invert"][k] else ["invert", "", ""][k])
  {
    DetermineGroupUnfold(e);
    if e.usagePage == UsagePageGenericDesktop && UsageX <= e.usage <= UsageRz {
      var k := (e.usage - UsageX) % 3;
      if e.usage <= UsageZ {
        assert k == e.usage - UsageX;
      } else {
        assert k == e.usage - UsageRx;
      }
    }
  }

  /** The table lookup written out for the two-entry table. */
  lemma DetermineGroupUnfold(e: Element)
    ensures DetermineGroup(e) ==
      if TryGetGroupInfo(Groups[0], e).Some? then TryGetGroupInfo(Groups[0], e) else TryGetGroupInfo(Groups[1], e)
  {
    var rest := Groups[1..];
    assert rest[0] == Groups[1];
    assert rest[1..] == [];
    assert FirstGroup(rest, e) ==
      if TryGetGroupInfo(rest[0], e).Some? then TryGetGroupInfo(rest[0], e) else FirstGroup(rest[1..], e);
    assert FirstGroup(Groups, e) ==
      if TryGetGroupInfo(Groups[0], e).Some? then TryGetGroupInfo(Groups[0], e) else FirstGroup(rest, e);
  }

  // ---------------------------------------------------------------------------
  // Controls

  /** One control of the layout under construction: the vector control of a
      group, or the control of one descriptor element. */
  datatype ControlItem =
    | GroupControl(name: string, displayName: Option<string>, format: FourCC, layout: string,
        byteOffset: uint32, bitOffset: uint32)
    | ElementControl(name: string, displayName: Option<string>, layout: string,
        byteOffset: uint32, bitOffset: uint32, sizeInBits: uint32, format: FourCC,
        defaultState: PrimitiveValue, processors: Option<string>, parameters: Option<Text>,
        usages: Option<seq<string>>)

  datatype InputLayout = InputLayout(
    displayName: string,
    extendsLayout: string,
    stateFormat: FourCC,
    stateSizeInBytes: int32,
    controls: seq<ControlItem>)

  function Names(controls: seq<ControlItem>): (names: seq<string>)
    ensures |names| == |controls| && forall i :: 0 <= i < |controls| ==> names[i] == controls[i].name
  {
    seq(|controls|, i requires 0 <= i < |controls| => controls[i].name)
  }

  /** The element's bit offset in the merged state, in 32-bit int arithmetic:
      its offset in its own report plus (reportId - 1) * reportSize bytes. */
  function OffsetInBits(e: Element, reportSize: int32): (r: int32)
    ensures (r - (e.reportOffsetInBits + (e.reportId - 1) * reportSize * 8)) % 0x1_0000_0000 == 0
  {
    I32(e.reportOffsetInBits + (e.reportId - 1) * reportSize * 8)
  }

  /** `(uint)offsetInBits / 8` and `(uint)offsetInBits % 8`: together they
      give back the offset, and the bit offset stays inside its byte. */
  function ByteAndBitOffset(offsetInBits: int32): (r: (uint32, uint32))
    ensures r.0 * 8 + r.1 == U32(offsetInBits) && r.1 < 8
    ensures offsetInBits >= 0 ==> r.0 * 8 + r.1 == offsetInBits
  {
    var u := U32(offsetInBits);
    assert u / 8 * 8 + u % 8 == u;
    (u / 8, u % 8)
  }

  /** The vector control added for a grouped element, at offset 0 because its
      children carry offsets relative to the whole state. */
  function GroupControlOf(info: GroupInfo): (c: ControlItem)
    ensures c.GroupControl? && c.byteOffset == 0 && c.bitOffset == 0 && c.name == info.group.name
  {
    GroupControl(info.group.name, Some(info.group.displayName), info.group.format, info.group.layout, 0, 0)
  }

  function ParameterText(s: Option<string>): Option<Text>
  {
    if s.None? then None else Some(Chars(s.value))
  }

  predicate NonEmpty(t: Option<Text>)
  {
    t.Some? && t.value != []
  }

  /** The parameters of an element control: the element's own parameters and,
      for a grouped element, the group's, comma-joined; none when both are
      null or empty. */
  function ControlParameters(parameters: Option<Text>, group: Option<GroupInfo>): (r: Option<Text>)
    ensures group.None? ==> r == (if NonEmpty(parameters) then parameters else None)
    ensures group.Some? ==> var groupParameters := ParameterText(group.value.elementParameters);
      r == if NonEmpty(parameters) && NonEmpty(groupParameters) then Some(parameters.value + Chars(",") + groupParameters.value)
        else if NonEmpty(parameters) then parameters
        else if NonEmpty(groupParameters) then groupParameters
        else None
  {
    var groupParameters := GroupParameters(group);
    JoinPair(parameters, groupParameters, Chars(","));
    if NonEmpty(parameters) || NonEmpty(groupParameters) then Joined([parameters, groupParameters], Chars(","))
    else None
  }

  /** The element control for `e`, once its name is known. */
  function NewElementControl(e: Element, layout: string, name: string, group: Option<GroupInfo>,
                             parameters: Option<Text>, reportSize: int32): (c: ControlItem)
    ensures c.ElementControl? && c.name == name
  {
    var offsets := ByteAndBitOffset(OffsetInBits(e, reportSize));
    ElementControl(
      name,
      if group.Some? then Some(group.value.elementDisplayName) else DetermineDisplayName(e),
      layout,
      offsets.0,
      offsets.1,
      U32(e.reportSizeInBits),
      DetermineFormat(e),
      DetermineDefaultState(e),
      DetermineProcessors(e),
      parameters,
      DetermineUsages(e))
  }

  // ---------------------------------------------------------------------------
  // Build

  /** The builder's controls and the `groupInfo` carried between loop iterations. */
  datatype BuildState = BuildState(controls: seq<ControlItem>, groupInfo: Option<GroupInfo>)

  /** Only Input elements with a layout produce controls. */
  predicate Qualifies(e: Element)
  {
    e.reportType == Input && DetermineLayout(e).Some?
  }

  /** One iteration of the loop in `Build`, with the corrected parameter join. */
  function BuildStep(s: BuildState, e: Element, reportSize: int32): (t: BuildState)
    ensures !Qualifies(e) ==> t == s
    ensures Qualifies(e) ==> |s.controls| < |t.controls| && s.controls == t.controls[..|s.controls|]
    ensures Qualifies(e) ==> t.controls[|t.controls| - 1].ElementControl?
    ensures Qualifies(e) ==> GroupControlsWellPlaced(t.controls[|s.controls|..])
  {
    if !Qualifies(e) then s
    else
      var group := DetermineGroup(e);
      AppendControls(s, group, StepControl(s.controls, e, group, reportSize))
  }

  /** The controls so far, followed by the group control when the element is grouped. */
  function WithGroupControl(controls: seq<ControlItem>, group: Option<GroupInfo>): seq<ControlItem>
  {
    if group.Some? then controls + [GroupControlOf(group.value)] else controls
  }

  /** The element's own control: named after its group's element name or its
      own, made unique among the controls so far. */
  function StepControl(controls: seq<ControlItem>, e: Element, group: Option<GroupInfo>, reportSize: int32): (c: ControlItem)
    requires Qualifies(e)
    ensures c.ElementControl?
  {
    var baseName := if group.Some? then group.value.elementName else DetermineName(e);
    var name := UniqueName(baseName, Some(Names(WithGroupControl(controls, group))));
    var parameters := ControlParameters(DetermineParameters(e), group);
    NewElementControl(e, DetermineLayout(e).value, name, group, parameters, reportSize)
  }

  /** Adds the group control (if any) and the element's control, and carries
      the group forward as `groupInfo`. */
  function AppendControls(s: BuildState, group: Option<GroupInfo>, control: ControlItem): (t: BuildState)
    requires control.ElementControl?
    ensures |s.controls| < |t.controls| && s.controls == t.controls[..|s.controls|]
    ensures t.controls[|t.controls| - 1] == control
    ensures GroupControlsWellPlaced(t.controls[|s.controls|..])
  {
    var added := if group.Some? then [GroupControlOf(group.value), control] else [control];
    assert WithGroupControl(s.controls, group) + [control] == s.controls + added;
    assert GroupControlsWellPlaced(added);
    AppendedParts(s.controls, added);
    BuildState(WithGroupControl(s.controls, group) + [control], if group.Some? then group else s.groupInfo)
  }

  /** A qualifying element appends its group control (if any) and its own control. */
  lemma StepAppends(s: BuildState, e: Element, reportSize: int32)
    requires Qualifies(e)
    ensures var group := DetermineGroup(e);
      BuildStep(s, e, reportSize).controls ==
        WithGroupControl(s.controls, group) + [StepControl(s.controls, e, group, reportSize)]
  {
  }

  lemma AppendedParts<T>(a: seq<T>, b: seq<T>)
    ensures (a + b)[..|a|] == a && (a + b)[|a|..] == b
  {
  }

  /** The state after the loop has run over `elements`. */
  function BuildFold(elements: seq<Element>, reportSize: int32): BuildState
  {
    if elements == [] then BuildState([], None)
    else BuildStep(BuildFold(elements[..|elements| - 1], reportSize), elements[|elements| - 1], reportSize)
  }

  /** `Build`: walk the descriptor's elements in order; for each Input element
      with a layout add its group control (if grouped) and its own control
      with a unique name and an offset into the merged state. The parameter
      join is the corrected one: only the element's own group is joined in
      (`BuildStepAsWritten` is the loop step as written). */
  method Build(displayName: string, elements: seq<Element>, reportCount: int32, reportSize: int32)
    returns (layout: InputLayout)
    ensures layout.controls == BuildFold(elements, reportSize).controls
    ensures layout.stateSizeInBytes == I32(reportCount * reportSize)
    ensures layout.extendsLayout == "HID" && layout.stateFormat == FourCC('H', 'I', 'D', ' ')
  {
    var controls: seq<ControlItem> := [];
    var groupInfo: Option<GroupInfo> := None;
    for i := 0 to |elements|
      invariant BuildState(controls, groupInfo) == BuildFold(elements[..i], reportSize)
    {
      assert elements[..i + 1][..i] == elements[..i];
      var element := elements[i];
      if element.reportType != Input {
        continue;
      }
      var elementLayout := DetermineLayout(element);
      if elementLayout.Some? {
        var hasGroup;
        hasGroup, groupInfo := TryDetermineGroup(element, groupInfo);
        if hasGroup {
          controls := controls + [GroupControlOf(groupInfo.value)];
        }
        var name := if hasGroup then groupInfo.value.elementName else DetermineName(element);
        name := MakeUniqueName(name, Some(Names(controls)));

        var group := if hasGroup then groupInfo else None;
        var parameters := DetermineParameters(element);
        var groupParameters := if hasGroup then ParameterText(groupInfo.value.elementParameters) else None;
        var controlParameters: Option<Text> := None;
        if NonEmpty(parameters) || NonEmpty(groupParameters) {
          controlParameters := Join([parameters, groupParameters], Chars(","));
        }
        controls := controls + [NewElementControl(element, elementLayout.value, name, group, controlParameters, reportSize)];
      }
    }
    assert elements[..|elements|] == elements;
    layout := InputLayout(displayName, "HID", FourCC('H', 'I', 'D', ' '), I32(reportCount * reportSize), controls);
  }

  // ---------------------------------------------------------------------------
  // Properties of the built controls

  /** The element controls with their names blanked out. */
  function UnnamedElementControls(controls: seq<ControlItem>): seq<ControlItem>
  {
    if controls == [] then []
    else
      var last := controls[|controls| - 1];
      UnnamedElementControls(controls[..|controls| - 1]) + (if last.ElementControl? then [last.(name := "")] else [])
  }

  /** The control an element yields, apart from its name: it depends on the
      element alone. */
  function ExpectedControl(e: Element, reportSize: int32): (c: ControlItem)
    requires Qualifies(e)
    ensures c.ElementControl?
    ensures c.layout == DetermineLayout(e).value && c.sizeInBits == U32(e.reportSizeInBits)
    ensures c.byteOffset * 8 + c.bitOffset == U32(OffsetInBits(e, reportSize)) && c.bitOffset < 8
  {
    var group := DetermineGroup(e);
    NewElementControl(e, DetermineLayout(e).value, "", group,
      ControlParameters(DetermineParameters(e), group), reportSize)
  }

  function ExpectedControls(elements: seq<Element>, reportSize: int32): seq<ControlItem>
  {
    if elements == [] then []
    else
      var last := elements[|elements| - 1];
      ExpectedControls(elements[..|elements| - 1], reportSize) +
        (if Qualifies(last) then [ExpectedControl(last, reportSize)] else [])
  }

  lemma UnnamedStep(controls: seq<ControlItem>, group: Option<GroupInfo>, c: ControlItem)
    requires c.ElementControl?
    ensures UnnamedElementControls(WithGroupControl(controls, group) + [c]) ==
      UnnamedElementControls(controls) + [c.(name := "")]
  {
    UnnamedAppend(WithGroupControl(controls, group), c);
    if group.Some? {
      UnnamedAppend(controls, GroupControlOf(group.value));
    }
  }

  lemma UnnamedAppend(controls: seq<ControlItem>, c: ControlItem)
    ensures UnnamedElementControls(controls + [c]) ==
      UnnamedElementControls(controls) + (if c.ElementControl? then [c.(name := "")] else [])
  {
    assert (controls + [c])[..|controls|] == controls;
  }

  /** The element controls are, in order, exactly one per qualifying element,
      each with the layout, offsets, size, format, default state, processors,
      parameters and usages of that element. */
  lemma {:induction false} ElementControlsMatchElements(elements: seq<Element>, reportSize: int32)
    ensures UnnamedElementControls(BuildFold(elements, reportSize).controls) == ExpectedControls(elements, reportSize)
  {
    if elements != [] {
      var init := elements[..|elements| - 1];
      var e := elements[|elements| - 1];
      var s := BuildFold(init, reportSize);
      ElementControlsMatchElements(init, reportSize);
      if Qualifies(e) {
        var group := DetermineGroup(e);
        StepAppends(s, e, reportSize);
        UnnamedStep(s.controls, group, StepControl(s.controls, e, group, reportSize));
        StepControlUnnamed(s.controls, e, reportSize);
      }
    }
  }

  lemma StepControlUnnamed(controls: seq<ControlItem>, e: Element, reportSize: int32)
    requires Qualifies(e)
    ensures StepControl(controls, e, DetermineGroup(e), reportSize).(name := "") == ExpectedControl(e, reportSize)
  {
  }

  lemma StepControlNameFree(controls: seq<ControlItem>, e: Element, group: Option<GroupInfo>, reportSize: int32)
    requires Qualifies(e)
    ensures IsFreeName(StepControl(controls, e, group, reportSize).name, Names(WithGroupControl(controls, group)))
  {
  }

  /** Every element control's name differs, ignoring case, from the name of
      every control added before it. */
  predicate NamesUniqueSoFar(controls: seq<ControlItem>)
  {
    forall k, j :: 0 <= j < k < |controls| && controls[k].ElementControl? ==>
      Lower(controls[j].name) != Lower(controls[k].name)
  }

  lemma {:induction false} BuildNamesUnique(elements: seq<Element>, reportSize: int32)
    ensures NamesUniqueSoFar(BuildFold(elements, reportSize).controls)
  {
    if elements != [] {
      var init := elements[..|elements| - 1];
      var e := elements[|elements| - 1];
      BuildNamesUnique(init, reportSize);
      var s := BuildFold(init, reportSize);
      if Qualifies(e) {
        var group := DetermineGroup(e);
        var control := StepControl(s.controls, e, group, reportSize);
        StepAppends(s, e, reportSize);
        StepControlNameFree(s.controls, e, group, reportSize);
        NamesUniqueStep(s.controls, group, control);
      }
    }
  }

  /** A control whose name is free among the controls before it keeps the names unique. */
  lemma NamesUniqueStep(controls: seq<ControlItem>, group: Option<GroupInfo>, c: ControlItem)
    requires NamesUniqueSoFar(controls)
    requires IsFreeName(c.name, Names(WithGroupControl(controls, group)))
    ensures NamesUniqueSoFar(WithGroupControl(controls, group) + [c])
  {
    var before := WithGroupControl(controls, group);
    var all := before + [c];
    forall k, j | 0 <= j < k < |all| && all[k].ElementControl?
      ensures Lower(all[j].name) != Lower(all[k].name)
    {
      if k == |all| - 1 {
        assert Names(before)[j] == all[j].name;
      } else {
        assert all[k] == controls[k] && all[j] == controls[j];
      }
    }
  }

  /** Every group control sits at offset 0 and is immediately followed by the
      control of the element that caused it. */
  predicate GroupControlsWellPlaced(controls: seq<ControlItem>)
  {
    forall k :: 0 <= k < |controls| && controls[k].GroupControl? ==>
      controls[k].byteOffset == 0 && controls[k].bitOffset == 0 &&
      k + 1 < |controls| && controls[k + 1].ElementControl?
  }

  lemma AppendWellPlaced(a: seq<ControlItem>, b: seq<ControlItem>)
    requires GroupControlsWellPlaced(a) && GroupControlsWellPlaced(b)
    requires a == [] || a[|a| - 1].ElementControl?
    ensures GroupControlsWellPlaced(a + b)
  {
    forall k | 0 <= k < |a + b| && (a + b)[k].GroupControl?
      ensures k + 1 < |a + b| && (a + b)[k + 1].ElementControl?
    {
      if k < |a| - 1 {
        assert (a + b)[k] == a[k] && (a + b)[k + 1] == a[k + 1];
      } else if k >= |a| {
        assert (a + b)[k] == b[k - |a|] && (a + b)[k + 1] == b[k + 1 - |a|];
      }
    }
  }

  /** The last control of a non-empty build is an element control. */
  lemma {:induction false} BuildEndsWithElement(elements: seq<Element>, reportSize: int32)
    ensures var c := BuildFold(elements, reportSize).controls; c == [] || c[|c| - 1].ElementControl?
  {
    if elements != [] {
      BuildEndsWithElement(elements[..|elements| - 1], reportSize);
    }
  }

  /** One step keeps group controls well placed. */
  lemma StepWellPlaced(s: BuildState, e: Element, reportSize: int32)
    requires GroupControlsWellPlaced(s.controls)
    requires s.controls == [] || s.controls[|s.controls| - 1].ElementControl?
    ensures GroupControlsWellPlaced(BuildStep(s, e, reportSize).controls)
  {
    if Qualifies(e) {
      PrefixWellPlaced(s.controls, BuildStep(s, e, reportSize).controls);
    }
  }

  lemma PrefixWellPlaced(a: seq<ControlItem>, c: seq<ControlItem>)
    requires |a| <= |c| && c[..|a|] == a
    requires GroupControlsWellPlaced(a) && GroupControlsWellPlaced(c[|a|..])
    requires a == [] || a[|a| - 1].ElementControl?
    ensures GroupControlsWellPlaced(c)
  {
    assert c == a + c[|a|..];
    AppendWellPlaced(a, c[|a|..]);
  }

  lemma {:induction false} BuildGroupControlsWellPlaced(elements: seq<Element>, reportSize: int32)
    ensures GroupControlsWellPlaced(BuildFold(elements, reportSize).controls)
  {
    if elements != [] {
      var init := elements[..|elements| - 1];
      BuildGroupControlsWellPlaced(init, reportSize);
      BuildEndsWithElement(init, reportSize);
      StepWellPlaced(BuildFold(init, reportSize), elements[|elements| - 1], reportSize);
    }
  }

  // ---------------------------------------------------------------------------
  // The parameters of an ungrouped element, as written

  /** The parameters of the group in `g`, if any. */
  function GroupParameters(g: Option<GroupInfo>): Option<Text>
  {
    if g.Some? then ParameterText(g.value.elementParameters) else None
  }

  /** As written, `Join(",", parameters, groupInfo.ElementParameters)` reads
      the `groupInfo` carried over from the last grouped element even when
      the current element has no group; only the guard looks at `hasGroup`.
      For a grouped element (whose group is the carried one) and for carried
      information without parameters it agrees with `ControlParameters`;
      otherwise the stale parameters are appended. */
  function ControlParametersAsWritten(parameters: Option<Text>, hasGroup: bool, carried: Option<GroupInfo>): (r: Option<Text>)
    ensures hasGroup && carried.Some? ==> r == ControlParameters(parameters, carried)
    ensures !hasGroup && !NonEmpty(GroupParameters(carried)) ==> r == ControlParameters(parameters, None)
    ensures !hasGroup && NonEmpty(parameters) && NonEmpty(GroupParameters(carried)) ==>
      r == Some(parameters.value + Chars(",") + GroupParameters(carried).value)
  {
    var carriedParameters := GroupParameters(carried);
    JoinPair(parameters, carriedParameters, Chars(","));
    if NonEmpty(parameters) || (hasGroup && NonEmpty(carriedParameters)) then
      Joined([parameters, carriedParameters], Chars(","))
    else None
  }

  /** One iteration of the loop as written: the element's control is the
      one `BuildStep` adds, except that its parameters come from
      `ControlParametersAsWritten` with the carried `groupInfo`. */
  function BuildStepAsWritten(s: BuildState, e: Element, reportSize: int32): (t: BuildState)
    ensures !Qualifies(e) ==> t == s
    ensures (DetermineGroup(e).Some? || !NonEmpty(GroupParameters(s.groupInfo))) ==> t == BuildStep(s, e, reportSize)
    ensures t.groupInfo == BuildStep(s, e, reportSize).groupInfo
  {
    if !Qualifies(e) then s
    else
      var group := DetermineGroup(e);
      var carried := if group.Some? then group else s.groupInfo;
      var parameters := ControlParametersAsWritten(DetermineParameters(e), group.Some?, carried);
      AppendControls(s, group, StepControl(s.controls, e, group, reportSize).(parameters := parameters))
  }

  function BuildFoldAsWritten(elements: seq<Element>, reportSize: int32): BuildState
  {
    if elements == [] then BuildState([], None)
    else BuildStepAsWritten(BuildFoldAsWritten(elements[..|elements| - 1], reportSize), elements[|elements| - 1], reportSize)
  }

  /** When no element's group carries parameters, the loop as written and
      the corrected one build the same controls; the carried information
      then never has parameters either. */
  lemma {:induction false} FoldsAgreeWithoutGroupParameters(elements: seq<Element>, reportSize: int32)
    requires forall e :: e in elements ==> !NonEmpty(GroupParameters(DetermineGroup(e)))
    ensures BuildFoldAsWritten(elements, reportSize) == BuildFold(elements, reportSize)
    ensures !NonEmpty(GroupParameters(BuildFold(elements, reportSize).groupInfo))
  {
    if elements != [] {
      var init, e := elements[..|elements| - 1], elements[|elements| - 1];
      assert forall x :: x in init ==> x in elements;
      FoldsAgreeWithoutGroupParameters(init, reportSize);
      assert e in elements;
    }
  }

  const ElementZ := Element(UsageZ, UsagePageGenericDesktop, Input, 1, 32, 16, -350, 350, false)
  const ElementSlider := Element(UsageSlider, UsagePageGenericDesktop, Input, 1, 48, 8, 0, 255, false)

  /** After the loop has seen Z, the carried group information is Z's, whose
      parameter is "invert"; a Slider that follows (not grouped, normalised)
      then gets ",invert" appended to its own parameters as written, while
      the corrected parameters are its own alone. */
  lemma StaleGroupParametersLeak()
    ensures BuildFold([ElementZ], 8).groupInfo == DetermineGroup(ElementZ)
    ensures DetermineGroup(ElementZ).value.elementParameters == Some("invert")
    ensures DetermineGroup(ElementSlider).None? && DetermineParameters(ElementSlider).Some?
    ensures ControlParametersAsWritten(DetermineParameters(ElementSlider), false, DetermineGroup(ElementZ)) ==
      Some(DetermineParameters(ElementSlider).value + Chars(",") + Chars("invert"))
    ensures ControlParameters(DetermineParameters(ElementSlider), None) == DetermineParameters(ElementSlider)
  {
    assert [ElementZ][..0] == [];
    GroupAssignment(ElementZ);
    GroupAssignment(ElementSlider);
    var max := MaxFloatValue(ElementSlider);
    assert max > 0.0;
    var p := DetermineParameters(ElementSlider);
    assert p.Some? && p.value != [];
    JoinPair(p, Some(Chars("invert")), Chars(","));
  }
}
