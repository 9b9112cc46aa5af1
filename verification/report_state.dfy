/** The merged device state shared by Runtime/SpaceNavigatorDummyHID.cs and
    Runtime/SpaceNavigatorEnterpriseHID.cs: three report sections laid out as
    a C# struct (a Vector3, a Vector3 and a byte, padded to 4-byte
    alignment), the state events the Input System delivers, and the
    overwrite of one section by the bytes of a report. */
module MergedReportState {
  import opened Common
  import opened HidElementDescriptor

  const StateFormatHid := FourCC('H', 'I', 'D', ' ')

  /** An input event as `OnStateEvent` sees it: its kind, its state format
      and its state bytes (for HID state, the report ID and then the report). */
  datatype InputEvent =
    | DeltaStateEvent(stateFormat: FourCC, payload: seq<uint8>)
    | StateEvent(stateFormat: FourCC, payload: seq<uint8>)

  predicate IsHidStateEvent(ev: InputEvent)
  {
    ev.StateEvent? && ev.stateFormat == StateFormatHid
  }

  // Field offsets and sizes of the state struct.
  const Report1Offset: nat := 0
  const ReportFormat1Size: nat := 12  // Vector3 translation
  const Report2Offset: nat := 12
  const ReportFormat2Size: nat := 12  // Vector3 rotation
  const Report3Offset: nat := 24
  const ReportFormat3Size: nat := 1   // byte buttons
  const StateSize: nat := 28

  /** Bytes [offset, offset + count) of s replaced by the first count bytes of src. */
  function Overwrite(s: seq<uint8>, offset: nat, src: seq<uint8>, count: nat): (r: seq<uint8>)
    requires offset + count <= |s| && count <= |src|
    ensures |r| == |s|
    ensures forall i :: 0 <= i < |s| ==> r[i] == if offset <= i < offset + count then src[i - offset] else s[i]
  {
    s[..offset] + src[..count] + s[offset + count..]
  }

  lemma OverwriteIdempotent(s: seq<uint8>, offset: nat, src: seq<uint8>, count: nat)
    requires offset + count <= |s| && count <= |src|
    ensures Overwrite(Overwrite(s, offset, src, count), offset, src, count) == Overwrite(s, offset, src, count)
  {
  }

  /** A second overwrite of the same bytes hides the first. */
  lemma OverwriteLastWins(s: seq<uint8>, offset: nat, src1: seq<uint8>, src2: seq<uint8>, count: nat)
    requires offset + count <= |s| && count <= |src1| && count <= |src2|
    ensures Overwrite(Overwrite(s, offset, src1, count), offset, src2, count) == Overwrite(s, offset, src2, count)
  {
  }

  /** Overwrites of disjoint byte ranges can be applied in either order. */
  lemma OverwriteDisjointCommute(s: seq<uint8>, o1: nat, src1: seq<uint8>, c1: nat, o2: nat, src2: seq<uint8>, c2: nat)
    requires o1 + c1 <= |s| && c1 <= |src1| && o2 + c2 <= |s| && c2 <= |src2|
    requires o1 + c1 <= o2 || o2 + c2 <= o1
    ensures Overwrite(Overwrite(s, o1, src1, c1), o2, src2, c2) == Overwrite(Overwrite(s, o2, src2, c2), o1, src1, c1)
  {
  }

  /** A control declared on a report field: its offset is relative to that
      field, its bit offset and size are in bits. */
  datatype ControlSpan = ControlSpan(name: string, report: nat, offset: nat, bit: nat, sizeInBits: nat)

  function ReportFieldOffset(report: nat): nat
  {
    if report == 1 then Report1Offset else if report == 2 then Report2Offset else Report3Offset
  }

  /** First byte of the control in the state struct. */
  function SpanStart(c: ControlSpan): nat
  {
    ReportFieldOffset(c.report) + c.offset + c.bit / 8
  }

  /** One past the last byte of the control in the state struct. */
  function SpanEnd(c: ControlSpan): (r: nat)
    ensures r >= SpanStart(c)
  {
    ReportFieldOffset(c.report) + c.offset + (c.bit + c.sizeInBits + 7) / 8
  }
}
