/** Runtime/SpaceNavigatorDummyHID.cs: the SpaceNavigator whose three HID
    reports (translation, rotation, buttons) arrive as separate events and
    are merged into one device state. */
module SpaceNavigatorDummyHid {
  import opened Common
  import opened MergedReportState

  /** The field a report ID overwrites, and `sizeof` of its report format;
      IDs other than 1, 2 and 3 copy nothing. */
  function ReportSection(reportId: uint8): (r: (nat, nat))
    ensures r.0 + r.1 <= StateSize
  {
    if reportId == 1 then (Report1Offset, ReportFormat1Size)
    else if reportId == 2 then (Report2Offset, ReportFormat2Size)
    else if reportId == 3 then (Report3Offset, ReportFormat3Size)
    else (0, 0)
  }

  /** The event carries as many report bytes as the copy reads. */
  predicate ReportReadable(ev: InputEvent)
  {
    IsHidStateEvent(ev) ==> |ev.payload| >= 1 && |ev.payload| - 1 >= ReportSection(ev.payload[0]).1
  }

  /** The device state after `OnStateEvent`: delta and non-HID events change
      nothing; a HID state event overwrites exactly the section of its report
      ID with the bytes after the ID, and keeps every other byte. */
  function Merge(current: seq<uint8>, ev: InputEvent): (r: seq<uint8>)
    requires |current| == StateSize && ReportReadable(ev)
    ensures |r| == StateSize
    ensures !IsHidStateEvent(ev) ==> r == current
    ensures IsHidStateEvent(ev) ==>
      var section := ReportSection(ev.payload[0]);
      forall i :: 0 <= i < StateSize ==>
        r[i] == if section.0 <= i < section.0 + section.1 then ev.payload[1 + i - section.0] else current[i]
  {
    if !IsHidStateEvent(ev) then current
    else
      var section := ReportSection(ev.payload[0]);
      Overwrite(current, section.0, ev.payload[1..], section.1)
  }

  /** The state after a HID state event is the overwrite of its section. */
  lemma MergeOfHidEvent(current: seq<uint8>, ev: InputEvent)
    requires |current| == StateSize && ReportReadable(ev) && IsHidStateEvent(ev)
    ensures Merge(current, ev) == Overwrite(current, ReportSection(ev.payload[0]).0, ev.payload[1..], ReportSection(ev.payload[0]).1)
  {
  }

  /** The device: its state block in the Input System's state buffer. */
  class SpaceNavigatorDummyHidDevice {
    const state: array<uint8>

    constructor ()
      ensures state.Length == StateSize && fresh(state)
    {
      state := new uint8[StateSize](_ => 0);
    }

    /** `OnStateEvent`: copy the current state, overwrite the reported
        section with `MemCpy`, commit the copy with `InputState.Change`.
        `committed` says whether the state change was applied at all. */
    method OnStateEvent(ev: InputEvent) returns (committed: bool)
      requires state.Length == StateSize && ReportReadable(ev)
      modifies state
      ensures committed <==> IsHidStateEvent(ev)
      ensures state[..] == Merge(old(state[..]), ev)
    {
      // Refuse delta events.
      if ev.DeltaStateEvent? {
        return false;
      }
      if ev.stateFormat != StateFormatHid {
        return false;
      }
      var reportId := ev.payload[0];
      var report := ev.payload[1..];

      ghost var current := state[..];
      var newState := new uint8[StateSize];
      MemCpy(newState, 0, state[..], StateSize);
      CopyReport(newState, reportId, report);
      ghost var merged := newState[..];
      assert merged == Merge(current, ev) by {
        MergeOfHidEvent(current, ev);
      }
      // InputState.Change: the system copies the new state over the old one.
      MemCpy(state, 0, newState[..], StateSize);
      return true;
    }

    /** The `MemCpy` of the report's bytes into its section of the copy;
        any other report ID copies nothing. */
    static method CopyReport(newState: array<uint8>, reportId: uint8, report: seq<uint8>)
      requires newState.Length == StateSize && |report| >= ReportSection(reportId).1
      modifies newState
      ensures newState[..] == Overwrite(old(newState[..]), ReportSection(reportId).0, report, ReportSection(reportId).1)
    {
      if reportId == 1 {
        MemCpy(newState, Report1Offset, report, ReportFormat1Size);
      } else if reportId == 2 {
        MemCpy(newState, Report2Offset, report, ReportFormat2Size);
      } else if reportId == 3 {
        MemCpy(newState, Report3Offset, report, ReportFormat3Size);
      }
    }
  }

  /** Delivering the same event twice leaves the state it left the first time. */
  lemma MergeIdempotent(current: seq<uint8>, ev: InputEvent)
    requires |current| == StateSize && ReportReadable(ev)
    ensures Merge(Merge(current, ev), ev) == Merge(current, ev)
  {
    if IsHidStateEvent(ev) {
      var section := ReportSection(ev.payload[0]);
      OverwriteIdempotent(current, section.0, ev.payload[1..], section.1);
    }
  }

  /** Reports with different IDs touch disjoint sections, so their order
      does not matter. */
  lemma ReportsCommute(current: seq<uint8>, ev1: InputEvent, ev2: InputEvent)
    requires |current| == StateSize && ReportReadable(ev1) && ReportReadable(ev2)
    requires IsHidStateEvent(ev1) && IsHidStateEvent(ev2) && ev1.payload[0] != ev2.payload[0]
    ensures Merge(Merge(current, ev1), ev2) == Merge(Merge(current, ev2), ev1)
  {
    var s1 := ReportSection(ev1.payload[0]);
    var s2 := ReportSection(ev2.payload[0]);
    OverwriteDisjointCommute(current, s1.0, ev1.payload[1..], s1.1, s2.0, ev2.payload[1..], s2.1);
  }

  /** Of two reports with the same ID only the later one is visible. */
  lemma LastReportWins(current: seq<uint8>, ev1: InputEvent, ev2: InputEvent)
    requires |current| == StateSize && ReportReadable(ev1) && ReportReadable(ev2)
    requires IsHidStateEvent(ev1) && IsHidStateEvent(ev2) && ev1.payload[0] == ev2.payload[0]
    ensures Merge(Merge(current, ev1), ev2) == Merge(current, ev2)
  {
    var s := ReportSection(ev1.payload[0]);
    OverwriteLastWins(current, s.0, ev1.payload[1..], ev2.payload[1..], s.1);
  }

  /** The controls declared on the state struct (the two vector groups are
      the composites of their x, y and z). */
  const Controls: seq<ControlSpan> := [
    ControlSpan("translation/x", 1, 0, 0, 16),
    ControlSpan("translation/y", 1, 4, 0, 16),
    ControlSpan("translation/z", 1, 2, 0, 16),
    ControlSpan("rotation/x", 2, 0, 0, 16),
    ControlSpan("rotation/y", 2, 4, 0, 16),
    ControlSpan("rotation/z", 2, 2, 0, 16),
    ControlSpan("button1", 3, 0, 0, 1),
    ControlSpan("button2", 3, 0, 1, 1)
  ]

  /** Every declared control lies inside the bytes its report overwrites, so
      a report of that ID sets the whole control from the report's bytes. */
  lemma ControlsInsideTheirReport(current: seq<uint8>, ev: InputEvent, k: nat)
    requires k < |Controls|
    requires |current| == StateSize && ReportReadable(ev) && IsHidStateEvent(ev)
    requires ev.payload[0] as int == Controls[k].report
    ensures var c := Controls[k]; var section := ReportSection(ev.payload[0]);
      section.0 <= SpanStart(c) && SpanEnd(c) <= section.0 + section.1 &&
      forall i :: SpanStart(c) <= i < SpanEnd(c) ==> Merge(current, ev)[i] == ev.payload[1 + i - section.0]
  {
  }
}
