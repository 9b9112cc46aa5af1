/** The byte-level contract of the 3Dconnexion client API
    (ConnexionClientAPI.h): what a message handler receives for each message
    type, which form of the control call a control code needs, and the
    button-label blob passed to ConnexionSetButtonLabels. */
module ConnexionClientApi {
  import opened Common
  import opened ConnexionClient

  // ---------------------------------------------------------------------------
  // Messages received by the handler

  /** A message as the client reads it from the handler's argument. */
  datatype Message =
    | DeviceStateMessage(state: DeviceState)
    | PrefsChangedMessage(appSignature: uint32)
    | OtherMessage(messageType: nat, argument: seq<uint8>)

  /** The argument of a device-state message is a whole state record and
      that of a prefs-changed message a 4-byte application signature; any
      other message type is passed on untouched. */
  function DecodeMessage(messageType: nat, argument: seq<uint8>): (r: Option<Message>)
    ensures messageType == MsgDeviceState ==> (r.Some? <==> |argument| == DeviceStateSize)
    ensures messageType == MsgPrefsChanged ==> (r.Some? <==> |argument| == 4)
    ensures r.Some? && r.value.DeviceStateMessage? ==> messageType == MsgDeviceState && |argument| == DeviceStateSize
    ensures r.Some? && r.value.PrefsChangedMessage? ==> messageType == MsgPrefsChanged && |argument| == 4
  {
    if messageType == MsgDeviceState then
      if |argument| == DeviceStateSize then Some(DeviceStateMessage(DecodeDeviceState(argument))) else None
    else if messageType == MsgPrefsChanged then
      if |argument| == 4 then Some(PrefsChangedMessage(DecodeU32(argument))) else None
    else Some(OtherMessage(messageType, argument))
  }

  /** A message the driver can send: records of their declared shape, and
      other messages under a type that is neither of the two with a payload. */
  predicate SendableMessage(m: Message)
  {
    match m
    case DeviceStateMessage(state) => DeviceStateShaped(state)
    case PrefsChangedMessage(_) => true
    case OtherMessage(t, _) => t != MsgDeviceState && t != MsgPrefsChanged
  }

  /** The message type and argument bytes the driver sends for a message. */
  function EncodeMessage(m: Message): (r: (nat, seq<uint8>))
    requires SendableMessage(m)
  {
    match m
    case DeviceStateMessage(state) => (MsgDeviceState, EncodeDeviceState(state))
    case PrefsChangedMessage(signature) => (MsgPrefsChanged, EncodeU32(signature))
    case OtherMessage(t, argument) => (t, argument)
  }

  lemma MessageRoundTrip(m: Message)
    requires SendableMessage(m)
    ensures var e := EncodeMessage(m); DecodeMessage(e.0, e.1) == Some(m)
  {
    assert MsgDeviceState != MsgPrefsChanged;
    match m
    case DeviceStateMessage(state) => DeviceStateRoundTrip(state);
    case PrefsChangedMessage(signature) => FieldRoundTrips(0, signature, 0, 0, 0);
    case OtherMessage(_, _) =>
  }

  lemma MessageBytesRoundTrip(messageType: nat, argument: seq<uint8>)
    requires DecodeMessage(messageType, argument).Some?
    ensures var m := DecodeMessage(messageType, argument).value;
      SendableMessage(m) && EncodeMessage(m) == (messageType, argument)
  {
    assert MsgDeviceState != MsgPrefsChanged;
    if messageType == MsgDeviceState {
      DeviceStateBytesRoundTrip(argument);
    } else if messageType == MsgPrefsChanged {
      FieldBytesRoundTrip(argument);
    }
  }

  // ---------------------------------------------------------------------------
  // Control calls

  /** ConnexionControl (no client) or ConnexionClientControl (with one). */
  datatype ControlCall =
    | Control(message: nat, param: int32)
    | ClientControl(clientId: uint16, message: nat, param: int32)

  /** Setting the switches needs the per-client form; every other control
      code defined in ConnexionClient.h is valid in either form. The header
      also requires the per-client form for kConnexionCtlClearSwitches,
      which has no defined value and is not part of this model. */
  predicate ValidControlCall(c: ControlCall)
  {
    c.message == CtlSetSwitches ==> c.ClientControl?
  }

  /** The per-client form of a call, for a registered client. */
  function ForClient(c: ControlCall, clientId: uint16): (r: ControlCall)
    ensures r.ClientControl? && r.message == c.message && r.param == c.param
    ensures ValidControlCall(r)
  {
    ClientControl(clientId, c.message, c.param)
  }

  lemma SetSwitchesNeedsClient(param: int32, clientId: uint16, c: ControlCall)
    ensures !ValidControlCall(Control(CtlSetSwitches, param))
    ensures ValidControlCall(ClientControl(clientId, CtlSetSwitches, param))
    ensures c.message != CtlSetSwitches ==> ValidControlCall(c)
  {
  }

  // ---------------------------------------------------------------------------
  // Button labels

  /** One label: UTF-8 bytes (their validity is not checked here). */
  type Label = seq<uint8>

  /** The number of labels: the SpacePilot Pro's buttons. */
  const LabelCount: nat := 32

  predicate NoNul(s: Label)
  {
    forall i :: 0 <= i < |s| ==> s[i] != 0
  }

  predicate EncodableLabels(labels: seq<Label>)
  {
    forall i :: 0 <= i < |labels| ==> NoNul(labels[i])
  }

  /** Each label followed by its NUL terminator. */
  function EncodeLabels(labels: seq<Label>): (blob: seq<uint8>)
    ensures |blob| == TotalLength(labels) + |labels|
  {
    if labels == [] then [] else labels[0] + [0] + EncodeLabels(labels[1..])
  }

  function TotalLength(labels: seq<Label>): nat
  {
    if labels == [] then 0 else |labels[0]| + TotalLength(labels[1..])
  }

  /** The position of the first NUL, or |s| when there is none. */
  function FirstNul(s: seq<uint8>): (k: nat)
    ensures k <= |s| && (k < |s| ==> s[k] == 0)
  {
    if s == [] then 0 else if s[0] == 0 then 0 else 1 + FirstNul(s[1..])
  }

  /** The NUL-terminated strings of a blob, in order; None when the last one
      lacks its terminator. */
  function ParseStrings(blob: seq<uint8>): (r: Option<seq<Label>>)
    decreases |blob|
  {
    if blob == [] then Some([])
    else if FirstNul(blob) == |blob| then None
    else Prepend(blob[..FirstNul(blob)], ParseStrings(blob[FirstNul(blob) + 1..]))
  }

  /** A first string in front of the strings parsed after it, if those parsed. */
  function Prepend(s: Label, r: Option<seq<Label>>): Option<seq<Label>>
  {
    match r
    case None => None
    case Some(rest) => Some([s] + rest)
  }

  /** A label blob: exactly 32 NUL-terminated strings. */
  function ParseLabels(blob: seq<uint8>): (r: Option<seq<Label>>)
    ensures r.Some? ==> |r.value| == LabelCount
  {
    match ParseStrings(blob)
    case None => None
    case Some(labels) => if |labels| == LabelCount then Some(labels) else None
  }

  lemma {:induction false} ParseEncodedStrings(labels: seq<Label>)
    requires EncodableLabels(labels)
    ensures ParseStrings(EncodeLabels(labels)) == Some(labels)
  {
    if labels != [] {
      var rest := labels[1..];
      assert EncodableLabels(rest) by {
        forall i | 0 <= i < |rest|
          ensures NoNul(rest[i])
        {
          assert rest[i] == labels[i + 1];
        }
      }
      ParseEncodedStrings(rest);
      ParseStringsCons(labels[0], EncodeLabels(rest));
      assert [labels[0]] + rest == labels;
    }
  }

  /** A NUL-free string, its terminator, then a blob that parses. */
  lemma ParseStringsCons(l: Label, tail: seq<uint8>)
    requires NoNul(l) && ParseStrings(tail).Some?
    ensures ParseStrings(l + [0] + tail) == Some([l] + ParseStrings(tail).value)
  {
    var blob := l + [0] + tail;
    assert blob[|l|] == 0;
    assert FirstNul(blob) == |l| by {
      FirstNulAt(blob, |l|);
    }
    assert blob[..|l|] == l;
    assert blob[|l| + 1..] == tail;
  }

  lemma {:induction false} FirstNulAt(s: seq<uint8>, k: nat)
    requires k < |s| && s[k] == 0 && forall i :: 0 <= i < k ==> s[i] != 0
    ensures FirstNul(s) == k
  {
    if k > 0 {
      FirstNulAt(s[1..], k - 1);
    }
  }

  lemma {:induction false} EncodeParsedStrings(blob: seq<uint8>)
    requires ParseStrings(blob).Some?
    ensures EncodeLabels(ParseStrings(blob).value) == blob
    decreases |blob|
  {
    if blob != [] {
      ParseStringsStep(blob);
      var k := FirstNul(blob);
      var tail := blob[k + 1..];
      var rest := ParseStrings(tail).value;
      EncodeParsedStrings(tail);
      EncodeLabelsCons(blob[..k], rest);
      SplitAtNul(blob, k);
    }
  }

  lemma SplitAtNul(blob: seq<uint8>, k: nat)
    requires k < |blob| && blob[k] == 0
    ensures blob[..k] + [0] + blob[k + 1..] == blob
  {
    assert blob[..k] + [0] + blob[k + 1..] == blob[..k] + blob[k..];
  }

  /** One step of a successful parse: the first string ends at the first NUL
      and the rest of the blob parses to the other strings. */
  lemma ParseStringsStep(blob: seq<uint8>)
    requires blob != [] && ParseStrings(blob).Some?
    ensures FirstNul(blob) < |blob| && ParseStrings(blob[FirstNul(blob) + 1..]).Some?
    ensures ParseStrings(blob).value == [blob[..FirstNul(blob)]] + ParseStrings(blob[FirstNul(blob) + 1..]).value
  {
    ParseStringsTerminated(blob);
    ParseStringsUnfold(blob);
  }

  lemma ParseStringsTerminated(blob: seq<uint8>)
    requires blob != [] && ParseStrings(blob).Some?
    ensures FirstNul(blob) < |blob|
  {
    if FirstNul(blob) == |blob| {
      ParseStringsUnterminated(blob);
    }
  }

  lemma ParseStringsUnterminated(blob: seq<uint8>)
    requires blob != [] && FirstNul(blob) == |blob|
    ensures ParseStrings(blob).None?
  {
  }

  lemma ParseStringsUnfold(blob: seq<uint8>)
    requires blob != [] && FirstNul(blob) < |blob|
    ensures ParseStrings(blob) == Prepend(blob[..FirstNul(blob)], ParseStrings(blob[FirstNul(blob) + 1..]))
  {
  }

  lemma EncodeLabelsCons(s: Label, rest: seq<Label>)
    ensures EncodeLabels([s] + rest) == s + [0] + EncodeLabels(rest)
  {
    assert ([s] + rest)[1..] == rest;
  }

  /** Parsed strings never contain a NUL. */
  lemma {:induction false} ParsedStringsHaveNoNul(blob: seq<uint8>)
    requires ParseStrings(blob).Some?
    ensures EncodableLabels(ParseStrings(blob).value)
    decreases |blob|
  {
    if blob != [] {
      var k := FirstNul(blob);
      var tail := blob[k + 1..];
      var labels := ParseStrings(blob).value;
      assert k < |blob| && ParseStrings(tail).Some? && labels == [blob[..k]] + ParseStrings(tail).value by {
        ParseStringsStep(blob);
      }
      assert EncodableLabels(ParseStrings(tail).value) by {
        ParsedStringsHaveNoNul(tail);
      }
      assert NoNul(blob[..k]) by {
        NoNulBeforeFirstNul(blob);
      }
      EncodableCons(labels, blob[..k], ParseStrings(tail).value);
    }
  }

  lemma EncodableCons(labels: seq<Label>, s: Label, rest: seq<Label>)
    requires labels == [s] + rest && NoNul(s) && EncodableLabels(rest)
    ensures EncodableLabels(labels)
  {
    forall i | 0 <= i < |labels|
      ensures NoNul(labels[i])
    {
      if i > 0 {
        assert labels[i] == rest[i - 1];
      }
    }
  }

  /** No NUL comes before the first one. */
  lemma {:induction false} NoNulBeforeFirstNul(blob: seq<uint8>)
    ensures NoNul(blob[..FirstNul(blob)])
    decreases |blob|
  {
    if blob != [] && blob[0] != 0 {
      NoNulBeforeFirstNul(blob[1..]);
      var k := FirstNul(blob);
      assert blob[..k] == [blob[0]] + blob[1..][..k - 1];
    }
  }

  /** Parsing an encoded blob returns the same 32 labels when none contains
      a NUL, and every blob that parses is the encoding of 32 NUL-free labels. */
  lemma LabelsRoundTrip(labels: seq<Label>, blob: seq<uint8>)
    ensures |labels| == LabelCount && EncodableLabels(labels) ==> ParseLabels(EncodeLabels(labels)) == Some(labels)
    ensures ParseLabels(blob).Some? ==>
      EncodableLabels(ParseLabels(blob).value) && EncodeLabels(ParseLabels(blob).value) == blob
  {
    if |labels| == LabelCount && EncodableLabels(labels) {
      ParseEncodedStrings(labels);
    }
    if ParseLabels(blob).Some? {
      EncodeParsedStrings(blob);
      ParsedStringsHaveNoNul(blob);
    }
  }

  /** The label a button shows: an empty string reverts it to its default. */
  function ShownLabels(defaults: seq<Label>, labels: seq<Label>): (shown: seq<Label>)
    requires |defaults| == |labels|
    ensures |shown| == |labels|
    ensures forall i :: 0 <= i < |labels| ==> shown[i] == if labels[i] == [] then defaults[i] else labels[i]
  {
    seq(|labels|, i requires 0 <= i < |labels| => if labels[i] == [] then defaults[i] else labels[i])
  }

  function Empties(n: nat): (r: seq<Label>)
    ensures |r| == n && forall i :: 0 <= i < n ==> r[i] == []
  {
    seq(n, _ => [])
  }

  function Zeros(n: nat): (r: seq<uint8>)
    ensures |r| == n && forall i :: 0 <= i < n ==> r[i] == 0
  {
    seq(n, _ => 0)
  }

  lemma {:induction false} EncodeEmpties(n: nat)
    ensures EncodeLabels(Empties(n)) == Zeros(n)
  {
    if n > 0 {
      assert Empties(n)[1..] == Empties(n - 1);
      EncodeEmpties(n - 1);
      assert Zeros(n) == [0] + Zeros(n - 1);
    }
  }

  lemma {:induction false} EncodeLabelsAppend(a: seq<Label>, b: seq<Label>)
    ensures EncodeLabels(a + b) == EncodeLabels(a) + EncodeLabels(b)
  {
    if a != [] {
      assert (a + b)[1..] == a[1..] + b;
      EncodeLabelsAppend(a[1..], b);
    } else {
      assert a + b == b;
    }
  }

  /** A blob of 32 empty strings resets every label to its default. */
  lemma AllEmptyRevertsEverything(defaults: seq<Label>)
    requires |defaults| == LabelCount
    ensures ParseLabels(Zeros(LabelCount)) == Some(Empties(LabelCount))
    ensures ShownLabels(defaults, Empties(LabelCount)) == defaults
  {
    EncodeEmpties(LabelCount);
    ParseEncodedStrings(Empties(LabelCount));
  }

  /** The worked example: "Top" for the third button (Top), every other label
      reverted. */
  const ExampleBlob: seq<uint8> := [0x00, 0x00, 0x54, 0x6F, 0x70, 0x00, 0x00] + Zeros(28)

  const Top: Label := [0x54, 0x6F, 0x70]

  lemma ExampleParses()
    ensures |ExampleBlob| == 35
    ensures ParseLabels(ExampleBlob) == Some([[], [], Top] + Empties(29))
  {
    var labels := [[], [], Top] + Empties(29);
    var head: seq<Label> := [[], [], Top, []];
    assert EncodeLabels(labels) == ExampleBlob by {
      assert labels == head + Empties(28);
      EncodeLabelsAppend(head, Empties(28));
      EncodeEmpties(28);
      ExampleHeadEncoding();
    }
    assert ParseLabels(EncodeLabels(labels)) == Some(labels) by {
      ExampleEncodable();
      ParseEncodedStrings(labels);
    }
  }

  lemma ExampleHeadEncoding()
    ensures EncodeLabels([[], [], Top, []]) == [0x00, 0x00, 0x54, 0x6F, 0x70, 0x00, 0x00]
  {
    var head: seq<Label> := [[], [], Top, []];
    assert EncodeLabels(head[3..]) == [0x00] by {
      assert head[3..][1..] == [];
    }
    assert EncodeLabels(head[2..]) == Top + [0x00] + [0x00] by {
      assert head[2..][1..] == head[3..];
    }
    assert EncodeLabels(head[1..]) == [0x00] + Top + [0x00] + [0x00] by {
      assert head[1..][1..] == head[2..];
    }
  }

  lemma ExampleEncodable()
    ensures EncodableLabels([[], [], Top] + Empties(29))
  {
    var labels := [[], [], Top] + Empties(29);
    forall i | 0 <= i < |labels|
      ensures NoNul(labels[i])
    {
      if i != 2 {
        assert labels[i] == [];
      }
    }
  }

  /** ConnexionSetButtonLabels takes the blob's length as a UInt16: the call
      exists exactly for blobs of at most 65535 bytes. */
  function SetButtonLabelsArguments(labels: seq<Label>): (r: Option<(seq<uint8>, uint16)>)
    requires |labels| == LabelCount && EncodableLabels(labels)
    ensures r.Some? <==> TotalLength(labels) + LabelCount <= 0xFFFF
    ensures r.Some? ==> ParseLabels(r.value.0) == Some(labels) && r.value.1 == |r.value.0|
  {
    var blob := EncodeLabels(labels);
    if |blob| <= 0xFFFF then
      LabelsRoundTrip(labels, blob);
      Some((blob, |blob|))
    else None
  }
}
