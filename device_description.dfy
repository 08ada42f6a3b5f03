/** `DeviceDescription`: what a client learns about a host from its FIND
    reply, decoded field by field from the `;`-separated text. */
module Devices {
  import opened Text

  /** The eight string properties of the C# class. */
  datatype DeviceDescription = DeviceDescription(
    serialNumber: string,
    macAddress: string,
    deviceName: string,
    networkMode: string,
    ipAddress: string,
    gatewayAddress: string,
    subnetMask: string,
    status: string)

  /** The characters a decoded value is trimmed of at both ends. */
  const Blank: set<char> := {Nul, ' ', '\r', '\n'}

  /** The search loop of `GetParameterFromSeggerString`: the first part that
      starts with `prefix` gives the value after the prefix, trimmed; no
      such part gives "". */
  function FirstValue(parts: seq<string>, prefix: string): (r: string)
    ensures Trimmed(r, Blank)
    ensures (forall i :: 0 <= i < |parts| ==> !(prefix <= parts[i])) ==> r == ""
    decreases |parts|
  {
    if |parts| == 0 then ""
    else if prefix <= parts[0] then
      TrimIsTrimmed(parts[0][|prefix|..], Blank);
      Trim(parts[0][|prefix|..], Blank)
    else FirstValue(parts[1..], prefix)
  }

  /** `GetParameterFromSeggerString`: the value of `name` in `message`. */
  function GetParameter(message: string, name: string): string {
    FirstValue(Split(message, ';'), name + "=")
  }

  /** `DeviceDescription.FromString`: every field is looked up, so every
      field is assigned, and no message is rejected. */
  function FromString(message: string): DeviceDescription {
    DeviceDescription(
      GetParameter(message, "SN"),
      GetParameter(message, "HWADDR"),
      GetParameter(message, "DeviceName"),
      GetParameter(message, "NetworkMode"),
      GetParameter(message, "IP"),
      GetParameter(message, "Gateway"),
      GetParameter(message, "Mask"),
      GetParameter(message, "Status"))
  }

  //----------------------------------------------------------------------
  // The search
  //----------------------------------------------------------------------

  /** The first matching part decides the value: later parts, matching or
      not, are never looked at. */
  lemma {:induction false} FirstMatchWins(parts: seq<string>, prefix: string, i: nat)
    requires i < |parts| && prefix <= parts[i]
    requires forall j :: 0 <= j < i ==> !(prefix <= parts[j])
    ensures FirstValue(parts, prefix) == Trim(parts[i][|prefix|..], Blank)
    decreases i
  {
    if i > 0 {
      FirstMatchWins(parts[1..], prefix, i - 1);
    }
  }

  /** Parts in front that do not match are skipped. */
  lemma {:induction false} SkipUnmatched(front: seq<string>, back: seq<string>, prefix: string)
    requires forall j :: 0 <= j < |front| ==> !(prefix <= front[j])
    ensures FirstValue(front + back, prefix) == FirstValue(back, prefix)
    decreases |front|
  {
    if |front| == 0 {
      assert front + back == back;
    } else {
      assert (front + back)[1..] == front[1..] + back;
      SkipUnmatched(front[1..], back, prefix);
    }
  }

  /** The value is the rest of the part after `name=`, `=` signs included,
      trimmed; the segments after it do not matter. */
  lemma FirstSegmentWins(name: string, value: string, rest: string)
    requires ';' !in name + "=" + value
    ensures GetParameter(name + "=" + value + ";" + rest, name) == Trim(value, Blank)
  {
    var p := name + "=" + value;
    SplitPrepend(p, ';', rest);
    assert p + ";" + rest == p + [';'] + rest;
    assert name + "=" <= p;
    assert p[|name + "="|..] == value;
    FirstMatchWins(Split(p + [';'] + rest, ';'), name + "=", 0);
  }

  /** A segment that is no `name=` pair, put in front of a message, does
      not change the value of `name`. */
  lemma UnmatchedSegmentIgnored(segment: string, rest: string, name: string)
    requires ';' !in segment && !(name + "=" <= segment)
    ensures GetParameter(segment + ";" + rest, name) == GetParameter(rest, name)
  {
    SplitPrepend(segment, ';', rest);
    assert segment + ";" + rest == segment + [';'] + rest;
    SkipUnmatched([segment], Split(rest, ';'), name + "=");
  }

  /** The keys `FromString` looks up. */
  const FieldNames: seq<string> := ["SN", "HWADDR", "DeviceName", "NetworkMode", "IP", "Gateway", "Mask", "Status"]

  /** A segment whose key is none of the eight is ignored by the decoder. */
  lemma UnknownKeyIgnored(segment: string, rest: string)
    requires ';' !in segment
    requires forall i :: 0 <= i < |FieldNames| ==> !(FieldNames[i] + "=" <= segment)
    ensures FromString(segment + ";" + rest) == FromString(rest)
  {
    var names := FieldNames;
    UnmatchedSegmentIgnored(segment, rest, names[0]);
    UnmatchedSegmentIgnored(segment, rest, names[1]);
    UnmatchedSegmentIgnored(segment, rest, names[2]);
    UnmatchedSegmentIgnored(segment, rest, names[3]);
    UnmatchedSegmentIgnored(segment, rest, names[4]);
    UnmatchedSegmentIgnored(segment, rest, names[5]);
    UnmatchedSegmentIgnored(segment, rest, names[6]);
    UnmatchedSegmentIgnored(segment, rest, names[7]);
  }

  /** A message without `;` is a single part. */
  lemma SinglePart(message: string, name: string)
    requires ';' !in message
    ensures GetParameter(message, name)
         == if name + "=" <= message then Trim(message[|name| + 1..], Blank) else ""
  {
    SplitNoSeparator(message, ';');
  }

  /** Keys match case-sensitively: a lower-case key is not found. */
  lemma LowerCaseKeyNotFound()
    ensures GetParameter("sn=5", "SN") == ""
  {
    SinglePart("sn=5", "SN");
    assert "sn=5"[0] != "SN="[0];
  }

  /** A message of one `name=value` part gives back `value` when it is
      already trimmed. */
  lemma OnlyPartValue(message: string, name: string, value: string)
    requires ';' !in message && message == name + "=" + value && Trimmed(value, Blank)
    ensures GetParameter(message, name) == value
  {
    SinglePart(message, name);
    assert message[|name| + 1..] == value;
    TrimKeepsTrimmed(value, Blank);
  }

  /** A message of one part whose key continues past `name` (no `=` right
      after it) does not give a value for `name`. */
  lemma OnlyPartOtherKey(message: string, name: string)
    requires ';' !in message && |message| > |name| && message[|name|] != '='
    ensures GetParameter(message, name) == ""
  {
    SinglePart(message, name);
    assert (name + "=")[|name|] == '=';
  }

  /** Keys match only when followed by `=`: a longer key is not found. */
  lemma LongerKeyNotFound()
    ensures GetParameter("SNX=5", "SN") == ""
  {
    OnlyPartOtherKey("SNX=5", "SN");
  }

  lemma ExactKeyFound()
    ensures GetParameter("SN=5", "SN") == "5"
  {
    OnlyPartValue("SN=5", "SN", "5");
  }
}
