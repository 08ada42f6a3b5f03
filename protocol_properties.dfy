/** What the replies a host sends say to the client that decodes them, and
    how the requests fit the host's recognition tests. */
module ProtocolProperties {
  import opened Wrappers
  import opened Text
  import opened Address
  import opened NetworkConfig
  import opened Devices
  import opened Protocol

  /** Text a field can carry through a reply unchanged: no `;`, nothing the
      decoder trims at either end. */
  predicate Clean(s: string) {
    ';' !in s && Trimmed(s, Blank)
  }

  function Pairs(keys: seq<string>, values: seq<string>): (r: seq<string>)
    requires |keys| == |values|
    ensures |r| == |keys|
  {
    seq(|keys|, j requires 0 <= j < |keys| => Pair(keys[j], values[j]))
  }

  /** In a list of pairs whose keys hold no `=`, a key is found at its first
      position, whatever follows. */
  lemma LookupPair(keys: seq<string>, values: seq<string>, tail: seq<string>, i: nat)
    requires |keys| == |values| && i < |keys|
    requires forall j :: 0 <= j < |keys| ==> '=' !in keys[j]
    requires forall j :: 0 <= j < i ==> keys[j] != keys[i]
    ensures FirstValue(Pairs(keys, values) + tail, keys[i] + "=") == Trim(values[i], Blank)
  {
    var parts := Pairs(keys, values) + tail;
    var prefix := keys[i] + "=";
    forall j | 0 <= j < i
      ensures !(prefix <= parts[j])
    {
      KeyMatch(keys[i], keys[j], values[j]);
    }
    assert parts[i] == prefix + values[i];
    assert parts[i][|prefix|..] == values[i];
    FirstMatchWins(parts, prefix, i);
  }

  /** Pairs each followed by `;`, then NUL, split into the pairs and the
      NUL. */
  lemma SplitReply(fields: seq<string>)
    requires Separable(fields, ';')
    ensures Split(Terminated(fields, ';') + [Nul], ';') == fields + [[Nul]]
  {
    SplitTerminated(fields, ';', [Nul]);
    SplitNoSeparator([Nul], ';');
  }

  //----------------------------------------------------------------------
  // FIND reply
  //----------------------------------------------------------------------

  const FindKeys: seq<string> := ["FIND", "IP", "HWADDR", "DeviceName", "SN", "Status", "NetworkMode", "Mask", "Gateway"]

  function FindValues(config: NetworkConfiguration, deviceName: string, serialNumber: string, status: Status): seq<string> {
    ["1", Format(config.ipAddress), config.macAddress, deviceName, serialNumber,
     StatusName(status), ModeName(config.isDhcpEnabled), Format(config.subnetMask),
     AddressText(config.gatewayAddress)]
  }

  lemma FindKeysPlain()
    ensures forall j :: 0 <= j < |FindKeys| ==> Plain(FindKeys[j])
  {}

  lemma FindKeysDistinct()
    ensures forall i, j :: 0 <= j < i < |FindKeys| ==> FindKeys[j] != FindKeys[i]
  {}

  lemma AddressTextClean(a: Option<IPv4>)
    ensures Plain(AddressText(a)) && Trimmed(AddressText(a), Blank)
  {
    if a.Some? {
      FormatAlphabet(a.value);
    }
  }

  lemma NamesClean(status: Status, isDhcpEnabled: bool)
    ensures Plain(StatusName(status)) && Trimmed(StatusName(status), Blank)
    ensures Plain(ModeName(isDhcpEnabled)) && Trimmed(ModeName(isDhcpEnabled), Blank)
  {}

  /** The reply's fields are the pairs of keys and values, none with `;`. */
  lemma FindFieldsArePairs(config: NetworkConfiguration, deviceName: string, serialNumber: string, status: Status)
    requires Clean(deviceName) && Clean(serialNumber) && Clean(config.macAddress)
    ensures FindFields(config, deviceName, serialNumber, status)
         == Pairs(FindKeys, FindValues(config, deviceName, serialNumber, status))
    ensures Separable(FindFields(config, deviceName, serialNumber, status), ';')
  {
    var fields := FindFields(config, deviceName, serialNumber, status);
    var values := FindValues(config, deviceName, serialNumber, status);
    FindKeysPlain();
    FindValuesUnseparated(config, deviceName, serialNumber, status);
    forall j | 0 <= j < |fields|
      ensures ';' !in fields[j]
    {
      assert fields[j] == Pair(FindKeys[j], values[j]);
      PairUnseparated(FindKeys[j], values[j]);
    }
  }

  lemma PairUnseparated(key: string, value: string)
    requires ';' !in key && ';' !in value
    ensures ';' !in Pair(key, value)
  {}

  lemma FindValuesUnseparated(config: NetworkConfiguration, deviceName: string, serialNumber: string, status: Status)
    requires Clean(deviceName) && Clean(serialNumber) && Clean(config.macAddress)
    ensures forall j :: 0 <= j < 9 ==> ';' !in FindValues(config, deviceName, serialNumber, status)[j]
  {
    FormatAlphabet(config.ipAddress);
    FormatAlphabet(config.subnetMask);
    AddressTextClean(config.gatewayAddress);
    NamesClean(status, config.isDhcpEnabled);
  }

  /** The values of a FIND reply are clean. */
  lemma FindValuesClean(config: NetworkConfiguration, deviceName: string, serialNumber: string, status: Status)
    requires Clean(deviceName) && Clean(serialNumber) && Clean(config.macAddress)
    ensures forall j :: 0 <= j < 9 ==> Trimmed(FindValues(config, deviceName, serialNumber, status)[j], Blank)
  {
    FormatAlphabet(config.ipAddress);
    FormatAlphabet(config.subnetMask);
    AddressTextClean(config.gatewayAddress);
    NamesClean(status, config.isDhcpEnabled);
  }

  /** Decoding a FIND reply finds field `i`'s value. */
  lemma FindReplyField(config: NetworkConfiguration, deviceName: string, serialNumber: string, status: Status, i: nat)
    requires Clean(deviceName) && Clean(serialNumber) && Clean(config.macAddress)
    requires i < 9
    ensures GetParameter(FindReply(config, deviceName, serialNumber, status), FindKeys[i])
         == FindValues(config, deviceName, serialNumber, status)[i]
  {
    var values := FindValues(config, deviceName, serialNumber, status);
    FindFieldsArePairs(config, deviceName, serialNumber, status);
    SplitReply(FindFields(config, deviceName, serialNumber, status));
    FindKeysPlain();
    FindKeysDistinct();
    LookupPair(FindKeys, values, [[Nul]], i);
    FindValuesClean(config, deviceName, serialNumber, status);
    TrimKeepsTrimmed(values[i], Blank);
  }

  /** Round trip of the FIND reply: a client decodes every field the host
      wrote, provided the free-text fields are clean. */
  lemma FindReplyRoundTrip(config: NetworkConfiguration, deviceName: string, serialNumber: string, status: Status)
    requires Clean(deviceName) && Clean(serialNumber) && Clean(config.macAddress)
    ensures FromString(FindReply(config, deviceName, serialNumber, status))
         == DeviceDescription(serialNumber, config.macAddress, deviceName, ModeName(config.isDhcpEnabled),
                              Format(config.ipAddress), AddressText(config.gatewayAddress),
                              Format(config.subnetMask), StatusName(status))
  {
    FindReplyField(config, deviceName, serialNumber, status, 1);
    FindReplyField(config, deviceName, serialNumber, status, 2);
    FindReplyField(config, deviceName, serialNumber, status, 3);
    FindReplyField(config, deviceName, serialNumber, status, 4);
    FindReplyField(config, deviceName, serialNumber, status, 5);
    FindReplyField(config, deviceName, serialNumber, status, 6);
    FindReplyField(config, deviceName, serialNumber, status, 7);
    FindReplyField(config, deviceName, serialNumber, status, 8);
  }

  /** The mode the client reads back tells DHCP from static addressing. */
  lemma ModeNameInjective(a: bool, b: bool)
    ensures ModeName(a) == ModeName(b) <==> a == b
  {}

  /** A decoded address field parses back to the host's address. */
  lemma FindReplyAddresses(config: NetworkConfiguration, deviceName: string, serialNumber: string, status: Status)
    requires Clean(deviceName) && Clean(serialNumber) && Clean(config.macAddress)
    ensures Parse(FromString(FindReply(config, deviceName, serialNumber, status)).ipAddress) == Some(config.ipAddress)
    ensures Parse(FromString(FindReply(config, deviceName, serialNumber, status)).subnetMask) == Some(config.subnetMask)
  {
    FindReplyRoundTrip(config, deviceName, serialNumber, status);
    ParseFormat(config.ipAddress);
    ParseFormat(config.subnetMask);
  }

  //----------------------------------------------------------------------
  // CONF reply
  //----------------------------------------------------------------------

  const ConfKeys: seq<string> := ["CONF", "HWADDR", "Status", "Result"]

  lemma ConfKeysFacts()
    ensures forall j :: 0 <= j < |ConfKeys| ==> Plain(ConfKeys[j])
    ensures forall i, j :: 0 <= j < i < |ConfKeys| ==> ConfKeys[j] != ConfKeys[i]
  {}

  lemma ConfFieldsArePairs(hwAddress: string, status: Status, requestResult: string)
    requires Clean(hwAddress) && ';' !in requestResult
    ensures ConfFields(hwAddress, status, requestResult)
         == Pairs(ConfKeys, ["1", hwAddress, StatusName(status), requestResult])
    ensures Separable(ConfFields(hwAddress, status, requestResult), ';')
  {
    var values := ["1", hwAddress, StatusName(status), requestResult];
    var fields := ConfFields(hwAddress, status, requestResult);
    ConfKeysFacts();
    NamesClean(status, false);
    forall j | 0 <= j < |fields|
      ensures ';' !in fields[j]
    {
      assert fields[j] == ConfKeys[j] + "=" + values[j];
    }
  }

  /** Decoding a CONF reply finds field `i`'s value, if it is clean. */
  lemma ConfReplyField(hwAddress: string, status: Status, requestResult: string, i: nat)
    requires Clean(hwAddress) && ';' !in requestResult
    requires i < 4 && Trimmed(["1", hwAddress, StatusName(status), requestResult][i], Blank)
    ensures GetParameter(ConfReply(hwAddress, status, requestResult), ConfKeys[i])
         == ["1", hwAddress, StatusName(status), requestResult][i]
  {
    var values := ["1", hwAddress, StatusName(status), requestResult];
    ConfFieldsArePairs(hwAddress, status, requestResult);
    SplitReply(ConfFields(hwAddress, status, requestResult));
    ConfKeysFacts();
    LookupPair(ConfKeys, values, [[Nul]], i);
    TrimKeepsTrimmed(values[i], Blank);
  }

  /** A key that is not among the pairs is not found. */
  lemma MissingKey(keys: seq<string>, values: seq<string>, name: string)
    requires |keys| == |values|
    requires forall j :: 0 <= j < |keys| ==> '=' !in keys[j]
    requires '=' !in name && name !in keys
    ensures FirstValue(Pairs(keys, values) + [[Nul]], name + "=") == ""
  {
    var parts := Pairs(keys, values) + [[Nul]];
    forall j | 0 <= j < |parts|
      ensures !(name + "=" <= parts[j])
    {
      if j < |keys| {
        KeyMatch(name, keys[j], values[j]);
      } else {
        assert parts[j] == [Nul];
        assert |name + "="| > 1 || (name + "=")[0] == '=';
      }
    }
  }

  /** A key other than the four CONF keys is absent from a CONF reply. */
  lemma ConfReplyMisses(hwAddress: string, status: Status, requestResult: string)
    requires Clean(hwAddress) && ';' !in requestResult
    ensures forall name :: '=' !in name && name !in ConfKeys ==>
              GetParameter(ConfReply(hwAddress, status, requestResult), name) == ""
  {
    ConfFieldsArePairs(hwAddress, status, requestResult);
    SplitReply(ConfFields(hwAddress, status, requestResult));
    ConfKeysFacts();
    forall name | '=' !in name && name !in ConfKeys
      ensures GetParameter(ConfReply(hwAddress, status, requestResult), name) == ""
    {
      MissingKey(ConfKeys, ["1", hwAddress, StatusName(status), requestResult], name);
    }
  }

  /** The six fields a CONF reply does not carry decode as "". */
  lemma ConfReplyAbsent(hwAddress: string, status: Status, requestResult: string)
    requires Clean(hwAddress) && ';' !in requestResult
    ensures GetParameter(ConfReply(hwAddress, status, requestResult), "SN") == ""
    ensures GetParameter(ConfReply(hwAddress, status, requestResult), "DeviceName") == ""
    ensures GetParameter(ConfReply(hwAddress, status, requestResult), "NetworkMode") == ""
    ensures GetParameter(ConfReply(hwAddress, status, requestResult), "IP") == ""
    ensures GetParameter(ConfReply(hwAddress, status, requestResult), "Gateway") == ""
    ensures GetParameter(ConfReply(hwAddress, status, requestResult), "Mask") == ""
  {
    OtherKeys();
    ConfReplyMisses(hwAddress, status, requestResult);
  }

  /** The six description keys a CONF reply does not carry. */
  lemma OtherKeys()
    ensures '=' !in "SN" && "SN" !in ConfKeys
    ensures '=' !in "DeviceName" && "DeviceName" !in ConfKeys
    ensures '=' !in "NetworkMode" && "NetworkMode" !in ConfKeys
    ensures '=' !in "IP" && "IP" !in ConfKeys
    ensures '=' !in "Gateway" && "Gateway" !in ConfKeys
    ensures '=' !in "Mask" && "Mask" !in ConfKeys
  {}

  /** Decoding a CONF reply gives the host's MAC address and status and
      leaves every other field empty, the serial number included. */
  lemma ConfReplyRoundTrip(hwAddress: string, status: Status, requestResult: string)
    requires Clean(hwAddress) && ';' !in requestResult
    ensures FromString(ConfReply(hwAddress, status, requestResult))
         == DeviceDescription("", hwAddress, "", "", "", "", "", StatusName(status))
  {
    NamesClean(status, false);
    ConfReplyField(hwAddress, status, requestResult, 1);
    ConfReplyField(hwAddress, status, requestResult, 2);
    ConfReplyAbsent(hwAddress, status, requestResult);
  }

  /** The reply carries the caller's result text verbatim. */
  lemma ConfReplyResult(hwAddress: string, status: Status, requestResult: string)
    requires Clean(hwAddress) && Clean(requestResult)
    ensures GetParameter(ConfReply(hwAddress, status, requestResult), "Result") == requestResult
  {
    ConfReplyField(hwAddress, status, requestResult, 3);
  }

  //----------------------------------------------------------------------
  // Requests
  //----------------------------------------------------------------------

  /** The broadcast discovery payload passes the host's FINDReq test, and
      can never be taken for a configuration request. */
  lemma FindRequestRecognised(hwAddress: string)
    ensures FindRequestPrefix <= FindRequest
    ensures !(ConfRequestPrefix(hwAddress) <= FindRequest)
  {
    assert FindRequest[0] != ConfRequestPrefix(hwAddress)[0];
  }

  /** A configuration request is never taken for a discovery request. */
  lemma ConfRequestNotFind(payload: string, hwAddress: string)
    requires ConfRequestPrefix(hwAddress) <= payload
    ensures !(FindRequestPrefix <= payload)
  {
    assert payload[0] == 'C';
  }
}
