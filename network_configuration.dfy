/** `NetworkConfiguration`: the settings a host runs with, and the parser of
    the `CONFReq` request a client sends to change them. */
module NetworkConfig {
  import opened Wrappers
  import opened Text
  import opened Bits
  import opened Address

  /** The C# class; `gatewayAddress` is `None` where the parser leaves the
      field null. */
  datatype NetworkConfiguration = NetworkConfiguration(
    isDhcpEnabled: bool,
    ipAddress: IPv4,
    subnetMask: IPv4,
    gatewayAddress: Option<IPv4>,
    macAddress: string)

  /** `new NetworkConfiguration()`: DHCP off, every address `IPAddress.None`. */
  const Default := NetworkConfiguration(false, NoneAddress, NoneAddress, Some(NoneAddress), "")

  const Ok := "Ok"
  const ErrNotNulTerminated := "Error-Should be nul-terminated."
  const ErrInvalidPair := "Error-Invalid key-value pair"
  const ErrNetworkMode := "Error-Unrecognized network mode setting"
  const ErrMalformedIp := "Error-Malformed IP address setting"
  const ErrReservedIp := "Error-This IP address is reserved and cannot be used"
  const ErrMalformedMask := "Error-Malformed mask setting"
  const ErrMalformedGateway := "Error-Malformed gateway address setting"

  /** What `TryFromRequestString` hands back: its result and both out
      parameters. */
  datatype ParseOutcome = ParseOutcome(isOk: bool, config: NetworkConfiguration, errorMessage: string)

  const Initial := ParseOutcome(true, Default, Ok)

  //----------------------------------------------------------------------
  // The mask check
  //----------------------------------------------------------------------

  /** The shifting loop of `TryFromRequestString`: shift the big-endian mask
      left while its top bit is set; the mask is good when nothing is left. */
  method MaskHasNoGaps(mask: IPv4) returns (ok: bool)
    ensures ok <==> IsPrefixMask(BigEndian(mask))
  {
    var newMask := BigEndian(mask);
    ghost var x0 := newMask;
    ghost var s: bv8 := 0;
    LeadingOnesZero(x0);
    while newMask & TopBit == TopBit
      invariant s <= 32 && LeadingOnes(x0, s)
      invariant newMask == Shl(x0, s)
      decreases 32 - s
    {
      MaskLoopBound(x0, s);
      LeadingOnesStep(x0, s);
      newMask := Double(newMask);
      s := s + 1;
    }
    MaskLoopExit(x0, s);
    ok := newMask == 0;
  }

  /** The mask policy as a function: the value is a prefix mask. */
  predicate ValidMask(mask: IPv4) {
    IsContiguousMask(BigEndian(mask))
  }

  //----------------------------------------------------------------------
  // One key=value segment
  //----------------------------------------------------------------------

  /** A segment the first loop accepts: exactly one `=`. */
  predicate IsPair(part: string) {
    |Split(part, '=')| == 2
  }

  function Key(part: string): string
    requires IsPair(part)
  {
    ToLower(Split(part, '=')[0])
  }

  function Val(part: string): string
    requires IsPair(part)
  {
    Split(part, '=')[1]
  }

  /** The error a segment reports, if any. It depends on the segment only. */
  function PartError(part: string): Option<string>
    requires IsPair(part)
  {
    var key, value := Key(part), Val(part);
    if key == "networkmode" then
      (if ToLower(value) == "dhcp" || ToLower(value) == "static" then None else Some(ErrNetworkMode))
    else if key == "ip" then
      (match Parse(value)
       case None => Some(ErrMalformedIp)
       case Some(a) => if IsNotReserved(a) then None else Some(ErrReservedIp))
    else if key == "mask" then
      (match Parse(value)
       case None => Some(ErrMalformedMask)
       case Some(m) => if ValidMask(m) then None else Some(ErrMalformedMask))
    else if key == "gateway" then
      (if Parse(value).None? then Some(ErrMalformedGateway) else None)
    else None
  }

  /** The field a segment writes, if any. */
  function PartUpdate(c: NetworkConfiguration, part: string): NetworkConfiguration
    requires IsPair(part)
  {
    var key, value := Key(part), Val(part);
    if key == "networkmode" then
      (if ToLower(value) == "dhcp" then c.(isDhcpEnabled := true)
       else if ToLower(value) == "static" then c.(isDhcpEnabled := false)
       else c)
    else if key == "ip" then
      (match Parse(value) case None => c case Some(a) => c.(ipAddress := a))
    else if key == "mask" then
      (match Parse(value) case None => c case Some(m) => c.(subnetMask := m))
    else if key == "gateway" then
      c.(gatewayAddress := Parse(value))
    else if key == "hwaddr" then
      c.(macAddress := value)
    else c
  }

  /** One pass of the second loop over one segment. */
  function ApplyPart(st: ParseOutcome, part: string): ParseOutcome
    requires IsPair(part)
  {
    var c := PartUpdate(st.config, part);
    match PartError(part)
    case None => st.(config := c)
    case Some(e) => ParseOutcome(false, c, e)
  }

  predicate AllPairs(parts: seq<string>) {
    forall i :: 0 <= i < |parts| ==> IsPair(parts[i])
  }

  /** The second loop, run over `parts` from the initial outcome. */
  function ApplyAll(parts: seq<string>): ParseOutcome
    requires AllPairs(parts)
    decreases |parts|
  {
    if |parts| == 0 then Initial
    else ApplyPart(ApplyAll(parts[..|parts| - 1]), parts[|parts| - 1])
  }

  /** `TryFromRequestString` as a function of the request. */
  function ParseRequest(request: string): ParseOutcome
    requires |request| >= 1
  {
    if request[|request| - 1] != Nul then ParseOutcome(false, Default, ErrNotNulTerminated)
    else
      var parts := Split(TrimEnd(request, {Nul}), ';');
      if AllPairs(parts) then ApplyAll(parts)
      else ParseOutcome(false, Default, ErrInvalidPair)
  }

  //----------------------------------------------------------------------
  // The parser
  //----------------------------------------------------------------------

  /** The body of the field loop of `TryFromRequestString`: one segment
      updates the configuration and possibly the error. */
  method ParseField(isOk0: bool, config0: NetworkConfiguration, errorMessage0: string, part: string)
    returns (isOk: bool, parsedConfiguration: NetworkConfiguration, errorMessage: string)
    requires IsPair(part)
    ensures ParseOutcome(isOk, parsedConfiguration, errorMessage)
         == ApplyPart(ParseOutcome(isOk0, config0, errorMessage0), part)
  {
    isOk, parsedConfiguration, errorMessage := isOk0, config0, errorMessage0;
    var keyValue := Split(part, '=');
    var key := ToLower(keyValue[0]);
    var value := ToLower(keyValue[1]);

    if key == "networkmode" {
      if value == "dhcp" {
        parsedConfiguration := parsedConfiguration.(isDhcpEnabled := true);
      } else if value == "static" {
        parsedConfiguration := parsedConfiguration.(isDhcpEnabled := false);
      } else {
        isOk := false;
        errorMessage := ErrNetworkMode;
      }
    }

    if key == "ip" {
      var ipAddress := Parse(keyValue[1]);
      if ipAddress.None? {
        isOk := false;
        errorMessage := ErrMalformedIp;
      } else {
        parsedConfiguration := parsedConfiguration.(ipAddress := ipAddress.value);
        if !IsNotReserved(parsedConfiguration.ipAddress) {
          isOk := false;
          errorMessage := ErrReservedIp;
        }
      }
    }

    if key == "mask" {
      var mask := Parse(keyValue[1]);
      if mask.None? {
        isOk := false;
        errorMessage := ErrMalformedMask;
      } else {
        parsedConfiguration := parsedConfiguration.(subnetMask := mask.value);
        var noGaps := MaskHasNoGaps(parsedConfiguration.subnetMask);
        ContiguousIsPrefixMask(BigEndian(mask.value));
        if !noGaps {
          isOk := false;
          errorMessage := ErrMalformedMask;
        }
      }
    }

    if key == "gateway" {
      var gwAddress := Parse(keyValue[1]);
      if gwAddress.None? {
        isOk := false;
        errorMessage := ErrMalformedGateway;
      }
      parsedConfiguration := parsedConfiguration.(gatewayAddress := gwAddress);
    }

    if key == "hwaddr" {
      parsedConfiguration := parsedConfiguration.(macAddress := keyValue[1]);
    }
  }

  /** The first loop of `TryFromRequestString`: every segment must hold
      exactly one `=`; the loop runs to the end either way. */
  method CheckPairs(parts: seq<string>) returns (isOk: bool)
    ensures isOk <==> AllPairs(parts)
  {
    isOk := true;
    for i := 0 to |parts|
      invariant isOk <==> AllPairs(parts[..i])
    {
      if |Split(parts[i], '=')| != 2 {
        isOk := false;
      }
      assert parts[..i + 1] == parts[..i] + [parts[i]];
    }
    assert parts[..|parts|] == parts;
  }

  /** The second loop of `TryFromRequestString`, from the initial outcome. */
  method ParseFields(parts: seq<string>)
    returns (isOk: bool, parsedConfiguration: NetworkConfiguration, errorMessage: string)
    requires AllPairs(parts)
    ensures ParseOutcome(isOk, parsedConfiguration, errorMessage) == ApplyAll(parts)
  {
    isOk, parsedConfiguration, errorMessage := true, Default, Ok;
    for i := 0 to |parts|
      invariant ParseOutcome(isOk, parsedConfiguration, errorMessage) == ApplyAll(parts[..i])
    {
      isOk, parsedConfiguration, errorMessage :=
        ParseField(isOk, parsedConfiguration, errorMessage, parts[i]);
      assert parts[..i + 1][..i] == parts[..i];
    }
    assert parts[..|parts|] == parts;
  }

  /** `NetworkConfiguration.TryFromRequestString`. An empty request makes
      the C# `Substring` throw, so a non-empty one is required. */
  method TryFromRequestString(requestString: string)
    returns (isOk: bool, parsedConfiguration: NetworkConfiguration, errorMessage: string)
    requires |requestString| >= 1
    ensures ParseOutcome(isOk, parsedConfiguration, errorMessage) == ParseRequest(requestString)
  {
    if requestString[|requestString| - 1] != Nul {
      return false, Default, ErrNotNulTerminated;
    }
    var parts := Split(TrimEnd(requestString, {Nul}), ';');
    var allPairs := CheckPairs(parts);
    if !allPairs {
      return false, Default, ErrInvalidPair;
    }
    isOk, parsedConfiguration, errorMessage := ParseFields(parts);
  }
}
