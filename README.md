# LC-FIND in Dafny

LC-FIND is a small UDP discovery and configuration protocol. A client
broadcasts `FINDReq=1;\0`. Every host on the segment answers with a
`;`-separated list of `key=value` fields describing itself: serial number,
MAC address, name, network mode, address, gateway, mask and status. A client
may then send a `CONFReq=1;HWADDR=…;NetworkMode=…;…\0` request to one host to
change its network settings. The host parses the request, optionally waits
for a local confirmation, applies the new settings and then stays in a
cooldown period. It reports every outcome in a `CONFReq` reply.

This project models the core of the C# library that implements the protocol:

- `wrappers.dfy`, `text.dfy`, `bits.dfy`: the .NET operations the library
  relies on:
  - `String.Split` and joining;
  - `Trim`/`TrimEnd`;
  - the culture-sensitive `StartsWith(string)` and `ToLower()`, modelled as
    an ordinal prefix test and ASCII lowering;
  - decimal integer text;
  - set-bit counting and prefix masks on 32-bit words.
- `address.dfy` (`Address`): IPv4 addresses as four bytes. It covers their
  dotted-quad text and `IPAddress.TryParse` on that text, the big- and
  little-endian words `BitConverter` gives, and the reserved-address policy
  `CheckIfIpIsNotReserved`.
- `network_configuration.dfy` (`NetworkConfig`): the `NetworkConfiguration`
  record and `TryFromRequestString`, the parser of `CONFReq` requests. The
  parser is specified by a function (`ParseRequest` over `ApplyAll`), and
  its loops are methods proved against that function.
  `network_configuration_properties.dfy` proves what the parser promises:
  - the error kept when several segments fail;
  - fields untouched by a request keep their defaults;
  - case-insensitive keys and modes;
  - masks accepted exactly when contiguous;
  - round trips of the two requests the detector application builds.
- `device_description.dfy` (`Devices`): `DeviceDescription.FromString`, the
  client-side decoder of replies.
- `protocol.dfy` (`Protocol`): status names, the request texts, and the two
  reply builders of the host. `protocol_properties.dfy` proves that
  decoding a built reply gives back what was put in.
- `host_machine.dfy` (`HostMachine`): one `Tick` of the host as a function
  on an explicit host state, and the target-status updates of the control
  methods. `host_properties.dfy` proves what follows from it:
  - single-step behaviour of every status pair;
  - preserved invariants;
  - multi-tick scenarios;
  - three null-dereference faults in the code.
- `host.dfy` (`HostService.LcFindHost`): the host as a class whose methods
  update its fields in place. Each method is proved to leave the object in
  the state the `HostMachine` function describes.
- `client.dfy` (`Client`): `LcFindClient.LookForDevices`, a loop that
  decodes replies and keeps the first one per serial number.
- `linux_network_helpers.dfy` (`LinuxNetwork`): prefix length from a mask,
  mask from a prefix length, and the systemd-networkd file text.

Behaviours of the code worth noting, each stated by a lemma:

- **Which error is reported.** When several segments of a request fail,
  the error message of the *last* failing segment is reported
  (`ErrorIsLastFailingSegment`).
- **Trailing separator.** A request with a `;` just before its terminating
  NUL is refused as an invalid pair (`TrailingSeparatorRejected`).
- **Reserved addresses.** The policy refuses:
  - 192.0.x.x, the whole /16;
  - the whole of 198.x.x.x and 203.x.x.x;
  - first octets 224 and 240 only, so 225.1.1.1 is accepted.
- **Key matching.** The reply decoder matches keys case-sensitively
  (`LowerCaseKeyNotFound`). The request parser matches keys and network
  modes case-insensitively (`NetworkModeOutcome`, `ToLowerMatches`).
- **Failed apply after confirmation.** A failed apply from
  AwaitingConfirmation leaves the target at Cooldown
  (`FailedApplyAfterConfirmationFaults`).
- **Busy hosts.** A valid `CONFReq` that arrives during Cooldown or
  AwaitingConfirmation is rejected, and the pending slot is cleared
  (`ValidConfHandled`, `SecondRequestLosesPending`).
- **Default target.** The target status starts at Ready, so the first tick
  enables reconfiguration on its own (`FirstTickEnables`).

## Model

| member | source | states |
|---|---|---|
| Text.Split | LightConversion.Protocols.LcFind/Code/Class.NetworkConfiguration.cs:31 | `String.Split` gives at least one part, and no part contains the separator |
| Text.JoinSplit | LightConversion.Protocols.LcFind/Code/Class.NetworkConfiguration.cs:31 | joining the parts of a split with the separator gives back the original text |
| Text.SplitJoin | LightConversion.Protocols.LcFind/Code/Class.DeviceDescription.cs:18 | splitting a join of separator-free parts gives back exactly those parts |
| Text.SplitTerminated | LightConversion.Protocols.LcFind/Code/Class.LcFindHost/PrivateStuff/Function.BuildFindReqResponseString.cs:11-26 | splitting fields that are each followed by the separator gives those fields, then the split of whatever follows |
| Text.PairSplit | LightConversion.Protocols.LcFind/Code/Class.NetworkConfiguration.cs:35 | a `key=value` built from plain key and value splits on `=` into exactly `[key, value]` and holds no `;` |
| Text.KeyMatch | LightConversion.Protocols.LcFind/Code/Class.DeviceDescription.cs:21 | the `StartsWith("name=")` test on a pair succeeds exactly when the pair's key is `name` |
| Text.TrimEnd | LightConversion.Protocols.LcFind/Code/Class.NetworkConfiguration.cs:26 | `TrimEnd` keeps a prefix, drops only characters of the set, and leaves no set character at the end |
| Text.TrimStart | LightConversion.Protocols.LcFind/Code/Class.DeviceDescription.cs:22 | `TrimStart` keeps a suffix, drops only characters of the set, and leaves no set character at the start |
| Text.TrimIsTrimmed | LightConversion.Protocols.LcFind/Code/Class.DeviceDescription.cs:22 | `Trim` leaves no trimmed character at either end |
| Text.TrimKeepsTrimmed | LightConversion.Protocols.LcFind/Code/Class.DeviceDescription.cs:22 | `Trim` leaves already-trimmed text unchanged |
| Text.ToLowerNoCapitals | LightConversion.Protocols.LcFind/Code/Class.NetworkConfiguration.cs:47 | the lowered text contains no ASCII capital letter |
| Text.ToLowerIdempotent | LightConversion.Protocols.LcFind/Code/Class.NetworkConfiguration.cs:47-50 | lowering an already lowered text changes nothing |
| Text.ToLowerMatches | LightConversion.Protocols.LcFind/Code/Class.NetworkConfiguration.cs:47-50 | comparing the lowered text with a capital-free literal, as the parser does with keys and modes, holds exactly when the two are equal ignoring ASCII case (defined pointwise, independently of lowering) |
| Text.ValueDec | LightConversion.Protocols.LcFind/Code/Class.LcFindHost/PrivateStuff/Function.BuildFindReqResponseString.cs:12 | the decimal text of a number is canonical (no leading zero) and reads back as that number |
| Text.DecValue | LightConversion.Protocols.LcFind/Code/Class.NetworkConfiguration.cs:59 | canonical decimal text is exactly the text of its value |
| Address.ParseFormat | LightConversion.Protocols.LcFind/Code/Class.NetworkConfiguration.cs:59 | `IPAddress.TryParse` of an address's dotted quad gives back that address |
| Address.FormatParse | LightConversion.Protocols.LcFind/Code/Class.NetworkConfiguration.cs:59 | text the parser accepts is exactly the dotted quad of the address it yields |
| Address.FormatAlphabet | LightConversion.Protocols.LcFind/Code/Class.LcFindHost/PrivateStuff/Function.BuildFindReqResponseString.cs:12 | a dotted quad holds only digits and dots (no `;`, `=` or blank) and starts and ends with a digit |
| Address.ByteRoundTrip | LightConversion.Protocols.LcFind/Code/Class.NetworkConfiguration.cs:59 | every number below 256 is the value of the byte made from it |
| Address.FromBigEndianInverse | LightConversion.Protocols.LcFind/Code/Class.NetworkConfiguration.cs:77-79 | the big-endian word of an address decodes back to the address |
| Address.IsNotReservedMatchesTable | LightConversion.Protocols.LcFind/Code/Class.NetworkConfiguration.cs:109-123 | an address is refused exactly when its octets begin with one of the ten reserved prefixes |
| Address.RefusedIsInTable | LightConversion.Protocols.LcFind/Code/Class.NetworkConfiguration.cs:110-121 | every refused address begins with a reserved prefix |
| Address.InTableIsRefused | LightConversion.Protocols.LcFind/Code/Class.NetworkConfiguration.cs:110-121 | every address beginning with a reserved prefix is refused |
| Address.AcceptedExamples | LightConversion.Protocols.LcFind/Code/Class.NetworkConfiguration.cs:109-123 | 192.168.1.50, 225.1.1.1 and 10.0.0.1 are accepted |
| Address.RefusedExamples | LightConversion.Protocols.LcFind/Code/Class.NetworkConfiguration.cs:109-123 | 198.1.2.3, 0.0.0.0 and 255.255.255.255 are refused, while 0.0.0.1 is accepted |
| Bits.ClearLowest | LightConversion.Protocols.LcFind/Code/Class.LinuxNetworkHelpers.cs:147-150 | `x & (x - 1)` on a non-zero word clears exactly one set bit |
| Bits.PopAtMost32 | LightConversion.Protocols.LcFind/Code/Class.LinuxNetworkHelpers.cs:143-153 | a 32-bit word has at most 32 set bits |
| Bits.PopPrefixMask | LightConversion.Protocols.LcFind/Code/Class.LinuxNetworkHelpers.cs:210-224 | the mask with `k` leading ones has exactly `k` set bits |
| Bits.PopByteOrder | LightConversion.Protocols.LcFind/Code/Class.LinuxNetworkHelpers.cs:145 | the number of set bits does not depend on the order of the four bytes |
| Bits.ContiguousIsPrefixMask | LightConversion.Protocols.LcFind/Code/Class.NetworkConfiguration.cs:81-88 | a word is the prefix mask of its own set-bit count exactly when it is some prefix mask |
| Bits.MaskLoopExit | LightConversion.Protocols.LcFind/Code/Class.NetworkConfiguration.cs:81-88 | when the shifting loop stops, nothing is left exactly when the mask is a prefix mask |
| Bits.MaskLoopBound | LightConversion.Protocols.LcFind/Code/Class.NetworkConfiguration.cs:81-88 | the shifting loop cannot run more than 32 times |
| NetworkConfig.MaskHasNoGaps | LightConversion.Protocols.LcFind/Code/Class.NetworkConfiguration.cs:77-89 | the mask check succeeds exactly when the big-endian mask is ones followed by zeros |
| NetworkConfig.ParseField | LightConversion.Protocols.LcFind/Code/Class.NetworkConfiguration.cs:45-102 | one pass of the field loop turns the parser's state into `ApplyPart` of it |
| NetworkConfig.CheckPairs | LightConversion.Protocols.LcFind/Code/Class.NetworkConfiguration.cs:34-39 | the pair loop succeeds exactly when every segment splits on `=` into two parts |
| NetworkConfig.ParseFields | LightConversion.Protocols.LcFind/Code/Class.NetworkConfiguration.cs:44-103 | the field loop's outcome is `ApplyAll` of the segments |
| NetworkConfig.TryFromRequestString | LightConversion.Protocols.LcFind/Code/Class.NetworkConfiguration.cs:15-107 | the result and both out parameters are those of `ParseRequest` |
| NetworkConfigProperties.ApplyAllSnoc | LightConversion.Protocols.LcFind/Code/Class.NetworkConfiguration.cs:44-103 | the field loop applied to one more segment is one more `ApplyPart` |
| NetworkConfigProperties.ApplyPartOutcome | LightConversion.Protocols.LcFind/Code/Class.NetworkConfiguration.cs:45-102 | a segment clears the success flag exactly when it has an error, overwrites the error message only then, and always updates its field |
| NetworkConfigProperties.LastFailing | LightConversion.Protocols.LcFind/Code/Class.NetworkConfiguration.cs:44-103 | the index found fails, and every later segment succeeds |
| NetworkConfigProperties.ErrorIsLastFailingSegment | LightConversion.Protocols.LcFind/Code/Class.NetworkConfiguration.cs:44-103 | a request succeeds exactly when no segment fails, and otherwise reports the message of the last failing segment |
| NetworkConfigProperties.PartUpdateFrame | LightConversion.Protocols.LcFind/Code/Class.NetworkConfiguration.cs:45-102 | a segment changes only the field its key names, and an unknown key changes nothing and is no error |
| NetworkConfigProperties.UntouchedFieldsKeepDefaults | LightConversion.Protocols.LcFind/Code/Class.NetworkConfiguration.cs:9-13 | a field no segment names keeps its default (DHCP off, addresses `IPAddress.None`, MAC empty) |
| NetworkConfigProperties.OkIffOkMessage | LightConversion.Protocols.LcFind/Code/Class.NetworkConfiguration.cs:15-107 | a request succeeds exactly when its message is `Ok` |
| NetworkConfigProperties.ErrorsAreNotOk | LightConversion.Protocols.LcFind/Code/Class.NetworkConfiguration.cs:45-102 | no segment's error message is `Ok` |
| NetworkConfigProperties.SplitTrailingSeparator | LightConversion.Protocols.LcFind/Code/Class.NetworkConfiguration.cs:31 | a text ending in the separator splits into parts whose last one is empty |
| NetworkConfigProperties.EmptyIsNoPair | LightConversion.Protocols.LcFind/Code/Class.NetworkConfiguration.cs:35 | an empty segment is not a key-value pair |
| NetworkConfigProperties.TrailingSeparatorRejected | LightConversion.Protocols.LcFind/Code/Class.NetworkConfiguration.cs:31-39 | a request with `;` just before the terminating NUL is refused as an invalid pair and returns the default configuration |
| NetworkConfigProperties.UnterminatedRejected | LightConversion.Protocols.LcFind/Code/Class.NetworkConfiguration.cs:22-27 | a request not ending in NUL is refused with the NUL-termination error and the default configuration |
| NetworkConfigProperties.ParseFramed | LightConversion.Protocols.LcFind/Code/Class.NetworkConfiguration.cs:26-44 | a NUL-terminated body made of pairs parses as the field loop over the body's segments |
| NetworkConfigProperties.RequestOfParts | LightConversion.Protocols.LcFind/Code/Class.NetworkConfiguration.cs:15-107 | joining separator-free pairs with `;` and adding a NUL parses as the field loop over those pairs |
| NetworkConfigProperties.ApplyStatic | LightConversion.Protocols.LcFind/Code/Class.NetworkConfiguration.cs:47-56 | `NetworkMode=Static` turns DHCP off and changes nothing else |
| NetworkConfigProperties.ApplyDhcp | LightConversion.Protocols.LcFind/Code/Class.NetworkConfiguration.cs:47-56 | `NetworkMode=DHCP` turns DHCP on and changes nothing else |
| NetworkConfigProperties.NetworkModeOutcome | LightConversion.Protocols.LcFind/Code/Class.NetworkConfiguration.cs:47-56 | for every key equal to `networkmode` ignoring ASCII case: a value equal to `dhcp` ignoring case turns DHCP on, one equal to `static` turns it off, and any other value fails with the network-mode error and keeps the configuration |
| NetworkConfigProperties.DhcpAnyCase | LightConversion.Protocols.LcFind/Code/Class.NetworkConfiguration.cs:45-51 | one mixed-case instance: `NETWORKMODE=dHcP` turns DHCP on |
| NetworkConfigProperties.StaticAnyCase | LightConversion.Protocols.LcFind/Code/Class.NetworkConfiguration.cs:45-53 | one instance: `networkmode=STATIC` turns DHCP off |
| NetworkConfigProperties.UnknownModeRefused | LightConversion.Protocols.LcFind/Code/Class.NetworkConfiguration.cs:53-55 | one instance: the mode `Auto` fails with the network-mode error and keeps the configuration |
| NetworkConfigProperties.MaskExamples | LightConversion.Protocols.LcFind/Code/Class.NetworkConfiguration.cs:71-90 | 0.0.0.0, 255.255.255.255 and 255.255.255.0 are valid masks, while 255.0.255.0 is not |
| NetworkConfigProperties.ApplyConfReq | LightConversion.Protocols.LcFind/Code/Class.NetworkConfiguration.cs:44-103 | the `CONFReq=1` segment leaves the outcome unchanged |
| NetworkConfigProperties.ApplyHwAddr | LightConversion.Protocols.LcFind/Code/Class.NetworkConfiguration.cs:100-102 | `HWADDR` stores its value verbatim |
| NetworkConfigProperties.ApplyIp | LightConversion.Protocols.LcFind/Code/Class.NetworkConfiguration.cs:58-69 | `IP` stores the address; a reserved address is stored too, but fails with the reserved-address error |
| NetworkConfigProperties.ApplyMask | LightConversion.Protocols.LcFind/Code/Class.NetworkConfiguration.cs:71-90 | `Mask` stores the mask and fails with the mask error exactly when the mask is not contiguous |
| NetworkConfigProperties.ApplyGateway | LightConversion.Protocols.LcFind/Code/Class.NetworkConfiguration.cs:92-98 | `Gateway` stores the gateway address |
| NetworkConfigProperties.StaticFold | LightConversion.Protocols.LcFind/Code/Class.NetworkConfiguration.cs:44-103 | the field loop over the static request's segments stores MAC, mode, IP, mask and gateway, and keeps the mask error over the IP error |
| NetworkConfigProperties.StaticSeparable | LightConversion.Protocols.LcFind/Code/Class.NetworkConfiguration.cs:31 | no segment of the static request contains `;` |
| NetworkConfigProperties.StaticRequestRoundTrip | LcFindDeviceDetectorApp/Code/Class.MirandaViewModel.cs:227 | the static request the detector sends parses to exactly its settings; it succeeds exactly when the IP is not reserved and the mask is contiguous, and it reports the mask error first |
| NetworkConfigProperties.DhcpFold | LightConversion.Protocols.LcFind/Code/Class.NetworkConfiguration.cs:44-103 | the field loop over the DHCP request's segments turns DHCP on and stores the MAC |
| NetworkConfigProperties.DhcpSeparable | LightConversion.Protocols.LcFind/Code/Class.NetworkConfiguration.cs:31 | no segment of the DHCP request contains `;` |
| NetworkConfigProperties.DhcpRequestRoundTrip | LcFindDeviceDetectorApp/Code/Class.MirandaViewModel.cs:210 | the DHCP request the detector sends parses successfully to DHCP on with that MAC and every other field at its default |
| Devices.FirstValue | LightConversion.Protocols.LcFind/Code/Class.DeviceDescription.cs:17-27 | the value found is trimmed of NUL, space, CR and LF, and is empty when no part starts with `name=` |
| Devices.FirstMatchWins | LightConversion.Protocols.LcFind/Code/Class.DeviceDescription.cs:20-24 | the value comes from the first part that starts with `name=`: the rest of that part, trimmed |
| Devices.SkipUnmatched | LightConversion.Protocols.LcFind/Code/Class.DeviceDescription.cs:20-24 | parts that do not start with `name=` do not affect the result |
| Devices.FirstSegmentWins | LightConversion.Protocols.LcFind/Code/Class.DeviceDescription.cs:18-23 | in `name=value;rest` the value is taken from the first segment, whatever `rest` holds, and may itself contain `=` |
| Devices.UnmatchedSegmentIgnored | LightConversion.Protocols.LcFind/Code/Class.DeviceDescription.cs:20-24 | a leading segment not starting with `name=` does not change the lookup |
| Devices.UnknownKeyIgnored | LightConversion.Protocols.LcFind/Code/Class.DeviceDescription.cs:29-40 | a segment with none of the eight keys does not change the decoded description |
| Devices.SinglePart | LightConversion.Protocols.LcFind/Code/Class.DeviceDescription.cs:17-27 | on a message without `;` the lookup gives the trimmed rest when the message starts with `name=`, and otherwise "" |
| Devices.LowerCaseKeyNotFound | LightConversion.Protocols.LcFind/Code/Class.DeviceDescription.cs:21 | keys are case-sensitive: `sn=5` has no `SN` |
| Devices.OnlyPartValue | LightConversion.Protocols.LcFind/Code/Class.DeviceDescription.cs:21-22 | a single `name=value` with a trimmed value gives exactly that value |
| Devices.OnlyPartOtherKey | LightConversion.Protocols.LcFind/Code/Class.DeviceDescription.cs:21 | a single part whose key is longer than `name` gives "" |
| Devices.LongerKeyNotFound | LightConversion.Protocols.LcFind/Code/Class.DeviceDescription.cs:21 | `SNX=5` has no `SN` |
| Devices.ExactKeyFound | LightConversion.Protocols.LcFind/Code/Class.DeviceDescription.cs:21-22 | `SN=5` has `SN` equal to `5` |
| ProtocolProperties.Pairs | LightConversion.Protocols.LcFind/Code/Class.LcFindHost/PrivateStuff/Function.BuildFindReqResponseString.cs:11-26 | the reply builders emit one `key=value` field per key |
| ProtocolProperties.LookupPair | LightConversion.Protocols.LcFind/Code/Class.DeviceDescription.cs:20-24 | looking up a key among distinct keys finds its own value, trimmed |
| ProtocolProperties.SplitReply | LightConversion.Protocols.LcFind/Code/Class.DeviceDescription.cs:18 | splitting a built reply gives its fields followed by the NUL part |
| ProtocolProperties.FindKeysDistinct | LightConversion.Protocols.LcFind/Code/Class.LcFindHost/PrivateStuff/Function.BuildFindReqResponseString.cs:11-26 | the nine keys of a FIND reply are pairwise distinct |
| ProtocolProperties.AddressTextClean | LightConversion.Protocols.LcFind/Code/Class.LcFindHost/PrivateStuff/Function.BuildFindReqResponseString.cs:12-24 | address text in a reply holds no separator and no blank at either end |
| ProtocolProperties.NamesClean | LightConversion.Protocols.LcFind/Code/Class.LcFindHost/PrivateStuff/Function.BuildFindReqResponseString.cs:18-25 | status and mode names hold no separator and no blank at either end |
| ProtocolProperties.FindFieldsArePairs | LightConversion.Protocols.LcFind/Code/Class.LcFindHost/PrivateStuff/Function.BuildFindReqResponseString.cs:11-25 | a FIND reply is the nine `key=value` fields, none of which contains `;` |
| ProtocolProperties.FindValuesUnseparated | LightConversion.Protocols.LcFind/Code/Class.LcFindHost/PrivateStuff/Function.BuildFindReqResponseString.cs:11-25 | no value of a FIND reply contains `;` |
| ProtocolProperties.FindValuesClean | LightConversion.Protocols.LcFind/Code/Class.LcFindHost/PrivateStuff/Function.BuildFindReqResponseString.cs:11-25 | no value of a FIND reply has a blank at either end |
| ProtocolProperties.FindReplyField | LightConversion.Protocols.LcFind/Code/Class.LcFindHost/PrivateStuff/Function.BuildFindReqResponseString.cs:11-26 | decoding a FIND reply's key gives the value the host put there |
| ProtocolProperties.FindReplyRoundTrip | LightConversion.Protocols.LcFind/Code/Class.LcFindHost/PrivateStuff/Function.BuildFindReqResponseString.cs:8-29 | `FromString` of a FIND reply gives back the serial, MAC, name, mode, address, gateway, mask and status the host sent |
| ProtocolProperties.ModeNameInjective | LightConversion.Protocols.LcFind/Code/Class.LcFindHost/PrivateStuff/Function.BuildFindReqResponseString.cs:18-22 | the reply says `DHCP` exactly when DHCP is enabled |
| ProtocolProperties.FindReplyAddresses | LightConversion.Protocols.LcFind/Code/Class.LcFindHost/PrivateStuff/Function.BuildFindReqResponseString.cs:12-24 | the decoded IP and mask parse back to the host's own addresses |
| ProtocolProperties.ConfKeysFacts | LightConversion.Protocols.LcFind/Code/Class.LcFindHost/PrivateStuff/Function.BuildConfReqResponseString.cs:11-16 | the four keys of a CONF reply are plain and pairwise distinct |
| ProtocolProperties.ConfFieldsArePairs | LightConversion.Protocols.LcFind/Code/Class.LcFindHost/PrivateStuff/Function.BuildConfReqResponseString.cs:11-16 | a CONF reply is the four `key=value` fields, none of which contains `;` |
| ProtocolProperties.ConfReplyField | LightConversion.Protocols.LcFind/Code/Class.LcFindHost/PrivateStuff/Function.BuildConfReqResponseString.cs:11-16 | decoding a CONF reply's key gives the value the host put there |
| ProtocolProperties.MissingKey | LightConversion.Protocols.LcFind/Code/Class.DeviceDescription.cs:26 | a key not among the reply's keys decodes to "" |
| ProtocolProperties.ConfReplyMisses | LightConversion.Protocols.LcFind/Code/Class.LcFindHost/PrivateStuff/Function.BuildConfReqResponseString.cs:11-16 | every key a CONF reply does not carry decodes to "" |
| ProtocolProperties.ConfReplyAbsent | LightConversion.Protocols.LcFind/Code/Class.LcFindHost/PrivateStuff/Function.BuildConfReqResponseString.cs:11-16 | a CONF reply has no serial, name, mode, IP, gateway or mask |
| ProtocolProperties.OtherKeys | LightConversion.Protocols.LcFind/Code/Class.DeviceDescription.cs:31-38 | the decoder's other six keys are not keys of a CONF reply |
| ProtocolProperties.ConfReplyRoundTrip | LightConversion.Protocols.LcFind/Code/Class.LcFindHost/PrivateStuff/Function.BuildConfReqResponseString.cs:8-19 | `FromString` of a CONF reply gives the MAC and status, with every other field empty (so a client does not list it) |
| ProtocolProperties.ConfReplyResult | LightConversion.Protocols.LcFind/Code/Class.LcFindHost/PrivateStuff/Function.BuildConfReqResponseString.cs:14 | the `Result` field carries the parser's or the host's message verbatim |
| ProtocolProperties.FindRequestRecognised | LightConversion.Protocols.LcFind/Code/Class.LcFindHost/PrivateStuff/Function.Tick.cs:18 | the discovery request is taken as FIND, not as CONF |
| ProtocolProperties.ConfRequestNotFind | LightConversion.Protocols.LcFind/Code/Class.LcFindHost/PrivateStuff/Function.Tick.cs:18-28 | a CONF request for this host is never taken as FIND |
| Client.Kept | LightConversion.Protocols.LcFind/Code/Class.LcFindClient.cs:54-57 | the list is never longer than the replies received |
| Client.LookForDevices | LightConversion.Protocols.LcFind/Code/Class.LcFindClient.cs:48-62 | the drain loop returns `Discovered` of the received messages |
| Client.KeptSnoc | LightConversion.Protocols.LcFind/Code/Class.LcFindClient.cs:54-57 | one more reply is added exactly when it has a serial not already listed |
| Client.DistinctNonEmptySerials | LightConversion.Protocols.LcFind/Code/Class.LcFindClient.cs:54-57 | listed devices have non-empty, pairwise distinct serial numbers |
| Client.KeptGrows | LightConversion.Protocols.LcFind/Code/Class.LcFindClient.cs:56 | the list only grows: earlier entries are never replaced |
| Client.KeptComplete | LightConversion.Protocols.LcFind/Code/Class.LcFindClient.cs:54-57 | every reply with a serial number has its serial in the list |
| Client.FirstArrivalWins | LightConversion.Protocols.LcFind/Code/Class.LcFindClient.cs:48-59 | each entry is the first reply with its serial, and entries are in arrival order |
| Client.SameSerialMerged | LightConversion.Protocols.LcFind/Code/Class.LcFindClient.cs:55 | two replies with the same serial give one entry, the first |
| Client.DecodedSnoc | LightConversion.Protocols.LcFind/Code/Class.LcFindClient.cs:48-53 | decoding one more message appends its description |
| Client.ConfReplyIgnored | LightConversion.Protocols.LcFind/Code/Class.LcFindClient.cs:54 | a CONF reply adds nothing to the list |
| Client.FindReplyListed | LightConversion.Protocols.LcFind/Code/Class.LcFindClient.cs:53-57 | a FIND reply from a new serial is appended, with its own serial |
| Client.DiscoveryRequestRecognised | LightConversion.Protocols.LcFind/Code/Class.LcFindClient.cs:42 | the client's broadcast is `FINDReq=1;\0`, which a host takes as FIND |
| HostMachine.AnswerFind | LightConversion.Protocols.LcFind/Code/Class.LcFindHost/PrivateStuff/Function.Tick.cs:18-25 | answering FIND never touches the pending request |
| HostMachine.AnswerConf | LightConversion.Protocols.LcFind/Code/Class.LcFindHost/PrivateStuff/Function.Tick.cs:28-54 | handling CONF keeps a pending request non-empty |
| HostMachine.AnswerParsed | LightConversion.Protocols.LcFind/Code/Class.LcFindHost/PrivateStuff/Function.Tick.cs:31-53 | after a parse, the pending request is kept, cleared, or becomes this message |
| HostMachine.HandleMessage | LightConversion.Protocols.LcFind/Code/Class.LcFindHost/PrivateStuff/Function.Tick.cs:15-55 | handling one received message keeps the state well formed |
| HostMachine.Apply | LightConversion.Protocols.LcFind/Code/Class.LcFindHost/PrivateStuff/Function.Tick.cs:68-86 | applying the pending request keeps the state well formed |
| HostMachine.Applied | LightConversion.Protocols.LcFind/Code/Class.LcFindHost/PrivateStuff/Function.Tick.cs:72-86 | after an application the pending slot is empty, the receive queue is unchanged, and exactly one reply is appended |
| HostMachine.Transition | LightConversion.Protocols.LcFind/Code/Class.LcFindHost/PrivateStuff/Function.Tick.cs:57-144 | the status transition keeps the state well formed |
| HostMachine.TickSpec | LightConversion.Protocols.LcFind/Code/Class.LcFindHost/PrivateStuff/Function.Tick.cs:11-145 | a whole tick keeps the state well formed |
| HostService.LcFindHost.constructor | LightConversion.Protocols.LcFind/Code/Class.LcFindHost/Class.LcFindHost.cs:18-66 | a new host is Disabled with target Ready, not initialised, with an empty MAC, `Unknown-` names, confirmation off and both timeouts 60 s |
| HostService.LcFindHost.Initialize | LightConversion.Protocols.LcFind/Code/Class.LcFindHost/Function.Initialize.cs:17-95 | on a successful bind with a configuration written by the get delegate (whose `bool` is ignored) the host takes its MAC and becomes initialised; a failed bind or a null configuration gives `false` and leaves the host uninitialised; the tick state never changes |
| HostService.LcFindHost.ReceiveStep | LightConversion.Protocols.LcFind/Code/Class.LcFindHost/Function.Initialize.cs:39-46 | a received datagram is queued, and the oldest one is dropped beyond ten |
| HostService.LcFindHost.Tick | LightConversion.Protocols.LcFind/Code/Class.LcFindHost/PrivateStuff/Function.Tick.cs:11-145 | the host's new fields are those `TickSpec` gives |
| HostService.LcFindHost.HandleReceived | LightConversion.Protocols.LcFind/Code/Class.LcFindHost/PrivateStuff/Function.Tick.cs:15-55 | the host's new fields are those `HandleMessage` gives |
| HostService.LcFindHost.AnswerFindRequest | LightConversion.Protocols.LcFind/Code/Class.LcFindHost/PrivateStuff/Function.Tick.cs:18-25 | the host's new fields are those `AnswerFind` gives |
| HostService.LcFindHost.AnswerConfRequest | LightConversion.Protocols.LcFind/Code/Class.LcFindHost/PrivateStuff/Function.Tick.cs:28-54 | the host's new fields are those `AnswerConf` gives |
| HostService.LcFindHost.RecordConfRequest | LightConversion.Protocols.LcFind/Code/Class.LcFindHost/PrivateStuff/Function.Tick.cs:31-53 | the host's new fields are those `AnswerParsed` gives |
| HostService.LcFindHost.ApplyPending | LightConversion.Protocols.LcFind/Code/Class.LcFindHost/PrivateStuff/Function.Tick.cs:68-86 | the host's new fields are those `Apply` gives |
| HostService.LcFindHost.ReportApplication | LightConversion.Protocols.LcFind/Code/Class.LcFindHost/PrivateStuff/Function.Tick.cs:72-86 | the host's new fields are those `Applied` gives |
| HostService.LcFindHost.Advance | LightConversion.Protocols.LcFind/Code/Class.LcFindHost/PrivateStuff/Function.Tick.cs:57-144 | the host's new fields are those `Transition` gives |
| HostService.LcFindHost.AdvanceFromReady | LightConversion.Protocols.LcFind/Code/Class.LcFindHost/PrivateStuff/Function.Tick.cs:58-94 | from Ready, the host's new fields are those `Transition` gives |
| HostService.LcFindHost.AdvanceFromAwaiting | LightConversion.Protocols.LcFind/Code/Class.LcFindHost/PrivateStuff/Function.Tick.cs:95-124 | from AwaitingConfirmation, the host's new fields are those `Transition` gives |
| HostService.LcFindHost.Confirm | LightConversion.Protocols.LcFind/Code/Class.LcFindHost/Function.Confirm.cs:11-17 | fails before initialisation, and otherwise sets the target to Cooldown when awaiting confirmation |
| HostService.LcFindHost.EnableReconfiguration | LightConversion.Protocols.LcFind/Code/Class.LcFindHost/Function.EnableReconfiguration.cs:11-17 | fails before initialisation, and otherwise sets the target to Ready when Disabled |
| HostService.LcFindHost.DisableReconfiguration | LightConversion.Protocols.LcFind/Code/Class.LcFindHost/Function.DisableReconfiguration.cs:11-15 | fails before initialisation, and otherwise sets the target to Disabled |
| HostProperties.AnswerFindFrame | LightConversion.Protocols.LcFind/Code/Class.LcFindHost/PrivateStuff/Function.Tick.cs:18-25 | FIND handling appends at most one reply, and changes nothing unless the payload starts with `FINDReq=1` |
| HostProperties.AnswerConfFrame | LightConversion.Protocols.LcFind/Code/Class.LcFindHost/PrivateStuff/Function.Tick.cs:28-54 | CONF handling appends at most one reply, changes nothing unless the request names this MAC, and only ever makes an accepted request pending |
| HostProperties.HandleMessageFrame | LightConversion.Protocols.LcFind/Code/Class.LcFindHost/PrivateStuff/Function.Tick.cs:15-55 | handling dequeues one message, appends at most one reply, and keeps the timers and the reconfiguration flag |
| HostProperties.FindAnswered | LightConversion.Protocols.LcFind/Code/Class.LcFindHost/PrivateStuff/Function.Tick.cs:18-25 | a FIND is answered with the FIND reply of the current configuration and status, or dropped when no configuration is available |
| HostProperties.HandlingIgnoresReconfigurationFlag | LightConversion.Protocols.LcFind/Code/Class.LcFindHost/PrivateStuff/Function.Tick.cs:15-55 | handling received messages does not depend on the reconfiguration flag |
| HostProperties.AnswerFindIgnoresFlag | LightConversion.Protocols.LcFind/Code/Class.LcFindHost/PrivateStuff/Function.Tick.cs:18-25 | FIND answers do not depend on the reconfiguration flag |
| HostProperties.AnswerConfIgnoresFlag | LightConversion.Protocols.LcFind/Code/Class.LcFindHost/PrivateStuff/Function.Tick.cs:28-54 | CONF answers do not depend on the reconfiguration flag |
| HostProperties.MalformedConfAnswered | LightConversion.Protocols.LcFind/Code/Class.LcFindHost/PrivateStuff/Function.Tick.cs:29-38 | a CONF the parser refuses is answered with the parser's error and the current status, and nothing else changes |
| HostProperties.ValidConfHandled | LightConversion.Protocols.LcFind/Code/Class.LcFindHost/PrivateStuff/Function.Tick.cs:40-53 | an accepted CONF becomes pending when Ready or Disabled; in Cooldown or AwaitingConfirmation it is refused with that status and the pending slot is cleared |
| HostProperties.TickQueues | LightConversion.Protocols.LcFind/Code/Class.LcFindHost/PrivateStuff/Function.Tick.cs:11-145 | a tick takes at most one received message and appends at most two replies |
| HostProperties.TransitionFrame | LightConversion.Protocols.LcFind/Code/Class.LcFindHost/PrivateStuff/Function.Tick.cs:57-144 | the transition leaves the receive queue alone, appends at most one reply, and only keeps or clears the pending request |
| HostProperties.TickKeepsPendingAccepted | LightConversion.Protocols.LcFind/Code/Class.LcFindHost/PrivateStuff/Function.Tick.cs:11-145 | the pending request is always one the parser accepted |
| HostProperties.InitialFlagMatches | LightConversion.Protocols.LcFind/Code/Class.LcFindHost/Class.LcFindHost.cs:18-61 | the initial host (Disabled, flag off, nothing pending) satisfies the flag invariant and is well formed |
| HostProperties.TickKeepsFlag | LightConversion.Protocols.LcFind/Code/Class.LcFindHost/PrivateStuff/Function.Tick.cs:57-144 | the reconfiguration flag stays on exactly when the host is not Disabled |
| HostProperties.FirstTickEnables | LightConversion.Protocols.LcFind/Code/Class.LcFindHost/PrivateStuff/Function.Tick.cs:140-143 | the first tick of a new host moves it to Ready and turns reconfiguration on |
| HostProperties.ReadyTakesRequest | LightConversion.Protocols.LcFind/Code/Class.LcFindHost/PrivateStuff/Function.Tick.cs:58-67 | when Ready, a pending request moves the target to AwaitingConfirmation or Cooldown, but only when reconfiguration is enabled |
| HostProperties.ApplyFromReady | LightConversion.Protocols.LcFind/Code/Class.LcFindHost/PrivateStuff/Function.Tick.cs:68-86 | from Ready the parsed configuration is applied and answered; success starts the cooldown, failure returns to Ready |
| HostProperties.ApplyReplyDecodes | LightConversion.Protocols.LcFind/Code/Class.LcFindHost/PrivateStuff/Function.Tick.cs:72-86 | the client decodes the application reply to the host's MAC and the new status |
| HostProperties.ApplyAfterConfirmation | LightConversion.Protocols.LcFind/Code/Class.LcFindHost/PrivateStuff/Function.Tick.cs:99-118 | after confirmation the configuration is applied and answered; the target stays Cooldown even when applying fails |
| HostProperties.ConfirmationTimer | LightConversion.Protocols.LcFind/Code/Class.LcFindHost/PrivateStuff/Function.Tick.cs:95-98 | while awaiting, nothing changes until the deadline, when the target becomes Ready |
| HostProperties.ConfirmationDeadline | LightConversion.Protocols.LcFind/Code/Class.LcFindHost/PrivateStuff/Function.Tick.cs:87-90 | entering AwaitingConfirmation sets the deadline to now plus the confirmation timeout |
| HostProperties.ConfirmationExpired | LightConversion.Protocols.LcFind/Code/Class.LcFindHost/PrivateStuff/Function.Tick.cs:119-124 | an unconfirmed request is answered with the timeout error and dropped, and the host returns to Ready |
| HostProperties.CooldownExpires | LightConversion.Protocols.LcFind/Code/Class.LcFindHost/PrivateStuff/Function.Tick.cs:129-135 | the cooldown changes nothing before its end, and afterwards the host is back to Ready within two ticks |
| HostProperties.RequestAppliedOnSecondTick | LightConversion.Protocols.LcFind/Code/Class.LcFindHost/PrivateStuff/Function.Tick.cs:28-86 | without confirmation, an accepted request is taken on one tick and applied and answered on the next |
| HostProperties.UnconfirmedRequestTimesOut | LightConversion.Protocols.LcFind/Code/Class.LcFindHost/PrivateStuff/Function.Tick.cs:58-124 | with confirmation, an unconfirmed request awaits, expires at the deadline and is answered with the timeout error, and nothing is applied |
| HostProperties.SecondRequestLosesPending | LightConversion.Protocols.LcFind/Code/Class.LcFindHost/PrivateStuff/Function.Tick.cs:40-53 | a second valid request while awaiting clears the pending slot, so both confirmation and expiry then dereference null and fault |
| HostProperties.FailedApplyAfterConfirmationFaults | LightConversion.Protocols.LcFind/Code/Class.LcFindHost/PrivateStuff/Function.Tick.cs:68-118 | a failed apply after confirmation leaves target Cooldown with no pending request, and the next tick faults |
| HostProperties.DisabledWhileAwaitingIsStuck | LightConversion.Protocols.LcFind/Code/Class.LcFindHost/PrivateStuff/Function.Tick.cs:95-144 | once disabled while awaiting confirmation, the transition leaves the host unchanged, and enabling does not help |
| HostProperties.ControlsWriteOnlyTarget | LightConversion.Protocols.LcFind/Code/Class.LcFindHost/Function.Confirm.cs:14-16 | the three controls change only the target status and are idempotent |
| HostProperties.ControlsAct | LightConversion.Protocols.LcFind/Code/Class.LcFindHost/Function.EnableReconfiguration.cs:14-16 | Confirm acts only while awaiting confirmation, and Enable only while Disabled |
| HostProperties.EnableTakesOneTick | LightConversion.Protocols.LcFind/Code/Class.LcFindHost/PrivateStuff/Function.Tick.cs:140-143 | after enabling a Disabled host, one tick makes it Ready with reconfiguration on |
| HostProperties.EnableDoesNotCancelDisable | LightConversion.Protocols.LcFind/Code/Class.LcFindHost/Function.EnableReconfiguration.cs:14-16 | enabling right after disabling a Ready host does not undo the disable |
| HostProperties.PendingSurvivesDisable | LightConversion.Protocols.LcFind/Code/Class.LcFindHost/PrivateStuff/Function.Tick.cs:58-94 | a pending request survives a disable and is taken up again once the host is re-enabled |
| HostProperties.PushKeepsNewest | LightConversion.Protocols.LcFind/Code/Class.LcFindHost/Function.Initialize.cs:41-46 | queueing appends the newest message and drops the oldest only when ten are already queued |
| HostProperties.PushesStayBounded | LightConversion.Protocols.LcFind/Code/Class.LcFindHost/Function.Initialize.cs:41-46 | the receive queue never holds more than ten messages |
| LinuxNetwork.CalculateNumberOfBitsInIpAddress | LightConversion.Protocols.LcFind/Code/Class.LinuxNetworkHelpers.cs:143-153 | the loop counts exactly the set bits of the address, a number from 0 to 32 |
| LinuxNetwork.PopIndependentOfByteOrder | LightConversion.Protocols.LcFind/Code/Class.LinuxNetworkHelpers.cs:145 | reading the bytes little-endian gives the same count |
| LinuxNetwork.MaskWordCase | LightConversion.Protocols.LcFind/Code/Class.LinuxNetworkHelpers.cs:212-221 | the bytes written by the loop form the prefix mask of the bit count |
| LinuxNetwork.BigEndianOfWord | LightConversion.Protocols.LcFind/Code/Class.LinuxNetworkHelpers.cs:222 | turning a word into an address and back gives the same word |
| LinuxNetwork.ConvertBitsCountToAddress | LightConversion.Protocols.LcFind/Code/Class.LinuxNetworkHelpers.cs:210-224 | the loop builds the mask address with `bitCount` leading ones |
| LinuxNetwork.PrefixLengthRoundTrip | LightConversion.Protocols.LcFind/Code/Class.LinuxNetworkHelpers.cs:143-224 | counting the bits of the mask built from `n` gives `n` |
| LinuxNetwork.PrefixAddressIsValidMask | LightConversion.Protocols.LcFind/Code/Class.LinuxNetworkHelpers.cs:210-224 | every built mask passes the request parser's mask check |
| LinuxNetwork.ValidMaskIsPrefixAddress | LightConversion.Protocols.LcFind/Code/Class.LinuxNetworkHelpers.cs:143-153 | every mask the parser accepts is the mask built from its own bit count |
| LinuxNetwork.PrefixAddressExamples | LightConversion.Protocols.LcFind/Code/Class.LinuxNetworkHelpers.cs:210-224 | /24, /0, /32 and /20 give 255.255.255.0, 0.0.0.0, 255.255.255.255 and 255.255.240.0 |
| LinuxNetwork.TerminatedSnoc | LightConversion.Protocols.LcFind/Code/Class.LinuxNetworkHelpers.cs:23-43 | `AppendLine` adds the line and a line feed to the end |
| LinuxNetwork.BuildNetworkdConfiguration | LightConversion.Protocols.LcFind/Code/Class.LinuxNetworkHelpers.cs:21-45 | the file text is the networkd lines, each ended by a line feed |
| LinuxNetwork.AppendLine | LightConversion.Protocols.LcFind/Code/Class.LinuxNetworkHelpers.cs:23-43 | appending to terminated lines gives the terminated lines with one more line |
| LinuxNetwork.NetworkdTextLines | LightConversion.Protocols.LcFind/Code/Class.LinuxNetworkHelpers.cs:21-45 | splitting the file text at line feeds gives back exactly its lines, then an empty remainder |
| LinuxNetwork.NetworkdLinesUnbroken | LightConversion.Protocols.LcFind/Code/Class.LinuxNetworkHelpers.cs:23-43 | no line of the file contains a line feed |
| LinuxNetwork.NoLineFeedInAddressLine | LightConversion.Protocols.LcFind/Code/Class.LinuxNetworkHelpers.cs:36-37 | the `Address=` line contains no line feed |
| LinuxNetwork.GatewayIgnored | LightConversion.Protocols.LcFind/Code/Class.LinuxNetworkHelpers.cs:39-44 | the file does not depend on the gateway address |
| LinuxNetwork.StaticAddressLine | LightConversion.Protocols.LcFind/Code/Class.LinuxNetworkHelpers.cs:36-37 | for a static configuration with a valid mask, the `Address=` line carries the prefix length whose mask is the configured one |

## Left out

- Sockets and datagram I/O (`SendResponse`, `TryReadUdpTraffic`, the
  client's socket): received datagrams are parameters of `ReceiveStep` and
  of `Client.LookForDevices`, and replies are appended to a send queue.
- The send loop of `Initialize`: the send queue is not drained by the
  model.
- The background tasks, `Task.Delay`, cancellation, `Dispose` and every
  concurrency effect, including the race on `_hwAddress`: each operation is
  modelled as one atomic step.
- `DateTime.Now`: time is an integer `now` in seconds, passed to `Tick`.
- `Guid.NewGuid`: the GUID texts are parameters of the constructor.
- The logger (NLog): it has no effect on state.
- The configuration delegates:
  - the get delegate is a parameter `got` of `Tick`, and `None` stands for
    the delegate failing;
  - the set delegate is a parameter `setOk` of `Tick`;
  - a get delegate in `Tick` that reports success but hands back a null
    configuration is not modelled.
- HostService.LcFindHost.Initialize: a failed bind is modelled as
  `ok == false` with nothing changed, rather than as the exception the
  code throws. A null configuration from the get delegate is also
  `ok == false`; in the code the `NullReferenceException` comes after the
  receive, send and tick tasks have started (Initialize.cs 36-89), so the
  host keeps answering datagrams while `_hwAddress` stays null (sent as an
  empty MAC), `_isInitialized` stays false and `Confirm`,
  `EnableReconfiguration` and `DisableReconfiguration` keep failing. The
  model does not start tasks, so it shows only the unchanged fields.
- HostService.LcFindHost.Confirm: the exception it throws before
  `Initialize` is modelled as an `ok == false` result.
- HostService.LcFindHost.EnableReconfiguration: the exception it throws
  before `Initialize` is modelled as an `ok == false` result.
- HostService.LcFindHost.DisableReconfiguration: the exception it throws
  before `Initialize` is modelled as an `ok == false` result.
- HostMachine.TickSpec: a `NullReferenceException` inside `Tick` is
  modelled as a `faulted` flag. In the code the exception cancels the
  shared token (Initialize.cs 83-88), which ends the receive, send and
  tick tasks, so a faulted tick is the last one the host runs. The model
  has no stopped state: `Tick` and `ReceiveStep` can still be called
  after a fault, and stopping is left to the caller.
- HostService.LcFindHost.Advance: it dispatches on the actual status
  first, then on the target. This gives the same outcome as the code's
  chain of `if`s, because the dead duplicate branch at Tick.cs 136-139 is
  never reached.
- NetworkConfig.TryFromRequestString: requires a non-empty request; the
  code dereferences the last character of the request and throws on an
  empty string, and the host only passes requests that start with
  `CONFReq`.
- Culture-sensitive string operations. The code calls the culture-sensitive
  `ToLower()` (Class.NetworkConfiguration.cs lines 47-100) and
  `StartsWith(string)` (Class.DeviceDescription.cs line 21, Function.Tick.cs
  lines 18 and 28). The model uses ASCII lowering and an ordinal prefix test,
  so it matches the code only under a culture where these agree with the
  invariant ones. Under tr-TR, `"IP".ToLower()` is `"ıp"` (dotless i), so the
  code silently ignores an `IP=` segment: the address stays `IPAddress.None`
  and the request still succeeds, where the model stores the address. Under
  ICU, a culture-sensitive `StartsWith` also ignores zero-width characters,
  which the ordinal test does not.
- UTF-8 encoding and decoding: messages are strings of characters.
- `IPAddress.TryParse`: modelled as accepting exactly canonical dotted
  quads. The .NET parser also accepts other forms:
  - short forms (`10.1` is 10.0.0.1);
  - leading-zero octal octets (`010.0.0.1` is 8.0.0.1);
  - hexadecimal and IPv6 text.
  The model refuses all of these. The detector copies the operator's text
  into the request verbatim, so such requests can reach a host. On them
  the model reports a malformed-address error where the code stores the
  address.
- LinuxNetwork.ConvertBitsCountToAddress: requires a bit count from 0 to
  32, the range of an IPv4 prefix length.
  - Its three callers are in `GetActualNetworkConfiguration`
    (Class.LinuxNetworkHelpers.cs lines 104-105, 114-115 and 124-125). Each
    passes `int.Parse` of the two characters after the `/` of an address
    printed by `ip addr`, which is such a prefix length.
  - Outside 0 to 32, the code's truncating `/` and `%` give:
    - counts 33 to 39 return 255.255.255.0, because the shift count −1 to −7
      is masked to 31 to 25;
    - counts from −1 to −7 return 0.0.0.0;
    - every other count indexes outside the byte array and throws.
- The Linux file write, `systemctl` and `ExecuteLinuxCommand`, and
  `GetActualNetworkConfiguration`, which shell out to the operating
  system. Only the file text is modelled.
- `Class.WindowsNetworkHelpers.cs`, the detector and tester applications
  and their UI: they are outside the library's core. The two requests the
  detector builds are modelled as `StaticRequest` and `DhcpRequest`.
- The public setters of `DeviceName`, `SerialNumber`,
  `IsConfirmationEnabled` and the two timeouts: they are plain field
  writes, read by the model through `Settings`.
- Client.SameSerialMerged: stated on decoded descriptions, not on raw
  messages.
