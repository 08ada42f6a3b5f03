/** The LC-FIND wire vocabulary: host status, the datagrams the host queues,
    the discovery request and the two replies the host builds
    (`BuildFindReqResponseString`, `BuildConfReqResponseString`). */
module Protocol {
  import opened Wrappers
  import opened Text
  import opened Address
  import opened NetworkConfig

  /** `Status`; `Ready` comes first, so it is the enum's default value. */
  datatype Status = Ready | AwaitingConfirmation | Cooldown | Disabled

  /** The enum member's name, as string interpolation writes it. */
  function StatusName(s: Status): string {
    match s
    case Ready => "Ready"
    case AwaitingConfirmation => "AwaitingConfirmation"
    case Cooldown => "Cooldown"
    case Disabled => "Disabled"
  }

  /** The sender's `IPEndPoint`. */
  datatype Endpoint = Endpoint(address: IPv4, port: nat)

  /** `ClientRawMessage`: a datagram's text and the peer it came from or
      goes to. */
  datatype RawMessage = RawMessage(payload: string, endpoint: Endpoint)

  /** The payload `LookForDevices` broadcasts. */
  const FindRequest: string := "FINDReq=1;" + [Nul]

  /** The prefix `Tick` recognises a discovery request by. */
  const FindRequestPrefix: string := "FINDReq=1;"

  /** The prefix `Tick` recognises a configuration request for this host by. */
  function ConfRequestPrefix(hwAddress: string): string {
    "CONFReq=1;HWADDR=" + hwAddress + ";"
  }

  /** An address as interpolation writes it; a null gateway writes nothing. */
  function AddressText(a: Option<IPv4>): string {
    match a
    case None => ""
    case Some(v) => Format(v)
  }

  function ModeName(isDhcpEnabled: bool): string {
    if isDhcpEnabled then "DHCP" else "Static"
  }

  /** The nine fields of a FIND reply, in the order they are appended. */
  function FindFields(config: NetworkConfiguration, deviceName: string, serialNumber: string, status: Status): seq<string> {
    [Pair("FIND", "1"),
     Pair("IP", Format(config.ipAddress)),
     Pair("HWADDR", config.macAddress),
     Pair("DeviceName", deviceName),
     Pair("SN", serialNumber),
     Pair("Status", StatusName(status)),
     Pair("NetworkMode", ModeName(config.isDhcpEnabled)),
     Pair("Mask", Format(config.subnetMask)),
     Pair("Gateway", AddressText(config.gatewayAddress))]
  }

  /** `BuildFindReqResponseString`: each field followed by `;`, then NUL. */
  function FindReply(config: NetworkConfiguration, deviceName: string, serialNumber: string, status: Status): string {
    Terminated(FindFields(config, deviceName, serialNumber, status), ';') + [Nul]
  }

  function ConfFields(hwAddress: string, status: Status, requestResult: string): seq<string> {
    [Pair("CONF", "1"), Pair("HWADDR", hwAddress), Pair("Status", StatusName(status)), Pair("Result", requestResult)]
  }

  /** `BuildConfReqResponseString`: each field followed by `;`, then NUL. */
  function ConfReply(hwAddress: string, status: Status, requestResult: string): string {
    Terminated(ConfFields(hwAddress, status, requestResult), ';') + [Nul]
  }
}
