/** `LinuxNetworkHelpers`: counting the ones of a mask, building a mask from
    a prefix length, and the systemd-networkd file written for a new
    configuration. */
module LinuxNetwork {
  import opened Wrappers
  import opened Text
  import opened Bits
  import opened Address
  import opened NetworkConfig

  //----------------------------------------------------------------------
  // Counting bits
  //----------------------------------------------------------------------

  /** `CalculateNumberOfBitsInIpAddress`: the word is read in the machine's
      little-endian order, and `x &= x - 1` clears one set bit per pass. */
  method CalculateNumberOfBitsInIpAddress(ipAddress: IPv4) returns (numberOfBits: int)
    ensures numberOfBits == Pop(BigEndian(ipAddress))
    ensures 0 <= numberOfBits <= 32
  {
    numberOfBits := 0;
    var ipAddressAsUint := LittleEndian(ipAddress);
    while ipAddressAsUint != 0
      invariant 0 <= numberOfBits
      invariant numberOfBits + Pop(ipAddressAsUint) == Pop(LittleEndian(ipAddress))
      decreases Pop(ipAddressAsUint)
    {
      ClearLowest(ipAddressAsUint);
      numberOfBits := numberOfBits + 1;
      ipAddressAsUint := ClearLow(ipAddressAsUint);
    }
    PopByteOrder(ipAddress.b0, ipAddress.b1, ipAddress.b2, ipAddress.b3);
    PopAtMost32(BigEndian(ipAddress));
  }

  /** The number of ones does not depend on the byte order the word is
      assembled in. */
  lemma PopIndependentOfByteOrder(a: IPv4)
    ensures Pop(LittleEndian(a)) == Pop(BigEndian(a))
  {
    PopByteOrder(a.b0, a.b1, a.b2, a.b3);
  }

  //----------------------------------------------------------------------
  // Masks from prefix lengths
  //----------------------------------------------------------------------

  /** The address whose first `n` bits are ones and the rest zeros. */
  function PrefixAddress(n: nat): IPv4
    requires n <= 32
  {
    FromBigEndian(PrefixMask(n as bv8))
  }

  /** Byte `j` of the mask after the loop and the shift, with `e` empty
      bytes and `r` further empty bits. */
  function MaskByte(j: int, e: int, r: int): bv8
    requires 0 <= r < 8
  {
    if j < 3 - e then 0xFF else if j == 3 - e then (0xFF as bv8) << (r as bv8) else 0
  }

  lemma MaskWordCase(e: int, r: int)
    requires 0 <= e <= 4 && 0 <= r < 8 && (e == 4 ==> r == 0)
    ensures Word(MaskByte(0, e, r), MaskByte(1, e, r), MaskByte(2, e, r), MaskByte(3, e, r))
         == PrefixMask((32 - 8 * e - r) as bv8)
  {
    if e == 0 {
      assert Word(0xFF, 0xFF, 0xFF, (0xFF as bv8) << (r as bv8)) == PrefixMask((32 - r) as bv8);
    }
  }

  lemma BigEndianOfWord(w: bv32)
    ensures BigEndian(FromBigEndian(w)) == w
  {}

  /** `ConvertBitsCountToAddress`: start from four 0xFF bytes, zero the
      empty bytes from the end, then shift the boundary byte left, the
      shift truncating to eight bits. */
  method ConvertBitsCountToAddress(bitCount: int) returns (address: IPv4)
    requires 0 <= bitCount <= 32
    ensures address == PrefixAddress(bitCount)
  {
    var addressBytes := new byte[4](_ => 0xFF);
    var emptyBytes := (32 - bitCount) / 8;
    var emptyBits := (32 - bitCount) % 8;
    var i := 3;
    while i >= 4 - emptyBytes
      invariant 3 - emptyBytes <= i <= 3
      invariant forall j :: 0 <= j < 4 ==> addressBytes[j] == if j > i then 0 else 0xFF
      decreases i
    {
      addressBytes[i] := 0;
      i := i - 1;
    }

    if emptyBytes < 4 {
      addressBytes[3 - emptyBytes] := addressBytes[3 - emptyBytes] << (emptyBits as bv8);
    }

    assert forall j :: 0 <= j < 4 ==> addressBytes[j] == MaskByte(j, emptyBytes, emptyBits);
    address := IPv4(addressBytes[0], addressBytes[1], addressBytes[2], addressBytes[3]);
    MaskWordCase(emptyBytes, emptyBits);
    FromBigEndianInverse(address);
  }

  /** Round trip: a mask built from a prefix length has that many ones. */
  lemma PrefixLengthRoundTrip(n: nat)
    requires n <= 32
    ensures Pop(BigEndian(PrefixAddress(n))) == n
  {
    BigEndianOfWord(PrefixMask(n as bv8));
    PopPrefixMask(n as bv8);
  }

  /** A mask built from a prefix length passes the contiguity check of the
      request parser. */
  lemma PrefixAddressIsValidMask(n: nat)
    requires n <= 32
    ensures ValidMask(PrefixAddress(n))
  {
    BigEndianOfWord(PrefixMask(n as bv8));
    ContiguousIsPrefixMask(BigEndian(PrefixAddress(n)));
  }

  /** Conversely, every valid mask is the mask of its number of ones: the
      prefix length written to the configuration denotes the mask exactly. */
  lemma ValidMaskIsPrefixAddress(m: IPv4)
    requires ValidMask(m)
    ensures Pop(BigEndian(m)) <= 32 && PrefixAddress(Pop(BigEndian(m))) == m
  {
    FromBigEndianInverse(m);
  }

  lemma PrefixAddressExamples()
    ensures PrefixAddress(24) == IPv4(255, 255, 255, 0)
    ensures PrefixAddress(0) == IPv4(0, 0, 0, 0)
    ensures PrefixAddress(32) == IPv4(255, 255, 255, 255)
    ensures PrefixAddress(20) == IPv4(255, 255, 240, 0)
  {}

  //----------------------------------------------------------------------
  // The systemd-networkd file
  //----------------------------------------------------------------------

  /** The lines `ChangeNetworkConfiguration` writes. The static branch
      writes the prefix length of the mask and a fixed gateway. */
  function NetworkdLines(interfaceName: string, config: NetworkConfiguration): seq<string> {
    ["[Match]", "Name=" + interfaceName, "", "[Network]"]
    + if config.isDhcpEnabled then ["DHCP=yes", "LinkLocalAddressing=yes"]
      else ["Address=" + Format(config.ipAddress) + "/" + Dec(Pop(BigEndian(config.subnetMask))),
            "Gateway=0.0.0.0"]
  }

  /** `AppendLine` on Linux: the text, then a line feed. */
  function NetworkdText(interfaceName: string, config: NetworkConfiguration): string {
    Terminated(NetworkdLines(interfaceName, config), '\n')
  }

  /** `AppendLine` on a builder that holds `Terminated(lines)`. */
  lemma TerminatedSnoc(lines: seq<string>, line: string, c: char)
    ensures Terminated(lines + [line], c) == Terminated(lines, c) + line + [c]
    decreases |lines|
  {
    if |lines| > 0 {
      TerminatedSnoc(lines[1..], line, c);
      assert (lines + [line])[1..] == lines[1..] + [line];
    } else {
      assert [line][1..] == [];
    }
  }

  /** The configuration text of `ChangeNetworkConfiguration`, appended line
      by line. Writing the file and restarting the service are not
      modelled. */
  method BuildNetworkdConfiguration(interfaceName: string, newConfiguration: NetworkConfiguration)
    returns (text: string)
    ensures text == NetworkdText(interfaceName, newConfiguration)
  {
    ghost var lines: seq<string> := [];
    text := "";
    text := AppendLine(text, "[Match]", lines);
    lines := lines + ["[Match]"];
    text := AppendLine(text, "Name=" + interfaceName, lines);
    lines := lines + ["Name=" + interfaceName];
    text := AppendLine(text, "", lines);
    lines := lines + [""];
    text := AppendLine(text, "[Network]", lines);
    lines := lines + ["[Network]"];
    if newConfiguration.isDhcpEnabled {
      text := AppendLine(text, "DHCP=yes", lines);
      lines := lines + ["DHCP=yes"];
      text := AppendLine(text, "LinkLocalAddressing=yes", lines);
      lines := lines + ["LinkLocalAddressing=yes"];
    } else {
      var subnetBitCount := CalculateNumberOfBitsInIpAddress(newConfiguration.subnetMask);
      var addressLine := "Address=" + Format(newConfiguration.ipAddress) + "/" + Dec(subnetBitCount);
      text := AppendLine(text, addressLine, lines);
      lines := lines + [addressLine];
      text := AppendLine(text, "Gateway=0.0.0.0", lines);
      lines := lines + ["Gateway=0.0.0.0"];
    }
    assert lines == NetworkdLines(interfaceName, newConfiguration);
  }

  /** `StringBuilder.AppendLine`. */
  function AppendLine(text: string, line: string, ghost lines: seq<string>): (r: string)
    requires text == Terminated(lines, '\n')
    ensures r == Terminated(lines + [line], '\n')
  {
    TerminatedSnoc(lines, line, '\n');
    text + line + "\n"
  }

  /** Reading the file back line by line gives the lines written, and an
      empty remainder after the last line feed. */
  lemma NetworkdTextLines(interfaceName: string, config: NetworkConfiguration)
    requires '\n' !in interfaceName
    ensures Split(NetworkdText(interfaceName, config), '\n') == NetworkdLines(interfaceName, config) + [""]
  {
    NetworkdLinesUnbroken(interfaceName, config);
    TerminatedLines(NetworkdLines(interfaceName, config), '\n');
  }

  lemma NetworkdLinesUnbroken(interfaceName: string, config: NetworkConfiguration)
    requires '\n' !in interfaceName
    ensures Separable(NetworkdLines(interfaceName, config), '\n')
  {
    var lines := NetworkdLines(interfaceName, config);
    forall j | 0 <= j < |lines|
      ensures '\n' !in lines[j]
    {
      if j == 4 && !config.isDhcpEnabled {
        NoLineFeedInAddressLine(config);
      }
    }
  }

  /** Splitting a text made of terminated lines gives the lines and an
      empty remainder. */
  lemma TerminatedLines(lines: seq<string>, c: char)
    requires Separable(lines, c)
    ensures Split(Terminated(lines, c), c) == lines + [""]
  {
    SplitTerminated(lines, c, "");
    assert Terminated(lines, c) + "" == Terminated(lines, c);
  }

  lemma NoLineFeedInAddressLine(config: NetworkConfiguration)
    ensures '\n' !in "Address=" + Format(config.ipAddress) + "/" + Dec(Pop(BigEndian(config.subnetMask)))
  {
    FormatAlphabet(config.ipAddress);
    var d := Dec(Pop(BigEndian(config.subnetMask)));
    assert forall i :: 0 <= i < |d| ==> IsDigit(d[i]);
    assert '\n' !in Format(config.ipAddress) by {
      assert Dotted(Format(config.ipAddress));
    }
  }

  /** The file never depends on the requested gateway. */
  lemma GatewayIgnored(interfaceName: string, config: NetworkConfiguration, gateway: Option<IPv4>)
    ensures NetworkdText(interfaceName, config.(gatewayAddress := gateway)) == NetworkdText(interfaceName, config)
  {}

  /** A static configuration with a valid mask writes the address in CIDR
      notation whose prefix length rebuilds the mask. */
  lemma StaticAddressLine(interfaceName: string, config: NetworkConfiguration)
    requires !config.isDhcpEnabled && ValidMask(config.subnetMask)
    ensures var lines := NetworkdLines(interfaceName, config);
      |lines| == 6 && lines[5] == "Gateway=0.0.0.0"
      && exists n: nat :: n <= 32 && lines[4] == "Address=" + Format(config.ipAddress) + "/" + Dec(n)
                        && PrefixAddress(n) == config.subnetMask
  {
    ValidMaskIsPrefixAddress(config.subnetMask);
    var n := Pop(BigEndian(config.subnetMask));
    assert NetworkdLines(interfaceName, config)[4] == "Address=" + Format(config.ipAddress) + "/" + Dec(n);
  }
}
