/** IPv4 addresses as four bytes in network order, their dotted-quad text,
    their 32-bit values, and the host's reserved-address policy
    (`NetworkConfiguration.CheckIfIpIsNotReserved`). */
module Address {
  import opened Wrappers
  import opened Text
  import opened Bits

  type byte = bv8

  /** `IPAddress.GetAddressBytes()` order: `b0` is the first octet. */
  datatype IPv4 = IPv4(b0: byte, b1: byte, b2: byte, b3: byte)

  /** `IPAddress.None`, the default of every address field. */
  const NoneAddress := IPv4(255, 255, 255, 255)

  function Octets(a: IPv4): seq<byte> {
    [a.b0, a.b1, a.b2, a.b3]
  }

  //----------------------------------------------------------------------
  // Dotted-quad text
  //----------------------------------------------------------------------

  /** `IPAddress.ToString()`: four decimal octets separated by dots. */
  function Format(a: IPv4): string {
    Join([Dec(a.b0 as nat), Dec(a.b1 as nat), Dec(a.b2 as nat), Dec(a.b3 as nat)], '.')
  }

  /** One octet of dotted-quad text: canonical decimal below 256. */
  predicate OctetText(p: string) {
    Canonical(p) && |p| <= 3 && Value(p) < 256
  }

  /** The byte whose value is `v`, built bit by bit from the top. */
  function ByteOf(v: nat): byte
    requires v < 256
    decreases v
  {
    if v == 0 then 0 else (ByteOf(v / 2) << 1) | (if v % 2 == 1 then 1 else 0)
  }

  function OctetOf(p: string): byte
    requires OctetText(p)
  {
    ByteOf(Value(p))
  }

  /** `IPAddress.TryParse` restricted to canonical dotted-quad text. */
  function Parse(s: string): Option<IPv4> {
    var parts := Split(s, '.');
    if |parts| == 4 && OctetText(parts[0]) && OctetText(parts[1])
       && OctetText(parts[2]) && OctetText(parts[3])
    then Some(IPv4(OctetOf(parts[0]), OctetOf(parts[1]), OctetOf(parts[2]), OctetOf(parts[3])))
    else None
  }

  lemma OctetTextOfDec(b: byte)
    ensures OctetText(Dec(b as nat)) && OctetOf(Dec(b as nat)) == b
    ensures '.' !in Dec(b as nat)
  {
    ValueDec(b as nat);
    DecShort(b as nat);
    var d := Dec(b as nat);
    assert forall i :: 0 <= i < |d| ==> IsDigit(d[i]);
    assert ByteOf(b as nat) == b by {
      ByteRoundTrip(b as nat);
      ByteValueInjective(ByteOf(b as nat), b);
    }
  }

  lemma ByteValueInjective(x: byte, y: byte)
    requires x as nat == y as nat
    ensures x == y
  {}

  /** Parsing the text of an address gives back the address. */
  lemma ParseFormat(a: IPv4)
    ensures Parse(Format(a)) == Some(a)
  {
    OctetTextOfDec(a.b0);
    OctetTextOfDec(a.b1);
    OctetTextOfDec(a.b2);
    OctetTextOfDec(a.b3);
    var parts := [Dec(a.b0 as nat), Dec(a.b1 as nat), Dec(a.b2 as nat), Dec(a.b3 as nat)];
    SplitJoin(parts, '.');
  }

  lemma FormatUnfolded(a: IPv4)
    ensures Format(a) == Dec(a.b0 as nat) + "." + (Dec(a.b1 as nat) + "." + (Dec(a.b2 as nat) + "." + Dec(a.b3 as nat)))
  {
    var d0, d1, d2, d3 := Dec(a.b0 as nat), Dec(a.b1 as nat), Dec(a.b2 as nat), Dec(a.b3 as nat);
    assert [d0, d1, d2, d3][1..] == [d1, d2, d3];
    assert [d1, d2, d3][1..] == [d2, d3];
    assert [d2, d3][1..] == [d3];
    assert Join([d2, d3], '.') == d2 + "." + d3;
    assert Join([d1, d2, d3], '.') == d1 + "." + (d2 + "." + d3);
  }

  predicate Dotted(s: string) {
    forall i :: 0 <= i < |s| ==> IsDigit(s[i]) || s[i] == '.'
  }

  lemma DottedJoin(x: string, y: string)
    requires AllDigits(x) && Dotted(y)
    ensures Dotted(x + "." + y)
  {
    var s := x + "." + y;
    forall i | 0 <= i < |s|
      ensures IsDigit(s[i]) || s[i] == '.'
    {
      if i < |x| {
        assert s[i] == x[i];
      } else if i > |x| {
        assert s[i] == y[i - |x| - 1];
      }
    }
  }

  lemma DigitsDotted(x: string)
    requires AllDigits(x)
    ensures Dotted(x)
  {}

  /** Address text is digits and dots: it begins and ends with a digit and
      holds no `;` and no `=`. */
  lemma FormatAlphabet(a: IPv4)
    ensures Plain(Format(a)) && Dotted(Format(a))
    ensures |Format(a)| >= 1 && IsDigit(Format(a)[0]) && IsDigit(Format(a)[|Format(a)| - 1])
  {
    FormatUnfolded(a);
    DottedQuad(Dec(a.b0 as nat), Dec(a.b1 as nat), Dec(a.b2 as nat), Dec(a.b3 as nat));
  }

  /** Four digit strings joined by dots. */
  lemma DottedQuad(d0: string, d1: string, d2: string, d3: string)
    requires |d0| >= 1 && |d1| >= 1 && |d2| >= 1 && |d3| >= 1
    requires AllDigits(d0) && AllDigits(d1) && AllDigits(d2) && AllDigits(d3)
    ensures var f := d0 + "." + (d1 + "." + (d2 + "." + d3));
      Plain(f) && Dotted(f) && |f| >= 1 && IsDigit(f[0]) && IsDigit(f[|f| - 1])
  {
    DigitsDotted(d3);
    DottedEnds(d2, d3);
    DottedEnds(d1, d2 + "." + d3);
    DottedEnds(d0, d1 + "." + (d2 + "." + d3));
    DottedPlain(d0 + "." + (d1 + "." + (d2 + "." + d3)));
  }

  /** Joining digits to dotted text with a dot keeps both ends. */
  lemma DottedEnds(x: string, y: string)
    requires AllDigits(x) && |x| >= 1 && Dotted(y) && |y| >= 1
    ensures Dotted(x + "." + y) && |x + "." + y| >= 1
    ensures (x + "." + y)[0] == x[0] && (x + "." + y)[|x + "." + y| - 1] == y[|y| - 1]
  {
    DottedJoin(x, y);
  }

  /** Digits and dots hold neither separator of a request. */
  lemma DottedPlain(s: string)
    requires Dotted(s)
    ensures Plain(s)
  {
    assert forall i :: 0 <= i < |s| ==> s[i] != ';' && s[i] != '=';
  }

  /** `ByteOf` is the inverse of reading a byte as a number. */
  lemma {:induction false} ByteRoundTrip(v: nat)
    requires v < 256
    ensures ByteOf(v) as nat == v
    decreases v
  {
    if v > 0 {
      ByteRoundTrip(v / 2);
      var h := ByteOf(v / 2);
      assert h as nat == v / 2;
      assert h < 128;
    }
  }

  lemma DecOfOctet(p: string)
    requires OctetText(p)
    ensures Dec(OctetOf(p) as nat) == p
  {
    ByteRoundTrip(Value(p));
    DecValue(p);
  }

  /** Text that parses is exactly the text of the address it parses to. */
  lemma FormatParse(s: string)
    requires Parse(s).Some?
    ensures Format(Parse(s).value) == s
  {
    var parts := Split(s, '.');
    DecOfOctet(parts[0]);
    DecOfOctet(parts[1]);
    DecOfOctet(parts[2]);
    DecOfOctet(parts[3]);
    JoinSplit(s, '.');
    assert parts == [parts[0], parts[1], parts[2], parts[3]];
  }

  //----------------------------------------------------------------------
  // 32-bit values
  //----------------------------------------------------------------------

  /** The address as a number, first octet most significant: what
      `Array.Reverse` followed by `BitConverter.ToUInt32` yields. */
  function BigEndian(a: IPv4): bv32 {
    Word(a.b0, a.b1, a.b2, a.b3)
  }

  function Reverse(a: IPv4): IPv4 {
    IPv4(a.b3, a.b2, a.b1, a.b0)
  }

  /** `BitConverter.ToUInt32(a.GetAddressBytes())` on a little-endian
      machine: first octet least significant. */
  function LittleEndian(a: IPv4): bv32 {
    BigEndian(Reverse(a))
  }

  /** `new IPAddress(bytes)` of a big-endian value. */
  function FromBigEndian(w: bv32): IPv4 {
    IPv4((w >> 24) as byte, ((w >> 16) & 0xFF) as byte, ((w >> 8) & 0xFF) as byte, (w & 0xFF) as byte)
  }

  /** The big-endian value determines the address. */
  lemma FromBigEndianInverse(a: IPv4)
    ensures FromBigEndian(BigEndian(a)) == a
  {}

  //----------------------------------------------------------------------
  // Reserved addresses
  //----------------------------------------------------------------------

  /** `CheckIfIpIsNotReserved`: the conjunction of ten per-range flags. */
  predicate IsNotReserved(a: IPv4) {
    var noEmptyAddress := a.b0 != 0 || a.b1 != 0 || a.b2 != 0 || a.b3 != 0;
    var noLoopback := a.b0 != 127;
    var noLinkLocal := a.b0 != 169 || a.b1 != 254;
    var noTestNet1 := a.b0 != 192 || a.b1 != 0;
    var noIpv6Relay := a.b0 != 192 || a.b1 != 88 || a.b2 != 99;
    var noTestNet2 := a.b0 != 198;
    var noTestNet3 := a.b0 != 203;
    var noMulticast := a.b0 != 224;
    var noReserved := a.b0 != 240;
    var noBroadcast := a.b0 != 255 || a.b1 != 255 || a.b2 != 255 || a.b3 != 255;
    noEmptyAddress && noLoopback && noLinkLocal && noTestNet1 && noIpv6Relay
    && noTestNet2 && noTestNet3 && noMulticast && noReserved && noBroadcast
  }

  /** The policy as a table of octet prefixes: an address is refused when
      its octets start with one of them. */
  const ReservedPrefixes: seq<seq<byte>> := [
    [0, 0, 0, 0], [127], [169, 254], [192, 0], [192, 88, 99],
    [198], [203], [224], [240], [255, 255, 255, 255]
  ]

  predicate InReservedTable(a: IPv4) {
    exists i :: 0 <= i < |ReservedPrefixes| && ReservedPrefixes[i] <= Octets(a)
  }

  /** Every address the flags refuse is listed in the table. */
  lemma RefusedIsInTable(a: IPv4)
    requires !IsNotReserved(a)
    ensures InReservedTable(a)
  {
    var o := Octets(a);
    if a.b0 == 0 && a.b1 == 0 && a.b2 == 0 && a.b3 == 0 {
      assert ReservedPrefixes[0] <= o;
    } else if a.b0 == 127 {
      assert ReservedPrefixes[1] <= o;
    } else if a.b0 == 169 && a.b1 == 254 {
      assert ReservedPrefixes[2] <= o;
    } else if a.b0 == 192 && a.b1 == 0 {
      assert ReservedPrefixes[3] <= o;
    } else if a.b0 == 192 && a.b1 == 88 && a.b2 == 99 {
      assert ReservedPrefixes[4] <= o;
    } else if a.b0 == 198 {
      assert ReservedPrefixes[5] <= o;
    } else if a.b0 == 203 {
      assert ReservedPrefixes[6] <= o;
    } else if a.b0 == 224 {
      assert ReservedPrefixes[7] <= o;
    } else if a.b0 == 240 {
      assert ReservedPrefixes[8] <= o;
    } else {
      assert ReservedPrefixes[9] <= o;
    }
  }

  lemma PrefixOfOctets(p: seq<byte>, a: IPv4)
    requires p <= Octets(a) && |p| >= 1
    ensures p[0] == a.b0
    ensures |p| >= 2 ==> p[1] == a.b1
    ensures |p| >= 3 ==> p[2] == a.b2
    ensures |p| >= 4 ==> p[3] == a.b3
  {}

  /** Every address the table lists is refused by the flags. */
  lemma InTableIsRefused(a: IPv4)
    requires InReservedTable(a)
    ensures !IsNotReserved(a)
  {
    var i :| 0 <= i < |ReservedPrefixes| && ReservedPrefixes[i] <= Octets(a);
    PrefixOfOctets(ReservedPrefixes[i], a);
  }

  /** The flag conjunction refuses exactly the addresses the table lists. */
  lemma IsNotReservedMatchesTable(a: IPv4)
    ensures IsNotReserved(a) <==> !InReservedTable(a)
  {
    if !IsNotReserved(a) {
      RefusedIsInTable(a);
    }
    if InReservedTable(a) {
      InTableIsRefused(a);
    }
  }

  /** Ordinary private and multicast addresses outside the listed octets
      are accepted: the multicast test looks at 224 only, not 224/4. */
  lemma AcceptedExamples()
    ensures IsNotReserved(IPv4(192, 168, 1, 50))
    ensures IsNotReserved(IPv4(225, 1, 1, 1))
    ensures IsNotReserved(IPv4(10, 0, 0, 1))
  {}

  /** The whole first octet 198 is refused, well beyond 198.51.100.0/24. */
  lemma RefusedExamples()
    ensures !IsNotReserved(IPv4(198, 1, 2, 3))
    ensures !IsNotReserved(IPv4(0, 0, 0, 0))
    ensures !IsNotReserved(NoneAddress)
    ensures IsNotReserved(IPv4(0, 0, 0, 1))
  {}
}
