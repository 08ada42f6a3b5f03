/** What `TryFromRequestString` promises, stated on its specification
    `ParseRequest` and on the requests a client builds. */
module NetworkConfigProperties {
  import opened Wrappers
  import opened Text
  import opened Bits
  import opened Address
  import opened NetworkConfig

  //----------------------------------------------------------------------
  // The field loop
  //----------------------------------------------------------------------

  lemma ApplyAllSnoc(parts: seq<string>, part: string)
    requires AllPairs(parts) && IsPair(part)
    ensures AllPairs(parts + [part])
    ensures ApplyAll(parts + [part]) == ApplyPart(ApplyAll(parts), part)
  {
    assert (parts + [part])[..|parts|] == parts;
  }

  /** One segment: the result stays true only if the segment reports no
      error, and a reported error replaces the message. */
  lemma ApplyPartOutcome(st: ParseOutcome, part: string)
    requires IsPair(part)
    ensures ApplyPart(st, part).isOk == (st.isOk && PartError(part).None?)
    ensures ApplyPart(st, part).errorMessage
         == if PartError(part).Some? then PartError(part).value else st.errorMessage
    ensures ApplyPart(st, part).config == PartUpdate(st.config, part)
  {}

  /** Index of the last segment reporting an error, or -1 if none does. */
  function LastFailing(parts: seq<string>): (r: int)
    requires AllPairs(parts)
    ensures -1 <= r < |parts|
    ensures r >= 0 ==> PartError(parts[r]).Some?
    ensures forall j :: r < j < |parts| ==> PartError(parts[j]).None?
    decreases |parts|
  {
    if |parts| == 0 then -1
    else if PartError(parts[|parts| - 1]).Some? then |parts| - 1
    else LastFailing(parts[..|parts| - 1])
  }

  /** The result is true exactly when no segment fails, and the message is
      then "Ok"; otherwise the message is that of the LAST failing segment:
      the loop has no early exit and later errors overwrite earlier ones. */
  lemma {:induction false} ErrorIsLastFailingSegment(parts: seq<string>)
    requires AllPairs(parts)
    ensures ApplyAll(parts).isOk <==> LastFailing(parts) == -1
    ensures ApplyAll(parts).errorMessage
         == if LastFailing(parts) == -1 then Ok else PartError(parts[LastFailing(parts)]).value
    decreases |parts|
  {
    if |parts| > 0 {
      var n := |parts| - 1;
      var init := parts[..n];
      assert AllPairs(init) by {
        assert forall i :: 0 <= i < n ==> init[i] == parts[i];
      }
      var before := ApplyAll(init);
      assert ApplyAll(parts) == ApplyPart(before, parts[n]);
      assert LastFailing(parts) == if PartError(parts[n]).Some? then n else LastFailing(init);
      ErrorIsLastFailingSegment(init);
      ApplyPartOutcome(before, parts[n]);
    }
  }

  /** The keys the parser acts upon, compared after lowering. */
  const KnownKeys := {"networkmode", "ip", "mask", "gateway", "hwaddr"}

  /** A segment changes only the field its key names. */
  lemma PartUpdateFrame(c: NetworkConfiguration, part: string)
    requires IsPair(part)
    ensures Key(part) != "networkmode" ==> PartUpdate(c, part).isDhcpEnabled == c.isDhcpEnabled
    ensures Key(part) != "ip" ==> PartUpdate(c, part).ipAddress == c.ipAddress
    ensures Key(part) != "mask" ==> PartUpdate(c, part).subnetMask == c.subnetMask
    ensures Key(part) != "gateway" ==> PartUpdate(c, part).gatewayAddress == c.gatewayAddress
    ensures Key(part) != "hwaddr" ==> PartUpdate(c, part).macAddress == c.macAddress
    ensures Key(part) !in KnownKeys ==> PartUpdate(c, part) == c && PartError(part).None?
  {}

  /** The keys named by some segment. */
  function Keys(parts: seq<string>): set<string>
    requires AllPairs(parts)
  {
    set i | 0 <= i < |parts| :: Key(parts[i])
  }

  /** A field no segment names keeps its default; a request naming no known
      key leaves everything as it was. */
  lemma {:induction false} UntouchedFieldsKeepDefaults(parts: seq<string>)
    requires AllPairs(parts)
    ensures "networkmode" !in Keys(parts) ==> !ApplyAll(parts).config.isDhcpEnabled
    ensures "ip" !in Keys(parts) ==> ApplyAll(parts).config.ipAddress == NoneAddress
    ensures "mask" !in Keys(parts) ==> ApplyAll(parts).config.subnetMask == NoneAddress
    ensures "gateway" !in Keys(parts) ==> ApplyAll(parts).config.gatewayAddress == Some(NoneAddress)
    ensures "hwaddr" !in Keys(parts) ==> ApplyAll(parts).config.macAddress == ""
    ensures Keys(parts) !! KnownKeys ==> ApplyAll(parts) == Initial
    decreases |parts|
  {
    if |parts| > 0 {
      var n := |parts| - 1;
      var init := parts[..n];
      assert AllPairs(init) && Keys(parts) == Keys(init) + {Key(parts[n])} by {
        assert forall i :: 0 <= i < n ==> init[i] == parts[i];
      }
      var before := ApplyAll(init);
      assert ApplyAll(parts) == ApplyPart(before, parts[n]);
      UntouchedFieldsKeepDefaults(init);
      ApplyPartOutcome(before, parts[n]);
      PartUpdateFrame(before.config, parts[n]);
    }
  }

  /** "Ok" is reported exactly when the request is accepted. */
  lemma OkIffOkMessage(request: string)
    requires |request| >= 1
    ensures ParseRequest(request).isOk <==> ParseRequest(request).errorMessage == Ok
  {
    if request[|request| - 1] == Nul {
      var parts := Split(TrimEnd(request, {Nul}), ';');
      if AllPairs(parts) {
        ErrorIsLastFailingSegment(parts);
        if LastFailing(parts) != -1 {
          ErrorsAreNotOk(parts[LastFailing(parts)]);
        }
      }
    }
  }

  lemma ErrorsAreNotOk(part: string)
    requires IsPair(part)
    ensures PartError(part) != Some(Ok)
  {
    assert |ErrNetworkMode| != |Ok|;
    assert |ErrMalformedIp| != |Ok|;
    assert |ErrReservedIp| != |Ok|;
    assert |ErrMalformedMask| != |Ok|;
    assert |ErrMalformedGateway| != |Ok|;
  }

  //----------------------------------------------------------------------
  // Framing
  //----------------------------------------------------------------------

  lemma {:induction false} SplitTrailingSeparator(s: string, c: char)
    ensures Split(s + [c], c)[|Split(s + [c], c)| - 1] == ""
    decreases |s|
  {
    if |s| == 0 {
      assert [c][1..] == "";
    } else {
      assert (s + [c])[1..] == s[1..] + [c];
      SplitTrailingSeparator(s[1..], c);
    }
  }

  lemma EmptyIsNoPair()
    ensures !IsPair("")
  {}

  /** A request whose body ends in `;` before the NUL is always refused:
      its last segment is empty and so no key=value pair. */
  lemma TrailingSeparatorRejected(body: string)
    ensures ParseRequest(body + [';', Nul]) == ParseOutcome(false, Default, ErrInvalidPair)
  {
    var request := body + [';', Nul];
    assert request[..|request| - 1] == body + [';'];
    assert TrimEnd(request, {Nul}) == body + [';'];
    var parts := Split(body + [';'], ';');
    SplitTrailingSeparator(body, ';');
    EmptyIsNoPair();
    assert !IsPair(parts[|parts| - 1]);
  }

  /** A request not ending in NUL is refused before any field is read. */
  lemma UnterminatedRejected(request: string)
    requires |request| >= 1 && request[|request| - 1] != Nul
    ensures !ParseRequest(request).isOk
    ensures ParseRequest(request).config == Default
    ensures ParseRequest(request).errorMessage == ErrNotNulTerminated
  {}

  //----------------------------------------------------------------------
  // Requests a client sends
  //----------------------------------------------------------------------

  lemma PlainLiterals()
    ensures Plain("CONFReq") && Plain("1") && Plain("HWADDR") && Plain("NetworkMode")
    ensures Plain("DHCP") && Plain("Static") && Plain("IP") && Plain("Mask") && Plain("Gateway")
  {}

  /** A pair ends where its value ends. */
  lemma PairLast(key: string, value: string)
    requires |value| >= 1
    ensures |Pair(key, value)| >= 1 && Pair(key, value)[|Pair(key, value)| - 1] == value[|value| - 1]
  {}

  lemma LowerLiterals()
    ensures ToLower("CONFReq") == "confreq"
    ensures ToLower("HWADDR") == "hwaddr"
    ensures ToLower("NetworkMode") == "networkmode"
    ensures ToLower("IP") == "ip"
    ensures ToLower("Mask") == "mask"
    ensures ToLower("Gateway") == "gateway"
    ensures ToLower("Static") == "static"
    ensures ToLower("DHCP") == "dhcp"
  {}

  /** The static-address request the LC-FIND detector sends. */
  function StaticRequestParts(mac: string, ip: IPv4, mask: IPv4, gateway: IPv4): seq<string> {
    [Pair("CONFReq", "1"), Pair("HWADDR", mac), Pair("NetworkMode", "Static"),
     Pair("IP", Format(ip)), Pair("Mask", Format(mask)), Pair("Gateway", Format(gateway))]
  }

  function StaticRequest(mac: string, ip: IPv4, mask: IPv4, gateway: IPv4): string {
    Join(StaticRequestParts(mac, ip, mask, gateway), ';') + [Nul]
  }

  /** The DHCP request the LC-FIND detector sends. */
  function DhcpRequestParts(mac: string): seq<string> {
    [Pair("CONFReq", "1"), Pair("HWADDR", mac), Pair("NetworkMode", "DHCP")]
  }

  function DhcpRequest(mac: string): string {
    Join(DhcpRequestParts(mac), ';') + [Nul]
  }

  lemma {:induction false} JoinLast(parts: seq<string>, c: char)
    requires |parts| >= 1 && |parts[|parts| - 1]| >= 1
    ensures |Join(parts, c)| >= 1
    ensures Join(parts, c)[|Join(parts, c)| - 1] == parts[|parts| - 1][|parts[|parts| - 1]| - 1]
    decreases |parts|
  {
    if |parts| > 1 {
      JoinLast(parts[1..], c);
    }
  }

  /** Stripping the final NUL of a request body that ends otherwise. */
  lemma TrimFinalNul(body: string)
    requires |body| >= 1 && body[|body| - 1] != Nul
    ensures TrimEnd(body + [Nul], {Nul}) == body
  {
    assert (body + [Nul])[..|body|] == body;
  }

  /** A NUL-terminated body is split into its segments. */
  lemma ParseFramed(body: string, parts: seq<string>)
    requires |body| >= 1 && body[|body| - 1] != Nul
    requires Split(body, ';') == parts && AllPairs(parts)
    ensures ParseRequest(body + [Nul]) == ApplyAll(parts)
  {
    TrimFinalNul(body);
    assert (body + [Nul])[|body + [Nul]| - 1] == Nul;
  }

  /** Framing of a request built from segments without `;`: the parser sees
      exactly the segments. */
  lemma RequestOfParts(parts: seq<string>)
    requires |parts| >= 1 && AllPairs(parts) && Separable(parts, ';')
    requires |parts[|parts| - 1]| >= 1 && parts[|parts| - 1][|parts[|parts| - 1]| - 1] != Nul
    ensures ParseRequest(Join(parts, ';') + [Nul]) == ApplyAll(parts)
  {
    JoinLast(parts, ';');
    SplitJoin(parts, ';');
    ParseFramed(Join(parts, ';'), parts);
  }

  /** The pair "NetworkMode=Static" turns DHCP off and reports nothing. */
  lemma ApplyStatic(st: ParseOutcome)
    ensures IsPair(Pair("NetworkMode", "Static"))
    ensures ApplyPart(st, Pair("NetworkMode", "Static")) == st.(config := st.config.(isDhcpEnabled := false))
  {
    PairSplit("NetworkMode", "Static");
    LowerLiterals();
  }

  lemma ApplyDhcp(st: ParseOutcome)
    ensures IsPair(Pair("NetworkMode", "DHCP"))
    ensures ApplyPart(st, Pair("NetworkMode", "DHCP")) == st.(config := st.config.(isDhcpEnabled := true))
  {
    PairSplit("NetworkMode", "DHCP");
    LowerLiterals();
  }

  lemma ModeLiteralsLower()
    ensures NoCapitals("networkmode") && NoCapitals("dhcp") && NoCapitals("static")
  {}

  /** Every `NetworkMode` segment, whatever the case of its key and value:
      `dhcp` turns DHCP on, `static` turns it off, and any other value is the
      network-mode error with the configuration unchanged. */
  lemma NetworkModeOutcome(st: ParseOutcome, key: string, value: string)
    requires Plain(key) && Plain(value) && EqualIgnoringCase(key, "networkmode")
    ensures IsPair(Pair(key, value))
    ensures ApplyPart(st, Pair(key, value))
         == if EqualIgnoringCase(value, "dhcp") then st.(config := st.config.(isDhcpEnabled := true))
            else if EqualIgnoringCase(value, "static") then st.(config := st.config.(isDhcpEnabled := false))
            else ParseOutcome(false, st.config, ErrNetworkMode)
  {
    PairSplit(key, value);
    ModeLiteralsLower();
    ToLowerMatches(key, "networkmode");
    ToLowerMatches(value, "dhcp");
    ToLowerMatches(value, "static");
  }

  /** Key and mode compare case-insensitively: one mixed-case instance. */
  lemma DhcpAnyCase(st: ParseOutcome)
    ensures IsPair(Pair("NETWORKMODE", "dHcP"))
    ensures ApplyPart(st, Pair("NETWORKMODE", "dHcP")) == st.(config := st.config.(isDhcpEnabled := true))
  {
    PairSplit("NETWORKMODE", "dHcP");
    assert ToLower("NETWORKMODE") == "networkmode";
    assert ToLower("dHcP") == "dhcp";
  }

  lemma StaticAnyCase(st: ParseOutcome)
    ensures IsPair(Pair("networkmode", "STATIC"))
    ensures ApplyPart(st, Pair("networkmode", "STATIC")) == st.(config := st.config.(isDhcpEnabled := false))
  {
    PairSplit("networkmode", "STATIC");
    assert ToLower("networkmode") == "networkmode";
    assert ToLower("STATIC") == "static";
  }

  /** An unrecognised mode, `Auto`, is an error that leaves the DHCP flag as
      it was. */
  lemma UnknownModeRefused(st: ParseOutcome)
    ensures IsPair(Pair("NetworkMode", "Auto"))
    ensures ApplyPart(st, Pair("NetworkMode", "Auto")) == ParseOutcome(false, st.config, ErrNetworkMode)
  {
    PairSplit("NetworkMode", "Auto");
    LowerLiterals();
    assert ToLower("Auto") == "auto";
  }

  /** The mask check accepts the all-zero and all-one masks and a /24, and
      refuses a mask with a gap. */
  lemma MaskExamples()
    ensures ValidMask(IPv4(0, 0, 0, 0)) && ValidMask(IPv4(255, 255, 255, 255))
    ensures ValidMask(IPv4(255, 255, 255, 0))
    ensures !ValidMask(IPv4(255, 0, 255, 0))
  {
    ContiguousIsPrefixMask(BigEndian(IPv4(0, 0, 0, 0)));
    assert BigEndian(IPv4(0, 0, 0, 0)) == PrefixMask(0);
    ContiguousIsPrefixMask(BigEndian(IPv4(255, 255, 255, 255)));
    assert BigEndian(IPv4(255, 255, 255, 255)) == PrefixMask(32);
    ContiguousIsPrefixMask(BigEndian(IPv4(255, 255, 255, 0)));
    assert BigEndian(IPv4(255, 255, 255, 0)) == PrefixMask(24);
    ContiguousIsPrefixMask(BigEndian(IPv4(255, 0, 255, 0)));
    assert BigEndian(IPv4(255, 0, 255, 0)) == 0xFF00_FF00;
    forall k: bv8 | k <= 32
      ensures PrefixMask(k) != 0xFF00_FF00
    {
      if k <= 16 {
        assert PrefixMask(k) & 0x0000_FF00 == 0;
      } else {
        assert PrefixMask(k) & 0x00FF_0000 == 0x00FF_0000;
      }
    }
  }

  lemma ApplyConfReq(st: ParseOutcome)
    ensures IsPair(Pair("CONFReq", "1"))
    ensures ApplyPart(st, Pair("CONFReq", "1")) == st
  {
    PairSplit("CONFReq", "1");
    LowerLiterals();
  }

  lemma ApplyHwAddr(st: ParseOutcome, mac: string)
    requires Plain(mac)
    ensures IsPair(Pair("HWADDR", mac))
    ensures ApplyPart(st, Pair("HWADDR", mac)) == st.(config := st.config.(macAddress := mac))
  {
    PairSplit("HWADDR", mac);
    LowerLiterals();
  }

  lemma ApplyIp(st: ParseOutcome, a: IPv4)
    ensures IsPair(Pair("IP", Format(a)))
    ensures ApplyPart(st, Pair("IP", Format(a)))
      == if IsNotReserved(a) then st.(config := st.config.(ipAddress := a))
         else ParseOutcome(false, st.config.(ipAddress := a), ErrReservedIp)
  {
    FormatAlphabet(a);
    PairSplit("IP", Format(a));
    LowerLiterals();
    ParseFormat(a);
  }

  lemma ApplyMask(st: ParseOutcome, m: IPv4)
    ensures IsPair(Pair("Mask", Format(m)))
    ensures ApplyPart(st, Pair("Mask", Format(m)))
      == if ValidMask(m) then st.(config := st.config.(subnetMask := m))
         else ParseOutcome(false, st.config.(subnetMask := m), ErrMalformedMask)
  {
    FormatAlphabet(m);
    PairSplit("Mask", Format(m));
    LowerLiterals();
    ParseFormat(m);
  }

  lemma ApplyGateway(st: ParseOutcome, g: IPv4)
    ensures IsPair(Pair("Gateway", Format(g)))
    ensures ApplyPart(st, Pair("Gateway", Format(g))) == st.(config := st.config.(gatewayAddress := Some(g)))
  {
    FormatAlphabet(g);
    PairSplit("Gateway", Format(g));
    LowerLiterals();
    ParseFormat(g);
  }

  /** The static request's field loop, one segment at a time. */
  lemma StaticFold2(mac: string)
    requires Plain(mac)
    ensures AllPairs(StaticRequestParts(mac, NoneAddress, NoneAddress, NoneAddress)[..2])
    ensures ApplyAll(StaticRequestParts(mac, NoneAddress, NoneAddress, NoneAddress)[..2])
         == Initial.(config := Default.(macAddress := mac))
  {
    var p0, p1 := Pair("CONFReq", "1"), Pair("HWADDR", mac);
    assert StaticRequestParts(mac, NoneAddress, NoneAddress, NoneAddress)[..2] == [] + [p0] + [p1];
    ApplyConfReq(Initial);
    ApplyAllSnoc([], p0);
    ApplyHwAddr(Initial, mac);
    ApplyAllSnoc([p0], p1);
    assert [] + [p0] == [p0];
  }

  lemma StaticFold3(mac: string)
    requires Plain(mac)
    ensures AllPairs(StaticRequestParts(mac, NoneAddress, NoneAddress, NoneAddress)[..3])
    ensures ApplyAll(StaticRequestParts(mac, NoneAddress, NoneAddress, NoneAddress)[..3])
         == Initial.(config := Default.(macAddress := mac))
  {
    var all := StaticRequestParts(mac, NoneAddress, NoneAddress, NoneAddress);
    StaticFold2(mac);
    ApplyStatic(Initial.(config := Default.(macAddress := mac)));
    ApplyAllSnoc(all[..2], all[2]);
    assert all[..3] == all[..2] + [all[2]];
  }

  /** The state after the address segment. */
  function AfterIp(mac: string, ip: IPv4): ParseOutcome {
    var c := Default.(macAddress := mac, ipAddress := ip);
    if IsNotReserved(ip) then ParseOutcome(true, c, Ok) else ParseOutcome(false, c, ErrReservedIp)
  }

  lemma StaticFold4(mac: string, ip: IPv4)
    requires Plain(mac)
    ensures AllPairs(StaticRequestParts(mac, ip, NoneAddress, NoneAddress)[..4])
    ensures ApplyAll(StaticRequestParts(mac, ip, NoneAddress, NoneAddress)[..4]) == AfterIp(mac, ip)
  {
    var front := StaticRequestParts(mac, NoneAddress, NoneAddress, NoneAddress)[..3];
    StaticFold3(mac);
    ApplyIp(Initial.(config := Default.(macAddress := mac)), ip);
    StaticPrefixes(mac, ip, NoneAddress, NoneAddress);
    FoldStep(front, Pair("IP", Format(ip)), StaticRequestParts(mac, ip, NoneAddress, NoneAddress)[..4],
             Initial.(config := Default.(macAddress := mac)), AfterIp(mac, ip));
  }

  /** The state after the mask segment. */
  function AfterMask(mac: string, ip: IPv4, mask: IPv4): ParseOutcome {
    var st := AfterIp(mac, ip);
    var c := st.config.(subnetMask := mask);
    if ValidMask(mask) then st.(config := c) else ParseOutcome(false, c, ErrMalformedMask)
  }

  lemma StaticFold5(mac: string, ip: IPv4, mask: IPv4)
    requires Plain(mac)
    ensures AllPairs(StaticRequestParts(mac, ip, mask, NoneAddress)[..5])
    ensures ApplyAll(StaticRequestParts(mac, ip, mask, NoneAddress)[..5]) == AfterMask(mac, ip, mask)
  {
    var front := StaticRequestParts(mac, ip, NoneAddress, NoneAddress)[..4];
    StaticFold4(mac, ip);
    ApplyMask(AfterIp(mac, ip), mask);
    StaticPrefixes(mac, ip, mask, NoneAddress);
    FoldStep(front, Pair("Mask", Format(mask)), StaticRequestParts(mac, ip, mask, NoneAddress)[..5],
             AfterIp(mac, ip), AfterMask(mac, ip, mask));
  }

  /** The field loop over the whole static request. */
  lemma StaticFold(mac: string, ip: IPv4, mask: IPv4, gateway: IPv4)
    requires Plain(mac)
    ensures AllPairs(StaticRequestParts(mac, ip, mask, gateway))
    ensures ApplyAll(StaticRequestParts(mac, ip, mask, gateway))
         == AfterMask(mac, ip, mask).(config := NetworkConfiguration(false, ip, mask, Some(gateway), mac))
  {
    var front := StaticRequestParts(mac, ip, mask, NoneAddress)[..5];
    StaticFold5(mac, ip, mask);
    ApplyGateway(AfterMask(mac, ip, mask), gateway);
    StaticPrefixes(mac, ip, mask, gateway);
    FoldStep(front, Pair("Gateway", Format(gateway)), StaticRequestParts(mac, ip, mask, gateway),
             AfterMask(mac, ip, mask), AfterMask(mac, ip, mask).(config := NetworkConfiguration(false, ip, mask, Some(gateway), mac)));
  }

  /** The static request one address segment at a time. */
  lemma StaticPrefixes(mac: string, ip: IPv4, mask: IPv4, gateway: IPv4)
    ensures StaticRequestParts(mac, ip, NoneAddress, NoneAddress)[..4]
         == StaticRequestParts(mac, NoneAddress, NoneAddress, NoneAddress)[..3] + [Pair("IP", Format(ip))]
    ensures StaticRequestParts(mac, ip, mask, NoneAddress)[..5]
         == StaticRequestParts(mac, ip, NoneAddress, NoneAddress)[..4] + [Pair("Mask", Format(mask))]
    ensures StaticRequestParts(mac, ip, mask, gateway)
         == StaticRequestParts(mac, ip, mask, NoneAddress)[..5] + [Pair("Gateway", Format(gateway))]
  {}

  /** Extending a folded prefix by one pair. */
  lemma FoldStep(front: seq<string>, part: string, whole: seq<string>, before: ParseOutcome, after: ParseOutcome)
    requires whole == front + [part] && AllPairs(front) && ApplyAll(front) == before
    requires IsPair(part) && ApplyPart(before, part) == after
    ensures AllPairs(whole) && ApplyAll(whole) == after
  {
    ApplyAllSnoc(front, part);
  }

  /** A pair whose value is a formatted address ends in a digit. */
  lemma AddressPair(key: string, a: IPv4)
    requires Plain(key)
    ensures Plain(Format(a)) && ';' !in Pair(key, Format(a))
    ensures var p := Pair(key, Format(a)); |p| >= 1 && p[|p| - 1] != Nul
  {
    FormatAlphabet(a);
    PairSplit(key, Format(a));
    PairLast(key, Format(a));
  }

  /** The static request's segments hold no `;`. */
  lemma StaticSeparable(mac: string, ip: IPv4, mask: IPv4, gateway: IPv4)
    requires Plain(mac)
    ensures Separable(StaticRequestParts(mac, ip, mask, gateway), ';')
  {
    var parts := StaticRequestParts(mac, ip, mask, gateway);
    PlainLiterals();
    forall i | 0 <= i < |parts|
      ensures ';' !in parts[i]
    {
      if i == 0 {
        PairSplit("CONFReq", "1");
      } else if i == 1 {
        PairSplit("HWADDR", mac);
      } else if i == 2 {
        PairSplit("NetworkMode", "Static");
      } else if i == 3 {
        AddressPair("IP", ip);
      } else if i == 4 {
        AddressPair("Mask", mask);
      } else {
        AddressPair("Gateway", gateway);
      }
    }
  }

  /** Round trip of the static request: the host reads back the settings
      the client wrote. It is accepted exactly when the address is not
      reserved and the mask is contiguous; with both wrong, the mask's error
      is reported, as it comes later. */
  lemma StaticRequestRoundTrip(mac: string, ip: IPv4, mask: IPv4, gateway: IPv4)
    requires Plain(mac)
    ensures ParseRequest(StaticRequest(mac, ip, mask, gateway)).config
         == NetworkConfiguration(false, ip, mask, Some(gateway), mac)
    ensures ParseRequest(StaticRequest(mac, ip, mask, gateway)).isOk
         <==> IsNotReserved(ip) && IsPrefixMask(BigEndian(mask))
    ensures ParseRequest(StaticRequest(mac, ip, mask, gateway)).errorMessage
         == if !IsPrefixMask(BigEndian(mask)) then ErrMalformedMask
            else if !IsNotReserved(ip) then ErrReservedIp
            else Ok
  {
    var parts := StaticRequestParts(mac, ip, mask, gateway);
    StaticFold(mac, ip, mask, gateway);
    StaticSeparable(mac, ip, mask, gateway);
    AddressPair("Gateway", gateway);
    RequestOfParts(parts);
    ContiguousIsPrefixMask(BigEndian(mask));
  }

  lemma DhcpFold(mac: string)
    requires Plain(mac)
    ensures AllPairs(DhcpRequestParts(mac))
    ensures ApplyAll(DhcpRequestParts(mac))
         == ParseOutcome(true, Default.(isDhcpEnabled := true, macAddress := mac), Ok)
  {
    var all := DhcpRequestParts(mac);
    StaticFold2(mac);
    assert all[..2] == StaticRequestParts(mac, NoneAddress, NoneAddress, NoneAddress)[..2];
    ApplyDhcp(Initial.(config := Default.(macAddress := mac)));
    ApplyAllSnoc(all[..2], all[2]);
    assert all == all[..2] + [all[2]];
  }

  lemma DhcpSeparable(mac: string)
    requires Plain(mac)
    ensures Separable(DhcpRequestParts(mac), ';')
  {
    PlainLiterals();
    PairSplit("CONFReq", "1");
    PairSplit("HWADDR", mac);
    PairSplit("NetworkMode", "DHCP");
    ThreeSeparable(Pair("CONFReq", "1"), Pair("HWADDR", mac), Pair("NetworkMode", "DHCP"));
  }

  lemma ThreeSeparable(a: string, b: string, c: string)
    requires ';' !in a && ';' !in b && ';' !in c
    ensures Separable([a, b, c], ';')
  {}

  /** Round trip of the DHCP request: accepted, DHCP on, MAC copied, every
      address left at its default. */
  lemma DhcpRequestRoundTrip(mac: string)
    requires Plain(mac)
    ensures ParseRequest(DhcpRequest(mac))
         == ParseOutcome(true, Default.(isDhcpEnabled := true, macAddress := mac), Ok)
  {
    DhcpFold(mac);
    DhcpSeparable(mac);
    PairLast("NetworkMode", "DHCP");
    RequestOfParts(DhcpRequestParts(mac));
  }
}
