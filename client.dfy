/** `LcFindClient.LookForDevices` after the broadcast: the datagrams that
    arrived are drained in order, each is decoded, and a description is
    kept when its serial number is non-empty and not yet listed. */
module Client {
  import opened Text
  import opened Address
  import opened NetworkConfig
  import opened Protocol
  import opened Devices
  import opened ProtocolProperties

  /** Whether some description in `ds` has serial number `sn`. */
  predicate HasSerial(ds: seq<DeviceDescription>, sn: string) {
    exists i :: 0 <= i < |ds| && ds[i].serialNumber == sn
  }

  /** Whether a decoded description is added to the list built so far. */
  predicate Added(ds: seq<DeviceDescription>, d: DeviceDescription) {
    d.serialNumber != "" && !HasSerial(ds, d.serialNumber)
  }

  /** Every received payload, decoded. */
  function Decoded(messages: seq<string>): (ds: seq<DeviceDescription>)
    ensures |ds| == |messages|
    ensures forall i :: 0 <= i < |messages| ==> ds[i] == FromString(messages[i])
  {
    seq(|messages|, i requires 0 <= i < |messages| => FromString(messages[i]))
  }

  /** The list built from descriptions decoded in this order. */
  function Kept(decoded: seq<DeviceDescription>): (ds: seq<DeviceDescription>)
    ensures |ds| <= |decoded|
    decreases |decoded|
  {
    if |decoded| == 0 then []
    else
      var prior := Kept(decoded[..|decoded| - 1]);
      var d := decoded[|decoded| - 1];
      if Added(prior, d) then prior + [d] else prior
  }

  /** The list after draining `messages`. */
  function Discovered(messages: seq<string>): seq<DeviceDescription> {
    Kept(Decoded(messages))
  }

  /** The drain loop; `messages` are the payloads in the order they were
      received. */
  method LookForDevices(messages: seq<string>) returns (deviceDescriptions: seq<DeviceDescription>)
    ensures deviceDescriptions == Discovered(messages)
  {
    ghost var decoded := Decoded(messages);
    deviceDescriptions := [];
    var k := 0;
    while k < |messages|
      invariant 0 <= k <= |messages|
      invariant deviceDescriptions == Kept(decoded[..k])
    {
      var deviceDescription := FromString(messages[k]);
      KeptSnoc(decoded, k);
      if deviceDescription.serialNumber != "" {
        if !HasSerial(deviceDescriptions, deviceDescription.serialNumber) {
          deviceDescriptions := deviceDescriptions + [deviceDescription];
        }
      }
      k := k + 1;
    }
    assert decoded[..|messages|] == decoded;
  }

  /** One step of the drain loop. */
  lemma KeptSnoc(decoded: seq<DeviceDescription>, k: nat)
    requires k < |decoded|
    ensures Kept(decoded[..k + 1])
         == if Added(Kept(decoded[..k]), decoded[k]) then Kept(decoded[..k]) + [decoded[k]] else Kept(decoded[..k])
  {
    assert decoded[..k + 1][..k] == decoded[..k];
  }

  //----------------------------------------------------------------------
  // What the list holds
  //----------------------------------------------------------------------

  /** No serial number is listed twice, and none is empty. */
  lemma {:induction false} DistinctNonEmptySerials(decoded: seq<DeviceDescription>)
    ensures forall i, j :: 0 <= i < j < |Kept(decoded)| ==> Kept(decoded)[i].serialNumber != Kept(decoded)[j].serialNumber
    ensures forall i :: 0 <= i < |Kept(decoded)| ==> Kept(decoded)[i].serialNumber != ""
    decreases |decoded|
  {
    if |decoded| > 0 {
      var prior := decoded[..|decoded| - 1];
      DistinctNonEmptySerials(prior);
      var ps := Kept(prior);
      var ds := Kept(decoded);
      var d := decoded[|decoded| - 1];
      if Added(ps, d) {
        assert ds == ps + [d];
        forall i | 0 <= i < |ds|
          ensures ds[i].serialNumber != ""
          ensures forall j :: i < j < |ds| ==> ds[i].serialNumber != ds[j].serialNumber
        {
          if i < |ps| {
            assert ds[i] == ps[i];
            assert ds[|ds| - 1] == d;
          }
        }
      } else {
        assert ds == ps;
      }
    }
  }

  /** Draining one more message only appends to the list. */
  lemma KeptGrows(decoded: seq<DeviceDescription>)
    requires |decoded| > 0
    ensures Kept(decoded[..|decoded| - 1]) <= Kept(decoded)
  {}

  /** Every description with a non-empty serial number has that serial
      number listed. */
  lemma {:induction false} KeptComplete(decoded: seq<DeviceDescription>)
    ensures forall j :: 0 <= j < |decoded| && decoded[j].serialNumber != ""
              ==> HasSerial(Kept(decoded), decoded[j].serialNumber)
    decreases |decoded|
  {
    if |decoded| > 0 {
      var n := |decoded|;
      var prior := decoded[..n - 1];
      KeptComplete(prior);
      KeptGrows(decoded);
      var ds := Kept(decoded);
      var ps := Kept(prior);
      forall j | 0 <= j < n && decoded[j].serialNumber != ""
        ensures HasSerial(ds, decoded[j].serialNumber)
      {
        var sn := decoded[j].serialNumber;
        if j < n - 1 {
          assert decoded[j] == prior[j];
          var i :| 0 <= i < |ps| && ps[i].serialNumber == sn;
          assert ds[i] == ps[i];
        } else if !HasSerial(ps, sn) {
          assert ds[|ds| - 1].serialNumber == sn;
        } else {
          var i :| 0 <= i < |ps| && ps[i].serialNumber == sn;
          assert ds[i] == ps[i];
        }
      }
    }
  }

  /** The positions, among the decoded descriptions, of those listed. */
  function Arrivals(decoded: seq<DeviceDescription>): seq<nat>
    decreases |decoded|
  {
    if |decoded| == 0 then []
    else
      var n := |decoded|;
      var prior := Arrivals(decoded[..n - 1]);
      if Added(Kept(decoded[..n - 1]), decoded[n - 1]) then prior + [n - 1] else prior
  }

  /** Each listed description is the first one received with its serial
      number, and the list keeps the order in which those arrived. */
  lemma {:induction false} FirstArrivalWins(decoded: seq<DeviceDescription>)
    ensures |Arrivals(decoded)| == |Kept(decoded)|
    ensures forall i :: 0 <= i < |Kept(decoded)| ==>
              Arrivals(decoded)[i] < |decoded| && Kept(decoded)[i] == decoded[Arrivals(decoded)[i]]
    ensures forall i, k :: 0 <= i < |Kept(decoded)| && 0 <= k < Arrivals(decoded)[i] ==>
              decoded[k].serialNumber != Kept(decoded)[i].serialNumber
    ensures forall i, j :: 0 <= i < j < |Kept(decoded)| ==> Arrivals(decoded)[i] < Arrivals(decoded)[j]
    decreases |decoded|
  {
    if |decoded| > 0 {
      var n := |decoded|;
      var prior := decoded[..n - 1];
      FirstArrivalWins(prior);
      var d := decoded[n - 1];
      forall k | 0 <= k < n - 1
        ensures decoded[k] == prior[k]
      {}
      if Added(Kept(prior), d) {
        KeptComplete(prior);
        forall k | 0 <= k < n - 1
          ensures decoded[k].serialNumber != d.serialNumber
        {
          assert decoded[k] == prior[k];
        }
      }
    }
  }

  /** Two decoded replies with the same non-empty serial number are listed
      once, as the first of them. */
  lemma SameSerialMerged(decoded: seq<DeviceDescription>)
    requires |decoded| == 2 && decoded[0].serialNumber != ""
    requires decoded[1].serialNumber == decoded[0].serialNumber
    ensures Kept(decoded) == [decoded[0]]
  {
    assert decoded[..0] == [];
    KeptSnoc(decoded, 0);
    assert Kept(decoded[..1]) == [decoded[0]];
    KeptSnoc(decoded, 1);
    assert HasSerial(Kept(decoded[..1]), decoded[1].serialNumber);
    assert decoded[..2] == decoded;
  }

  /** Appending a message appends its decoding. */
  lemma DecodedSnoc(messages: seq<string>, m: string)
    ensures Decoded(messages + [m]) == Decoded(messages) + [FromString(m)]
  {
    var whole := messages + [m];
    assert forall i :: 0 <= i < |messages| ==> whole[i] == messages[i];
  }

  //----------------------------------------------------------------------
  // Against the host's replies
  //----------------------------------------------------------------------

  /** A CONF reply carries no serial number, so a client that receives one
      while looking for devices ignores it. */
  lemma ConfReplyIgnored(messages: seq<string>, hwAddress: string, status: Status, requestResult: string)
    requires Clean(hwAddress) && ';' !in requestResult
    ensures Discovered(messages + [ConfReply(hwAddress, status, requestResult)]) == Discovered(messages)
  {
    var reply := ConfReply(hwAddress, status, requestResult);
    ConfReplyRoundTrip(hwAddress, status, requestResult);
    DecodedSnoc(messages, reply);
    var decoded := Decoded(messages) + [FromString(reply)];
    assert decoded[..|decoded| - 1] == Decoded(messages);
  }

  /** A FIND reply from a host with a new, non-empty serial number adds
      that host's description, decoded as the host built it. */
  lemma FindReplyListed(messages: seq<string>, config: NetworkConfiguration, deviceName: string, serialNumber: string, status: Status)
    requires Clean(deviceName) && Clean(serialNumber) && Clean(config.macAddress)
    requires serialNumber != "" && !HasSerial(Discovered(messages), serialNumber)
    ensures Discovered(messages + [FindReply(config, deviceName, serialNumber, status)])
         == Discovered(messages) + [FromString(FindReply(config, deviceName, serialNumber, status))]
    ensures FromString(FindReply(config, deviceName, serialNumber, status)).serialNumber == serialNumber
  {
    var reply := FindReply(config, deviceName, serialNumber, status);
    FindReplyRoundTrip(config, deviceName, serialNumber, status);
    DecodedSnoc(messages, reply);
    var decoded := Decoded(messages) + [FromString(reply)];
    assert decoded[..|decoded| - 1] == Decoded(messages);
  }

  /** The discovery payload the client broadcasts is recognised by the
      host as a FIND request and never as a configuration request. */
  lemma DiscoveryRequestRecognised(hwAddress: string)
    ensures FindRequest == "FINDReq=1;" + [Nul]
    ensures FindRequestPrefix <= FindRequest && !(ConfRequestPrefix(hwAddress) <= FindRequest)
  {
    FindRequestRecognised(hwAddress);
  }
}
