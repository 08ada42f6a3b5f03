/** `LcFindHost`: the fields of the host and the methods that update them
    in place. Each method is proved to leave the fields as the matching
    function of `HostMachine` says. */
module HostService {
  import opened Wrappers
  import opened NetworkConfig
  import opened Protocol
  import opened HostMachine

  class LcFindHost {
    var actualStatus: Status
    var targetStatus: Status
    var unansweredConfRequest: Option<RawMessage>
    var confirmationEnd: int
    var cooldownEnd: int
    var isReconfigurationEnabled: bool
    var udpReceiveQueue: seq<RawMessage>
    var udpSendQueue: seq<RawMessage>

    var hwAddress: string
    var isInitialized: bool
    var deviceName: string
    var serialNumber: string
    var isConfirmationEnabled: bool
    var confirmationTimeout: int
    var cooldownTimeout: int

    /** The fields `Tick` writes. */
    function State(): HostState
      reads this
    {
      HostState(actualStatus, targetStatus, unansweredConfRequest, confirmationEnd, cooldownEnd,
                isReconfigurationEnabled, udpReceiveQueue, udpSendQueue)
    }

    /** The fields `Tick` only reads. */
    function Config(): Settings
      reads this
    {
      Settings(hwAddress, deviceName, serialNumber, isConfirmationEnabled, confirmationTimeout, cooldownTimeout)
    }

    predicate Valid()
      reads this
    {
      HostMachine.Valid(State())
    }

    /** The field initialisers; `nameGuid` and `serialGuid` stand for the
        two `Guid.NewGuid()` texts in the default device name and serial
        number, and the null `_hwAddress` interpolates as "". */
    constructor(nameGuid: string, serialGuid: string)
      ensures State() == InitialState && !isInitialized
      ensures Config() == Settings("", "Unknown-" + nameGuid, "Unknown-" + serialGuid, false, DefaultTimeout, DefaultTimeout)
      ensures Valid()
    {
      actualStatus := Disabled;
      targetStatus := Ready;
      unansweredConfRequest := None;
      confirmationEnd := 0;
      cooldownEnd := 0;
      isReconfigurationEnabled := false;
      udpReceiveQueue := [];
      udpSendQueue := [];
      hwAddress := "";
      isInitialized := false;
      deviceName := "Unknown-" + nameGuid;
      serialNumber := "Unknown-" + serialGuid;
      isConfirmationEnabled := false;
      confirmationTimeout := DefaultTimeout;
      cooldownTimeout := DefaultTimeout;
    }

    /** `Initialize` without its sockets and tasks. A failed bind rethrows
        (`false`) and changes nothing. Otherwise the background tasks are
        started and the get-collaborator is called, its `bool` ignored:
        `reportedConfiguration` is the configuration it wrote, `None` for
        null, on which reading the MAC address throws (`false`) and the
        host stays uninitialised; any configuration it did write gives the
        MAC address and the host becomes initialised. */
    method Initialize(bindOk: bool, reportedConfiguration: Option<NetworkConfiguration>) returns (ok: bool)
      modifies this
      ensures ok <==> bindOk && reportedConfiguration.Some?
      ensures State() == old(State())
      ensures ok ==> hwAddress == reportedConfiguration.value.macAddress && isInitialized
      ensures !ok ==> hwAddress == old(hwAddress) && isInitialized == old(isInitialized)
      ensures Config() == old(Config()).(hwAddress := hwAddress)
    {
      if !bindOk {
        return false;
      }
      if reportedConfiguration.None? {
        return false;
      }
      hwAddress := reportedConfiguration.value.macAddress;
      isInitialized := true;
      return true;
    }

    /** One pass of the receive task: a datagram that was read is queued,
        and the oldest entry is dropped when the queue overflows. */
    method ReceiveStep(received: Option<RawMessage>)
      modifies this
      ensures State() == if received.Some? then old(State()).(receiveQueue := Push(old(udpReceiveQueue), received.value))
                         else old(State())
      ensures Config() == old(Config()) && isInitialized == old(isInitialized)
    {
      if received.Some? {
        udpReceiveQueue := udpReceiveQueue + [received.value];
        if |udpReceiveQueue| > QueueCapacity {
          udpReceiveQueue := udpReceiveQueue[1..];
        }
      }
    }

    /** `Tick`: see `HostMachine.TickSpec`. */
    method Tick(now: int, got: Option<NetworkConfiguration>, setOk: bool)
      returns (applied: Option<NetworkConfiguration>, faulted: bool)
      requires Valid()
      modifies this
      ensures State() == TickSpec(old(State()), old(Config()), now, got, setOk).state
      ensures applied == TickSpec(old(State()), old(Config()), now, got, setOk).applied && faulted == TickSpec(old(State()), old(Config()), now, got, setOk).faulted
      ensures Config() == old(Config()) && isInitialized == old(isInitialized)
      ensures Valid()
    {
      HandleReceived(got);
      applied, faulted := Advance(now, setOk);
    }

    /** The message-handling half of `Tick`. */
    method HandleReceived(got: Option<NetworkConfiguration>)
      requires Valid()
      modifies this
      ensures State() == HandleMessage(old(State()), old(Config()), got)
      ensures Config() == old(Config()) && isInitialized == old(isInitialized)
    {
      if |udpReceiveQueue| > 0 {
        var receivedMessage := udpReceiveQueue[0];
        udpReceiveQueue := udpReceiveQueue[1..];
        AnswerFindRequest(receivedMessage, got);
        AnswerConfRequest(receivedMessage);
      }
    }

    /** A `FINDReq=1;` datagram is answered when the get-collaborator
        reports a configuration. */
    method AnswerFindRequest(receivedMessage: RawMessage, got: Option<NetworkConfiguration>)
      modifies this
      ensures State() == AnswerFind(old(State()), old(Config()), receivedMessage, got)
      ensures Config() == old(Config()) && isInitialized == old(isInitialized)
    {
      if FindRequestPrefix <= receivedMessage.payload {
        if got.Some? {
          var responseMessage := FindReply(got.value, deviceName, serialNumber, actualStatus);
          udpSendQueue := udpSendQueue + [RawMessage(responseMessage, receivedMessage.endpoint)];
        }
      }
    }

    /** A `CONFReq` datagram addressed to this host. */
    method AnswerConfRequest(receivedMessage: RawMessage)
      modifies this
      ensures State() == AnswerConf(old(State()), old(Config()), receivedMessage)
      ensures Config() == old(Config()) && isInitialized == old(isInitialized)
    {
      if ConfRequestPrefix(hwAddress) <= receivedMessage.payload {
        var isOk, _, requestResult := TryFromRequestString(receivedMessage.payload);
        RecordConfRequest(receivedMessage, isOk, requestResult);
      }
    }

    /** What happens to a parsed configuration request: the parser's
        verdict `isOk` and message `requestResult` decide the reply. */
    method RecordConfRequest(receivedMessage: RawMessage, isOk: bool, requestResult: string)
      requires |receivedMessage.payload| >= 1
      modifies this
      ensures State() == AnswerParsed(old(State()), old(Config()), receivedMessage, isOk, requestResult)
      ensures Config() == old(Config()) && isInitialized == old(isInitialized)
    {
      if isOk {
        unansweredConfRequest := Some(receivedMessage);
      } else {
        udpSendQueue := udpSendQueue + [Reply(Config(), actualStatus, requestResult, receivedMessage.endpoint)];
      }
      if isOk {
        if actualStatus == Cooldown {
          udpSendQueue := udpSendQueue + [Reply(Config(), actualStatus, ErrCooldown, receivedMessage.endpoint)];
          unansweredConfRequest := None;
        }
        if actualStatus == AwaitingConfirmation {
          udpSendQueue := udpSendQueue + [Reply(Config(), actualStatus, ErrAwaiting, receivedMessage.endpoint)];
          unansweredConfRequest := None;
        }
      }
    }

    /** Applying the pending request, shared by the two branches that do
        it; `resetTarget` is whether a failure also resets the target. */
    method ApplyPending(now: int, setOk: bool, resetTarget: bool)
      returns (applied: Option<NetworkConfiguration>, faulted: bool)
      requires Valid()
      modifies this
      ensures State() == Apply(old(State()), old(Config()), now, setOk, resetTarget).state
      ensures applied == Apply(old(State()), old(Config()), now, setOk, resetTarget).applied && faulted == Apply(old(State()), old(Config()), now, setOk, resetTarget).faulted
      ensures Config() == old(Config()) && isInitialized == old(isInitialized)
    {
      if unansweredConfRequest.None? {
        return None, true;
      }
      var _, requestedNewConfiguration, _ := TryFromRequestString(unansweredConfRequest.value.payload);
      ReportApplication(now, setOk, resetTarget);
      return Some(requestedNewConfiguration), false;
    }

    /** The status change and the reply after the set-collaborator answered. */
    method ReportApplication(now: int, setOk: bool, resetTarget: bool)
      requires unansweredConfRequest.Some?
      modifies this
      ensures State() == Applied(old(State()), old(Config()), now, setOk, resetTarget)
      ensures Config() == old(Config()) && isInitialized == old(isInitialized)
    {
      var request := unansweredConfRequest.value;
      var requestResult;
      if setOk {
        cooldownEnd := now + cooldownTimeout;
        requestResult := Ok;
        actualStatus := Cooldown;
      } else {
        requestResult := ErrApply;
        actualStatus := Ready;
        if resetTarget {
          targetStatus := Ready;
        }
      }
      var responseMessage := ConfReply(hwAddress, actualStatus, requestResult);
      udpSendQueue := udpSendQueue + [RawMessage(responseMessage, request.endpoint)];
      unansweredConfRequest := None;
    }

    /** The transition chain of `Tick`: the branches are grouped by the
        actual status, which no branch tests after another has run. */
    method Advance(now: int, setOk: bool) returns (applied: Option<NetworkConfiguration>, faulted: bool)
      requires Valid()
      modifies this
      ensures State() == Transition(old(State()), old(Config()), now, setOk).state
      ensures applied == Transition(old(State()), old(Config()), now, setOk).applied && faulted == Transition(old(State()), old(Config()), now, setOk).faulted
      ensures Config() == old(Config()) && isInitialized == old(isInitialized)
    {
      applied, faulted := None, false;
      if actualStatus == Ready {
        applied, faulted := AdvanceFromReady(now, setOk);
      } else if actualStatus == AwaitingConfirmation {
        applied, faulted := AdvanceFromAwaiting(now, setOk);
      } else if actualStatus == Cooldown && targetStatus == Disabled {
        isReconfigurationEnabled := false;
        actualStatus := Disabled;
      } else if actualStatus == Cooldown && targetStatus == Cooldown {
        if now >= cooldownEnd {
          targetStatus := Ready;
        }
      } else if actualStatus == Cooldown && targetStatus == Ready {
        actualStatus := Ready;
      } else if actualStatus == Disabled && targetStatus == Ready {
        actualStatus := Ready;
        isReconfigurationEnabled := true;
      }
    }

    /** The four branches that start from `Ready`. */
    method AdvanceFromReady(now: int, setOk: bool) returns (applied: Option<NetworkConfiguration>, faulted: bool)
      requires Valid() && actualStatus == Ready
      modifies this
      ensures State() == Transition(old(State()), old(Config()), now, setOk).state
      ensures applied == Transition(old(State()), old(Config()), now, setOk).applied && faulted == Transition(old(State()), old(Config()), now, setOk).faulted
      ensures Config() == old(Config()) && isInitialized == old(isInitialized)
    {
      applied, faulted := None, false;
      if targetStatus == Ready {
        if isReconfigurationEnabled && unansweredConfRequest.Some? {
          if isConfirmationEnabled {
            targetStatus := AwaitingConfirmation;
          } else {
            targetStatus := Cooldown;
          }
        }
      } else if targetStatus == Cooldown {
        applied, faulted := ApplyPending(now, setOk, true);
      } else if targetStatus == AwaitingConfirmation {
        actualStatus := AwaitingConfirmation;
        confirmationEnd := now + confirmationTimeout;
      } else {
        isReconfigurationEnabled := false;
        actualStatus := Disabled;
      }
    }

    /** The three branches that start from `AwaitingConfirmation`. */
    method AdvanceFromAwaiting(now: int, setOk: bool) returns (applied: Option<NetworkConfiguration>, faulted: bool)
      requires Valid() && actualStatus == AwaitingConfirmation
      modifies this
      ensures State() == Transition(old(State()), old(Config()), now, setOk).state
      ensures applied == Transition(old(State()), old(Config()), now, setOk).applied && faulted == Transition(old(State()), old(Config()), now, setOk).faulted
      ensures Config() == old(Config()) && isInitialized == old(isInitialized)
    {
      applied, faulted := None, false;
      if targetStatus == AwaitingConfirmation {
        if now >= confirmationEnd {
          targetStatus := Ready;
        }
      } else if targetStatus == Cooldown {
        applied, faulted := ApplyPending(now, setOk, false);
      } else if targetStatus == Ready {
        actualStatus := Ready;
        if unansweredConfRequest.None? {
          return None, true;
        }
        var responseMessage := ConfReply(hwAddress, actualStatus, ErrTimeout);
        udpSendQueue := udpSendQueue + [RawMessage(responseMessage, unansweredConfRequest.value.endpoint)];
        unansweredConfRequest := None;
      }
    }

    /** `Confirm`; `false` stands for the `InvalidOperationException` thrown
        before `Initialize`. */
    method Confirm() returns (ok: bool)
      modifies this
      ensures ok == isInitialized && isInitialized == old(isInitialized)
      ensures State() == if ok then ConfirmTarget(old(State())) else old(State())
      ensures Config() == old(Config())
    {
      if !isInitialized {
        return false;
      }
      if actualStatus == AwaitingConfirmation {
        targetStatus := Cooldown;
      }
      return true;
    }

    /** `EnableReconfiguration`; `false` stands for the exception thrown
        before `Initialize`. */
    method EnableReconfiguration() returns (ok: bool)
      modifies this
      ensures ok == isInitialized && isInitialized == old(isInitialized)
      ensures State() == if ok then EnableTarget(old(State())) else old(State())
      ensures Config() == old(Config())
    {
      if !isInitialized {
        return false;
      }
      if actualStatus == Disabled {
        targetStatus := Ready;
      }
      return true;
    }

    /** `DisableReconfiguration`; `false` stands for the exception thrown
        before `Initialize`. */
    method DisableReconfiguration() returns (ok: bool)
      modifies this
      ensures ok == isInitialized && isInitialized == old(isInitialized)
      ensures State() == if ok then DisableTarget(old(State())) else old(State())
      ensures Config() == old(Config())
    {
      if !isInitialized {
        return false;
      }
      targetStatus := Disabled;
      return true;
    }
  }
}
