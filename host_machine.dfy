/** The LC-FIND host's state machine as functions of a state value: one
    `Tick` is the handling of at most one received datagram followed by
    exactly one branch of the transition chain. The class in `host.dfy`
    is proved to update its fields as these functions say. */
module HostMachine {
  import opened Wrappers
  import opened NetworkConfig
  import opened Protocol

  /** The receive queue holds at most this many datagrams. */
  const QueueCapacity: nat := 10

  /** `ConfirmationTimeout` and `CooldownTimeout`, in seconds. */
  const DefaultTimeout: int := 60

  const ErrCooldown := "Error-Host is in cooldown"
  const ErrAwaiting := "Error-Host is already awaiting confirmation"
  const ErrApply := "Error-Unable to set requested configuration"
  const ErrTimeout := "Error-Host did not confirm request in time"

  /** The fields `Tick` reads and writes. Times are whole seconds counted
      from 2020-01-01, the initial value of both deadlines; a `None` pending
      request is the null `_unansweredConfRequest`. */
  datatype HostState = HostState(
    actual: Status,
    target: Status,
    pending: Option<RawMessage>,
    confirmationEnd: int,
    cooldownEnd: int,
    isReconfigurationEnabled: bool,
    receiveQueue: seq<RawMessage>,
    sendQueue: seq<RawMessage>)

  /** The fields `Tick` only reads: `_hwAddress` and the public settings. */
  datatype Settings = Settings(
    hwAddress: string,
    deviceName: string,
    serialNumber: string,
    isConfirmationEnabled: bool,
    confirmationTimeout: int,
    cooldownTimeout: int)

  /** What one tick did: the new state, the configuration handed to the
      set-collaborator (if it was called), and whether the tick ended in a
      null dereference. In the code that exception cancels the shared token
      and ends all three tasks, so a faulted tick is the last one run;
      the model leaves stopping to its caller. */
  datatype Step = Step(state: HostState, applied: Option<NetworkConfiguration>, faulted: bool)

  /** Actual `Disabled`, target `Ready` (the enum's zero value), no pending
      request, both deadlines at the epoch, reconfiguration off, empty
      queues. */
  const InitialState := HostState(Disabled, Ready, None, 0, 0, false, [], [])

  /** The pending request can be handed to the parser again. */
  predicate Valid(s: HostState) {
    s.pending.Some? ==> |s.pending.value.payload| >= 1
  }

  /** The pending request is one the parser accepted. */
  predicate PendingAccepted(s: HostState)
    requires Valid(s)
  {
    s.pending.Some? ==> ParseRequest(s.pending.value.payload).isOk
  }

  /** A CONF reply to `endpoint`. */
  function Reply(c: Settings, status: Status, result: string, endpoint: Endpoint): RawMessage {
    RawMessage(ConfReply(c.hwAddress, status, result), endpoint)
  }

  function Send(s: HostState, m: RawMessage): HostState {
    s.(sendQueue := s.sendQueue + [m])
  }

  //----------------------------------------------------------------------
  // Message handling
  //----------------------------------------------------------------------

  /** A discovery request is answered with the configuration the
      get-collaborator reported, if it reported one. */
  function AnswerFind(s: HostState, c: Settings, m: RawMessage, got: Option<NetworkConfiguration>): (r: HostState)
    ensures r.pending == s.pending
  {
    if FindRequestPrefix <= m.payload && got.Some? then
      Send(s, RawMessage(FindReply(got.value, c.deviceName, c.serialNumber, s.actual), m.endpoint))
    else s
  }

  /** A configuration request for this host is parsed and then answered
      as `AnswerParsed` says. */
  function AnswerConf(s: HostState, c: Settings, m: RawMessage): (r: HostState)
    ensures Valid(s) ==> Valid(r)
  {
    if !(ConfRequestPrefix(c.hwAddress) <= m.payload) then s
    else AnswerParsed(s, c, m, ParseRequest(m.payload).isOk, ParseRequest(m.payload).errorMessage)
  }

  /** A request the parser refused (`isOk` false) is answered with its
      message `result`; an accepted one becomes the pending request, unless
      the host is cooling down or awaiting confirmation, when it is refused
      and the pending slot is emptied. */
  function AnswerParsed(s: HostState, c: Settings, m: RawMessage, isOk: bool, result: string): (r: HostState)
    requires |m.payload| >= 1
    ensures r.pending == s.pending || r.pending.None? || r.pending == Some(m)
  {
    if !isOk then Send(s, Reply(c, s.actual, result, m.endpoint))
    else if s.actual == Cooldown then Send(s.(pending := None), Reply(c, s.actual, ErrCooldown, m.endpoint))
    else if s.actual == AwaitingConfirmation then Send(s.(pending := None), Reply(c, s.actual, ErrAwaiting, m.endpoint))
    else s.(pending := Some(m))
  }

  /** The first half of `Tick`: dequeue at most one datagram and answer it. */
  function HandleMessage(s: HostState, c: Settings, got: Option<NetworkConfiguration>): (r: HostState)
    requires Valid(s)
    ensures Valid(r)
  {
    if |s.receiveQueue| == 0 then s
    else
      var m := s.receiveQueue[0];
      AnswerConf(AnswerFind(s.(receiveQueue := s.receiveQueue[1..]), c, m, got), c, m)
  }

  //----------------------------------------------------------------------
  // The transition chain
  //----------------------------------------------------------------------

  /** Applying the pending request: it is parsed again and handed to the
      set-collaborator, whose outcome is `setOk`. With no pending request
      the dereference faults before anything changes. */
  function Apply(s: HostState, c: Settings, now: int, setOk: bool, resetTarget: bool): (r: Step)
    requires Valid(s)
    ensures Valid(r.state)
  {
    if s.pending.None? then Step(s, None, true)
    else Step(Applied(s, c, now, setOk, resetTarget), Some(ParseRequest(s.pending.value.payload).config), false)
  }

  /** The state after an application attempt: the sender of the pending
      request gets one CONF reply carrying the status after the attempt,
      and the pending slot is emptied. */
  function Applied(s: HostState, c: Settings, now: int, setOk: bool, resetTarget: bool): (r: HostState)
    requires s.pending.Some?
    ensures r.pending.None?
    ensures r.receiveQueue == s.receiveQueue
    ensures s.sendQueue <= r.sendQueue && |r.sendQueue| == |s.sendQueue| + 1
  {
    var m := s.pending.value;
    var s1 := if setOk then s.(cooldownEnd := now + c.cooldownTimeout, actual := Cooldown)
              else s.(actual := Ready, target := if resetTarget then Ready else s.target);
    var result := if setOk then Ok else ErrApply;
    Send(s1, Reply(c, s1.actual, result, m.endpoint)).(pending := None)
  }

  /** The second half of `Tick`: the first branch of the else-if chain
      whose (actual, target) pair matches; pairs no branch names change
      nothing. */
  function Transition(s: HostState, c: Settings, now: int, setOk: bool): (r: Step)
    requires Valid(s)
    ensures Valid(r.state)
  {
    match (s.actual, s.target)
    case (Ready, Ready) =>
      if s.isReconfigurationEnabled && s.pending.Some? then
        Step(s.(target := if c.isConfirmationEnabled then AwaitingConfirmation else Cooldown), None, false)
      else Step(s, None, false)
    case (Ready, Cooldown) => Apply(s, c, now, setOk, true)
    case (Ready, AwaitingConfirmation) =>
      Step(s.(actual := AwaitingConfirmation, confirmationEnd := now + c.confirmationTimeout), None, false)
    case (Ready, Disabled) => Step(s.(isReconfigurationEnabled := false, actual := Disabled), None, false)
    case (AwaitingConfirmation, AwaitingConfirmation) =>
      Step(if now >= s.confirmationEnd then s.(target := Ready) else s, None, false)
    case (AwaitingConfirmation, Cooldown) => Apply(s, c, now, setOk, false)
    case (AwaitingConfirmation, Ready) =>
      var s1 := s.(actual := Ready);
      if s.pending.None? then Step(s1, None, true)
      else Step(Send(s1, Reply(c, Ready, ErrTimeout, s.pending.value.endpoint)).(pending := None), None, false)
    case (Cooldown, Disabled) => Step(s.(isReconfigurationEnabled := false, actual := Disabled), None, false)
    case (Cooldown, Cooldown) =>
      Step(if now >= s.cooldownEnd then s.(target := Ready) else s, None, false)
    case (Cooldown, Ready) => Step(s.(actual := Ready), None, false)
    case (Disabled, Ready) => Step(s.(actual := Ready, isReconfigurationEnabled := true), None, false)
    case _ => Step(s, None, false)
  }

  /** `Tick`: `now` stands for `DateTime.Now`, `got` for the
      get-collaborator (`None` when it returns false) and `setOk` for the
      set-collaborator's answer. */
  function TickSpec(s: HostState, c: Settings, now: int, got: Option<NetworkConfiguration>, setOk: bool): (r: Step)
    requires Valid(s)
    ensures Valid(r.state)
  {
    Transition(HandleMessage(s, c, got), c, now, setOk)
  }

  //----------------------------------------------------------------------
  // The control methods and the receive queue
  //----------------------------------------------------------------------

  /** `Confirm` on an initialised host. */
  function ConfirmTarget(s: HostState): HostState {
    if s.actual == AwaitingConfirmation then s.(target := Cooldown) else s
  }

  /** `EnableReconfiguration` on an initialised host. */
  function EnableTarget(s: HostState): HostState {
    if s.actual == Disabled then s.(target := Ready) else s
  }

  /** `DisableReconfiguration` on an initialised host. */
  function DisableTarget(s: HostState): HostState {
    s.(target := Disabled)
  }

  /** The receive task's step: enqueue, then drop the oldest entry when the
      queue holds more than `QueueCapacity`. */
  function Push(queue: seq<RawMessage>, m: RawMessage): seq<RawMessage> {
    var q := queue + [m];
    if |q| > QueueCapacity then q[1..] else q
  }
}
