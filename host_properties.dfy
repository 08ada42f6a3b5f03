/** What the host's state machine guarantees, and where it goes wrong:
    invariants a tick keeps, the effect of each kind of datagram, the
    timers, the control methods, the receive queue, and the tick sequences
    that end in a null dereference or leave the host stuck. */
module HostProperties {
  import opened Wrappers
  import opened NetworkConfig
  import opened Protocol
  import opened Devices
  import opened ProtocolProperties
  import opened HostMachine

  //----------------------------------------------------------------------
  // Message handling
  //----------------------------------------------------------------------

  /** Answering a discovery request only queues its reply. */
  lemma AnswerFindFrame(s: HostState, c: Settings, m: RawMessage, got: Option<NetworkConfiguration>)
    ensures var r := AnswerFind(s, c, m, got);
      r == s.(sendQueue := r.sendQueue)
      && s.sendQueue <= r.sendQueue && |r.sendQueue| <= |s.sendQueue| + 1
      && (FindRequestPrefix <= m.payload || r == s)
  {}

  /** Answering a configuration request queues at most one reply and
      writes only the pending slot, which it empties, keeps, or fills with
      this request when the parser accepts it. */
  lemma AnswerConfFrame(s: HostState, c: Settings, m: RawMessage)
    ensures var r := AnswerConf(s, c, m);
      r == s.(sendQueue := r.sendQueue, pending := r.pending)
      && s.sendQueue <= r.sendQueue && |r.sendQueue| <= |s.sendQueue| + 1
      && (ConfRequestPrefix(c.hwAddress) <= m.payload || r == s)
      && (r.pending == s.pending || r.pending.None?
          || (r.pending == Some(m) && |m.payload| >= 1 && ParseRequest(m.payload).isOk))
  {
    if ConfRequestPrefix(c.hwAddress) <= m.payload {
      var outcome := ParseRequest(m.payload);
      if outcome.isOk && s.actual != Cooldown && s.actual != AwaitingConfirmation {
        assert AnswerConf(s, c, m) == s.(pending := Some(m));
      }
    }
  }

  /** Message handling never touches the statuses, the deadlines or the
      reconfiguration flag; it consumes exactly one datagram when there is
      one, and queues at most one reply. */
  lemma HandleMessageFrame(s: HostState, c: Settings, got: Option<NetworkConfiguration>)
    requires Valid(s)
    ensures var r := HandleMessage(s, c, got);
      r.actual == s.actual && r.target == s.target
      && r.confirmationEnd == s.confirmationEnd && r.cooldownEnd == s.cooldownEnd
      && r.isReconfigurationEnabled == s.isReconfigurationEnabled
      && r.receiveQueue == (if |s.receiveQueue| == 0 then [] else s.receiveQueue[1..])
      && s.sendQueue <= r.sendQueue && |r.sendQueue| <= |s.sendQueue| + 1
  {
    if |s.receiveQueue| > 0 {
      var m := s.receiveQueue[0];
      var s1 := s.(receiveQueue := s.receiveQueue[1..]);
      AnswerFindFrame(s1, c, m, got);
      var f := AnswerFind(s1, c, m, got);
      AnswerConfFrame(f, c, m);
      if ConfRequestPrefix(c.hwAddress) <= m.payload {
        ConfRequestNotFind(m.payload, c.hwAddress);
      }
    } else {
      assert s.receiveQueue == [];
    }
  }

  /** A discovery request is answered in every state, with the reported
      configuration and the status at that moment, to its sender; when the
      get-collaborator fails nothing is sent. Nothing else changes. */
  lemma FindAnswered(s: HostState, c: Settings, got: Option<NetworkConfiguration>)
    requires Valid(s) && |s.receiveQueue| > 0
    requires FindRequestPrefix <= s.receiveQueue[0].payload
    ensures var m := s.receiveQueue[0];
      var rest := s.(receiveQueue := s.receiveQueue[1..]);
      HandleMessage(s, c, got)
      == if got.Some? then rest.(sendQueue := s.sendQueue + [RawMessage(FindReply(got.value, c.deviceName, c.serialNumber, s.actual), m.endpoint)])
         else rest
  {
    var m := s.receiveQueue[0];
    if ConfRequestPrefix(c.hwAddress) <= m.payload {
      ConfRequestNotFind(m.payload, c.hwAddress);
    }
  }

  /** Message handling does not read the reconfiguration flag: FIND (and
      every other datagram) is handled the same with it on or off. */
  lemma HandlingIgnoresReconfigurationFlag(s: HostState, c: Settings, got: Option<NetworkConfiguration>, flag: bool)
    requires Valid(s)
    ensures HandleMessage(s.(isReconfigurationEnabled := flag), c, got)
         == HandleMessage(s, c, got).(isReconfigurationEnabled := flag)
  {
    if |s.receiveQueue| > 0 {
      var m := s.receiveQueue[0];
      var s1 := s.(receiveQueue := s.receiveQueue[1..]);
      var t1 := s.(isReconfigurationEnabled := flag).(receiveQueue := s.receiveQueue[1..]);
      assert t1 == s1.(isReconfigurationEnabled := flag);
      AnswerFindIgnoresFlag(s1, c, m, got, flag);
      AnswerConfIgnoresFlag(AnswerFind(s1, c, m, got), c, m, flag);
    }
  }

  lemma AnswerFindIgnoresFlag(s: HostState, c: Settings, m: RawMessage, got: Option<NetworkConfiguration>, flag: bool)
    ensures AnswerFind(s.(isReconfigurationEnabled := flag), c, m, got)
         == AnswerFind(s, c, m, got).(isReconfigurationEnabled := flag)
  {}

  lemma AnswerConfIgnoresFlag(s: HostState, c: Settings, m: RawMessage, flag: bool)
    ensures AnswerConf(s.(isReconfigurationEnabled := flag), c, m)
         == AnswerConf(s, c, m).(isReconfigurationEnabled := flag)
  {}

  /** A configuration request the parser rejects gets one reply carrying
      the parser's error, and the statuses and any pending request stay. */
  lemma MalformedConfAnswered(s: HostState, c: Settings, got: Option<NetworkConfiguration>)
    requires Valid(s) && |s.receiveQueue| > 0
    requires ConfRequestPrefix(c.hwAddress) <= s.receiveQueue[0].payload
    requires !ParseRequest(s.receiveQueue[0].payload).isOk
    ensures var m := s.receiveQueue[0];
      HandleMessage(s, c, got)
      == s.(receiveQueue := s.receiveQueue[1..],
            sendQueue := s.sendQueue + [Reply(c, s.actual, ParseRequest(m.payload).errorMessage, m.endpoint)])
  {
    ConfRequestNotFind(s.receiveQueue[0].payload, c.hwAddress);
  }

  /** A configuration request the parser accepts becomes the pending
      request, replacing any earlier one, silently when the host is Ready
      or Disabled; in Cooldown and AwaitingConfirmation it is refused and
      the pending slot is emptied. */
  lemma ValidConfHandled(s: HostState, c: Settings, got: Option<NetworkConfiguration>)
    requires Valid(s) && |s.receiveQueue| > 0
    requires ConfRequestPrefix(c.hwAddress) <= s.receiveQueue[0].payload
    requires ParseRequest(s.receiveQueue[0].payload).isOk
    ensures var m := s.receiveQueue[0];
      var r := HandleMessage(s, c, got);
      r.pending == (if s.actual == Ready || s.actual == Disabled then Some(m) else None)
      && r.sendQueue == s.sendQueue + (if s.actual == Cooldown then [Reply(c, Cooldown, ErrCooldown, m.endpoint)]
                                       else if s.actual == AwaitingConfirmation then [Reply(c, AwaitingConfirmation, ErrAwaiting, m.endpoint)]
                                       else [])
  {
    ConfRequestNotFind(s.receiveQueue[0].payload, c.hwAddress);
  }

  //----------------------------------------------------------------------
  // Invariants of a tick
  //----------------------------------------------------------------------

  /** A tick consumes at most one datagram and queues at most two replies,
      never removing one. */
  lemma TickQueues(s: HostState, c: Settings, now: int, got: Option<NetworkConfiguration>, setOk: bool)
    requires Valid(s)
    ensures var r := TickSpec(s, c, now, got, setOk).state;
      r.receiveQueue == (if |s.receiveQueue| == 0 then [] else s.receiveQueue[1..])
      && s.sendQueue <= r.sendQueue && |r.sendQueue| <= |s.sendQueue| + 2
  {
    HandleMessageFrame(s, c, got);
    TransitionFrame(HandleMessage(s, c, got), c, now, setOk);
  }

  /** A transition leaves the receive queue alone, queues at most one reply
      and either keeps the pending request or drops it. */
  lemma TransitionFrame(s: HostState, c: Settings, now: int, setOk: bool)
    requires Valid(s)
    ensures var r := Transition(s, c, now, setOk).state;
      r.receiveQueue == s.receiveQueue
      && s.sendQueue <= r.sendQueue && |r.sendQueue| <= |s.sendQueue| + 1
      && (r.pending == s.pending || r.pending.None?)
  {
    match (s.actual, s.target)
    case (Ready, Cooldown) =>
    case (AwaitingConfirmation, Cooldown) =>
    case (AwaitingConfirmation, Ready) =>
    case _ =>
  }

  /** The pending request, when there is one, is always one the parser
      accepted, so re-parsing it when applying yields its configuration. */
  lemma TickKeepsPendingAccepted(s: HostState, c: Settings, now: int, got: Option<NetworkConfiguration>, setOk: bool)
    requires Valid(s) && PendingAccepted(s)
    ensures PendingAccepted(TickSpec(s, c, now, got, setOk).state)
  {
    if |s.receiveQueue| > 0 {
      var m := s.receiveQueue[0];
      var s1 := s.(receiveQueue := s.receiveQueue[1..]);
      AnswerFindFrame(s1, c, m, got);
      AnswerConfFrame(AnswerFind(s1, c, m, got), c, m);
    }
    HandleMessageFrame(s, c, got);
    TransitionFrame(HandleMessage(s, c, got), c, now, setOk);
  }

  /** The reconfiguration flag is on exactly when the host is not Disabled. */
  predicate FlagMatchesStatus(s: HostState) {
    s.isReconfigurationEnabled <==> s.actual != Disabled
  }

  lemma InitialFlagMatches()
    ensures FlagMatchesStatus(InitialState) && Valid(InitialState) && PendingAccepted(InitialState)
  {}

  /** Every tick keeps the flag in step with the status: only the branches
      into and out of Disabled write it. */
  lemma TickKeepsFlag(s: HostState, c: Settings, now: int, got: Option<NetworkConfiguration>, setOk: bool)
    requires Valid(s) && FlagMatchesStatus(s)
    ensures FlagMatchesStatus(TickSpec(s, c, now, got, setOk).state)
  {
    HandleMessageFrame(s, c, got);
  }

  //----------------------------------------------------------------------
  // Start-up
  //----------------------------------------------------------------------

  /** The target starts at Ready, the enum's zero value, so the first tick
      leaves Disabled and turns reconfiguration on without any call to
      `EnableReconfiguration`, whatever datagram it handles. */
  lemma FirstTickEnables(q: seq<RawMessage>, c: Settings, now: int, got: Option<NetworkConfiguration>, setOk: bool)
    ensures var r := TickSpec(InitialState.(receiveQueue := q), c, now, got, setOk);
      !r.faulted && r.applied.None? && r.state.actual == Ready && r.state.target == Ready
      && r.state.isReconfigurationEnabled
  {
    HandleMessageFrame(InitialState.(receiveQueue := q), c, got);
  }

  //----------------------------------------------------------------------
  // Requests and their application
  //----------------------------------------------------------------------

  /** In (Ready, Ready) a pending request is taken up only when
      reconfiguration is enabled: the target becomes AwaitingConfirmation
      or Cooldown as confirmation is required or not. */
  lemma ReadyTakesRequest(s: HostState, c: Settings, now: int, setOk: bool)
    requires Valid(s) && s.actual == Ready && s.target == Ready
    ensures var r := Transition(s, c, now, setOk);
      !r.faulted && r.applied.None? && r.state.actual == Ready
      && r.state.target == (if s.isReconfigurationEnabled && s.pending.Some? then
                              (if c.isConfirmationEnabled then AwaitingConfirmation else Cooldown)
                            else Ready)
      && r.state.pending == s.pending
  {}

  /** Applying from (Ready, Cooldown): the set-collaborator gets the
      configuration the pending request parses to; on success the host
      cools down until `now + CooldownTimeout` and replies "Ok", on failure
      both statuses return to Ready; either way the sender gets exactly
      one reply and the slot is emptied. */
  lemma ApplyFromReady(s: HostState, c: Settings, now: int, setOk: bool)
    requires Valid(s) && s.actual == Ready && s.target == Cooldown && s.pending.Some?
    ensures var m := s.pending.value;
      var r := Transition(s, c, now, setOk);
      !r.faulted && r.applied == Some(ParseRequest(m.payload).config) && r.state.pending.None?
      && (setOk ==> r.state.actual == Cooldown && r.state.target == Cooldown && r.state.cooldownEnd == now + c.cooldownTimeout)
      && (!setOk ==> r.state.actual == Ready && r.state.target == Ready && r.state.cooldownEnd == s.cooldownEnd)
      && r.state.sendQueue == s.sendQueue + [Reply(c, r.state.actual, if setOk then Ok else ErrApply, m.endpoint)]
  {}

  /** The reply to an application reports the status after it: Cooldown
      after a success and Ready after a failure, together with the host's
      MAC address, as a client decodes it. */
  lemma ApplyReplyDecodes(s: HostState, c: Settings, now: int, setOk: bool)
    requires Valid(s) && s.actual == Ready && s.target == Cooldown && s.pending.Some?
    requires Clean(c.hwAddress)
    ensures var r := Transition(s, c, now, setOk).state;
      |r.sendQueue| > 0
      && FromString(r.sendQueue[|r.sendQueue| - 1].payload)
         == DeviceDescription("", c.hwAddress, "", "", "", "", "", if setOk then "Cooldown" else "Ready")
  {
    ApplyFromReady(s, c, now, setOk);
    var status := if setOk then Cooldown else Ready;
    var result := if setOk then Ok else ErrApply;
    ConfReplyRoundTrip(c.hwAddress, status, result);
  }

  /** A confirmed request in (AwaitingConfirmation, Cooldown) is applied
      the same way, except that a failure leaves the target at Cooldown. */
  lemma ApplyAfterConfirmation(s: HostState, c: Settings, now: int, setOk: bool)
    requires Valid(s) && s.actual == AwaitingConfirmation && s.target == Cooldown && s.pending.Some?
    ensures var m := s.pending.value;
      var r := Transition(s, c, now, setOk);
      !r.faulted && r.applied == Some(ParseRequest(m.payload).config) && r.state.pending.None?
      && r.state.actual == (if setOk then Cooldown else Ready) && r.state.target == Cooldown
      && r.state.sendQueue == s.sendQueue + [Reply(c, r.state.actual, if setOk then Ok else ErrApply, m.endpoint)]
  {}

  //----------------------------------------------------------------------
  // Timers
  //----------------------------------------------------------------------

  /** The confirmation timer: in (AwaitingConfirmation, AwaitingConfirmation)
      the target falls back to Ready exactly when the deadline has passed;
      the deadline was set when the host entered AwaitingConfirmation. */
  lemma ConfirmationTimer(s: HostState, c: Settings, now: int, setOk: bool)
    requires Valid(s) && s.actual == AwaitingConfirmation && s.target == AwaitingConfirmation
    ensures Transition(s, c, now, setOk)
         == Step(if now >= s.confirmationEnd then s.(target := Ready) else s, None, false)
  {}

  lemma ConfirmationDeadline(s: HostState, c: Settings, now: int, setOk: bool)
    requires Valid(s) && s.actual == Ready && s.target == AwaitingConfirmation
    ensures var r := Transition(s, c, now, setOk).state;
      r.actual == AwaitingConfirmation && r.confirmationEnd == now + c.confirmationTimeout
  {}

  /** After the timeout the sender is told so and the host is Ready again. */
  lemma ConfirmationExpired(s: HostState, c: Settings, now: int, setOk: bool)
    requires Valid(s) && s.actual == AwaitingConfirmation && s.target == Ready && s.pending.Some?
    ensures Transition(s, c, now, setOk)
         == Step(s.(actual := Ready, pending := None,
                    sendQueue := s.sendQueue + [Reply(c, Ready, ErrTimeout, s.pending.value.endpoint)]), None, false)
  {}

  /** The cooldown timer: two ticks with nothing received, the first after
      the deadline, bring the host from (Cooldown, Cooldown) back to Ready;
      before the deadline it stays. */
  lemma CooldownExpires(s: HostState, c: Settings, now1: int, now2: int, got: Option<NetworkConfiguration>, setOk: bool)
    requires Valid(s) && s.actual == Cooldown && s.target == Cooldown && |s.receiveQueue| == 0
    ensures var r1 := TickSpec(s, c, now1, got, setOk).state;
      var r2 := TickSpec(r1, c, now2, got, setOk).state;
      (now1 >= s.cooldownEnd ==> r1.target == Ready && r2.actual == Ready && r2.target == Ready)
      && (now1 < s.cooldownEnd ==> r1 == s)
  {
    var r1 := TickSpec(s, c, now1, got, setOk).state;
    assert HandleMessage(s, c, got) == s;
    assert r1.receiveQueue == [];
    assert HandleMessage(r1, c, got) == r1;
  }

  //----------------------------------------------------------------------
  // A request from arrival to answer
  //----------------------------------------------------------------------

  /** Without confirmation, a valid request to a ready host becomes the
      pending request and is scheduled on the tick that reads it, and is
      applied exactly once, with one reply to its sender, on the next. */
  lemma RequestAppliedOnSecondTick(s: HostState, c: Settings, now1: int, now2: int, got: Option<NetworkConfiguration>, setOk: bool)
    requires Valid(s) && s.actual == Ready && s.target == Ready && s.isReconfigurationEnabled
    requires !c.isConfirmationEnabled && |s.receiveQueue| == 1
    requires ConfRequestPrefix(c.hwAddress) <= s.receiveQueue[0].payload
    requires ParseRequest(s.receiveQueue[0].payload).isOk
    ensures var m := s.receiveQueue[0];
      var r1 := TickSpec(s, c, now1, got, setOk);
      var r2 := TickSpec(r1.state, c, now2, got, setOk);
      !r1.faulted && r1.applied.None? && r1.state.target == Cooldown && r1.state.pending == Some(m)
      && !r2.faulted && r2.applied == Some(ParseRequest(m.payload).config) && r2.state.pending.None?
      && r2.state.actual == (if setOk then Cooldown else Ready)
      && r2.state.sendQueue == r1.state.sendQueue + [Reply(c, r2.state.actual, if setOk then Ok else ErrApply, m.endpoint)]
  {
    ValidConfHandled(s, c, got);
    HandleMessageFrame(s, c, got);
    var h := HandleMessage(s, c, got);
    assert h.receiveQueue == [];
    ReadyTakesRequest(h, c, now1, setOk);
    var r1 := TickSpec(s, c, now1, got, setOk).state;
    assert HandleMessage(r1, c, got) == r1;
    ApplyFromReady(r1, c, now2, setOk);
  }

  /** With confirmation and no `Confirm`, the request waits for the
      confirmation timeout and is then answered with the timeout error,
      and nothing is applied. */
  lemma UnconfirmedRequestTimesOut(s: HostState, c: Settings, now1: int, now2: int, now3: int, now4: int,
                                   got: Option<NetworkConfiguration>, setOk: bool)
    requires Valid(s) && s.actual == Ready && s.target == Ready && s.isReconfigurationEnabled
    requires c.isConfirmationEnabled && |s.receiveQueue| == 1
    requires ConfRequestPrefix(c.hwAddress) <= s.receiveQueue[0].payload
    requires ParseRequest(s.receiveQueue[0].payload).isOk
    requires now3 >= now2 + c.confirmationTimeout
    ensures var m := s.receiveQueue[0];
      var r1 := TickSpec(s, c, now1, got, setOk);
      var r2 := TickSpec(r1.state, c, now2, got, setOk);
      var r3 := TickSpec(r2.state, c, now3, got, setOk);
      var r4 := TickSpec(r3.state, c, now4, got, setOk);
      r1.state.target == AwaitingConfirmation && r1.state.pending == Some(m)
      && r2.state.actual == AwaitingConfirmation && r2.state.confirmationEnd == now2 + c.confirmationTimeout
      && r3.state.target == Ready && r3.state.pending == Some(m)
      && r4.state.actual == Ready && r4.state.pending.None?
      && r4.state.sendQueue == r3.state.sendQueue + [Reply(c, Ready, ErrTimeout, m.endpoint)]
      && !r1.faulted && !r2.faulted && !r3.faulted && !r4.faulted
      && r1.applied.None? && r2.applied.None? && r3.applied.None? && r4.applied.None?
  {
    ValidConfHandled(s, c, got);
    HandleMessageFrame(s, c, got);
    var h := HandleMessage(s, c, got);
    assert h.receiveQueue == [];
    ReadyTakesRequest(h, c, now1, setOk);
    var r1 := TickSpec(s, c, now1, got, setOk).state;
    assert HandleMessage(r1, c, got) == r1;
    ConfirmationDeadline(r1, c, now2, setOk);
    var r2 := TickSpec(r1, c, now2, got, setOk).state;
    assert HandleMessage(r2, c, got) == r2;
    ConfirmationTimer(r2, c, now3, setOk);
    var r3 := TickSpec(r2, c, now3, got, setOk).state;
    assert HandleMessage(r3, c, got) == r3;
    ConfirmationExpired(r3, c, now4, setOk);
  }

  //----------------------------------------------------------------------
  // Defects
  //----------------------------------------------------------------------

  /** While the host awaits confirmation, a second valid request empties
      the pending slot, which held the request being confirmed. After that
      both ways out of AwaitingConfirmation dereference the empty slot: a
      confirmation faults on the next tick, and an expired timer faults one
      tick after it expires. */
  lemma SecondRequestLosesPending(s: HostState, c: Settings, now1: int, now2: int, got: Option<NetworkConfiguration>, setOk: bool)
    requires Valid(s) && s.actual == AwaitingConfirmation && s.target == AwaitingConfirmation && s.pending.Some?
    requires |s.receiveQueue| == 1
    requires ConfRequestPrefix(c.hwAddress) <= s.receiveQueue[0].payload
    requires ParseRequest(s.receiveQueue[0].payload).isOk
    ensures var r1 := TickSpec(s, c, now1, got, setOk);
      !r1.faulted && r1.state.pending.None? && r1.state.actual == AwaitingConfirmation
      && (now1 < s.confirmationEnd ==> TickSpec(ConfirmTarget(r1.state), c, now2, got, setOk).faulted)
      && (now1 >= s.confirmationEnd ==> TickSpec(r1.state, c, now2, got, setOk).faulted)
  {
    ValidConfHandled(s, c, got);
    HandleMessageFrame(s, c, got);
    var h := HandleMessage(s, c, got);
    assert h.receiveQueue == [];
    var r1 := TickSpec(s, c, now1, got, setOk).state;
    assert r1.receiveQueue == [];
    assert HandleMessage(ConfirmTarget(r1), c, got) == ConfirmTarget(r1);
    assert HandleMessage(r1, c, got) == r1;
  }

  /** A failed application after confirmation leaves (Ready, Cooldown) with
      no pending request, so the next tick dereferences the empty slot. */
  lemma FailedApplyAfterConfirmationFaults(s: HostState, c: Settings, now1: int, now2: int, got: Option<NetworkConfiguration>, setOk: bool)
    requires Valid(s) && s.actual == AwaitingConfirmation && s.target == Cooldown && s.pending.Some?
    requires |s.receiveQueue| == 0
    ensures var r1 := TickSpec(s, c, now1, got, false);
      !r1.faulted && r1.state.actual == Ready && r1.state.target == Cooldown && r1.state.pending.None?
      && TickSpec(r1.state, c, now2, got, setOk).faulted
  {
    assert HandleMessage(s, c, got) == s;
    ApplyAfterConfirmation(s, c, now1, false);
    var r1 := TickSpec(s, c, now1, got, false).state;
    assert HandleMessage(r1, c, got) == r1;
  }

  /** No branch names (AwaitingConfirmation, Disabled): a disable request
      while awaiting confirmation freezes the host with no timeout, and
      `EnableReconfiguration` cannot undo it; only `Confirm` moves it. */
  lemma DisabledWhileAwaitingIsStuck(s: HostState, c: Settings, now: int, setOk: bool)
    requires Valid(s) && s.actual == AwaitingConfirmation && s.target == Disabled
    ensures Transition(s, c, now, setOk) == Step(s, None, false)
    ensures Transition(EnableTarget(s), c, now, setOk) == Step(s, None, false)
  {}

  //----------------------------------------------------------------------
  // The control methods
  //----------------------------------------------------------------------

  /** The three control methods write only the target, and each is
      idempotent. */
  lemma ControlsWriteOnlyTarget(s: HostState)
    ensures ConfirmTarget(s) == s.(target := ConfirmTarget(s).target)
    ensures EnableTarget(s) == s.(target := EnableTarget(s).target)
    ensures DisableTarget(s) == s.(target := Disabled)
    ensures ConfirmTarget(ConfirmTarget(s)) == ConfirmTarget(s)
    ensures EnableTarget(EnableTarget(s)) == EnableTarget(s)
    ensures DisableTarget(DisableTarget(s)) == DisableTarget(s)
  {}

  /** `Confirm` has an effect only while awaiting confirmation, and
      `EnableReconfiguration` only while Disabled. */
  lemma ControlsAct(s: HostState)
    ensures ConfirmTarget(s).target == (if s.actual == AwaitingConfirmation then Cooldown else s.target)
    ensures EnableTarget(s).target == (if s.actual == Disabled then Ready else s.target)
  {}

  /** Enabling a Disabled host makes it Ready one tick later. */
  lemma EnableTakesOneTick(s: HostState, c: Settings, now: int, got: Option<NetworkConfiguration>, setOk: bool)
    requires Valid(s) && s.actual == Disabled
    ensures var r := TickSpec(EnableTarget(s), c, now, got, setOk).state;
      r.actual == Ready && r.isReconfigurationEnabled
  {
    HandleMessageFrame(EnableTarget(s), c, got);
  }

  /** Enabling does not cancel a disable request that has not been
      processed yet: the host still goes Disabled. */
  lemma EnableDoesNotCancelDisable(s: HostState, c: Settings, now: int, got: Option<NetworkConfiguration>, setOk: bool)
    requires Valid(s) && s.actual == Ready
    ensures var r := TickSpec(EnableTarget(DisableTarget(s)), c, now, got, setOk).state;
      r.actual == Disabled && !r.isReconfigurationEnabled
  {
    HandleMessageFrame(DisableTarget(s), c, got);
  }

  /** A pending request survives disabling: the host goes Disabled with the
      request still held, and once re-enabled it takes the request up. */
  lemma PendingSurvivesDisable(s: HostState, c: Settings, now1: int, now2: int, now3: int, got: Option<NetworkConfiguration>, setOk: bool)
    requires Valid(s) && s.actual == Ready && s.target == Ready && s.pending.Some?
    requires |s.receiveQueue| == 0
    ensures var r1 := TickSpec(DisableTarget(s), c, now1, got, setOk).state;
      var r2 := TickSpec(EnableTarget(r1), c, now2, got, setOk).state;
      var r3 := TickSpec(r2, c, now3, got, setOk).state;
      r1.actual == Disabled && r1.pending == s.pending
      && r2.actual == Ready && r2.isReconfigurationEnabled && r2.pending == s.pending
      && r3.target == (if c.isConfirmationEnabled then AwaitingConfirmation else Cooldown)
  {
    var d := DisableTarget(s);
    assert HandleMessage(d, c, got) == d;
    var r1 := TickSpec(d, c, now1, got, setOk).state;
    assert HandleMessage(EnableTarget(r1), c, got) == EnableTarget(r1);
    var r2 := TickSpec(EnableTarget(r1), c, now2, got, setOk).state;
    assert HandleMessage(r2, c, got) == r2;
  }

  //----------------------------------------------------------------------
  // The receive queue
  //----------------------------------------------------------------------

  /** The receive queue never grows beyond ten entries; the newest datagram
      is always kept, last; when the queue was full exactly the oldest is
      dropped, and otherwise nothing is. */
  lemma PushKeepsNewest(queue: seq<RawMessage>, m: RawMessage)
    ensures var r := Push(queue, m);
      (|queue| <= QueueCapacity ==> |r| <= QueueCapacity)
      && |r| > 0 && r[|r| - 1] == m
      && (|queue| < QueueCapacity ==> r == queue + [m])
      && (|queue| >= QueueCapacity ==> r == queue[1..] + [m])
  {
    if |queue| >= QueueCapacity {
      assert (queue + [m])[1..] == queue[1..] + [m];
    }
  }

  /** Pushing is all the receive queue sees besides the tick's dequeue: a
      queue kept within capacity by every push stays within capacity. */
  lemma PushesStayBounded(queue: seq<RawMessage>, ms: seq<RawMessage>)
    requires |queue| <= QueueCapacity
    ensures |PushAll(queue, ms)| <= QueueCapacity
    decreases |ms|
  {
    if |ms| > 0 {
      PushKeepsNewest(queue, ms[0]);
      PushesStayBounded(Push(queue, ms[0]), ms[1..]);
    }
  }

  function PushAll(queue: seq<RawMessage>, ms: seq<RawMessage>): seq<RawMessage>
    decreases |ms|
  {
    if |ms| == 0 then queue else PushAll(Push(queue, ms[0]), ms[1..])
  }
}
