/**
 What the session controller guarantees, proved about the transitions of
 RobotSpec: first event by event, then over whole sequences of events.
 */
module RobotProperties {
  import opened Ble
  import opened RobotSpec

  // ------------------------------------------------------- single events

  /** A power-state event scans exactly when the radio is on and changes no field. */
  lemma PowerOnScans(r: Robot, state: RadioState)
    ensures OnUpdateState(r, state).next == r
    ensures OnUpdateState(r, state).issued == [ScanForPeripherals] <==> state == PoweredOn
    ensures state != PoweredOn ==> OnUpdateState(r, state).issued == []
  {
  }

  /** Discovery is filtered on the exact advertised name: a nameless or other
      peripheral changes nothing; the named one is bound and scanning stops
      before the connect is issued. */
  lemma DiscoveryFiltersOnName(cfg: Config, r: Robot, p: PeripheralId, name: Option<string>)
    ensures name != Some(cfg.peripheralName) ==> OnDiscover(cfg, r, p, name) == Transition(r, [])
    ensures name == Some(cfg.peripheralName) ==>
      OnDiscover(cfg, r, p, name).issued == [StopScan, Connect(p)] &&
      OnDiscover(cfg, r, p, name).next == r.(legoPer := Some(p))
  {
  }

  /** A connected event marks the controller connected and asks the connected
      peripheral for the UART service alone; no other field changes. */
  lemma ConnectDiscoversUart(r: Robot, p: PeripheralId)
    ensures OnConnect(r, p).next.isConnected
    ensures OnConnect(r, p).next.(isConnected := r.isConnected) == r
    ensures OnConnect(r, p).issued == [DiscoverServices(p, [UartServiceUuid])]
  {
  }

  /** Only a disconnect of the bound peer counts: it clears the connected flag,
      keeps peer and handles bound, and scans again. Any other is ignored. */
  lemma DisconnectGuardsStalePeer(r: Robot, p: PeripheralId)
    ensures r.legoPer == Some(p) ==>
      OnDisconnect(r, p).next == r.(isConnected := false) &&
      OnDisconnect(r, p).issued == [ScanForPeripherals]
    ensures r.legoPer != Some(p) ==> OnDisconnect(r, p) == Transition(r, [])
  {
  }

  /** The services plan is one characteristic discovery per service, in order. */
  lemma {:induction false} ServicesPlanOnePerService(p: PeripheralId, services: seq<ServiceId>)
    ensures |ServicesPlan(p, services)| == |services|
    ensures forall i :: 0 <= i < |services| ==>
      ServicesPlan(p, services)[i] == DiscoverCharacteristics(p, services[i])
  {
    if services != [] {
      ServicesPlanOnePerService(p, services[..|services| - 1]);
    }
  }

  /** A services event with an error or without services issues nothing; in
      every case no field changes. */
  lemma ServicesDiscoveredIssues(r: Robot, p: PeripheralId, services: Option<seq<ServiceId>>, error: Option<string>)
    ensures OnDiscoverServices(r, p, services, error).next == r
    ensures error.Some? || services.None? ==> OnDiscoverServices(r, p, services, error).issued == []
    ensures error.None? && services.Some? ==>
      |OnDiscoverServices(r, p, services, error).issued| == |services.value| &&
      forall i :: 0 <= i < |services.value| ==>
        OnDiscoverServices(r, p, services, error).issued[i] == DiscoverCharacteristics(p, services.value[i])
  {
    if error.None? && services.Some? {
      ServicesPlanOnePerService(p, services.value);
    }
  }

  /** The directives of a characteristics event, read front to back: the
      group of each characteristic in list order, whatever was bound before. */
  function Groups(cfg: Config, p: PeripheralId, cs: seq<Characteristic>): seq<Directive>
  {
    if cs == [] then [] else DirectivesFor(cfg, p, cs[0]) + Groups(cfg, p, cs[1..])
  }

  lemma {:induction false} GroupsAppend(cfg: Config, p: PeripheralId, cs: seq<Characteristic>, c: Characteristic)
    ensures Groups(cfg, p, cs + [c]) == Groups(cfg, p, cs) + DirectivesFor(cfg, p, c)
  {
    if cs == [] {
      assert (cs + [c])[1..] == [];
    } else {
      assert (cs + [c])[0] == cs[0];
      assert (cs + [c])[1..] == cs[1..] + [c];
      GroupsAppend(cfg, p, cs[1..], c);
    }
  }

  /** The loop issues each characteristic's group in list order, and what it
      issues does not depend on the RX/TX bindings it starts from. */
  lemma {:induction false} MatchIssuesGroupsInOrder(cfg: Config, p: PeripheralId, cs: seq<Characteristic>,
                                                     rx: Option<Characteristic>, tx: Option<Characteristic>)
    ensures MatchCharacteristics(cfg, p, cs, rx, tx).issued == Groups(cfg, p, cs)
  {
    if cs != [] {
      var front, c := cs[..|cs| - 1], cs[|cs| - 1];
      MatchIssuesGroupsInOrder(cfg, p, front, rx, tx);
      GroupsAppend(cfg, p, front, c);
      assert front + [c] == cs;
    }
  }

  /** Every discovered characteristic gets its descriptors discovered; only
      those with the RX UUID are subscribed to and read. */
  lemma {:induction false} GroupsCoverCharacteristics(cfg: Config, p: PeripheralId, cs: seq<Characteristic>, c: Characteristic)
    ensures DiscoverDescriptors(p, c) in Groups(cfg, p, cs) <==> c in cs
    ensures SetNotifyValue(p, true, c) in Groups(cfg, p, cs) <==> c in cs && c.uuid == cfg.rxUuid
    ensures ReadValue(p, c) in Groups(cfg, p, cs) <==> c in cs && c.uuid == cfg.rxUuid
    ensures forall d :: d in Groups(cfg, p, cs) ==> d.SetNotifyValue? || d.ReadValue? || d.DiscoverDescriptors?
  {
    if cs != [] {
      GroupsCoverCharacteristics(cfg, p, cs[1..], c);
      assert cs == [cs[0]] + cs[1..];
    }
  }

  /** k is the position of the last characteristic advertising u. */
  predicate IsLastWith(cs: seq<Characteristic>, u: Uuid, k: int)
  {
    0 <= k < |cs| && cs[k].uuid == u && forall j :: k < j < |cs| ==> cs[j].uuid != u
  }

  /** Each handle ends up bound to the LAST characteristic advertising its
      UUID; when none does, it keeps its previous binding. */
  lemma {:induction false} MatchBindsLast(cfg: Config, p: PeripheralId, cs: seq<Characteristic>,
                                          rx: Option<Characteristic>, tx: Option<Characteristic>)
    ensures (forall k :: 0 <= k < |cs| ==> cs[k].uuid != cfg.rxUuid) ==>
      MatchCharacteristics(cfg, p, cs, rx, tx).rxChar == rx
    ensures forall k :: IsLastWith(cs, cfg.rxUuid, k) ==>
      MatchCharacteristics(cfg, p, cs, rx, tx).rxChar == Some(cs[k])
    ensures (forall k :: 0 <= k < |cs| ==> cs[k].uuid != cfg.txUuid) ==>
      MatchCharacteristics(cfg, p, cs, rx, tx).txChar == tx
    ensures forall k :: IsLastWith(cs, cfg.txUuid, k) ==>
      MatchCharacteristics(cfg, p, cs, rx, tx).txChar == Some(cs[k])
  {
    if cs != [] {
      var n := |cs| - 1;
      var front, c := cs[..n], cs[n];
      var b := MatchCharacteristics(cfg, p, front, rx, tx);
      MatchBindsLast(cfg, p, front, rx, tx);
      forall u, k | u in {cfg.rxUuid, cfg.txUuid} && IsLastWith(cs, u, k) && c.uuid != u
        ensures IsLastWith(front, u, k)
      {
        assert k != n;
        assert front[k] == cs[k];
      }
      forall u, k | IsLastWith(cs, u, k) && c.uuid == u
        ensures k == n
      {
      }
    }
  }

  /** A handle is only ever rebound to a listed characteristic with its UUID. */
  lemma {:induction false} MatchBindsOnlyMatching(cfg: Config, p: PeripheralId, cs: seq<Characteristic>,
                                                  rx: Option<Characteristic>, tx: Option<Characteristic>)
    ensures var b := MatchCharacteristics(cfg, p, cs, rx, tx);
      b.rxChar == rx || (b.rxChar.Some? && b.rxChar.value in cs && b.rxChar.value.uuid == cfg.rxUuid)
    ensures var b := MatchCharacteristics(cfg, p, cs, rx, tx);
      b.txChar == tx || (b.txChar.Some? && b.txChar.value in cs && b.txChar.value.uuid == cfg.txUuid)
  {
    if cs != [] {
      MatchBindsOnlyMatching(cfg, p, cs[..|cs| - 1], rx, tx);
      assert forall c :: c in cs[..|cs| - 1] ==> c in cs;
    }
  }

  /** A characteristics event with an error or without characteristics changes
      nothing; otherwise only the RX and TX handles can change. */
  lemma CharacteristicsDiscoveredKeepsOtherFields(cfg: Config, r: Robot, p: PeripheralId,
                                                  cs: Option<seq<Characteristic>>, error: Option<string>)
    ensures error.Some? || cs.None? ==> OnDiscoverCharacteristics(cfg, r, p, cs, error) == Transition(r, [])
    ensures var n := OnDiscoverCharacteristics(cfg, r, p, cs, error).next;
      n.legoPer == r.legoPer && n.isConnected == r.isConnected &&
      n.lastMessageFromRobot == r.lastMessageFromRobot
  {
  }

  /** A value update keeps the decoded text, overwriting the previous message;
      no value, or bytes that do not decode, change nothing. */
  lemma ValueUpdateKeepsDecodedText(cfg: Config, r: Robot, value: Option<seq<Byte>>)
    ensures OnUpdateValue(cfg, r, value).issued == []
    ensures value.None? ==> OnUpdateValue(cfg, r, value).next == r
    ensures value.Some? && cfg.decode(value.value).None? ==> OnUpdateValue(cfg, r, value).next == r
    ensures value.Some? && cfg.decode(value.value).Some? ==>
      OnUpdateValue(cfg, r, value).next == r.(lastMessageFromRobot := cfg.decode(value.value).value)
  {
  }

  /** Which characteristic the value came from, and whether an error came with
      it, makes no difference: the RX handle is not consulted. */
  lemma ValueFromAnyCharacteristic(cfg: Config, r: Robot, value: Option<seq<Byte>>,
                                   p1: PeripheralId, c1: Characteristic, e1: Option<string>,
                                   p2: PeripheralId, c2: Characteristic, e2: Option<string>)
    ensures Step(cfg, r, ValueUpdated(p1, c1, value, e1)) == Step(cfg, r, ValueUpdated(p2, c2, value, e2))
  {
  }

  /** Sending while not connected, or with no peer bound, does nothing. */
  lemma SendNoopUnlessConnected(r: Robot, text: string, maxWriteLength: nat)
    requires !r.isConnected || r.legoPer.None?
    ensures SendPlan(r, text, maxWriteLength) == SendOutcome(NotAttempted, [])
  {
  }

  /** With peer and TX handle bound, one unmodified without-response write goes
      out iff the encoded text is strictly shorter than the limit; at or above
      it nothing is written and both lengths are reported. */
  lemma SendWritesIffUnderLimit(r: Robot, text: string, maxWriteLength: nat)
    requires r.isConnected && r.legoPer.Some? && r.txChar.Some?
    ensures var o := SendPlan(r, text, maxWriteLength);
      (o.issued == [WriteValue(r.legoPer.value, Encode(text), r.txChar.value, WithoutResponse)])
      <==> |Encode(text)| < maxWriteLength
  {
  }

  /** Once connected with a peer bound, whether or not TX is bound yet: an
      encoded text of n >= m bytes is refused with both lengths reported, and
      a shorter one with TX still nil reaches the write on a nil handle. */
  lemma SendRefusesOrTrapsWithoutTx(r: Robot, text: string, maxWriteLength: nat)
    requires r.isConnected && r.legoPer.Some?
    ensures |Encode(text)| >= maxWriteLength ==>
      SendPlan(r, text, maxWriteLength) == SendOutcome(TooLong(|Encode(text)|, maxWriteLength), [])
    ensures r.txChar.None? && |Encode(text)| < maxWriteLength ==>
      SendPlan(r, text, maxWriteLength) == SendOutcome(NilTxChar, [])
  {
  }

  /** Text with at least as many characters as the limit is always refused,
      since UTF-8 never uses fewer bytes than characters. */
  lemma LongTextRefused(r: Robot, text: string, maxWriteLength: nat)
    requires r.isConnected && r.legoPer.Some?
    requires |text| >= maxWriteLength
    ensures SendPlan(r, text, maxWriteLength).issued == []
    ensures SendPlan(r, text, maxWriteLength).result.TooLong?
    ensures SendPlan(r, text, maxWriteLength).result.sent >= |text|
  {
    EncodedLength(text);
  }

  /** ASCII text shorter than the limit goes out as one write of its character codes. */
  lemma ShortAsciiWritten(r: Robot, text: string, maxWriteLength: nat)
    requires r.isConnected && r.legoPer.Some? && r.txChar.Some?
    requires IsAscii(text) && |text| < maxWriteLength
    ensures SendPlan(r, text, maxWriteLength).result == Written
    ensures var ds := SendPlan(r, text, maxWriteLength).issued;
      |ds| == 1 && ds[0].WriteValue? && ds[0].characteristic == r.txChar.value &&
      ds[0].kind == WithoutResponse && |ds[0].data| == |text| &&
      forall i :: 0 <= i < |text| ==> ds[0].data[i] as int == text[i] as int
  {
    AsciiEncodesBytewise(text);
  }

  // --------------------------------------------------------- whole traces

  lemma RunAppend(cfg: Config, r: Robot, events: seq<Event>, e: Event)
    ensures var t := Run(cfg, r, events);
      Run(cfg, r, events + [e]) ==
        Transition(Step(cfg, t.next, e).next, t.issued + Step(cfg, t.next, e).issued)
  {
  }

  /** The only event that issues a connect is a discovery of the named peer. */
  lemma StepConnects(cfg: Config, r: Robot, e: Event, q: PeripheralId)
    ensures Connect(q) in Step(cfg, r, e).issued ==>
      e == Discovered(q, Some(cfg.peripheralName)) && Step(cfg, r, e).issued == [StopScan, Connect(q)]
  {
    match e
    case ServicesDiscovered(p, services, error) =>
      if error.None? && services.Some? {
        ServicesPlanOnePerService(p, services.value);
      }
    case CharacteristicsDiscovered(p, _, cs, error) =>
      if error.None? && cs.Some? {
        MatchIssuesGroupsInOrder(cfg, p, cs.value, r.rxChar, r.txChar);
        GroupsCoverCharacteristics(cfg, p, cs.value, Characteristic(0, 0));
      }
    case _ =>
  }

  /** Over any sequence of events, every connect targets a peripheral that
      was discovered under the configured name. */
  lemma {:induction false} ConnectOnlyForAdvertisedName(cfg: Config, r: Robot, events: seq<Event>, q: PeripheralId)
    ensures Connect(q) in Run(cfg, r, events).issued ==>
      exists i :: 0 <= i < |events| && events[i] == Discovered(q, Some(cfg.peripheralName))
  {
    if events != [] {
      var n := |events| - 1;
      var front := events[..n];
      var t := Run(cfg, r, front);
      if Connect(q) in t.issued {
        ConnectOnlyForAdvertisedName(cfg, r, front, q);
        var i :| 0 <= i < |front| && front[i] == Discovered(q, Some(cfg.peripheralName));
        assert events[i] == front[i];
      } else {
        StepConnects(cfg, t.next, events[n], q);
      }
    }
  }

  /** Every connect in a directive log comes right after a stop-scan. */
  predicate StopScanBeforeConnect(ds: seq<Directive>)
  {
    forall j :: 0 <= j < |ds| && ds[j].Connect? ==> 0 < j && ds[j - 1] == StopScan
  }

  lemma StopScanBeforeConnectAppend(a: seq<Directive>, b: seq<Directive>)
    requires StopScanBeforeConnect(a) && StopScanBeforeConnect(b)
    ensures StopScanBeforeConnect(a + b)
  {
  }

  /** Over any sequence of events, scanning is stopped right before every connect. */
  lemma {:induction false} StopScanPrecedesEveryConnect(cfg: Config, r: Robot, events: seq<Event>)
    ensures StopScanBeforeConnect(Run(cfg, r, events).issued)
  {
    if events != [] {
      var n := |events| - 1;
      var t := Run(cfg, r, events[..n]);
      var ds := Step(cfg, t.next, events[n]).issued;
      StopScanPrecedesEveryConnect(cfg, r, events[..n]);
      forall j | 0 <= j < |ds| && ds[j].Connect?
        ensures 0 < j && ds[j - 1] == StopScan
      {
        assert ds[j] in ds;
        StepConnects(cfg, t.next, events[n], ds[j].peripheral);
      }
      StopScanBeforeConnectAppend(t.issued, ds);
    }
  }

  lemma StepKeepsHandlesMatch(cfg: Config, r: Robot, e: Event)
    requires HandlesMatch(cfg, r)
    ensures HandlesMatch(cfg, Step(cfg, r, e).next)
  {
    if e.CharacteristicsDiscovered? && e.error.None? && e.characteristics.Some? {
      MatchBindsOnlyMatching(cfg, e.peripheral, e.characteristics.value, r.rxChar, r.txChar);
    }
  }

  /** From any state whose handles match their UUIDs (the initial one, for a
      start), the RX and TX handles never get bound to anything else. */
  lemma {:induction false} HandlesMatchInvariant(cfg: Config, r: Robot, events: seq<Event>)
    requires HandlesMatch(cfg, r)
    ensures HandlesMatch(cfg, Run(cfg, r, events).next)
  {
    if events != [] {
      var n := |events| - 1;
      HandlesMatchInvariant(cfg, r, events[..n]);
      StepKeepsHandlesMatch(cfg, Run(cfg, r, events[..n]).next, events[n]);
    }
  }

  /** The bound peer is either the one bound before or a peripheral that was
      discovered under the configured name. */
  lemma {:induction false} BoundPeerWasAdvertised(cfg: Config, r: Robot, events: seq<Event>)
    ensures var bound := Run(cfg, r, events).next.legoPer;
      bound == r.legoPer ||
      (bound.Some? && exists i :: 0 <= i < |events| && events[i] == Discovered(bound.value, Some(cfg.peripheralName)))
  {
    if events != [] {
      var n := |events| - 1;
      var front := events[..n];
      BoundPeerWasAdvertised(cfg, r, front);
      var before := Run(cfg, r, front).next.legoPer;
      var bound := Run(cfg, r, events).next.legoPer;
      if bound != before {
        assert events[n] == Discovered(bound.value, Some(cfg.peripheralName));
      } else if bound != r.legoPer {
        var i :| 0 <= i < |front| && front[i] == Discovered(bound.value, Some(cfg.peripheralName));
        assert events[i] == front[i];
      }
    }
  }

  /** The last message is either the one held before or the decoding of some
      value that arrived. */
  lemma {:induction false} MessageWasDecoded(cfg: Config, r: Robot, events: seq<Event>)
    ensures var m := Run(cfg, r, events).next.lastMessageFromRobot;
      m == r.lastMessageFromRobot ||
      exists i :: 0 <= i < |events| && events[i].ValueUpdated? && events[i].value.Some? &&
        cfg.decode(events[i].value.value) == Some(m)
  {
    if events != [] {
      var n := |events| - 1;
      var front := events[..n];
      MessageWasDecoded(cfg, r, front);
      var before := Run(cfg, r, front).next.lastMessageFromRobot;
      var m := Run(cfg, r, events).next.lastMessageFromRobot;
      if m != before {
        assert events[n].ValueUpdated?;
      } else if m != r.lastMessageFromRobot {
        var i :| 0 <= i < |front| && front[i].ValueUpdated? && front[i].value.Some? &&
          cfg.decode(front[i].value.value) == Some(m);
        assert events[i] == front[i];
      }
    }
  }

  lemma StepWritesOnlyWhenConnected(cfg: Config, r: Robot, e: Event)
    requires !r.isConnected && !e.Connected?
    ensures !Step(cfg, r, e).next.isConnected
    ensures forall d :: d in Step(cfg, r, e).issued ==> !d.WriteValue?
  {
    match e
    case ServicesDiscovered(p, services, error) =>
      if error.None? && services.Some? {
        ServicesPlanOnePerService(p, services.value);
      }
    case CharacteristicsDiscovered(p, _, cs, error) =>
      if error.None? && cs.Some? {
        MatchIssuesGroupsInOrder(cfg, p, cs.value, r.rxChar, r.txChar);
        GroupsCoverCharacteristics(cfg, p, cs.value, Characteristic(0, 0));
      }
    case _ =>
  }

  /** Until some peripheral connects, no send writes anything. */
  lemma {:induction false} NoWriteBeforeConnected(cfg: Config, r: Robot, events: seq<Event>)
    requires !r.isConnected
    requires forall i :: 0 <= i < |events| ==> !events[i].Connected?
    ensures !Run(cfg, r, events).next.isConnected
    ensures forall d :: d in Run(cfg, r, events).issued ==> !d.WriteValue?
  {
    if events != [] {
      var n := |events| - 1;
      NoWriteBeforeConnected(cfg, r, events[..n]);
      StepWritesOnlyWhenConnected(cfg, Run(cfg, r, events[..n]).next, events[n]);
    }
  }

  /** The connected flag is raised by the connected event, before any
      characteristic is discovered, so a short send right after it reaches the
      write with the TX handle still nil. */
  lemma NilTxCharReachable(cfg: Config)
    requires cfg.peripheralName == "EV3"
    ensures var r := Run(cfg, Initial, [PowerStateChanged(PoweredOn), Discovered(1, Some("EV3")), Connected(1)]).next;
      SendPlan(r, "go", 20).result == NilTxChar
  {
    var e0, e1, e2 := PowerStateChanged(PoweredOn), Discovered(1, Some("EV3")), Connected(1);
    RunAppend(cfg, Initial, [], e0);
    RunAppend(cfg, Initial, [e0], e1);
    RunAppend(cfg, Initial, [e0, e1], e2);
    assert [e0, e1] + [e2] == [e0, e1, e2];
    EncodedLength("go");
  }

  /** The first four events of the example session: the controller is
      connected to peripheral 1 and has asked for its one service's
      characteristics. */
  lemma ExampleSessionSetup(cfg: Config)
    requires cfg.peripheralName == "EV3"
    ensures Run(cfg, Initial, [
        PowerStateChanged(PoweredOn),
        Discovered(1, Some("EV3")),
        Connected(1),
        ServicesDiscovered(1, Some([5]), None)])
      == Transition(
        Robot(Some(1), None, None, true, ""),
        [ScanForPeripherals, StopScan, Connect(1), DiscoverServices(1, [UartServiceUuid]), DiscoverCharacteristics(1, 5)])
  {
    var e0, e1, e2 := PowerStateChanged(PoweredOn), Discovered(1, Some("EV3")), Connected(1);
    var e3 := ServicesDiscovered(1, Some([5]), None);
    RunAppend(cfg, Initial, [], e0);
    assert Run(cfg, Initial, [e0]) == Transition(Initial, [ScanForPeripherals]);
    RunAppend(cfg, Initial, [e0], e1);
    var r1 := Robot(Some(1), None, None, false, "");
    assert Run(cfg, Initial, [e0, e1]) == Transition(r1, [ScanForPeripherals, StopScan, Connect(1)]);
    RunAppend(cfg, Initial, [e0, e1], e2);
    assert [e0, e1] + [e2] == [e0, e1, e2];
    var r2 := Robot(Some(1), None, None, true, "");
    assert Run(cfg, Initial, [e0, e1, e2])
      == Transition(r2, [ScanForPeripherals, StopScan, Connect(1), DiscoverServices(1, [UartServiceUuid])]);
    RunAppend(cfg, Initial, [e0, e1, e2], e3);
    assert [e0, e1, e2] + [e3] == [e0, e1, e2, e3];
    assert [5][..0] == [];
    assert ServicesPlan(1, [5]) == [DiscoverCharacteristics(1, 5)];
  }

  /** A whole session with a peer called "EV3": power on, discovery, connect,
      services, RX and TX characteristics, a send of "go" under a limit of 20,
      and a disconnect. The handles stay bound after the disconnect. */
  lemma ExampleSession(cfg: Config)
    requires cfg.peripheralName == "EV3" && cfg.rxUuid != cfg.txUuid
    ensures
      var rx, tx := Characteristic(10, cfg.rxUuid), Characteristic(11, cfg.txUuid);
      var t := Run(cfg, Initial, [
        PowerStateChanged(PoweredOn),
        Discovered(1, Some("EV3")),
        Connected(1),
        ServicesDiscovered(1, Some([5]), None),
        CharacteristicsDiscovered(1, 5, Some([rx, tx]), None),
        SendRequested("go", 20),
        Disconnected(1, None)]);
      t.issued == [
        ScanForPeripherals, StopScan, Connect(1),
        DiscoverServices(1, [UartServiceUuid]),
        DiscoverCharacteristics(1, 5),
        SetNotifyValue(1, true, rx), ReadValue(1, rx), DiscoverDescriptors(1, rx), DiscoverDescriptors(1, tx),
        WriteValue(1, [0x67, 0x6F], tx, WithoutResponse),
        ScanForPeripherals] &&
      t.next == Robot(Some(1), Some(tx), Some(rx), false, "")
  {
    var rx, tx := Characteristic(10, cfg.rxUuid), Characteristic(11, cfg.txUuid);
    var e0, e1, e2 := PowerStateChanged(PoweredOn), Discovered(1, Some("EV3")), Connected(1);
    var e3, e4 := ServicesDiscovered(1, Some([5]), None), CharacteristicsDiscovered(1, 5, Some([rx, tx]), None);
    var e5, e6 := SendRequested("go", 20), Disconnected(1, None);
    var setup := [e0, e1, e2, e3];
    ExampleSessionSetup(cfg);
    var d3 := [ScanForPeripherals, StopScan, Connect(1), DiscoverServices(1, [UartServiceUuid]), DiscoverCharacteristics(1, 5)];

    RunAppend(cfg, Initial, setup, e4);
    assert setup + [e4] == [e0, e1, e2, e3, e4];
    assert [rx, tx][..1] == [rx];
    assert [rx][..0] == [];
    assert MatchCharacteristics(cfg, 1, [rx], None, None)
      == Binding(Some(rx), None, [SetNotifyValue(1, true, rx), ReadValue(1, rx), DiscoverDescriptors(1, rx)]);
    var found := [SetNotifyValue(1, true, rx), ReadValue(1, rx), DiscoverDescriptors(1, rx), DiscoverDescriptors(1, tx)];
    assert MatchCharacteristics(cfg, 1, [rx, tx], None, None) == Binding(Some(rx), Some(tx), found);
    var r4 := Robot(Some(1), Some(tx), Some(rx), true, "");
    assert Run(cfg, Initial, [e0, e1, e2, e3, e4]) == Transition(r4, d3 + found);

    RunAppend(cfg, Initial, [e0, e1, e2, e3, e4], e5);
    assert [e0, e1, e2, e3, e4] + [e5] == [e0, e1, e2, e3, e4, e5];
    assert Encode("go") == [0x67, 0x6F] by {
      assert "go"[1..] == "o";
      assert "o"[1..] == "";
    }
    var write := [WriteValue(1, [0x67, 0x6F], tx, WithoutResponse)];
    assert Run(cfg, Initial, [e0, e1, e2, e3, e4, e5]) == Transition(r4, d3 + found + write);

    RunAppend(cfg, Initial, [e0, e1, e2, e3, e4, e5], e6);
    assert [e0, e1, e2, e3, e4, e5] + [e6] == [e0, e1, e2, e3, e4, e5, e6];
  }
}
