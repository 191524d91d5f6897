/**
 The session controller of LegoRobot.swift as pure transitions: each delegate
 callback (and the `sendValue` call) takes the five stored fields to new values
 and yields the ordered directives it issues to the Bluetooth stack. `Step`
 folds one event, `Run` a whole sequence of serialized events.
 */
module RobotSpec {
  import opened Ble

  /** What is fixed for the lifetime of one controller: the advertised name it
      looks for, the RX and TX characteristic UUIDs it matches, and the
      platform's UTF-8 decoder (which may refuse a byte sequence). */
  datatype Config = Config(
    peripheralName: string,
    rxUuid: Uuid,
    txUuid: Uuid,
    decode: seq<Byte> -> Option<string>)

  /** The fields the callbacks update: the bound peer, the TX and RX
      characteristics (nil until discovered), the connected flag and the last
      text received from the robot. */
  datatype Robot = Robot(
    legoPer: Option<PeripheralId>,
    txChar: Option<Characteristic>,
    rxChar: Option<Characteristic>,
    isConnected: bool,
    lastMessageFromRobot: string)

  datatype Transition = Transition(next: Robot, issued: seq<Directive>)

  /** The fields right after construction. */
  const Initial: Robot := Robot(None, None, None, false, "")

  /** A bound RX or TX handle always advertises the UUID it was matched on. */
  predicate HandlesMatch(cfg: Config, r: Robot)
  {
    (r.rxChar.Some? ==> r.rxChar.value.uuid == cfg.rxUuid) &&
    (r.txChar.Some? ==> r.txChar.value.uuid == cfg.txUuid)
  }

  // ---------------------------------------------------------------- central

  /** The radio changed power state: scan for every peripheral once it is on. */
  function OnUpdateState(r: Robot, state: RadioState): Transition
  {
    Transition(r, if state == PoweredOn then [ScanForPeripherals] else [])
  }

  /** A peripheral advertised itself. Only one whose name equals the configured
      name is acted on, whatever the controller is doing at the time. */
  function OnDiscover(cfg: Config, r: Robot, p: PeripheralId, name: Option<string>): Transition
  {
    if name.None? then Transition(r, [])
    else if name.value == cfg.peripheralName then
      Transition(r.(legoPer := Some(p)), [StopScan, Connect(p)])
    else Transition(r, [])
  }

  /** Some peripheral connected (which one is not checked): the controller
      counts as connected and asks that peripheral for the UART service. */
  function OnConnect(r: Robot, p: PeripheralId): Transition
  {
    Transition(r.(isConnected := true), [DiscoverServices(p, [UartServiceUuid])])
  }

  /** A peripheral disconnected. Only the bound peer counts; the handles stay
      bound and scanning starts again at once. */
  function OnDisconnect(r: Robot, p: PeripheralId): Transition
  {
    if r.legoPer == Some(p) then Transition(r.(isConnected := false), [ScanForPeripherals])
    else Transition(r, [])
  }

  // ------------------------------------------------------------- peripheral

  /** One unfiltered characteristic discovery per service, in service order. */
  function ServicesPlan(p: PeripheralId, services: seq<ServiceId>): seq<Directive>
    decreases |services|
  {
    if services == [] then []
    else ServicesPlan(p, services[..|services| - 1]) + [DiscoverCharacteristics(p, services[|services| - 1])]
  }

  function OnDiscoverServices(r: Robot, p: PeripheralId, services: Option<seq<ServiceId>>, error: Option<string>): Transition
  {
    if error.Some? then Transition(r, [])
    else if services.None? then Transition(r, [])
    else Transition(r, ServicesPlan(p, services.value))
  }

  /** The RX/TX bindings and the directives issued so far while walking the
      discovered characteristics. */
  datatype Binding = Binding(rxChar: Option<Characteristic>, txChar: Option<Characteristic>, issued: seq<Directive>)

  /** The directives issued for one characteristic: subscribe to it and read
      it when it is the RX characteristic, then discover its descriptors. */
  function DirectivesFor(cfg: Config, p: PeripheralId, c: Characteristic): seq<Directive>
  {
    (if c.uuid == cfg.rxUuid then [SetNotifyValue(p, true, c), ReadValue(p, c)] else [])
    + [DiscoverDescriptors(p, c)]
  }

  /** One pass of the loop body over characteristic c. */
  function MatchOne(cfg: Config, p: PeripheralId, b: Binding, c: Characteristic): Binding
  {
    Binding(
      if c.uuid == cfg.rxUuid then Some(c) else b.rxChar,
      if c.uuid == cfg.txUuid then Some(c) else b.txChar,
      b.issued + DirectivesFor(cfg, p, c))
  }

  /** The loop over the discovered characteristics, from bindings rx and tx. */
  function MatchCharacteristics(cfg: Config, p: PeripheralId, cs: seq<Characteristic>,
                                rx: Option<Characteristic>, tx: Option<Characteristic>): Binding
    decreases |cs|
  {
    if cs == [] then Binding(rx, tx, [])
    else MatchOne(cfg, p, MatchCharacteristics(cfg, p, cs[..|cs| - 1], rx, tx), cs[|cs| - 1])
  }

  function OnDiscoverCharacteristics(cfg: Config, r: Robot, p: PeripheralId,
                                     characteristics: Option<seq<Characteristic>>, error: Option<string>): Transition
  {
    if error.Some? then Transition(r, [])
    else if characteristics.None? then Transition(r, [])
    else
      var b := MatchCharacteristics(cfg, p, characteristics.value, r.rxChar, r.txChar);
      Transition(r.(rxChar := b.rxChar, txChar := b.txChar), b.issued)
  }

  /** A characteristic value arrived (from any characteristic, errors ignored):
      keep it as the last message when it decodes as UTF-8. */
  function OnUpdateValue(cfg: Config, r: Robot, value: Option<seq<Byte>>): Transition
  {
    if value.None? then Transition(r, [])
    else match cfg.decode(value.value)
      case None => Transition(r, [])
      case Some(text) => Transition(r.(lastMessageFromRobot := text), [])
  }

  // ------------------------------------------------------------------ send

  /** What `sendValue` did: nothing, one write, a too-long report carrying the
      encoded length and the limit, or a trap on the nil TX characteristic. */
  datatype SendResult = NotAttempted | Written | TooLong(sent: nat, limit: nat) | NilTxChar

  datatype SendOutcome = SendOutcome(result: SendResult, issued: seq<Directive>)

  /** `sendValue(text)` with the peer reporting `maxWriteLength` for
      with-response writes; the write itself goes out without response. */
  function SendPlan(r: Robot, text: string, maxWriteLength: nat): SendOutcome
  {
    if !r.isConnected then SendOutcome(NotAttempted, [])
    else
      var bytes := Encode(text);
      if r.legoPer.None? then SendOutcome(NotAttempted, [])
      else if |bytes| < maxWriteLength then
        if r.txChar.None? then SendOutcome(NilTxChar, [])
        else SendOutcome(Written, [WriteValue(r.legoPer.value, bytes, r.txChar.value, WithoutResponse)])
      else SendOutcome(TooLong(|bytes|, maxWriteLength), [])
  }

  // ---------------------------------------------------------------- traces

  /** Everything that reaches the controller, one at a time. */
  datatype Event =
    | PowerStateChanged(state: RadioState)
    | Discovered(peripheral: PeripheralId, name: Option<string>)
    | Connected(peripheral: PeripheralId)
    | Disconnected(peripheral: PeripheralId, error: Option<string>)
    | ServicesDiscovered(peripheral: PeripheralId, services: Option<seq<ServiceId>>, error: Option<string>)
    | CharacteristicsDiscovered(peripheral: PeripheralId, service: ServiceId,
                                characteristics: Option<seq<Characteristic>>, error: Option<string>)
    | ValueUpdated(peripheral: PeripheralId, characteristic: Characteristic, value: Option<seq<Byte>>, error: Option<string>)
    | SendRequested(text: string, maxWriteLength: nat)

  function Step(cfg: Config, r: Robot, e: Event): Transition
  {
    match e
    case PowerStateChanged(state) => OnUpdateState(r, state)
    case Discovered(p, name) => OnDiscover(cfg, r, p, name)
    case Connected(p) => OnConnect(r, p)
    case Disconnected(p, _) => OnDisconnect(r, p)
    case ServicesDiscovered(p, services, error) => OnDiscoverServices(r, p, services, error)
    case CharacteristicsDiscovered(p, _, cs, error) => OnDiscoverCharacteristics(cfg, r, p, cs, error)
    case ValueUpdated(_, _, value, _) => OnUpdateValue(cfg, r, value)
    case SendRequested(text, m) => Transition(r, SendPlan(r, text, m).issued)
  }

  /** The fields after a sequence of events, and every directive issued, in order. */
  function Run(cfg: Config, r: Robot, events: seq<Event>): Transition
    decreases |events|
  {
    if events == [] then Transition(r, [])
    else
      var t := Run(cfg, r, events[..|events| - 1]);
      var u := Step(cfg, t.next, events[|events| - 1]);
      Transition(u.next, t.issued + u.issued)
  }
}
