/**
 The LegoRobot object: the fields the delegate callbacks update in place and
 one method per callback. Calls into the Bluetooth stack are appended to the
 ghost log `directives`; each method is proved to take the fields and the log
 exactly as the matching transition of RobotSpec says, and to keep the RX and
 TX handles bound only to characteristics with the right UUID.
 */
module LegoRobotObject {
  import opened Ble
  import opened RobotSpec
  import RobotProperties

  class LegoRobot {
    const peripheralName: string
    const rxUuid: Uuid
    const txUuid: Uuid
    const decode: seq<Byte> -> Option<string>

    var legoPer: Option<PeripheralId>
    var txChar: Option<Characteristic>
    var rxChar: Option<Characteristic>
    var isConnected: bool
    var lastMessageFromRobot: string

    /** Every request made of the Bluetooth stack so far, in order. */
    ghost var directives: seq<Directive>

    function Settings(): Config
    {
      Config(peripheralName, rxUuid, txUuid, decode)
    }

    function State(): Robot
      reads this
    {
      Robot(legoPer, txChar, rxChar, isConnected, lastMessageFromRobot)
    }

    ghost predicate Valid()
      reads this
    {
      HandlesMatch(Settings(), State())
    }

    /** Nothing is bound and nothing is issued until the radio reports its state. */
    constructor (peripheralName: string, rxUuid: Uuid, txUuid: Uuid, decode: seq<Byte> -> Option<string>)
      ensures this.peripheralName == peripheralName
      ensures this.rxUuid == rxUuid && this.txUuid == txUuid && this.decode == decode
      ensures State() == Initial && directives == []
      ensures Valid()
    {
      this.peripheralName := peripheralName;
      this.rxUuid := rxUuid;
      this.txUuid := txUuid;
      this.decode := decode;
      legoPer := None;
      txChar := None;
      rxChar := None;
      isConnected := false;
      lastMessageFromRobot := "";
      directives := [];
    }

    /** `sendValue`: `maxWriteLength` is what the peer reports for
        with-response writes at the time of the call. */
    method SendValue(text: string, maxWriteLength: nat) returns (result: SendResult)
      requires Valid()
      modifies this`directives
      ensures Valid()
      ensures result == SendPlan(State(), text, maxWriteLength).result
      ensures directives == old(directives) + SendPlan(State(), text, maxWriteLength).issued
    {
      result := NotAttempted;
      if isConnected {
        var value := Encode(text);
        if legoPer.Some? {
          var lego := legoPer.value;
          if |value| < maxWriteLength {
            if txChar.None? {
              result := NilTxChar;
            } else {
              directives := directives + [WriteValue(lego, value, txChar.value, WithoutResponse)];
              result := Written;
            }
          } else {
            result := TooLong(|value|, maxWriteLength);
          }
        }
      }
    }

    method CentralManagerDidUpdateState(state: RadioState)
      requires Valid()
      modifies this`directives
      ensures Valid()
      ensures directives == old(directives) + OnUpdateState(State(), state).issued
    {
      if state == PoweredOn {
        directives := directives + [ScanForPeripherals];
      }
    }

    method DidDiscover(peripheral: PeripheralId, name: Option<string>)
      requires Valid()
      modifies this
      ensures Valid()
      ensures var t := OnDiscover(Settings(), old(State()), peripheral, name);
        State() == t.next && directives == old(directives) + t.issued
    {
      if name.None? {
        return;
      }
      if name.value == peripheralName {
        directives := directives + [StopScan];
        directives := directives + [Connect(peripheral)];
        legoPer := Some(peripheral);
      }
    }

    method DidConnect(peripheral: PeripheralId)
      requires Valid()
      modifies this
      ensures Valid()
      ensures var t := OnConnect(old(State()), peripheral);
        State() == t.next && directives == old(directives) + t.issued
    {
      isConnected := true;
      directives := directives + [DiscoverServices(peripheral, [UartServiceUuid])];
    }

    method DidDisconnectPeripheral(peripheral: PeripheralId, error: Option<string>)
      requires Valid()
      modifies this
      ensures Valid()
      ensures var t := OnDisconnect(old(State()), peripheral);
        State() == t.next && directives == old(directives) + t.issued
    {
      if legoPer == Some(peripheral) {
        isConnected := false;
        directives := directives + [ScanForPeripherals];
      }
    }

    method DidDiscoverServices(peripheral: PeripheralId, services: Option<seq<ServiceId>>, error: Option<string>)
      requires Valid()
      modifies this`directives
      ensures Valid()
      ensures directives == old(directives) + OnDiscoverServices(State(), peripheral, services, error).issued
    {
      if error.Some? {
        return;
      }
      if services.None? {
        return;
      }
      var ss := services.value;
      var i := 0;
      while i < |ss|
        invariant 0 <= i <= |ss|
        invariant directives == old(directives) + ServicesPlan(peripheral, ss[..i])
      {
        assert ss[..i + 1][..i] == ss[..i];
        directives := directives + [DiscoverCharacteristics(peripheral, ss[i])];
        i := i + 1;
      }
      assert ss[..i] == ss;
    }

    method DidDiscoverCharacteristicsFor(peripheral: PeripheralId, service: ServiceId,
                                         characteristics: Option<seq<Characteristic>>, error: Option<string>)
      requires Valid()
      modifies this
      ensures Valid()
      ensures var t := OnDiscoverCharacteristics(Settings(), old(State()), peripheral, characteristics, error);
        State() == t.next && directives == old(directives) + t.issued
    {
      if error.Some? {
        return;
      }
      if characteristics.None? {
        return;
      }
      var cs := characteristics.value;
      var i := 0;
      while i < |cs|
        invariant 0 <= i <= |cs|
        invariant var b := MatchCharacteristics(Settings(), peripheral, cs[..i], old(rxChar), old(txChar));
          rxChar == b.rxChar && txChar == b.txChar && directives == old(directives) + b.issued
        invariant legoPer == old(legoPer) && isConnected == old(isConnected)
        invariant lastMessageFromRobot == old(lastMessageFromRobot)
      {
        var c := cs[i];
        assert cs[..i + 1][..i] == cs[..i];
        if c.uuid == rxUuid {
          rxChar := Some(c);
          directives := directives + [SetNotifyValue(peripheral, true, c)];
          directives := directives + [ReadValue(peripheral, c)];
        }
        if c.uuid == txUuid {
          txChar := Some(c);
        }
        directives := directives + [DiscoverDescriptors(peripheral, c)];
        i := i + 1;
      }
      assert cs[..i] == cs;
      RobotProperties.MatchBindsOnlyMatching(Settings(), peripheral, cs, old(rxChar), old(txChar));
    }

    method DidUpdateValueFor(peripheral: PeripheralId, characteristic: Characteristic,
                             value: Option<seq<Byte>>, error: Option<string>)
      requires Valid()
      modifies this
      ensures Valid()
      ensures var t := OnUpdateValue(Settings(), old(State()), value);
        State() == t.next && directives == old(directives) + t.issued
    {
      if value.None? {
        return;
      }
      var text := decode(value.value);
      if text.Some? {
        lastMessageFromRobot := text.value;
      }
    }
  }
}
