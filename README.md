# SpikeBLE `LegoRobot` session controller in Dafny

`LegoRobot` (Sources/SpikeBLE/LegoRobot.swift) is a Bluetooth LE client. It
talks to one robot over the Nordic UART service (`6E400001-B5A3-F393-E0A9-E50E24DCCA9E`).
It scans for a peripheral advertising a given name and connects to it. It then
asks for the UART service, binds the RX and TX characteristics, subscribes to RX,
sends text over TX and keeps the last text received.

Strip away the CoreBluetooth calls and what is left is a sequential state
machine. Each delegate callback is an event that updates five fields: `legoPer`,
`txChar`, `rxChar`, `isConnected` and `lastMessageFromRobot`. Each event also
issues an ordered list of requests to the Bluetooth stack.

- `ble.dfy`, module `Ble`: the vocabulary.
  - Peripherals and services are abstract handles.
  - A characteristic is a handle plus its 128-bit UUID.
  - The requests to the stack are the `Directive` datatype.
  - `Encode` is UTF-8 encoding of outgoing text (RFC 3629, section 3).
- `robot_spec.dfy`, module `RobotSpec`: each callback and `sendValue` as a pure
  transition.
  - A transition takes the five fields to new values and lists the directives
    it issues.
  - `Step` applies one event; `Run` applies a whole sequence of events.
- `robot_properties.dfy`, module `RobotProperties`: what the controller
  guarantees.
  - Lemmas about single events.
  - Lemmas over arbitrary event sequences: connect only after a name match,
    stop-scan right before every connect, handles only bound to their own UUID,
    the bound peer and the last message always come from some event.
  - A complete example session.
- `lego_robot.dfy`, module `LegoRobotObject`: class `LegoRobot`.
  - It has the source's fields and one method per callback.
  - The two `for` loops are `while` loops with invariants.
  - Every request to the stack is appended to a ghost log `directives`.
  - Each method is proved to change the fields and the log exactly as its
    `RobotSpec` transition says.
  - Each method keeps the invariant that a bound RX/TX handle has the UUID it
    was matched on.

The model follows what the code does, which differs from an idealised design
in these ways:

- A disconnect of the bound peer clears only `isConnected`. `legoPer`,
  `txChar` and `rxChar` stay bound.
- `didConnect` does not check which peripheral connected.
- `didDiscover` binds and connects on any name match, whatever the current
  state.
- `didUpdateValueFor` does not check that the value came from `rxChar`, and
  ignores its error argument.
- `sendValue` checks the length against the limit for with-response writes.
  It then writes without response.
- `sendValue` never checks that `txChar` is bound. `isConnected` becomes true
  at the connected event, before any characteristic is discovered. A short
  send in that window passes the nil `txChar` to the write, which traps.
  - The model makes this an explicit result, `NilTxChar`.
  - `NilTxCharReachable` gives an event sequence that reaches it.
  - So "connected implies TX bound" is not an invariant of this code.

Inputs the source gets from outside this file become parameters:

- The RX and TX characteristic UUIDs are the globals
  `BLE_Characteristic_uuid_Rx` and `BLE_Characteristic_uuid_Tx`. They are
  defined in a file that is not part of this model, so they are constructor
  parameters. They need not differ: the code tests them with two independent
  `if`s, and so does the model.
- The platform UTF-8 decoder is a constructor parameter
  `decode: seq<Byte> -> Option<string>`.
- The peer's `maximumWriteValueLength` is a parameter of `SendValue`.

## Model

| member | source | states |
|---|---|---|
| `LegoRobotObject.LegoRobot.constructor` | Sources/SpikeBLE/LegoRobot.swift:20-27 | after construction no peer or handle is bound, `isConnected` is false, `lastMessageFromRobot` is "", the name is the one given, and nothing has been issued |
| `LegoRobotObject.LegoRobot.SendValue` | Sources/SpikeBLE/LegoRobot.swift:29-40 | result and new log are those of `SendPlan`: no-op unless connected with a bound peer; one without-response write of the encoded text to TX iff its length is strictly below the limit; otherwise a too-long report; nil TX on a short send is the trap result |
| `LegoRobotObject.LegoRobot.CentralManagerDidUpdateState` | Sources/SpikeBLE/LegoRobot.swift:46-50 | appends one scan when the radio is powered on and nothing otherwise; fields unchanged |
| `LegoRobotObject.LegoRobot.DidDiscover` | Sources/SpikeBLE/LegoRobot.swift:52-64 | new fields and log are those of `OnDiscover`: a name match binds `legoPer` and appends stop-scan then connect; otherwise no change |
| `LegoRobotObject.LegoRobot.DidConnect` | Sources/SpikeBLE/LegoRobot.swift:66-74 | sets `isConnected` and appends one service discovery filtered to the UART UUID, for whichever peripheral connected |
| `LegoRobotObject.LegoRobot.DidDisconnectPeripheral` | Sources/SpikeBLE/LegoRobot.swift:77-82 | for the bound peer clears `isConnected` and appends a scan; for any other peer changes nothing |
| `LegoRobotObject.LegoRobot.DidDiscoverServices` | Sources/SpikeBLE/LegoRobot.swift:86-100 | the loop appends exactly `ServicesPlan`, one characteristic discovery per service in order; nothing on error or nil services |
| `LegoRobotObject.LegoRobot.DidDiscoverCharacteristicsFor` | Sources/SpikeBLE/LegoRobot.swift:102-134 | the loop leaves the RX/TX handles and the log as `MatchCharacteristics` over the list gives them, keeps the other fields, and keeps handles matched to their UUIDs; nothing on error or nil characteristics |
| `LegoRobotObject.LegoRobot.DidUpdateValueFor` | Sources/SpikeBLE/LegoRobot.swift:137-144 | a value that decodes replaces the last message; a nil value or one that does not decode changes nothing; nothing is issued |
| `Ble.EncodeScalar` | Sources/SpikeBLE/LegoRobot.swift:31 | one character becomes 1 byte below 0x80 (equal to its code), 2 below 0x800, 3 below 0x10000 and 4 above; a longer encoding is a lead byte at or above 0xC0 followed by continuation bytes in 0x80..0xBF |
| `Ble.EncodedLength` | Sources/SpikeBLE/LegoRobot.swift:31-33 | the encoded text compared against the limit has between one and four bytes per character |
| `Ble.AsciiEncodesBytewise` | Sources/SpikeBLE/LegoRobot.swift:31 | ASCII text encodes to exactly its character codes |
| `RobotProperties.PowerOnScans` | Sources/SpikeBLE/LegoRobot.swift:46-50 | a power-state event issues a single scan iff the radio is powered on, nothing otherwise, and changes no field |
| `RobotProperties.DiscoveryFiltersOnName` | Sources/SpikeBLE/LegoRobot.swift:52-64 | a nil or different name changes nothing and issues nothing; the configured name issues exactly stop-scan then connect(peripheral) and binds `legoPer` to it |
| `RobotProperties.ConnectDiscoversUart` | Sources/SpikeBLE/LegoRobot.swift:66-74 | a connected event sets `isConnected`, changes no other field, and issues exactly one service discovery filtered to the UART UUID |
| `RobotProperties.DisconnectGuardsStalePeer` | Sources/SpikeBLE/LegoRobot.swift:77-82 | a disconnect of the bound peer clears only `isConnected` (peer and handles stay bound) and issues one scan; any other disconnect changes nothing |
| `RobotProperties.ServicesPlanOnePerService` | Sources/SpikeBLE/LegoRobot.swift:96-98 | the services loop issues, at every position i, the characteristic discovery of service i, and nothing more |
| `RobotProperties.ServicesDiscoveredIssues` | Sources/SpikeBLE/LegoRobot.swift:86-100 | an error or nil services issue nothing; otherwise one unfiltered characteristic discovery per service in order; no field changes |
| `RobotProperties.GroupsAppend` | Sources/SpikeBLE/LegoRobot.swift:114-133 | reading the loop front to back, one more characteristic adds its own group of directives at the end |
| `RobotProperties.MatchIssuesGroupsInOrder` | Sources/SpikeBLE/LegoRobot.swift:114-133 | the characteristics loop issues each characteristic's group in list order (subscribe and read for an RX match, then descriptor discovery), whatever was bound before |
| `RobotProperties.GroupsCoverCharacteristics` | Sources/SpikeBLE/LegoRobot.swift:117-132 | every listed characteristic gets a descriptor discovery; a characteristic is subscribed to and read iff it is listed and has the RX UUID; nothing else is issued |
| `RobotProperties.MatchBindsLast` | Sources/SpikeBLE/LegoRobot.swift:114-131 | each handle ends bound to the last listed characteristic with its UUID, and keeps its old binding when none has it |
| `RobotProperties.MatchBindsOnlyMatching` | Sources/SpikeBLE/LegoRobot.swift:117-131 | a handle is only rebound to a listed characteristic that has its UUID |
| `RobotProperties.CharacteristicsDiscoveredKeepsOtherFields` | Sources/SpikeBLE/LegoRobot.swift:102-110 | an error or nil characteristics change nothing and issue nothing; in every case only the RX/TX handles can change |
| `RobotProperties.ValueUpdateKeepsDecodedText` | Sources/SpikeBLE/LegoRobot.swift:137-144 | a nil value or failed decoding keeps the last message; a successful decoding overwrites it with exactly the decoded text; nothing is issued |
| `RobotProperties.ValueFromAnyCharacteristic` | Sources/SpikeBLE/LegoRobot.swift:137-144 | the outcome of a value update does not depend on which characteristic it came from or on its error argument |
| `RobotProperties.SendNoopUnlessConnected` | Sources/SpikeBLE/LegoRobot.swift:29-32 | sending while not connected or with no peer bound issues nothing |
| `RobotProperties.SendWritesIffUnderLimit` | Sources/SpikeBLE/LegoRobot.swift:29-39 | with peer and TX bound, exactly one without-response write of the unmodified encoded bytes is issued iff their length n is strictly below the limit m |
| `RobotProperties.SendRefusesOrTrapsWithoutTx` | Sources/SpikeBLE/LegoRobot.swift:30-37 | connected with a peer bound, whether or not TX is bound: n >= m encoded bytes gives TooLong(n, m) and no directive; n < m with TX nil gives the nil-TX trap and no directive |
| `RobotProperties.LongTextRefused` | Sources/SpikeBLE/LegoRobot.swift:31-37 | text with at least as many characters as the limit is always refused, with a reported length of at least its character count |
| `RobotProperties.ShortAsciiWritten` | Sources/SpikeBLE/LegoRobot.swift:31-34 | ASCII text shorter than the limit is written once, to TX, without response, as exactly its character codes |
| `RobotProperties.StepConnects` | Sources/SpikeBLE/LegoRobot.swift:55-61 | the only event that issues a connect to q is the discovery of q under the configured name, and it issues exactly stop-scan then connect(q) |
| `RobotProperties.ConnectOnlyForAdvertisedName` | Sources/SpikeBLE/LegoRobot.swift:53-61 | over any event sequence, a connect to q is issued only if q was discovered under the configured name |
| `RobotProperties.StopScanBeforeConnectAppend` | Sources/SpikeBLE/LegoRobot.swift:58-61 | joining two logs in which every connect follows a stop-scan gives such a log |
| `RobotProperties.StopScanPrecedesEveryConnect` | Sources/SpikeBLE/LegoRobot.swift:58-61 | over any event sequence, every connect in the log comes right after a stop-scan |
| `RobotProperties.StepKeepsHandlesMatch` | Sources/SpikeBLE/LegoRobot.swift:117-131 | no single event binds RX or TX to a characteristic with another UUID |
| `RobotProperties.HandlesMatchInvariant` | Sources/SpikeBLE/LegoRobot.swift:114-131 | over any event sequence, bound RX/TX handles keep the RX/TX UUIDs |
| `RobotProperties.BoundPeerWasAdvertised` | Sources/SpikeBLE/LegoRobot.swift:53-62 | after any event sequence, the bound peer is the initial one or a peripheral discovered under the configured name |
| `RobotProperties.MessageWasDecoded` | Sources/SpikeBLE/LegoRobot.swift:137-142 | after any event sequence, the last message is the initial one or the decoding of some value that arrived |
| `RobotProperties.StepWritesOnlyWhenConnected` | Sources/SpikeBLE/LegoRobot.swift:30 | while not connected, no event other than a connect sets `isConnected` or issues a write |
| `RobotProperties.NoWriteBeforeConnected` | Sources/SpikeBLE/LegoRobot.swift:30-34 | until some connected event arrives, no write is ever issued and the controller stays unconnected |
| `RobotProperties.NilTxCharReachable` | Sources/SpikeBLE/LegoRobot.swift:34 | power on, discovery and connect followed by a short send reaches the write with `txChar` still nil |
| `RobotProperties.ExampleSessionSetup` | Sources/SpikeBLE/LegoRobot.swift:46-98 | power on, discovery of "EV3", connect and one service leave the controller connected with the peer bound and issue scan, stop-scan, connect, UART service discovery and one characteristic discovery |
| `RobotProperties.ExampleSession` | Sources/SpikeBLE/LegoRobot.swift:29-134 | a full session through to disconnect issues exactly the expected eleven directives, including one write of the bytes of "go"; the handles stay bound after the disconnect |

## Left out

- The CoreBluetooth objects (`CBCentralManager`, `CBPeripheral`, `CBCharacteristic`, `CBUUID`) and their behaviour. Peripherals and services are abstract handles, and requests to the stack are entries in a directive log. Setting `peripheral.delegate` (line 70) is not a request and has no directive.
- Combine `@Published` change notification and the `.main` dispatch queue. They are observer and threading plumbing; all events are serialized method calls.
- The callbacks that only log (`didDiscoverDescriptorsFor`, `didUpdateNotificationStateFor`, both `didWriteValueFor`), every `print`, and the unused `txDesc` field. They change no state and issue nothing.
- The platform UTF-8 decoder. Its exact acceptance set is platform behaviour, so it is a constructor parameter.
- How `maximumWriteValueLength` is negotiated (MTU). It is a parameter of each send; the second query in the error message is taken to return the same value.
- The values of `BLE_Characteristic_uuid_Rx` and `BLE_Characteristic_uuid_Tx`. They are defined outside `LegoRobot.swift` and are constructor parameters.
- Swift's `String` equality on the advertised name compares up to Unicode canonical equivalence. The model compares the sequences of scalar values exactly.
- The crash that follows the nil `txChar` trap. `SendValue` reports it as a result; process termination is not modelled, and `Run` lets later events through.
- Reconnect backoff, timeouts, explicit Subscribing/Ready states and releasing handles on disconnect. None of these exists in the code.
