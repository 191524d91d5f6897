/**
 The vocabulary the LE session controller works with: abstract identifiers for
 the peripherals, services and characteristics the Bluetooth stack reports,
 the transport directives the controller issues to that stack, and the UTF-8
 encoding of outgoing text.
 */
module Ble {

  datatype Option<T> = None | Some(value: T)

  newtype Byte = x: int | 0 <= x < 256

  /** A 128-bit Bluetooth UUID; two UUIDs are the same when their values are. */
  newtype Uuid = x: int | 0 <= x < 0x1_0000_0000_0000_0000_0000_0000_0000_0000

  /** The Nordic UART service, the only service the controller asks a peer for. */
  const UartServiceUuid: Uuid := 0x6E40_0001_B5A3_F393_E0A9_E50E_24DC_CA9E

  /** Handles the stack gives out for peripherals and services. */
  type PeripheralId = nat
  type ServiceId = nat

  /** A characteristic is a handle together with the UUID it advertises;
      several handles may advertise the same UUID. */
  datatype Characteristic = Characteristic(handle: nat, uuid: Uuid)

  /** The power states the central manager reports. */
  datatype RadioState = Unknown | Resetting | Unsupported | Unauthorized | PoweredOff | PoweredOn

  datatype WriteType = WithResponse | WithoutResponse

  /** One request from the controller to the Bluetooth stack. */
  datatype Directive =
    | ScanForPeripherals
    | StopScan
    | Connect(peripheral: PeripheralId)
    | DiscoverServices(peripheral: PeripheralId, filter: seq<Uuid>)
    | DiscoverCharacteristics(peripheral: PeripheralId, service: ServiceId)
    | SetNotifyValue(peripheral: PeripheralId, enabled: bool, characteristic: Characteristic)
    | ReadValue(peripheral: PeripheralId, characteristic: Characteristic)
    | DiscoverDescriptors(peripheral: PeripheralId, characteristic: Characteristic)
    | WriteValue(peripheral: PeripheralId, data: seq<Byte>, characteristic: Characteristic, kind: WriteType)

  /** True when every character of s is in the 7-bit ASCII range. */
  predicate IsAscii(s: string)
  {
    forall i :: 0 <= i < |s| ==> (s[i] as int) < 0x80
  }

  /** The UTF-8 encoding of one Unicode scalar value (RFC 3629, section 3):
      ASCII stays one byte; anything else becomes a lead byte of the form
      11xxxxxx followed by continuation bytes of the form 10xxxxxx. */
  function EncodeScalar(c: char): (r: seq<Byte>)
    ensures 1 <= |r| <= 4
    ensures |r| == 1 <==> (c as int) < 0x80
    ensures |r| == 2 <==> 0x80 <= (c as int) < 0x800
    ensures |r| == 3 <==> 0x800 <= (c as int) < 0x1_0000
    ensures |r| == 4 <==> 0x1_0000 <= (c as int)
    ensures |r| == 1 ==> r[0] as int == c as int
    ensures |r| > 1 ==> 0xC0 <= r[0] && forall k :: 1 <= k < |r| ==> 0x80 <= r[k] < 0xC0
  {
    var n := c as int;
    if n < 0x80 then
      [n as Byte]
    else if n < 0x800 then
      [(0xC0 + n / 0x40) as Byte, (0x80 + n % 0x40) as Byte]
    else if n < 0x1_0000 then
      [(0xE0 + n / 0x1000) as Byte, (0x80 + (n / 0x40) % 0x40) as Byte, (0x80 + n % 0x40) as Byte]
    else
      [(0xF0 + n / 0x4_0000) as Byte, (0x80 + (n / 0x1000) % 0x40) as Byte,
       (0x80 + (n / 0x40) % 0x40) as Byte, (0x80 + n % 0x40) as Byte]
  }

  /** UTF-8 encoding of a whole string; total, because every Dafny `char` is a
      Unicode scalar value, just as every Swift `String` is valid Unicode. */
  function Encode(s: string): seq<Byte>
  {
    if s == [] then [] else EncodeScalar(s[0]) + Encode(s[1..])
  }

  /** Every character takes between one and four bytes. */
  lemma {:induction false} EncodedLength(s: string)
    ensures |s| <= |Encode(s)| <= 4 * |s|
  {
    if s != [] {
      EncodedLength(s[1..]);
    }
  }

  /** ASCII text encodes byte for byte. */
  lemma {:induction false} AsciiEncodesBytewise(s: string)
    requires IsAscii(s)
    ensures |Encode(s)| == |s|
    ensures forall i :: 0 <= i < |s| ==> Encode(s)[i] as int == s[i] as int
  {
    if s != [] {
      assert IsAscii(s[1..]) by {
        forall i | 0 <= i < |s[1..]| ensures (s[1..][i] as int) < 0x80 {
          assert s[1..][i] == s[i + 1];
        }
      }
      AsciiEncodesBytewise(s[1..]);
      assert (s[0] as int) < 0x80;
    }
  }
}
