/** The value types every component shares: fixed-width integers, and the device tree
    that the descriptor parser builds, the host manager polices and the parcels carry. */
module UsbModel {

  datatype Option<+T> = None | Some(value: T)

  type byte = b: int | 0 <= b < 0x100
  type uint16 = n: int | 0 <= n < 0x1_0000
  type uint32 = n: int | 0 <= n < 0x1_0000_0000
  type int32 = n: int | -0x8000_0000 <= n < 0x8000_0000

  const UINT32_MODULUS := 0x1_0000_0000
  const INT32_MAX: int32 := 0x7FFF_FFFF
  const UINT8_MAX: byte := 0xFF

  // uint32_t addition, which wraps.
  function Add32(a: uint32, b: uint32): (sum: uint32)
    ensures a + b < UINT32_MODULUS ==> sum == a + b
  {
    if a + b < UINT32_MODULUS then a + b else a + b - UINT32_MODULUS
  }

  // A device's policy state: AuthorizeStatus in usb_device.h.
  datatype AuthorizeStatus = Disabled | Enabled | NewArrived

  datatype Endpoint = Endpoint(
    address: uint32, attributes: uint32, interval: int32, maxPacketSize: int32, interfaceId: byte)

  datatype Interface = Interface(
    id: int32, protocol: int32, klass: int32, subClass: int32, alternateSetting: int32,
    name: string, iInterface: byte, endpoints: seq<Endpoint>, authorized: bool)

  datatype Config = Config(
    id: int32, attributes: uint32, maxPower: int32, iConfiguration: byte,
    name: string, interfaces: seq<Interface>)

  datatype Device = Device(
    busNum: byte, devAddr: byte, vendorId: int32, productId: int32,
    baseClass: int32, subClass: int32, protocol: int32,
    iManufacturer: byte, iProduct: byte, iSerialNumber: byte, maxPacketSize0: byte,
    bcdUSB: uint16, bcdDevice: uint16,
    name: string, manufacturerName: string, productName: string, version: string, serial: string,
    configs: seq<Config>, descConfigCount: byte, status: AuthorizeStatus)
}
