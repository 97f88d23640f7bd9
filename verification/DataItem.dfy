/** Data items (DataItem.h): an id and a value of one of 23 types, two of which hold items. */
module DataItem {
  import opened Serialize
  import opened ProtocolConfig

  type Mac = seq<byte>
  type Ipv4 = s: seq<byte> | |s| == 4 witness [0, 0, 0, 0]
  type Ipv6 = s: seq<byte> | |s| == 16 witness [0, 0, 0, 0, 0, 0, 0, 0, 0, 0, 0, 0, 0, 0, 0, 0]

  /** Character strings are kept as their bytes; fields are named as the C++ structs name them. */
  datatype Value =
    | Blank
    | U8(u8: byte)
    | U16(u16: u16)
    | U32(u32: u32)
    | U64(u64: u64)
    | VU8(bytes: seq<byte>)
    | VU32(words: seq<u32>)
    | A2U16(first: u16, second: u16)
    | Str(text: seq<byte>)
    | MacAddr(mac: Mac)
    | U8String(field1: byte, text2: seq<byte>)
    | U8Ipv4(field1: byte, ip4: Ipv4)
    | U8Ipv6(field1: byte, ip6: Ipv6)
    | U16VU8(tag: u16, bytes2: seq<byte>)
    | VExtId(extIds: seq<u32>)
    | U8Ipv4U16(field1: byte, ip4: Ipv4, port: u16)
    | U8Ipv6U16(field1: byte, ip6: Ipv6, port: u16)
    | U8Ipv4U8(field1: byte, ip4: Ipv4, mask: byte)
    | U8Ipv6U8(field1: byte, ip6: Ipv6, mask: byte)
    | U8U8(field1: byte, field2: byte)
    | U64U64(long1: u64, long2: u64)
    | Sub(items: seq<Item>)
    | U16Sub(tag: u16, items: seq<Item>)

  datatype Item = Item(id: u32, value: Value)

  function TypeOf(v: Value): ValueType {
    match v
    case Blank => TBlank
    case U8(_) => TU8
    case U16(_) => TU16
    case U32(_) => TU32
    case U64(_) => TU64
    case VU8(_) => TVU8
    case VU32(_) => TVU32
    case A2U16(_, _) => TA2U16
    case Str(_) => TString
    case MacAddr(_) => TMac
    case U8String(_, _) => TU8String
    case U8Ipv4(_, _) => TU8Ipv4
    case U8Ipv6(_, _) => TU8Ipv6
    case U16VU8(_, _) => TU16VU8
    case VExtId(_) => TVExtId
    case U8Ipv4U16(_, _, _) => TU8Ipv4U16
    case U8Ipv6U16(_, _, _) => TU8Ipv6U16
    case U8Ipv4U8(_, _, _) => TU8Ipv4U8
    case U8Ipv6U8(_, _, _) => TU8Ipv6U8
    case U8U8(_, _) => TU8U8
    case U64U64(_, _) => TU64U64
    case Sub(_) => TSub
    case U16Sub(_, _) => TU16Sub
  }
}
