/** Integer widths, protocol constants and little-endian packing shared by the
    ANCS client model.

    The enumeration bounds and flag bit positions come from ble_ancs_c.h, which
    is not part of this model; their values are those of the Apple Notification
    Center Service specification (command, attribute, event and category
    identifiers) and of the Bluetooth Core Specification (write op-code). */
module AncsTypes {

  type uint8 = x: int | 0 <= x < 0x100
  type uint16 = x: int | 0 <= x < 0x1_0000
  type uint32 = x: int | 0 <= x < 0x1_0000_0000

  // Attribute identifiers (ble_ancs_c_notif_attr_id_values_t).
  const ATTR_ID_APP_IDENTIFIER: uint8 := 0
  const ATTR_ID_TITLE: uint8 := 1
  const ATTR_ID_SUBTITLE: uint8 := 2
  const ATTR_ID_MESSAGE: uint8 := 3
  /** BLE_ANCS_NB_OF_ATTRS: size of the attribute registry. */
  const NB_OF_ATTRS: nat := 8
  /** BLE_ANCS_ATTR_DATA_MAX: largest capacity ble_ancs_c_attr_add accepts. */
  const ATTR_DATA_MAX: nat := 32

  /** BLE_ANCS_NB_OF_EVT_ID: Added, Modified, Removed. */
  const NB_OF_EVT_ID: nat := 3
  /** BLE_ANCS_NB_OF_CATEGORY_ID: Other .. Entertainment. */
  const NB_OF_CATEGORY_ID: nat := 12

  /** BLE_ANCS_COMMAND_ID_GET_NOTIF_ATTRIBUTES. */
  const COMMAND_ID_GET_NOTIF_ATTRIBUTES: uint8 := 0
  /** BLE_ANCS_NOTIFICATION_DATA_LENGTH: size of a Notification Source record. */
  const NOTIFICATION_DATA_LENGTH: nat := 8

  // Bit positions of the event flags in byte 1 of a Notification Source record.
  const FLAG_SILENT: nat := 0
  const FLAG_IMPORTANT: nat := 1
  const FLAG_PREEXISTING: nat := 2
  const FLAG_POSITIVE_ACTION: nat := 3
  const FLAG_NEGATIVE_ACTION: nat := 4

  // ble_ancs_c.c lines 37-40.
  const TX_BUFFER_MASK: nat := 0x07
  const TX_BUFFER_SIZE: nat := TX_BUFFER_MASK + 1
  const WRITE_MESSAGE_LENGTH: nat := 20
  const CCCD_NOTIFY_BIT_MASK: uint16 := 0x0001

  /** BLE_GATT_OP_WRITE_REQ of the SoftDevice headers. */
  const GATT_OP_WRITE_REQ: uint8 := 0x01

  /** The nRF error codes the core returns. */
  datatype ErrorCode = Success | ErrorInvalidParam | ErrorInvalidLength | ErrorNull

  /** One entry of the attribute registry (ble_ancs_c_attr_list_t): whether the
      attribute is requested, the capacity of its buffer (attr_len) and the
      caller-owned buffer the parser writes into (p_attr_data; null until the
      attribute is registered). */
  datatype AttrEntry = AttrEntry(get: bool, cap: uint16, buf: array?<uint8>)

  /** 2 to the power k, for the bit positions of a byte. */
  function Pow2(k: nat): (r: nat)
    ensures r >= 1
  {
    if k == 0 then 1 else 2 * Pow2(k - 1)
  }

  /** Bit k of a value: `(b >> k) & 0x01` in the C. */
  predicate Bit(b: nat, k: nat)
  {
    if k == 0 then b % 2 == 1 else Bit(b / 2, k - 1)
  }

  /** The value whose bit k is bits[k] (bit 0 first) and whose higher bits are clear. */
  function FromBits(bits: seq<bool>): (r: nat)
    ensures r < Pow2(|bits|)
  {
    if bits == [] then 0 else (if bits[0] then 1 else 0) + 2 * FromBits(bits[1..])
  }

  /** The n lowest bits of a value, bit 0 first. */
  function LowBits(b: nat, n: nat): (bits: seq<bool>)
    ensures |bits| == n
  {
    if n == 0 then [] else [b % 2 == 1] + LowBits(b / 2, n - 1)
  }

  /** Reading bit k of the value built from a list of bits gives that bit back. */
  lemma {:induction false} BitOfFromBits(bits: seq<bool>, k: nat)
    requires k < |bits|
    ensures Bit(FromBits(bits), k) == bits[k]
    decreases k
  {
    var rest := FromBits(bits[1..]);
    var low := if bits[0] then 1 else 0;
    assert (low + 2 * rest) % 2 == low && (low + 2 * rest) / 2 == rest;
    if k > 0 {
      BitOfFromBits(bits[1..], k - 1);
    }
  }

  /** LowBits lists the bits Bit reads. */
  lemma {:induction false} LowBitsAt(b: nat, n: nat, k: nat)
    requires k < n
    ensures LowBits(b, n)[k] == Bit(b, k)
    decreases k
  {
    if k > 0 {
      LowBitsAt(b / 2, n - 1, k - 1);
    }
  }

  /** A value below 2^n is rebuilt from its n lowest bits. */
  lemma {:induction false} FromLowBits(b: nat, n: nat)
    requires b < Pow2(n)
    ensures FromBits(LowBits(b, n)) == b
  {
    if n > 0 {
      var bits := LowBits(b, n);
      assert bits[1..] == LowBits(b / 2, n - 1);
      FromLowBits(b / 2, n - 1);
    }
  }

  lemma AppendAssoc<T>(a: seq<T>, b: seq<T>, c: seq<T>)
    ensures a + b + c == a + (b + c)
  {
  }

  /** LSB_16: the low byte of a 16-bit value. */
  function Lsb16(x: uint16): uint8 { x % 0x100 }
  /** MSB_16: the high byte of a 16-bit value. */
  function Msb16(x: uint16): uint8 { x / 0x100 }

  /** uint16_encode: two bytes, least significant first. */
  function EncodeLe16(x: uint16): (r: seq<uint8>)
    ensures |r| == 2
  {
    [Lsb16(x), Msb16(x)]
  }

  /** The 16-bit value two little-endian bytes stand for. */
  function DecodeLe16(b: seq<uint8>): (r: uint16)
    requires |b| >= 2
  {
    b[0] as int + 0x100 * (b[1] as int)
  }

  /** uint32_encode: four bytes, least significant first. */
  function EncodeLe32(x: uint32): (r: seq<uint8>)
    ensures |r| == 4
  {
    [x % 0x100, (x / 0x100) % 0x100, (x / 0x1_0000) % 0x100, x / 0x100_0000]
  }

  /** uint32_decode: the 32-bit value of the first four bytes, least significant first. */
  function DecodeLe32(b: seq<uint8>): (r: uint32)
    requires |b| >= 4
  {
    b[0] as int + 0x100 * (b[1] as int) + 0x1_0000 * (b[2] as int) + 0x100_0000 * (b[3] as int)
  }

  lemma Le16RoundTrip(x: uint16)
    ensures DecodeLe16(EncodeLe16(x)) == x
  {
  }

  /** Splitting off the low byte of r + 256 * q. */
  lemma SplitByte(r: int, q: int)
    requires 0 <= r < 0x100 && 0 <= q
    ensures (r + 0x100 * q) % 0x100 == r && (r + 0x100 * q) / 0x100 == q
  {
  }

  lemma Le32RoundTrip(x: uint32)
    ensures DecodeLe32(EncodeLe32(x)) == x
  {
    var q1 := x / 0x100;
    var q2 := q1 / 0x100;
    assert x / 0x1_0000 == q2;
    assert x / 0x100_0000 == q2 / 0x100;
    assert x == x % 0x100 + 0x100 * q1;
    assert q1 == q1 % 0x100 + 0x100 * q2;
    assert q2 == q2 % 0x100 + 0x100 * (q2 / 0x100);
  }

  /** Every four bytes are the encoding of the value they decode to. */
  lemma Le32Bytes(a: seq<uint8>)
    requires |a| == 4
    ensures EncodeLe32(DecodeLe32(a)) == a
  {
    var x := DecodeLe32(a);
    var q2 := a[2] as int + 0x100 * (a[3] as int);
    var q1 := a[1] as int + 0x100 * q2;
    assert x == a[0] as int + 0x100 * q1;
    SplitByte(a[0], q1);
    SplitByte(a[1], q2);
    SplitByte(a[2], a[3]);
    assert x / 0x1_0000 == q2;
  }

  /** Two four-byte sequences that decode to the same value are equal. */
  lemma Le32Injective(a: seq<uint8>, b: seq<uint8>)
    requires |a| == 4 && |b| == 4
    requires DecodeLe32(a) == DecodeLe32(b)
    ensures a == b
  {
    Le32Bytes(a);
    Le32Bytes(b);
  }
}
