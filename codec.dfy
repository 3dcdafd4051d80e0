/** The wire formats of the ANCS client: the fixed eight-byte Notification
    Source record, the two-byte Client Characteristic Configuration value and
    the Get Notification Attributes command written to the Control Point. */
module NotifCodec {
  import opened AncsTypes

  datatype Option<T> = None | Some(value: T)

  /** The five event flags of a notification (ble_ancs_c_evt_flags_t). */
  datatype EvtFlags = EvtFlags(silent: bool, important: bool, preExisting: bool,
                               positiveAction: bool, negativeAction: bool)

  /** A decoded Notification Source record (ble_ancs_c_evt_notif_t). */
  datatype Notif = Notif(evtId: uint8, flags: EvtFlags, categoryId: uint8,
                         categoryCount: uint8, notifUid: uint32)

  /** The value m_ancs_evt.notif has before any notification arrived. */
  const NO_NOTIF := Notif(0, EvtFlags(false, false, false, false, false), 0, 0, 0)

  // ---------------------------------------------------------------------------
  // Notification Source record

  /** The flags byte, one flag per bit position (parse_notif, lines 452-465). */
  function DecodeFlags(b: uint8): EvtFlags
  {
    EvtFlags(Bit(b, FLAG_SILENT), Bit(b, FLAG_IMPORTANT), Bit(b, FLAG_PREEXISTING),
             Bit(b, FLAG_POSITIVE_ACTION), Bit(b, FLAG_NEGATIVE_ACTION))
  }

  /** The flags in bit order: entry k is the flag at bit position k. */
  function FlagList(f: EvtFlags): (bits: seq<bool>)
    ensures |bits| == 5
    ensures bits[FLAG_SILENT] == f.silent && bits[FLAG_IMPORTANT] == f.important
    ensures bits[FLAG_PREEXISTING] == f.preExisting
    ensures bits[FLAG_POSITIVE_ACTION] == f.positiveAction && bits[FLAG_NEGATIVE_ACTION] == f.negativeAction
  {
    [f.silent, f.important, f.preExisting, f.positiveAction, f.negativeAction]
  }

  /** The flags byte a provider sends for the given flags (reference encoder). */
  function EncodeFlags(f: EvtFlags): (b: uint8)
    ensures b < 32
  {
    assert Pow2(5) == 32;
    FromBits(FlagList(f))
  }

  /** Field extraction of parse_notif: byte 0 event ID, byte 1 flags, byte 2
      category ID, byte 3 category count, bytes 4-7 the notification UID. Bytes
      past the eighth are not looked at. */
  function DecodeNotif(data: seq<uint8>): Notif
    requires |data| >= NOTIFICATION_DATA_LENGTH
  {
    Notif(data[0], DecodeFlags(data[1]), data[2], data[3], DecodeLe32(data[4..8]))
  }

  /** The record a provider sends for the given notification (reference encoder). */
  function EncodeNotif(n: Notif): (data: seq<uint8>)
    ensures |data| == NOTIFICATION_DATA_LENGTH
  {
    [n.evtId, EncodeFlags(n.flags), n.categoryId, n.categoryCount] + EncodeLe32(n.notifUid)
  }

  /** ble_ancs_verify_notification_format: the event and category IDs must lie
      inside their enumerations. */
  function VerifyNotificationFormat(n: Notif): (r: ErrorCode)
    ensures r == Success || r == ErrorInvalidParam
  {
    if n.evtId >= NB_OF_EVT_ID || n.categoryId >= NB_OF_CATEGORY_ID then ErrorInvalidParam
    else Success
  }

  lemma FlagsRoundTrip(f: EvtFlags)
    ensures DecodeFlags(EncodeFlags(f)) == f
  {
    var bits := FlagList(f);
    BitOfFromBits(bits, FLAG_SILENT);
    BitOfFromBits(bits, FLAG_IMPORTANT);
    BitOfFromBits(bits, FLAG_PREEXISTING);
    BitOfFromBits(bits, FLAG_POSITIVE_ACTION);
    BitOfFromBits(bits, FLAG_NEGATIVE_ACTION);
  }

  /** Every byte whose three top bits are clear is the encoding of its flags. */
  lemma FlagsByteRoundTrip(b: uint8)
    requires b < 32
    ensures EncodeFlags(DecodeFlags(b)) == b
  {
    var bits := LowBits(b, 5);
    LowBitsAt(b, 5, 0);
    LowBitsAt(b, 5, 1);
    LowBitsAt(b, 5, 2);
    LowBitsAt(b, 5, 3);
    LowBitsAt(b, 5, 4);
    assert FlagList(DecodeFlags(b)) == bits;
    assert Pow2(5) == 32;
    FromLowBits(b, 5);
  }

  /** Decoding a provider's record gives back the notification. */
  lemma NotifRoundTrip(n: Notif)
    ensures DecodeNotif(EncodeNotif(n)) == n
  {
    var d := EncodeNotif(n);
    assert d[4..8] == EncodeLe32(n.notifUid);
    Le32RoundTrip(n.notifUid);
    FlagsRoundTrip(n.flags);
  }

  /** An eight-byte record with no reserved flag bit set is the encoding of
      what it decodes to, so the decoder loses nothing but the reserved bits. */
  lemma NotifBytesRoundTrip(data: seq<uint8>)
    requires |data| == NOTIFICATION_DATA_LENGTH && data[1] < 32
    ensures EncodeNotif(DecodeNotif(data)) == data
  {
    var n := DecodeNotif(data);
    FlagsByteRoundTrip(data[1]);
    Le32RoundTrip(n.notifUid);
    Le32Injective(EncodeLe32(n.notifUid), data[4..8]);
    assert EncodeNotif(n) == data[..4] + data[4..8];
  }

  // ---------------------------------------------------------------------------
  // Client Characteristic Configuration value (cccd_configure, lines 599-610)

  /** The two bytes written to a CCCD: LSB then MSB of the notify bit mask or of
      0, which per Bluetooth Core Specification v4.x, Vol 3, Part G, section
      3.3.3.3 switches notifications on or off. */
  function CccdValue(enable: bool): (v: seq<uint8>)
    ensures |v| == 2
    ensures DecodeLe16(v) == (if enable then 1 else 0)
  {
    var cccdVal: uint16 := if enable then CCCD_NOTIFY_BIT_MASK else 0;
    [Lsb16(cccdVal), Msb16(cccdVal)]
  }

  // ---------------------------------------------------------------------------
  // Get Notification Attributes command (ble_ancs_get_notif_attrs, lines 662-685)

  /** A received record passes the format check exactly when its event ID
      byte (offset 0) and its category ID byte (offset 2) lie inside their
      enumerations; the flags, category count and UID play no part. */
  lemma VerifyDecoded(data: seq<uint8>)
    requires |data| >= NOTIFICATION_DATA_LENGTH
    ensures VerifyNotificationFormat(DecodeNotif(data)) == Success
            <==> data[0] < NB_OF_EVT_ID && data[2] < NB_OF_CATEGORY_ID
  {
  }

  /** One requested attribute of the command: its ID and, for Title, Subtitle
      and Message only, the maximum length asked for. */
  datatype RequestItem = RequestItem(id: uint8, maxLen: Option<uint16>)

  /** The attributes whose request carries a 2-byte maximum length. */
  predicate HasMaxLen(id: int)
  {
    id == ATTR_ID_TITLE as int || id == ATTR_ID_SUBTITLE as int || id == ATTR_ID_MESSAGE as int
  }

  predicate WellFormedItem(it: RequestItem)
  {
    it.maxLen.Some? <==> HasMaxLen(it.id)
  }

  /** The item entry id of the registry asks for. */
  function ItemFor(reg: seq<AttrEntry>, id: nat): (it: RequestItem)
    requires id < |reg| <= 0x100
    ensures it.id == id && (it.maxLen.Some? <==> HasMaxLen(id))
    ensures it.maxLen.Some? ==> it.maxLen.value == reg[id].cap
  {
    RequestItem(id, if HasMaxLen(id) then Some(reg[id].cap) else None)
  }

  /** The requested attributes among registry entries 0 .. k-1, in ascending
      ID order, each with the registered capacity as maximum length when the
      attribute takes one (the loop of lines 669-684); RequestedListSpec
      states this. */
  function RequestedList(reg: seq<AttrEntry>, k: nat): (r: seq<RequestItem>)
    requires k <= |reg| <= 0x100
    ensures |r| <= k
    ensures forall j :: 0 <= j < |r| ==> WellFormedItem(r[j])
  {
    if k == 0 then []
    else
      var prev := RequestedList(reg, k - 1);
      if reg[k - 1].get then prev + [ItemFor(reg, k - 1)] else prev
  }

  /** The request lists exactly the requested entries below k, each once, in
      strictly ascending ID order, every item well formed and carrying the
      registered capacity as its maximum length. */
  lemma RequestedListSpec(reg: seq<AttrEntry>, k: nat)
    requires k <= |reg| <= 0x100
    ensures var r := RequestedList(reg, k);
      && (forall j :: 0 <= j < |r| ==> r[j].id < k && reg[r[j].id].get && WellFormedItem(r[j]))
      && (forall j :: 0 <= j < |r| ==> r[j].maxLen.Some? ==> r[j].maxLen.value == reg[r[j].id].cap)
      && (forall j, j' :: 0 <= j < j' < |r| ==> r[j].id < r[j'].id)
      && (forall id :: 0 <= id < k && reg[id].get ==> exists j :: 0 <= j < |r| && r[j].id == id)
  {
    RequestedListItems(reg, k);
    RequestedListComplete(reg, k);
  }

  /** Every item is a requested entry below k with its registered capacity,
      and the IDs strictly ascend. */
  lemma {:induction false} RequestedListItems(reg: seq<AttrEntry>, k: nat)
    requires k <= |reg| <= 0x100
    ensures forall j :: 0 <= j < |RequestedList(reg, k)| ==>
      RequestedList(reg, k)[j].id < k && reg[RequestedList(reg, k)[j].id].get
    ensures forall j :: 0 <= j < |RequestedList(reg, k)| ==> RequestedList(reg, k)[j].maxLen.Some? ==>
      RequestedList(reg, k)[j].maxLen.value == reg[RequestedList(reg, k)[j].id].cap
    ensures forall j, j' :: 0 <= j < j' < |RequestedList(reg, k)| ==>
      RequestedList(reg, k)[j].id < RequestedList(reg, k)[j'].id
  {
    if k > 0 {
      RequestedListItems(reg, k - 1);
      var prev := RequestedList(reg, k - 1);
      if reg[k - 1].get {
        var r := prev + [ItemFor(reg, k - 1)];
        assert RequestedList(reg, k) == r;
        assert r[|prev|].id == k - 1;
        assert forall j :: 0 <= j < |prev| ==> r[j] == prev[j];
      } else {
        assert RequestedList(reg, k) == prev;
      }
    }
  }

  /** Every requested entry below k has an item. */
  lemma {:induction false} RequestedListComplete(reg: seq<AttrEntry>, k: nat)
    requires k <= |reg| <= 0x100
    ensures var r := RequestedList(reg, k);
      forall id :: 0 <= id < k && reg[id].get ==> exists j :: 0 <= j < |r| && r[j].id == id
  {
    if k > 0 {
      RequestedListComplete(reg, k - 1);
      var prev := RequestedList(reg, k - 1);
      if reg[k - 1].get {
        var r := prev + [ItemFor(reg, k - 1)];
        assert RequestedList(reg, k) == r;
        assert r[|prev|].id == k - 1;
        assert forall j :: 0 <= j < |prev| ==> r[j] == prev[j];
      } else {
        assert RequestedList(reg, k) == prev;
      }
    }
  }

  /** How many items carry a maximum length. */
  function LenCount(items: seq<RequestItem>): (n: nat)
    ensures n <= |items|
  {
    if items == [] then 0 else (if items[0].maxLen.Some? then 1 else 0) + LenCount(items[1..])
  }

  function EncodeItem(it: RequestItem): seq<uint8>
  {
    [it.id] + (match it.maxLen case Some(n) => EncodeLe16(n) case None => [])
  }

  /** The attribute part of the command: per item its ID byte, then its
      little-endian maximum length if it has one. */
  function EncodeItems(items: seq<RequestItem>): (b: seq<uint8>)
    ensures |b| == |items| + 2 * LenCount(items)
  {
    if items == [] then [] else EncodeItem(items[0]) + EncodeItems(items[1..])
  }

  /** The reference reader of the attribute part, the partner of EncodeItems. */
  function DecodeItems(b: seq<uint8>): Option<seq<RequestItem>>
  {
    if b == [] then Some([])
    else if HasMaxLen(b[0]) then
      if |b| < 3 then None
      else match DecodeItems(b[3..])
        case None => None
        case Some(rest) => Some([RequestItem(b[0], Some(DecodeLe16(b[1..3])))] + rest)
    else match DecodeItems(b[1..])
      case None => None
      case Some(rest) => Some([RequestItem(b[0], None)] + rest)
  }

  /** The whole command: command ID, the 4-byte little-endian notification UID,
      then the requested attributes of the registry. */
  function GetNotifAttrsPayload(uid: uint32, reg: seq<AttrEntry>): seq<uint8>
    requires |reg| <= 0x100
  {
    [COMMAND_ID_GET_NOTIF_ATTRIBUTES] + EncodeLe32(uid) + EncodeItems(RequestedList(reg, |reg|))
  }

  /** The reference reader of a whole command. */
  function DecodeGetNotifAttrs(b: seq<uint8>): Option<(uint32, seq<RequestItem>)>
  {
    if |b| < 5 || b[0] != COMMAND_ID_GET_NOTIF_ATTRIBUTES then None
    else match DecodeItems(b[5..])
      case None => None
      case Some(items) => Some((DecodeLe32(b[1..5]), items))
  }

  lemma {:induction false} EncodeItemsAppend(items: seq<RequestItem>, it: RequestItem)
    ensures EncodeItems(items + [it]) == EncodeItems(items) + EncodeItem(it)
  {
    if items == [] {
      assert [it][1..] == [];
    } else {
      assert (items + [it])[1..] == items[1..] + [it];
      EncodeItemsAppend(items[1..], it);
    }
  }

  lemma {:induction false} ItemsRoundTrip(items: seq<RequestItem>)
    requires forall j :: 0 <= j < |items| ==> WellFormedItem(items[j])
    ensures DecodeItems(EncodeItems(items)) == Some(items)
  {
    if items != [] {
      var it := items[0];
      var b := EncodeItems(items);
      ItemsRoundTrip(items[1..]);
      if it.maxLen.Some? {
        assert b[3..] == EncodeItems(items[1..]);
        assert b[1..3] == EncodeLe16(it.maxLen.value);
        Le16RoundTrip(it.maxLen.value);
      } else {
        assert b[0] == it.id && !HasMaxLen(b[0]);
        assert b[1..] == EncodeItems(items[1..]);
      }
      assert items == [it] + items[1..];
    }
  }

  /** Reading back a Get Notification Attributes command gives the UID and the
      requested attributes, in ascending ID order with their maximum lengths. */
  lemma PayloadRoundTrip(uid: uint32, reg: seq<AttrEntry>)
    requires |reg| <= 0x100
    ensures DecodeGetNotifAttrs(GetNotifAttrsPayload(uid, reg)) == Some((uid, RequestedList(reg, |reg|)))
  {
    var b := GetNotifAttrsPayload(uid, reg);
    var items := RequestedList(reg, |reg|);
    assert b[0] == COMMAND_ID_GET_NOTIF_ATTRIBUTES;
    assert b[1..5] == EncodeLe32(uid);
    assert b[5..] == EncodeItems(items);
    Le32RoundTrip(uid);
    ItemsRoundTrip(items);
    assert DecodeItems(b[5..]) == Some(items);
  }

  /** How many of entries 0 .. k-1 are requested. */
  function RequestedCount(reg: seq<AttrEntry>, k: nat): nat
    requires k <= |reg|
  {
    if k == 0 then 0 else RequestedCount(reg, k - 1) + (if reg[k - 1].get then 1 else 0)
  }

  lemma {:induction false} RequestedCountBound(reg: seq<AttrEntry>, k: nat)
    requires k <= |reg|
    ensures RequestedCount(reg, k) <= k
  {
    if k > 0 {
      RequestedCountBound(reg, k - 1);
    }
  }

  /** How many of entries 0 .. k-1 are requested and take a maximum length. */
  function RequestedWithLenCount(reg: seq<AttrEntry>, k: nat): nat
    requires k <= |reg|
  {
    if k == 0 then 0
    else RequestedWithLenCount(reg, k - 1) + (if reg[k - 1].get && HasMaxLen(k - 1) then 1 else 0)
  }

  lemma {:induction false} LenCountAppend(items: seq<RequestItem>, it: RequestItem)
    ensures LenCount(items + [it]) == LenCount(items) + (if it.maxLen.Some? then 1 else 0)
  {
    if items != [] {
      assert (items + [it])[1..] == items[1..] + [it];
      LenCountAppend(items[1..], it);
    }
  }

  lemma {:induction false} RequestedListCounts(reg: seq<AttrEntry>, k: nat)
    requires k <= |reg| <= 0x100
    ensures |RequestedList(reg, k)| == RequestedCount(reg, k)
    ensures LenCount(RequestedList(reg, k)) == RequestedWithLenCount(reg, k)
  {
    RequestedListLength(reg, k);
    RequestedListLenCount(reg, k);
  }

  lemma {:induction false} RequestedListLength(reg: seq<AttrEntry>, k: nat)
    requires k <= |reg| <= 0x100
    ensures |RequestedList(reg, k)| == RequestedCount(reg, k)
  {
    if k > 0 {
      RequestedListLength(reg, k - 1);
      RequestedListStep(reg, k);
    }
  }

  lemma {:induction false} RequestedListLenCount(reg: seq<AttrEntry>, k: nat)
    requires k <= |reg| <= 0x100
    ensures LenCount(RequestedList(reg, k)) == RequestedWithLenCount(reg, k)
  {
    if k > 0 {
      RequestedListLenCount(reg, k - 1);
      RequestedListStep(reg, k);
      var prev := RequestedList(reg, k - 1);
      var extra := if reg[k - 1].get && HasMaxLen(k - 1) then 1 else 0;
      assert RequestedWithLenCount(reg, k) == RequestedWithLenCount(reg, k - 1) + extra;
      if reg[k - 1].get {
        var it := ItemFor(reg, k - 1);
        LenCountAppend(prev, it);
        assert RequestedList(reg, k) == prev + [it];
        assert LenCount(prev + [it]) == LenCount(prev) + extra;
      } else {
        assert RequestedList(reg, k) == prev;
      }
    } else {
      assert RequestedList(reg, k) == [];
    }
  }

  /** One more registry entry adds its item exactly when it is requested. */
  lemma RequestedListStep(reg: seq<AttrEntry>, k: nat)
    requires 0 < k <= |reg| <= 0x100
    ensures RequestedList(reg, k)
            == RequestedList(reg, k - 1) + (if reg[k - 1].get then [ItemFor(reg, k - 1)] else [])
  {
  }

  /** Only the three entries Title, Subtitle and Message take a maximum length. */
  lemma {:induction false} RequestedWithLenBound(reg: seq<AttrEntry>, k: nat)
    requires k <= |reg|
    ensures RequestedWithLenCount(reg, k) <= (if k <= 1 then 0 else if k <= 4 then k - 1 else 3)
  {
    if k > 0 {
      RequestedWithLenBound(reg, k - 1);
    }
  }

  /** The command is 5 + (number of requested attributes) + 2 * (number of
      requested attributes among Title, Subtitle and Message) bytes long, which
      for the eight-entry registry always fits the 20-byte write message. */
  lemma PayloadLength(uid: uint32, reg: seq<AttrEntry>)
    requires |reg| == NB_OF_ATTRS
    ensures |GetNotifAttrsPayload(uid, reg)|
            == 5 + RequestedCount(reg, |reg|) + 2 * RequestedWithLenCount(reg, |reg|)
    ensures |GetNotifAttrsPayload(uid, reg)| <= WRITE_MESSAGE_LENGTH
  {
    RequestedListCounts(reg, |reg|);
    RequestedWithLenBound(reg, |reg|);
    RequestedCountBound(reg, |reg|);
  }
}
