/** The ANCS client of ble_ancs_c.c as one object: the module's statics (the
    discovered handles, the attribute registry, the last received
    notification, the parser state and the transmit ring) become the fields
    of AncsClient, and each entry point of the core becomes a method.

    The application's event handler is modelled by the ghost log `events`:
    every call of p_ancs->evt_handler appends one Event. The SoftDevice's
    answer to a submitted read or write is an input, `accepted`. */
module Ancs {
  import opened AncsTypes
  import opened NotifCodec
  import opened AttrParser
  import opened TxQueue

  /** The events the core hands to the application. */
  datatype Event =
    | Notification(notif: Notif)          // BLE_ANCS_C_EVT_NOTIF
    | InvalidNotification(notif: Notif)   // BLE_ANCS_C_EVT_INVALID_NOTIF
    | Attribute(attr: AttrEvent)          // BLE_ANCS_C_EVT_NOTIF_ATTRIBUTE

  /** The stack events ble_ancs_c_on_ble_evt looks at; any other is OtherEvent. */
  datatype BleEvent =
    | WriteRsp
    | Hvx(handle: uint16, data: seq<uint8>)
    | OtherEvent

  function AttributeEvents(evs: seq<AttrEvent>): (r: seq<Event>)
    ensures |r| == |evs| && forall k :: 0 <= k < |evs| ==> r[k] == Attribute(evs[k])
  {
    seq(|evs|, k requires 0 <= k < |evs| => Attribute(evs[k]))
  }

  lemma AttributeEventsAppend(a: seq<AttrEvent>, b: seq<AttrEvent>)
    ensures AttributeEvents(a + b) == AttributeEvents(a) + AttributeEvents(b)
  {
  }

  /** The events parse_notif emits for the record `data`, prev being the last
      notification received before it. A record whose length is not 8 is
      reported as invalid, carrying the PREVIOUS notification, and is then
      decoded all the same; the decoded record is reported as a notification
      exactly when its event and category IDs pass the format check. */
  function NotifEvents(prev: Notif, data: seq<uint8>): (r: seq<Event>)
    requires |data| >= NOTIFICATION_DATA_LENGTH
    ensures |r| == if |data| == NOTIFICATION_DATA_LENGTH then 1 else 2
    ensures |data| != NOTIFICATION_DATA_LENGTH ==> r[0] == InvalidNotification(prev)
    ensures !r[|r| - 1].Attribute? && r[|r| - 1].notif == DecodeNotif(data)
    ensures r[|r| - 1].Notification? <==> data[0] < NB_OF_EVT_ID && data[2] < NB_OF_CATEGORY_ID
  {
    VerifyDecoded(data);
    var n := DecodeNotif(data);
    (if |data| != NOTIFICATION_DATA_LENGTH then [InvalidNotification(prev)] else [])
    + [if VerifyNotificationFormat(n) == Success then Notification(n) else InvalidNotification(n)]
  }

  /** The write cccd_configure queues: a 2-byte write request of the CCCD
      value at offset 0 of the descriptor. */
  function CccdMessage(conn: uint16, handleCccd: uint16, enable: bool): TxMessage
  {
    WriteReq(conn, WriteParams(handleCccd, 0, GATT_OP_WRITE_REQ, CccdValue(enable)))
  }

  /** The write ble_ancs_get_notif_attrs queues: a write request of the Get
      Notification Attributes command to the Control Point. */
  function RequestMessage(conn: uint16, controlPoint: uint16, uid: uint32, reg: seq<AttrEntry>): TxMessage
    requires |reg| <= 0x100
  {
    WriteReq(conn, WriteParams(controlPoint, 0, GATT_OP_WRITE_REQ, GetNotifAttrsPayload(uid, reg)))
  }

  /** The contents of the buffers `bufs` are those they had in the previous
      state with the writes `stores` applied. */
  twostate predicate BuffersAfter(bufs: set<array<uint8>>, new stores: seq<Store>)
    reads bufs
  {
    forall b :: b in bufs ==> b[..] == ApplyStores(old(b[..]), b, stores)
  }

  class AncsClient {
    // The connection and the handles found by service discovery.
    var connHandle: uint16
    var controlPointHandle: uint16
    var notifSourceHandle: uint16
    var notifSourceCccd: uint16
    var dataSourceHandle: uint16
    var dataSourceCccd: uint16
    /** m_tx_buffer with its two indices. */
    const tx: TxRing
    /** m_ancs_attr_list. */
    const registry: array<AttrEntry>
    /** m_ancs_evt.notif: the last notification received. */
    var lastNotif: Notif
    /** m_parse_state, m_expected_number_of_attrs and the statics of
        parse_get_notif_attrs_response (p_data_dest, current_attr_index and
        evt.attr), kept together as one record. */
    var parser: Parser
    /** Every event handed to the application, oldest first. */
    ghost var events: seq<Event>
    /** The caller-owned buffers registered with ble_ancs_c_attr_add: the
        only memory the parser writes into. */
    ghost var buffers: set<array<uint8>>

    ghost predicate Valid()
      reads this, tx, tx.slots, registry
    {
      && registry.Length == NB_OF_ATTRS && tx.Valid() && Inv(parser, registry[..])
      && (forall k :: 0 <= k < registry.Length && registry[k].buf != null ==> registry[k].buf in buffers)
      && (parser.dest != null ==> parser.dest in buffers)
    }

    /** What parse_get_notif_attrs_response does with `chunk` from the current
        state. */
    ghost function FeedResult(chunk: seq<uint8>): RunOut
      reads this, tx, tx.slots, registry
      requires Valid() && Run(parser, registry[..], lastNotif.notifUid, chunk, 0).Some?
    {
      Run(parser, registry[..], lastNotif.notifUid, chunk, 0).value
    }

    twostate predicate LinkUnchanged()
      reads this
    {
      && connHandle == old(connHandle) && controlPointHandle == old(controlPointHandle)
      && notifSourceHandle == old(notifSourceHandle) && notifSourceCccd == old(notifSourceCccd)
      && dataSourceHandle == old(dataSourceHandle) && dataSourceCccd == old(dataSourceCccd)
    }

    /** The statics as the program starts: nothing registered, nothing
        queued, no notification seen, the parser waiting for a header. */
    constructor ()
      ensures Valid() && fresh(tx) && fresh(tx.slots) && fresh(registry)
      ensures tx.Contents() == [] && tx.enqueued == [] && tx.sent == []
      ensures forall k :: 0 <= k < registry.Length ==> registry[k] == AttrEntry(false, 0, null)
      ensures parser.state == CommandIdAndNotifUid && parser.expected == 0 && parser.dest == null
      ensures lastNotif == NO_NOTIF && events == [] && buffers == {}
    {
      connHandle, controlPointHandle := 0, 0;
      notifSourceHandle, notifSourceCccd, dataSourceHandle, dataSourceCccd := 0, 0, 0, 0;
      tx := new TxRing();
      registry := new AttrEntry[NB_OF_ATTRS](_ => AttrEntry(false, 0, null));
      lastNotif := NO_NOTIF;
      parser := Parser(CommandIdAndNotifUid, 0, null, 0, 0, 0, 0);
      events, buffers := [], {};
    }

    /** The connection and the handles that service discovery would record. */
    method SetLink(conn: uint16, controlPoint: uint16, notifSource: uint16, notifSourceDesc: uint16,
                   dataSource: uint16, dataSourceDesc: uint16)
      requires Valid()
      modifies this
      ensures Valid()
      ensures connHandle == conn && controlPointHandle == controlPoint
      ensures notifSourceHandle == notifSource && notifSourceCccd == notifSourceDesc
      ensures dataSourceHandle == dataSource && dataSourceCccd == dataSourceDesc
      ensures parser == old(parser) && lastNotif == old(lastNotif) && events == old(events)
      ensures buffers == old(buffers)
    {
      connHandle, controlPointHandle := conn, controlPoint;
      notifSourceHandle, notifSourceCccd := notifSource, notifSourceDesc;
      dataSourceHandle, dataSourceCccd := dataSource, dataSourceDesc;
    }

    /** One pass of the `for` loop of parse_get_notif_attrs_response (the
        switch of lines 307-406) at position `index`: the new parser state,
        the next position, the event and the bytes written are those of
        AttrParser.Step. `bufs` holds every buffer the parser may write into. */
    method ParseByte(chunk: seq<uint8>, index: nat, ghost bufs: set<array<uint8>>) returns (next: nat)
      requires Valid() && index < |chunk|
      requires Step(parser, registry[..], lastNotif.notifUid, chunk, index).Some?
      requires bufs == buffers
      modifies this, bufs
      ensures Valid() && LinkUnchanged() && lastNotif == old(lastNotif)
      ensures buffers == old(buffers)
      ensures var s := old(Step(parser, registry[..], lastNotif.notifUid, chunk, index)).value;
        && parser == s.p && next == s.next
        && events == old(events) + AttributeEvents(s.events)
        && BuffersAfter(bufs, s.stores)
    {
      if parser.state == AttrData {
        next := DataByte(chunk, index, bufs);
      } else {
        next := ControlByte(chunk, index);
      }
    }

    /** ParseByte in the ATTR_DATA state: CopyByte writes into the buffer of
        the attribute being received, and no other buffer changes. */
    method DataByte(chunk: seq<uint8>, index: nat, ghost bufs: set<array<uint8>>) returns (next: nat)
      requires Valid() && index < |chunk| && parser.state == AttrData
      requires bufs == buffers
      modifies this, bufs
      ensures Valid() && LinkUnchanged() && lastNotif == old(lastNotif)
      ensures buffers == old(buffers)
      ensures var s := old(Step(parser, registry[..], lastNotif.notifUid, chunk, index)).value;
        && parser == s.p && next == s.next
        && events == old(events) + AttributeEvents(s.events)
        && BuffersAfter(bufs, s.stores)
    {
      ghost var s := Step(parser, registry[..], lastNotif.notifUid, chunk, index).value;
      ghost var p := parser;
      DataStep(p, registry[..], lastNotif.notifUid, chunk, index);
      next := CopyByte(chunk, index);
      if p.attrIndex == registry[p.attrId].cap {
        CopyStores(old(p.dest[..]), p.dest, p.attrIndex, 0, s.stores);
      } else {
        CopyStores(old(p.dest[..]), p.dest, p.attrIndex, chunk[index], s.stores);
      }
      forall b | b in bufs && b != p.dest
        ensures b[..] == ApplyStores(old(b[..]), b, s.stores)
      {
        OtherBufferUntouched(old(b[..]), b, s.stores);
      }
    }

    /** The cases of the switch other than ATTR_DATA: they move the parser
        and may emit an event, but write no buffer. */
    method ControlByte(chunk: seq<uint8>, index: nat) returns (next: nat)
      requires Valid() && index < |chunk| && parser.state != AttrData
      requires Step(parser, registry[..], lastNotif.notifUid, chunk, index).Some?
      modifies this
      ensures Valid() && LinkUnchanged() && lastNotif == old(lastNotif) && buffers == old(buffers)
      ensures var s := old(Step(parser, registry[..], lastNotif.notifUid, chunk, index)).value;
        && parser == s.p && next == s.next && s.stores == []
        && events == old(events) + AttributeEvents(s.events)
    {
      ghost var s := Step(parser, registry[..], lastNotif.notifUid, chunk, index).value;
      var p := parser;
      ghost var emitted: seq<AttrEvent> := [];
      next := index;
      match p.state {
        case CommandIdAndNotifUid =>
          var commandId := chunk[next];
          next := next + 1;
          if commandId != COMMAND_ID_GET_NOTIF_ATTRIBUTES {
            p := p.(state := Done);
          }
          p := p.(uid := DecodeLe32(chunk[next..next + 4]));
          next := next + 4;
          p := p.(state := AttrId);
          if p.uid != lastNotif.notifUid {
            p := p.(state := Done);
          }
        case AttrId =>
          if p.expected == 0 {
            p := p.(state := Done);
            next := next + 1;
          } else {
            var id := chunk[next];
            next := next + 1;
            p := p.(attrId := id, dest := registry[id].buf);
            if registry[id].get {
              p := p.(state := AttrLen1);
            }
            p := p.(expected := p.expected - 1);
          }
        case AttrLen1 =>
          p := p.(attrLen := chunk[next], state := AttrLen2);
          next := next + 1;
        case AttrLen2 =>
          // `attr_len |= byte << 8`: the low byte is below 0x100, so the OR adds.
          p := p.(attrLen := p.attrLen + 0x100 * (chunk[next] as int), attrIndex := 0);
          next := next + 1;
          if p.attrLen != 0 {
            p := p.(state := AttrData);
          } else {
            emitted := [AttrEvent(p.uid, p.attrId, p.attrLen)];
            p := p.(state := AttrId);
          }
        case AttrData =>
          assert false;
        case Done =>
          next := |chunk|;
      }
      assert p == s.p && emitted == s.events && s.stores == [];
      parser := p;
      events := events + AttributeEvents(emitted);
    }

    /** The ATTR_DATA case (lines 371-397): the byte is copied at the copy
        index unless the index has reached the capacity; when the copy index
        is then at the declared length or the capacity, a 0 is written there,
        the surplus is skipped and the attribute's event is emitted. */
    method CopyByte(chunk: seq<uint8>, index: nat) returns (next: nat)
      requires registry.Length == NB_OF_ATTRS && Inv(parser, registry[..])
      requires index < |chunk| && parser.state == AttrData
      modifies this, parser.dest
      ensures LinkUnchanged() && lastNotif == old(lastNotif) && buffers == old(buffers)
      ensures var p := old(parser); var cap := registry[p.attrId].cap;
        && p.dest != null && p.attrIndex < p.dest.Length
        && (p.attrIndex == cap ==>
              && parser == p.(state := AttrId) && next == index + (p.attrLen - p.attrIndex)
              && events == old(events) + [Attribute(AttrEvent(p.uid, p.attrId, p.attrLen))]
              && p.dest[..] == old(p.dest[..])[p.attrIndex := 0])
      ensures var p := old(parser); var k := p.attrIndex + 1; var cap := registry[p.attrId].cap;
        var full := k == p.attrLen || k == cap;
        p.attrIndex < cap ==>
          && k < p.dest.Length
          && parser == (if full then p.(state := AttrId, attrIndex := k) else p.(attrIndex := k))
          && next == (if full then index + 1 + (p.attrLen - k) else index + 1)
          && events == old(events) + (if full then [Attribute(AttrEvent(p.uid, p.attrId, p.attrLen))] else [])
          && p.dest[..] == (if full then old(p.dest[..])[p.attrIndex := chunk[index]][k := 0]
                            else old(p.dest[..])[p.attrIndex := chunk[index]])
    {
      next := index;
      var p := parser;
      var dest := p.dest;
      var cap := registry[p.attrId].cap;
      if p.attrIndex < cap && p.attrIndex < p.attrLen {
        dest[p.attrIndex] := chunk[next];
        p := p.(attrIndex := p.attrIndex + 1);
        next := next + 1;
      }
      if p.attrIndex == p.attrLen || p.attrIndex == cap {
        dest[p.attrIndex] := 0;
        if p.attrIndex < p.attrLen {
          next := next + (p.attrLen - p.attrIndex);
        }
        p := p.(state := AttrId);
        events := events + [Attribute(AttrEvent(p.uid, p.attrId, p.attrLen))];
      }
      parser := p;
    }

    /** parse_get_notif_attrs_response (lines 293-409): one chunk of a Get
        Notification Attributes response goes through the state machine. The
        new parser state, the attribute events and the bytes written into the
        caller's buffers are exactly those of AttrParser.Run. The chunk must be
        one on which the C stays inside its inputs (Run is not None). */
    method Feed(chunk: seq<uint8>)
      requires Valid()
      requires Run(parser, registry[..], lastNotif.notifUid, chunk, 0).Some?
      modifies this, buffers
      ensures Valid() && LinkUnchanged()
      ensures parser == old(FeedResult(chunk)).p
      ensures events == old(events) + AttributeEvents(old(FeedResult(chunk)).events)
      ensures buffers == old(buffers) && BuffersAfter(buffers, old(FeedResult(chunk)).stores)
      ensures lastNotif == old(lastNotif)
    {
      ghost var reg := registry[..];
      ghost var uid0 := lastNotif.notifUid;
      ghost var r := Run(parser, reg, uid0, chunk, 0);
      ghost var evs: seq<AttrEvent> := [];
      ghost var sts: seq<Store> := [];
      ghost var bufs := buffers;
      var index: nat := 0;
      ThenEmpty(StepOut(parser, 0, [], []), r);
      while index < |chunk|
        invariant Valid() && registry[..] == reg
        invariant Run(parser, reg, uid0, chunk, index).Some?
        invariant r == Then(StepOut(parser, index, evs, sts), Run(parser, reg, uid0, chunk, index))
        invariant events == old(events) + AttributeEvents(evs)
        invariant buffers == bufs
        invariant BuffersAfter(bufs, sts)
        invariant lastNotif == old(lastNotif) && LinkUnchanged()
        decreases |chunk| - index
      {
        ghost var before := parser;
        ghost var i0 := index;
        assert Step(before, reg, uid0, chunk, i0).Some?;
        ghost var s := Step(before, reg, uid0, chunk, i0).value;
        RunStep(before, reg, uid0, chunk, i0, s);
        ThenThen(StepOut(before, i0, evs, sts), s, Run(s.p, reg, uid0, chunk, s.next));
        label Before:
        index := ParseByte(chunk, index, bufs);
        AttributeEventsAppend(evs, s.events);
        AppendAssoc(old(events), AttributeEvents(evs), AttributeEvents(s.events));
        forall b | b in bufs
          ensures b[..] == ApplyStores(old(b[..]), b, sts + s.stores)
        {
          ApplyStoresAppend(old(b[..]), b, sts, s.stores);
        }
        evs, sts := evs + s.events, sts + s.stores;
      }
      assert evs + [] == evs && sts + [] == sts;
    }

    /** parse_notif (lines 436-485) for a Notification Source record of
        |data| bytes. A record whose length is not 8 is first reported as
        invalid with the notification stored before it, and is then decoded
        all the same; eight bytes are always read, so a shorter record is
        outside the model. */
    method ParseNotif(data: seq<uint8>)
      requires Valid() && |data| >= NOTIFICATION_DATA_LENGTH
      modifies this
      ensures Valid() && LinkUnchanged()
      ensures lastNotif == DecodeNotif(data)
      ensures events == old(events) + NotifEvents(old(lastNotif), data)
      ensures parser == old(parser) && buffers == old(buffers)
    {
      ghost var emitted: seq<Event> := [];
      if |data| != NOTIFICATION_DATA_LENGTH {
        emitted := [InvalidNotification(lastNotif)];
      }
      lastNotif := Notif(data[0], DecodeFlags(data[1]), data[2], data[3], DecodeLe32(data[4..8]));
      var err := VerifyNotificationFormat(lastNotif);
      if err == Success {
        emitted := emitted + [Notification(lastNotif)];
      } else {
        emitted := emitted + [InvalidNotification(lastNotif)];
      }
      assert lastNotif == DecodeNotif(data);
      events := events + emitted;
    }

    /** cccd_configure (lines 596-616): queue the write of the CCCD value and
        trigger the ring. It always reports success; `accepted` is the
        SoftDevice's answer to the submission tx_buffer_process makes. */
    method CccdConfigure(conn: uint16, handleCccd: uint16, enable: bool, accepted: bool)
      returns (err: ErrorCode, call: Option<TransportCall>)
      requires Valid() && |tx.Contents()| < TX_BUFFER_SIZE - 1
      modifies tx, tx.slots
      ensures Valid() && err == Success
      ensures tx.Submitted(CccdMessage(conn, handleCccd, enable), accepted, call)
    {
      call := tx.Submit(CccdMessage(conn, handleCccd, enable), accepted);
      err := Success;
    }

    /** ble_ancs_c_notif_source_notif_enable (lines 619-624). */
    method NotifSourceNotifEnable(accepted: bool) returns (err: ErrorCode, call: Option<TransportCall>)
      requires Valid() && |tx.Contents()| < TX_BUFFER_SIZE - 1
      modifies tx, tx.slots
      ensures Valid() && err == Success
      ensures tx.Submitted(CccdMessage(connHandle, notifSourceCccd, true), accepted, call)
    {
      err, call := CccdConfigure(connHandle, notifSourceCccd, true, accepted);
    }

    /** ble_ancs_c_notif_source_notif_disable (lines 627-630). */
    method NotifSourceNotifDisable(accepted: bool) returns (err: ErrorCode, call: Option<TransportCall>)
      requires Valid() && |tx.Contents()| < TX_BUFFER_SIZE - 1
      modifies tx, tx.slots
      ensures Valid() && err == Success
      ensures tx.Submitted(CccdMessage(connHandle, notifSourceCccd, false), accepted, call)
    {
      err, call := CccdConfigure(connHandle, notifSourceCccd, false, accepted);
    }

    /** ble_ancs_c_data_source_notif_enable (lines 633-638). */
    method DataSourceNotifEnable(accepted: bool) returns (err: ErrorCode, call: Option<TransportCall>)
      requires Valid() && |tx.Contents()| < TX_BUFFER_SIZE - 1
      modifies tx, tx.slots
      ensures Valid() && err == Success
      ensures tx.Submitted(CccdMessage(connHandle, dataSourceCccd, true), accepted, call)
    {
      err, call := CccdConfigure(connHandle, dataSourceCccd, true, accepted);
    }

    /** ble_ancs_c_data_source_notif_disable (lines 641-644). */
    method DataSourceNotifDisable(accepted: bool) returns (err: ErrorCode, call: Option<TransportCall>)
      requires Valid() && |tx.Contents()| < TX_BUFFER_SIZE - 1
      modifies tx, tx.slots
      ensures Valid() && err == Success
      ensures tx.Submitted(CccdMessage(connHandle, dataSourceCccd, false), accepted, call)
    {
      err, call := CccdConfigure(connHandle, dataSourceCccd, false, accepted);
    }

    /** The encoder of ble_ancs_get_notif_attrs (lines 662-685): the command
        ID, the UID and, for each requested registry entry in ID order, its ID
        and, for Title, Subtitle and Message, its capacity as maximum length.
        `value` is the filled prefix of gattc_value (its length is `index`);
        `count` is number_of_requested_attr. */
    method EncodeRequest(uid: uint32) returns (value: seq<uint8>, count: uint32)
      requires registry.Length == NB_OF_ATTRS
      ensures value == GetNotifAttrsPayload(uid, registry[..])
      ensures count as int == RequestedCount(registry[..], NB_OF_ATTRS)
      ensures count as int == |RequestedList(registry[..], NB_OF_ATTRS)|
      ensures |value| <= WRITE_MESSAGE_LENGTH
    {
      ghost var reg := registry[..];
      var head := [COMMAND_ID_GET_NOTIF_ATTRIBUTES] + EncodeLe32(uid);
      ghost var items: seq<RequestItem> := [];
      value := head;
      count := 0;
      var attr := 0;
      while attr < NB_OF_ATTRS
        invariant 0 <= attr <= NB_OF_ATTRS
        invariant items == RequestedList(reg, attr)
        invariant value == head + EncodeItems(items)
        invariant count as int == |items| <= attr
      {
        RequestedListStep(reg, attr + 1);
        if registry[attr].get {
          // gattc_value[index++] = attr, then the maximum length if it takes one
          var enc := [attr as uint8];
          if attr == ATTR_ID_TITLE as int || attr == ATTR_ID_SUBTITLE as int || attr == ATTR_ID_MESSAGE as int {
            enc := enc + EncodeLe16(registry[attr].cap);
          }
          ghost var it := ItemFor(reg, attr);
          assert enc == EncodeItem(it);
          EncodeItemsAppend(items, it);
          ghost var before := EncodeItems(items);
          AppendAssoc(head, before, enc);
          value := value + enc;
          items := items + [it];
          count := count + 1;
        }
        attr := attr + 1;
      }
      RequestedListCounts(reg, NB_OF_ATTRS);
      PayloadLength(uid, reg);
    }

    /** ble_ancs_get_notif_attrs (lines 647-693): queue the Get Notification
        Attributes command for `uid` to the Control Point, expect one
        attribute per requested entry, and trigger the ring. It always reports
        success. */
    method GetNotifAttrs(uid: uint32, accepted: bool) returns (err: ErrorCode, call: Option<TransportCall>)
      requires Valid() && |tx.Contents()| < TX_BUFFER_SIZE - 1
      modifies this, tx, tx.slots
      ensures Valid() && LinkUnchanged() && err == Success
      ensures tx.Submitted(RequestMessage(connHandle, controlPointHandle, uid, registry[..]), accepted, call)
      ensures parser == old(parser).(expected := parser.expected)
      ensures parser.expected as int == RequestedCount(registry[..], NB_OF_ATTRS)
      ensures lastNotif == old(lastNotif) && events == old(events) && buffers == old(buffers)
    {
      var value, count := EncodeRequest(uid);
      parser := parser.(expected := count);
      call := tx.Submit(WriteReq(connHandle, WriteParams(controlPointHandle, 0, GATT_OP_WRITE_REQ, value)), accepted);
      err := Success;
    }

    /** ble_ancs_c_request_attrs (lines 715-726): a notification that fails
        the format check is refused with nothing changed; otherwise its
        attributes are requested and the parser is reset to expect a new
        response header. */
    method RequestAttrs(notif: Notif, accepted: bool) returns (err: ErrorCode, call: Option<TransportCall>)
      requires Valid()
      requires VerifyNotificationFormat(notif) == Success ==> |tx.Contents()| < TX_BUFFER_SIZE - 1
      modifies this, tx, tx.slots
      ensures Valid() && LinkUnchanged()
      ensures lastNotif == old(lastNotif) && events == old(events) && buffers == old(buffers)
      ensures VerifyNotificationFormat(notif) != Success ==>
        && err == ErrorInvalidParam && call == None && parser == old(parser)
        && tx.Contents() == old(tx.Contents()) && tx.enqueued == old(tx.enqueued) && tx.sent == old(tx.sent)
      ensures VerifyNotificationFormat(notif) == Success ==>
        && err == Success
        && tx.Submitted(RequestMessage(connHandle, controlPointHandle, notif.notifUid, registry[..]), accepted, call)
        && parser == old(parser).(state := CommandIdAndNotifUid, expected := parser.expected)
        && parser.expected as int == RequestedCount(registry[..], NB_OF_ATTRS)
    {
      err := VerifyNotificationFormat(notif);
      if err != Success {
        call := None;
        return;
      }
      err, call := GetNotifAttrs(notif.notifUid, accepted);
      parser := parser.(state := CommandIdAndNotifUid);
    }

    /** ble_ancs_c_attr_add (lines 696-712): register buffer `data` of
        capacity `len` for attribute `id`. A null buffer and a capacity of 0
        or above BLE_ANCS_ATTR_DATA_MAX are refused with nothing changed.
        The C indexes the registry with `id` unchecked and writes the
        terminating 0 at data[len], so `id` must be a registry index and the
        buffer must hold len + 1 bytes. Re-registering the attribute being
        received takes effect at once, since the parser reads the capacity
        afresh for every byte but keeps writing into the buffer it took at the
        attribute's ID: that buffer must still hold len + 1 bytes, and the new
        capacity must not be below the copy index, where neither of the two
        tests of the ATTR_DATA case holds and the C's loop would spin without
        advancing. A capacity equal to the copy index ends the attribute on
        its next byte (AttrParser.CapacityReached). */
    method AttrAdd(id: nat, data: array?<uint8>, len: uint16) returns (err: ErrorCode)
      requires Valid() && id < NB_OF_ATTRS
      requires data != null && 1 <= len as int <= ATTR_DATA_MAX ==>
        && data.Length > len as int
        && (MidAttribute(parser) && parser.attrId as int == id ==>
              parser.dest.Length > len as int
              && (parser.state == AttrData ==> parser.attrIndex <= len))
      modifies this, registry
      ensures Valid() && LinkUnchanged()
      ensures parser == old(parser) && lastNotif == old(lastNotif) && events == old(events)
      ensures data == null ==> err == ErrorNull
      ensures data != null && (len == 0 || len as int > ATTR_DATA_MAX) ==> err == ErrorInvalidLength
      ensures err != Success ==> registry[..] == old(registry[..]) && buffers == old(buffers)
      ensures data != null && 1 <= len as int <= ATTR_DATA_MAX ==>
        && err == Success
        && registry[..] == old(registry[..])[id := AttrEntry(true, len, data)]
        && buffers == old(buffers) + {data}
    {
      if data == null {
        return ErrorNull;
      }
      if len == 0 || len as int > ATTR_DATA_MAX {
        return ErrorInvalidLength;
      }
      buffers := buffers + {data};
      registry[id] := AttrEntry(true, len, data);
      err := Success;
    }

    /** on_evt_write_rsp (lines 515-518): a write response lets the next
        queued message go out. */
    method OnWriteRsp(accepted: bool) returns (call: Option<TransportCall>)
      requires Valid()
      modifies tx
      ensures Valid() && tx.Processed(accepted, call)
    {
      call := tx.Process(accepted);
    }

    /** on_evt_gattc_notif (lines 493-511): a notification on the
        Notification Source goes to parse_notif, one on the Data Source to
        parse_get_notif_attrs_response, any other is ignored. */
    method OnHvx(handle: uint16, data: seq<uint8>)
      requires Valid()
      requires handle == notifSourceHandle ==> |data| >= NOTIFICATION_DATA_LENGTH
      requires handle != notifSourceHandle && handle == dataSourceHandle ==>
        Run(parser, registry[..], lastNotif.notifUid, data, 0).Some?
      modifies this, buffers
      ensures Valid() && LinkUnchanged() && buffers == old(buffers)
      ensures handle == notifSourceHandle ==>
        && lastNotif == DecodeNotif(data) && parser == old(parser)
        && events == old(events) + NotifEvents(old(lastNotif), data)
        && BuffersAfter(buffers, [])
      ensures handle != notifSourceHandle && handle == dataSourceHandle ==>
        && lastNotif == old(lastNotif) && parser == old(FeedResult(data)).p
        && events == old(events) + AttributeEvents(old(FeedResult(data)).events)
        && BuffersAfter(buffers, old(FeedResult(data)).stores)
      ensures handle != notifSourceHandle && handle != dataSourceHandle ==>
        && lastNotif == old(lastNotif) && parser == old(parser) && events == old(events)
        && BuffersAfter(buffers, [])
    {
      if handle == notifSourceHandle {
        ParseNotif(data);
      } else if handle == dataSourceHandle {
        Feed(data);
      }
    }

    /** ble_ancs_c_on_ble_evt (lines 540-557): write responses and
        notifications are handled, every other stack event is ignored.
        `accepted` is the SoftDevice's answer should a message be submitted. */
    method OnBleEvt(evt: BleEvent, accepted: bool) returns (call: Option<TransportCall>)
      requires Valid()
      requires evt.Hvx? && evt.handle == notifSourceHandle ==> |evt.data| >= NOTIFICATION_DATA_LENGTH
      requires evt.Hvx? && evt.handle != notifSourceHandle && evt.handle == dataSourceHandle ==>
        Run(parser, registry[..], lastNotif.notifUid, evt.data, 0).Some?
      modifies this, buffers, tx
      ensures Valid() && LinkUnchanged() && buffers == old(buffers)
      ensures evt.WriteRsp? ==>
        tx.Processed(accepted, call) && parser == old(parser) && lastNotif == old(lastNotif)
        && events == old(events) && BuffersAfter(buffers, [])
      ensures !evt.WriteRsp? ==>
        call == None && tx.Contents() == old(tx.Contents()) && tx.sent == old(tx.sent)
      ensures evt.Hvx? && evt.handle == notifSourceHandle ==>
        && lastNotif == DecodeNotif(evt.data) && parser == old(parser)
        && events == old(events) + NotifEvents(old(lastNotif), evt.data)
        && BuffersAfter(buffers, [])
      ensures evt.Hvx? && evt.handle != notifSourceHandle && evt.handle == dataSourceHandle ==>
        && lastNotif == old(lastNotif) && parser == old(FeedResult(evt.data)).p
        && events == old(events) + AttributeEvents(old(FeedResult(evt.data)).events)
        && BuffersAfter(buffers, old(FeedResult(evt.data)).stores)
      ensures evt.Hvx? && evt.handle != notifSourceHandle && evt.handle != dataSourceHandle ==>
        && lastNotif == old(lastNotif) && parser == old(parser) && events == old(events)
        && BuffersAfter(buffers, [])
      ensures evt.OtherEvent? ==>
        && parser == old(parser) && lastNotif == old(lastNotif) && events == old(events)
        && BuffersAfter(buffers, [])
    {
      call := None;
      match evt {
        case WriteRsp => call := OnWriteRsp(accepted);
        case Hvx(h, d) => OnHvx(h, d);
        case OtherEvent =>
      }
    }
  }
}
