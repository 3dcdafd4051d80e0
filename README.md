# ANCS client core, modelled in Dafny

This project models the core of the Apple Notification Center Service (ANCS)
client of the nRF5 SDK (`ble_ancs_c.c`), a GATT client that talks to an
iPhone acting as Notification Provider. The model covers four parts.

- **The Get Notification Attributes response parser**
  (`parse_get_notif_attrs_response`). It is a byte-level state machine whose
  state lives in statics, so a response can arrive split over many GATT
  notifications.
- **The transmit ring.** It has eight slots with an insert index and a
  dispatch index. It submits one queued read or write at a time to the
  SoftDevice and sends the next one when a write response arrives.
- **Decoding and checking of Notification Source records**
  (`parse_notif`, `ble_ancs_verify_notification_format`).
- **The outbound commands.** These are the CCCD writes that switch
  notifications on and off, the Get Notification Attributes command built
  from the attribute registry, attribute registration, and the routing of
  stack events.

The model has five modules.

| module | file | contents |
|---|---|---|
| `AncsTypes` | `types.dfy` | Integer widths, constants, and little-endian packing with its round trips. |
| `NotifCodec` | `codec.dfy` | The Notification Source record and its decoder, decoder inverse and format check. The CCCD value. The Get Notification Attributes command as a pure encoder of the registry, with a reference decoder and its round trip. |
| `AttrParser` | `parser.dfy` | The pure semantics of the parser. `Step` is one loop iteration; `Run` is a whole call on one chunk. Lemmas cover each state, the data phase and truncation, the DONE state, resumption across chunks, and a worked scenario. |
| `TxQueue` | `txqueue.dfy` | Class `TxRing`: the ring over an `array` of eight slots. A ghost history proves it first-in first-out, with a pure view `Pending` of the waiting messages. |
| `Ancs` | `client.dfy` | Class `AncsClient`: the file's statics as fields and each entry point as a method. `Feed` is the parser's loop, proved to do what `AttrParser.Run` says. |

The event handler is modelled as a ghost log of events. `sd_ble_gattc_read`
and `sd_ble_gattc_write` are modelled as a `TransportCall` data value, which
the methods return. The SoftDevice's answer (`NRF_SUCCESS` or not) is an
input, `accepted`. Memory the parser writes into is modelled as a log of
stores, and `ApplyStores` gives the resulting buffer contents.
`AncsClient.Feed` is proved to change the real arrays exactly as that log
says.

Where the code departs from the service's prose description, the model
follows the code:

- The response header (command ID and UID) is read in one go. If a chunk
  ends inside the five header bytes, the C reads past the chunk; the model
  treats that chunk as undefined (`Run` is `None`). The header is not
  accumulated across calls.
- A wrong command ID sets DONE, but the next statement sets ATTR_ID, so the
  command ID has no effect (line 319, `AttrParser.CommandIdIgnored`). Only
  the UID is checked.
- The UID is compared with the UID of the last notification received
  (`m_ancs_evt.notif.notif_uid`), not with the UID of the last request.
- The attribute event carries the declared length, not the stored length.
- For an attribute of declared length L, the stored value has
  min(L, capacity) bytes, and the terminator goes at that index. A buffer of
  capacity c therefore needs c + 1 bytes, and a truncated value keeps c
  bytes, not c − 1.
- The skip over truncated bytes is not carried into the next chunk. When it
  runs past the end of the chunk, the next chunk starts in ATTR_ID. Its first
  surplus bytes are then read as attribute IDs.
- There is no "queue full" error. An eighth waiting message makes the ring
  look empty (`TxQueue.PendingOverflow`).
- No stack event resets the ring or the parser. A disconnect is an
  `OtherEvent` and is ignored.

## Model

All source paths are in `targetlibs/nrf5x/nrf5_sdk/components/ble/ble_services/ble_ancs_c/`.

| member | source | states |
|---|---|---|
| AncsTypes.Le16RoundTrip | targetlibs/nrf5x/nrf5_sdk/components/ble/ble_services/ble_ancs_c/ble_ancs_c.c:679-680 | The two bytes that uint16_encode writes for a maximum length decode to that length. |
| AncsTypes.Le32RoundTrip | targetlibs/nrf5x/nrf5_sdk/components/ble/ble_services/ble_ancs_c/ble_ancs_c.c:666 | The four bytes that uint32_encode writes for the UID decode to the UID. |
| AncsTypes.Le32Bytes | targetlibs/nrf5x/nrf5_sdk/components/ble/ble_services/ble_ancs_c/ble_ancs_c.c:471 | Any four UID bytes are the encoding of the value uint32_decode reads from them. |
| AncsTypes.Le32Injective | targetlibs/nrf5x/nrf5_sdk/components/ble/ble_services/ble_ancs_c/ble_ancs_c.c:471 | Two 4-byte UID fields that decode to the same UID are the same bytes. |
| NotifCodec.FlagsRoundTrip | targetlibs/nrf5x/nrf5_sdk/components/ble/ble_services/ble_ancs_c/ble_ancs_c.c:452-465 | Extracting the five flag bits from a byte built from five flags gives those flags back. |
| NotifCodec.FlagsByteRoundTrip | targetlibs/nrf5x/nrf5_sdk/components/ble/ble_services/ble_ancs_c/ble_ancs_c.c:452-465 | A flags byte below 32 is rebuilt exactly from the five bits parse_notif extracts. |
| NotifCodec.NotifRoundTrip | targetlibs/nrf5x/nrf5_sdk/components/ble/ble_services/ble_ancs_c/ble_ancs_c.c:449-471 | Decoding the 8-byte record of a notification gives back that notification. |
| NotifCodec.NotifBytesRoundTrip | targetlibs/nrf5x/nrf5_sdk/components/ble/ble_services/ble_ancs_c/ble_ancs_c.c:449-471 | An 8-byte record with its flags byte below 32 is the encoding of what parse_notif decodes. The decode loses nothing else. |
| NotifCodec.VerifyNotificationFormat | targetlibs/nrf5x/nrf5_sdk/components/ble/ble_services/ble_ancs_c/ble_ancs_c.c:419-427 | The format check returns only NRF_SUCCESS or NRF_ERROR_INVALID_PARAM. |
| NotifCodec.VerifyDecoded | targetlibs/nrf5x/nrf5_sdk/components/ble/ble_services/ble_ancs_c/ble_ancs_c.c:419-427 | A received record passes the format check if and only if its event ID is below 3 and its category ID is below 12. |
| NotifCodec.CccdValue | targetlibs/nrf5x/nrf5_sdk/components/ble/ble_services/ble_ancs_c/ble_ancs_c.c:599-610 | The CCCD value is two bytes. Read little-endian, they are 1 to enable notifications and 0 to disable them. |
| NotifCodec.RequestedList | targetlibs/nrf5x/nrf5_sdk/components/ble/ble_services/ble_ancs_c/ble_ancs_c.c:669-684 | The requested entries below k number at most k, and each is well formed. |
| NotifCodec.RequestedListSpec | targetlibs/nrf5x/nrf5_sdk/components/ble/ble_services/ble_ancs_c/ble_ancs_c.c:669-684 | The command lists exactly the requested registry entries, each once, in ascending ID order, each with its registered capacity as maximum length. |
| NotifCodec.RequestedListItems | targetlibs/nrf5x/nrf5_sdk/components/ble/ble_services/ble_ancs_c/ble_ancs_c.c:669-684 | Every listed item is a requested entry with its capacity, and the IDs strictly ascend. |
| NotifCodec.RequestedListComplete | targetlibs/nrf5x/nrf5_sdk/components/ble/ble_services/ble_ancs_c/ble_ancs_c.c:669-684 | Every requested entry is listed. |
| NotifCodec.EncodeItems | targetlibs/nrf5x/nrf5_sdk/components/ble/ble_services/ble_ancs_c/ble_ancs_c.c:673-681 | The item bytes take one byte per item plus two per maximum length. |
| NotifCodec.EncodeItemsAppend | targetlibs/nrf5x/nrf5_sdk/components/ble/ble_services/ble_ancs_c/ble_ancs_c.c:669-684 | Encoding one more item appends that item's bytes. This is one iteration of the encoder loop. |
| NotifCodec.ItemsRoundTrip | targetlibs/nrf5x/nrf5_sdk/components/ble/ble_services/ble_ancs_c/ble_ancs_c.c:669-684 | The reference reader recovers a list of well-formed items from its encoding. |
| NotifCodec.PayloadRoundTrip | targetlibs/nrf5x/nrf5_sdk/components/ble/ble_services/ble_ancs_c/ble_ancs_c.c:662-685 | The reference reader recovers the UID and the requested list from the command bytes. |
| NotifCodec.RequestedCountBound | targetlibs/nrf5x/nrf5_sdk/components/ble/ble_services/ble_ancs_c/ble_ancs_c.c:682 | At most k of the first k entries are counted as requested. |
| NotifCodec.RequestedListCounts | targetlibs/nrf5x/nrf5_sdk/components/ble/ble_services/ble_ancs_c/ble_ancs_c.c:682-688 | The number of listed items is number_of_requested_attr. The number of maximum lengths is the number of requested Title, Subtitle and Message entries. |
| NotifCodec.RequestedListLength | targetlibs/nrf5x/nrf5_sdk/components/ble/ble_services/ble_ancs_c/ble_ancs_c.c:682-688 | The number of listed items is the number of requested entries. |
| NotifCodec.RequestedListLenCount | targetlibs/nrf5x/nrf5_sdk/components/ble/ble_services/ble_ancs_c/ble_ancs_c.c:674-681 | The number of maximum lengths is the number of requested Title, Subtitle and Message entries. |
| NotifCodec.RequestedWithLenBound | targetlibs/nrf5x/nrf5_sdk/components/ble/ble_services/ble_ancs_c/ble_ancs_c.c:674-681 | Only IDs 1 to 3 take a maximum length, so at most three items do. |
| NotifCodec.PayloadLength | targetlibs/nrf5x/nrf5_sdk/components/ble/ble_services/ble_ancs_c/ble_ancs_c.c:662-685 | The command length (gattc_params.len) is 5 + requested + 2 × (requested with a length). It never exceeds the 20-byte write message. |
| AttrParser.Step | targetlibs/nrf5x/nrf5_sdk/components/ble/ble_services/ble_ancs_c/ble_ancs_c.c:307-407 | One loop iteration advances `index` and emits at most one event. |
| AttrParser.Run | targetlibs/nrf5x/nrf5_sdk/components/ble/ble_services/ble_ancs_c/ble_ancs_c.c:303-408 | A whole call keeps the parser invariant: a mid-attribute state points at a registered buffer with room for its capacity and the 0, and the copy index is below the declared length and at most the capacity. The final `index` is at or past the end of the chunk. |
| AttrParser.StepInv | targetlibs/nrf5x/nrf5_sdk/components/ble/ble_services/ble_ancs_c/ble_ancs_c.c:307-407 | Every iteration keeps the parser invariant. |
| AttrParser.AttrIdStep | targetlibs/nrf5x/nrf5_sdk/components/ble/ble_services/ble_ancs_c/ble_ancs_c.c:330-348 | ATTR_ID behaves as follows. With no attribute left, it goes to DONE and consumes one uninterpreted byte. Otherwise it reads an ID and counts it off. It goes to ATTR_LEN1 if and only if the ID is registered, and stays in ATTR_ID if and only if it is not. The step is defined if and only if the ID is below 8. |
| AttrParser.LengthSteps | targetlibs/nrf5x/nrf5_sdk/components/ble/ble_services/ble_ancs_c/ble_ancs_c.c:350-369 | The two length bytes are read least significant first, possibly from different chunks. Length 0 emits the event at once and returns to ATTR_ID; any other length enters ATTR_DATA with the copy index at 0. |
| AttrParser.DoneAbsorbs | targetlibs/nrf5x/nrf5_sdk/components/ble/ble_services/ble_ancs_c/ble_ancs_c.c:399-401 | DONE discards the rest of every chunk. It emits nothing, writes nothing and stays DONE. |
| AttrParser.CommandIdIgnored | targetlibs/nrf5x/nrf5_sdk/components/ble/ble_services/ble_ancs_c/ble_ancs_c.c:309-319 | The result of the header step does not depend on the command ID byte. |
| AttrParser.HeaderUid | targetlibs/nrf5x/nrf5_sdk/components/ble/ble_services/ble_ancs_c/ble_ancs_c.c:309-328 | A UID different from the last notification's ends the stream with nothing emitted. A matching UID consumes exactly five bytes and enters ATTR_ID. |
| AttrParser.NothingRequested | targetlibs/nrf5x/nrf5_sdk/components/ble/ble_services/ble_ancs_c/ble_ancs_c.c:309-337 | With no attribute expected, a response with the right UID reaches DONE on the byte after the header and emits nothing. |
| AttrParser.DataPhaseStep | targetlibs/nrf5x/nrf5_sdk/components/ble/ble_services/ble_ancs_c/ble_ancs_c.c:371-397 | The data phase of one attribute always ends back in ATTR_ID with the invariant kept. |
| AttrParser.DataPhase | targetlibs/nrf5x/nrf5_sdk/components/ble/ble_services/ble_ancs_c/ble_ancs_c.c:371-397 | When all min(declared, capacity) data bytes are in the chunk, the data phase behaves as follows. It writes them in arrival order followed by a 0. It emits one event with the declared length. It skips the surplus declared bytes, even past the chunk's end, and returns to ATTR_ID. |
| AttrParser.CapacityReached | targetlibs/nrf5x/nrf5_sdk/components/ble/ble_services/ble_ancs_c/ble_ancs_c.c:371-397 | When re-registration has lowered the capacity to the copy index, the next iteration copies nothing. It writes the 0 at the copy index, skips the rest of the declared bytes, emits the event with the declared length and returns to ATTR_ID. |
| AttrParser.ApplyDataStores | targetlibs/nrf5x/nrf5_sdk/components/ble/ble_services/ble_ancs_c/ble_ancs_c.c:376-378 | The copy writes place the data bytes contiguously from the start index and leave the rest of the buffer alone. |
| AttrParser.TruncationLaw | targetlibs/nrf5x/nrf5_sdk/components/ble/ble_services/ble_ancs_c/ble_ancs_c.c:371-397 | After an attribute, its buffer holds the first min(declared, capacity) bytes in order, then a 0, and otherwise its old contents. Every other buffer is untouched. |
| AttrParser.DataPhaseTruncation | targetlibs/nrf5x/nrf5_sdk/components/ble/ble_services/ble_ancs_c/ble_ancs_c.c:371-397 | The truncation law for the parser's own data phase from copy index 0: the attribute's buffer holds the first min(declared, capacity) data bytes in arrival order, then a 0, then its old contents. Every other buffer is untouched. |
| AttrParser.OtherBufferUntouched | targetlibs/nrf5x/nrf5_sdk/components/ble/ble_services/ble_ancs_c/ble_ancs_c.c:376-388 | Writes into one buffer leave every other buffer as it was. |
| AttrParser.StepShift | targetlibs/nrf5x/nrf5_sdk/components/ble/ble_services/ble_ancs_c/ble_ancs_c.c:303-307 | An iteration reads only the bytes from `index` on. |
| AttrParser.RunShift | targetlibs/nrf5x/nrf5_sdk/components/ble/ble_services/ble_ancs_c/ble_ancs_c.c:303-408 | A call from position n + j of a chunk behaves as a call from position j of the chunk's suffix at n, with `index` offset by n. |
| AttrParser.StepPrefix | targetlibs/nrf5x/nrf5_sdk/components/ble/ble_services/ble_ancs_c/ble_ancs_c.c:307-407 | An iteration that fits within a chunk does the same when more bytes follow, except in DONE. |
| AttrParser.RunConcat | targetlibs/nrf5x/nrf5_sdk/components/ble/ble_services/ble_ancs_c/ble_ancs_c.c:293-409 | Resumption: when a call on c1 ends exactly at c1's end, calls on c1 and then c2 give the same events, writes and final state as one call on c1 + c2. |
| AttrParser.EmptyAttribute | targetlibs/nrf5x/nrf5_sdk/components/ble/ble_services/ble_ancs_c/ble_ancs_c.c:330-369 | A registered attribute of declared length 0 takes exactly three bytes. It emits its event with length 0 and writes nothing. |
| AttrParser.TwoEmptyAttributes | targetlibs/nrf5x/nrf5_sdk/components/ble/ble_services/ble_ancs_c/ble_ancs_c.c:330-369 | Scenario: two attributes of length 0 emit two events, in order, and write nothing. They leave the parser in ATTR_ID with none expected; DONE comes only with a further byte. |
| TxQueue.Advance | targetlibs/nrf5x/nrf5_sdk/components/ble/ble_services/ble_ancs_c/ble_ancs_c.c:271-272 | `++x; x &= TX_BUFFER_MASK` goes to the next slot, wrapping from 7 to 0. |
| TxQueue.Pending | targetlibs/nrf5x/nrf5_sdk/components/ble/ble_services/ble_ancs_c/ble_ancs_c.c:254 | The waiting messages number the ring distance from the dispatch index to the insert index. They are none exactly when the indices are equal. |
| TxQueue.PendingAt | targetlibs/nrf5x/nrf5_sdk/components/ble/ble_services/ble_ancs_c/ble_ancs_c.c:118-120 | The k-th waiting message sits k slots after the dispatch index, modulo 8. |
| TxQueue.PendingPush | targetlibs/nrf5x/nrf5_sdk/components/ble/ble_services/ble_ancs_c/ble_ancs_c.c:601-602 | Writing at the insert index and advancing it appends the message to the waiting ones, when fewer than seven are waiting. |
| TxQueue.PendingPop | targetlibs/nrf5x/nrf5_sdk/components/ble/ble_services/ble_ancs_c/ble_ancs_c.c:269-273 | Advancing the dispatch index removes the head of the waiting messages, which is the slot at the dispatch index. |
| TxQueue.PendingOverflow | targetlibs/nrf5x/nrf5_sdk/components/ble/ble_services/ble_ancs_c/ble_ancs_c.c:654-655 | Queuing an eighth message makes the ring look empty. All eight are lost, since no index is checked. |
| TxQueue.TxRing.constructor | targetlibs/nrf5x/nrf5_sdk/components/ble/ble_services/ble_ancs_c/ble_ancs_c.c:118-120 | The zero-initialised ring starts with both indices 0 and nothing waiting. |
| TxQueue.TxRing.Push | targetlibs/nrf5x/nrf5_sdk/components/ble/ble_services/ble_ancs_c/ble_ancs_c.c:601-612 | The enqueue writes only the slot at the insert index, advances that index, and appends the message to the waiting ones. |
| TxQueue.TxRing.Submit | targetlibs/nrf5x/nrf5_sdk/components/ble/ble_services/ble_ancs_c/ble_ancs_c.c:601-614 | Enqueue, then process. The message joins the back of the queue, and the queue's head is submitted. The head leaves exactly when the SoftDevice accepts. |
| TxQueue.TxRing.Process | targetlibs/nrf5x/nrf5_sdk/components/ble/ble_services/ble_ancs_c/ble_ancs_c.c:252-275 | With nothing waiting, no call is made. Otherwise the head is submitted as a read or write of its connection. It is removed and recorded as sent exactly when accepted; a rejected head stays for the next trigger. Everything queued so far equals what was sent followed by what waits (first in, first out). |
| Ancs.NotifEvents | targetlibs/nrf5x/nrf5_sdk/components/ble/ble_services/ble_ancs_c/ble_ancs_c.c:442-484 | A record of length other than 8 first yields an invalid-notification event carrying the previous notification. The decoded record then yields a notification event if and only if it passes the format check, otherwise an invalid one. |
| Ancs.AncsClient.constructor | targetlibs/nrf5x/nrf5_sdk/components/ble/ble_services/ble_ancs_c/ble_ancs_c.c:118-128 | The statics start with nothing registered, nothing queued, no notification seen, and the parser waiting for a header. |
| Ancs.AncsClient.SetLink | targetlibs/nrf5x/nrf5_sdk/components/ble/ble_services/ble_ancs_c/ble_ancs_c.c:202-231 | The connection and characteristic handles are recorded, and nothing else changes. |
| Ancs.AncsClient.ParseByte | targetlibs/nrf5x/nrf5_sdk/components/ble/ble_services/ble_ancs_c/ble_ancs_c.c:307-407 | One pass of the switch changes the state, `index`, the events and the buffers exactly as `AttrParser.Step` says. |
| Ancs.AncsClient.DataByte | targetlibs/nrf5x/nrf5_sdk/components/ble/ble_services/ble_ancs_c/ble_ancs_c.c:371-397 | The ATTR_DATA pass changes the state, `index`, the events and the buffers exactly as `AttrParser.Step` says. Only the buffer of the attribute being received is written. |
| Ancs.AncsClient.ControlByte | targetlibs/nrf5x/nrf5_sdk/components/ble/ble_services/ble_ancs_c/ble_ancs_c.c:309-369 | The header, ATTR_ID, length and DONE cases do what `AttrParser.Step` says and write no buffer. |
| Ancs.AncsClient.CopyByte | targetlibs/nrf5x/nrf5_sdk/components/ble/ble_services/ble_ancs_c/ble_ancs_c.c:371-397 | Below the capacity, the byte is written at the copy index and the index advances. When the index then reaches the declared length or the capacity, a 0 is written there, the surplus is skipped and the event with the declared length is emitted. At the capacity already, only the 0 is written and the attribute ends. No other buffer byte changes. |
| Ancs.AncsClient.Feed | targetlibs/nrf5x/nrf5_sdk/components/ble/ble_services/ble_ancs_c/ble_ancs_c.c:293-409 | The parser's loop over one chunk leaves the state, appends the events and changes every registered buffer exactly as `AttrParser.Run` says. |
| Ancs.AncsClient.ParseNotif | targetlibs/nrf5x/nrf5_sdk/components/ble/ble_services/ble_ancs_c/ble_ancs_c.c:436-485 | The stored notification becomes the decoded record, and the events appended are `NotifEvents` of the previous notification and the record. |
| Ancs.AncsClient.CccdConfigure | targetlibs/nrf5x/nrf5_sdk/components/ble/ble_services/ble_ancs_c/ble_ancs_c.c:596-616 | Queues a 2-byte write request of the CCCD value at offset 0, triggers the ring, and always returns NRF_SUCCESS. |
| Ancs.AncsClient.NotifSourceNotifEnable | targetlibs/nrf5x/nrf5_sdk/components/ble/ble_services/ble_ancs_c/ble_ancs_c.c:619-624 | Queues the enabling CCCD write to the Notification Source's descriptor on the client's connection. |
| Ancs.AncsClient.NotifSourceNotifDisable | targetlibs/nrf5x/nrf5_sdk/components/ble/ble_services/ble_ancs_c/ble_ancs_c.c:627-630 | Queues the disabling CCCD write to the Notification Source's descriptor. |
| Ancs.AncsClient.DataSourceNotifEnable | targetlibs/nrf5x/nrf5_sdk/components/ble/ble_services/ble_ancs_c/ble_ancs_c.c:633-638 | Queues the enabling CCCD write to the Data Source's descriptor. |
| Ancs.AncsClient.DataSourceNotifDisable | targetlibs/nrf5x/nrf5_sdk/components/ble/ble_services/ble_ancs_c/ble_ancs_c.c:641-644 | Queues the disabling CCCD write to the Data Source's descriptor. |
| Ancs.AncsClient.EncodeRequest | targetlibs/nrf5x/nrf5_sdk/components/ble/ble_services/ble_ancs_c/ble_ancs_c.c:662-685 | The encoder loop fills gattc_value with `GetNotifAttrsPayload` of the UID and registry, at most 20 bytes. Its counter ends as the number of requested entries. |
| Ancs.AncsClient.GetNotifAttrs | targetlibs/nrf5x/nrf5_sdk/components/ble/ble_services/ble_ancs_c/ble_ancs_c.c:647-693 | Queues the command to the Control Point and triggers the ring. It sets the expected count to the number of requested entries, changes nothing else in the parser, and returns NRF_SUCCESS. |
| Ancs.AncsClient.RequestAttrs | targetlibs/nrf5x/nrf5_sdk/components/ble/ble_services/ble_ancs_c/ble_ancs_c.c:715-726 | A notification failing the format check gets NRF_ERROR_INVALID_PARAM with nothing queued or changed. Otherwise its UID's command is queued, and the parser is reset to expect a header and count the requested attributes. |
| Ancs.AncsClient.AttrAdd | targetlibs/nrf5x/nrf5_sdk/components/ble/ble_services/ble_ancs_c/ble_ancs_c.c:696-712 | A null buffer gets NRF_ERROR_NULL and a capacity of 0 or above 32 gets NRF_ERROR_INVALID_LENGTH, with nothing changed. Otherwise exactly entry `id` becomes (requested, capacity, buffer). |
| Ancs.AncsClient.OnWriteRsp | targetlibs/nrf5x/nrf5_sdk/components/ble/ble_services/ble_ancs_c/ble_ancs_c.c:515-518 | A write response does one `tx_buffer_process`. |
| Ancs.AncsClient.OnHvx | targetlibs/nrf5x/nrf5_sdk/components/ble/ble_services/ble_ancs_c/ble_ancs_c.c:493-511 | A notification on the Notification Source handle is parsed as a record. One on the Data Source handle is fed to the parser. Any other changes nothing. |
| Ancs.AncsClient.OnBleEvt | targetlibs/nrf5x/nrf5_sdk/components/ble/ble_services/ble_ancs_c/ble_ancs_c.c:540-557 | A write response triggers the ring. A notification is routed as in OnHvx and submits nothing. Any other stack event changes nothing. |

## Left out

- Service discovery (`db_discover_evt_handler`) is not modelled. Its effect, recording the connection and characteristic handles, is `SetLink`.
- `ble_ancs_c_init` is not modelled; the constructor gives the statics their initial values.
- The device-manager handler and the `central_handle` it records are not modelled; the core does not read them.
- LOG output is not modelled. The UUID copies into `m_ancs_evt.uuid` and the other `ble_ancs_c_evt_t` fields beyond the notification and attribute data are not modelled either.
- The SoftDevice calls are not modelled as foreign code. They become a returned `TransportCall` and an `accepted` input.
- Read requests are never queued by the core, but the ring and `tx_buffer_process` handle them, and so does the model.
- `ble_ancs_c.h` and the SoftDevice headers are not among the sources of this model, so the constants they define are written out in `AncsTypes`. The attribute, event and category counts, command ID 0 and flag bits 0 to 4 follow the ANCS specification. The 32-byte attribute data maximum (`BLE_ANCS_ATTR_DATA_MAX`) is the SDK's own limit. The write request op-code 1 (`BLE_GATT_OP_WRITE_REQ`) follows the Bluetooth Core Specification.
- The 20-byte `gattc_value` array is modelled as a sequence. `EncodeRequest` and `PayloadLength` prove that the command never exceeds 20 bytes.
- Ancs.AncsClient.Feed requires a chunk for which `AttrParser.Run` is defined. Other chunks read outside the C's inputs, which is undefined behaviour: a header cut short reads past the chunk, and an attribute ID of 8 or more indexes past the registry.
- Ancs.AncsClient.OnHvx inherits the preconditions of Feed and ParseNotif for the handle it routes to.
- Ancs.AncsClient.OnBleEvt inherits the preconditions of OnHvx for notification events.
- Ancs.AncsClient.ParseNotif requires at least 8 bytes, because the C always reads 8.
- TxQueue.TxRing.Push, Submit, CccdConfigure, its four wrappers and GetNotifAttrs require fewer than seven waiting messages. The C does not check, and `PendingOverflow` states what an eighth does.
- Ancs.AncsClient.AttrAdd requires an `id` below 8 and a buffer of at least len + 1 bytes, because the C indexes the registry with `id` unchecked and writes the terminator at data[len]. Re-registering the attribute being received has two further requirements, because the parser reads the capacity afresh for every byte but keeps writing into the buffer it took at the attribute's ID. First, that buffer must hold len + 1 bytes; a larger capacity would let the C write past it. Second, the new capacity must be at least the copy index; below it, neither test of the ATTR_DATA case holds and the C's loop spins without advancing `index`. A capacity equal to the copy index is modelled (`AttrParser.CapacityReached`).
- The parser's handling of undefined chunks is not stated beyond the `None` result of `AttrParser.Run`.
