/** The transmit ring buffer of the ANCS client (ble_ancs_c.c lines 37-38,
    118-120 and 252-275): eight slots, an insert index and a dispatch index,
    both advanced with `& TX_BUFFER_MASK`. The head message is handed to the
    SoftDevice; only when the SoftDevice accepts it does the dispatch index
    move on, so messages go out one at a time and in the order they were
    queued. */
module TxQueue {
  import opened AncsTypes
  import opened NotifCodec

  /** ble_gattc_write_params_t together with the bytes its p_value points to
      (its len is |value|). */
  datatype WriteParams = WriteParams(handle: uint16, offset: uint16, writeOp: uint8, value: seq<uint8>)

  /** tx_message_t: a read request or a write request, with its connection. */
  datatype TxMessage =
    | ReadReq(connHandle: uint16, readHandle: uint16)
    | WriteReq(connHandle: uint16, params: WriteParams)

  /** The SoftDevice call tx_buffer_process makes for a message. */
  datatype TransportCall =
    | GattcRead(connHandle: uint16, handle: uint16, offset: uint16)
    | GattcWrite(connHandle: uint16, params: WriteParams)

  /** What tx_buffer_process submits for a message (lines 258-268). */
  function CallFor(m: TxMessage): TransportCall
  {
    match m
    case ReadReq(c, h) => GattcRead(c, h, 0)
    case WriteReq(c, w) => GattcWrite(c, w)
  }

  /** `++x; x &= TX_BUFFER_MASK;` (for x below the buffer size, the mask is
      the remainder by the size): the next slot, wrapping from the last to 0. */
  function Advance(x: nat): (r: nat)
    requires x < TX_BUFFER_SIZE
    ensures r == if x + 1 == TX_BUFFER_SIZE then 0 else x + 1
  {
    (x + 1) % TX_BUFFER_SIZE
  }

  /** How many slots lie from `from` up to, not including, `to`, going round. */
  function Distance(from: nat, to: nat): (d: nat)
    requires from < TX_BUFFER_SIZE && to < TX_BUFFER_SIZE
    ensures d < TX_BUFFER_SIZE
  {
    if from <= to then to - from else to + TX_BUFFER_SIZE - from
  }

  /** The messages waiting in the ring: slots from the dispatch index `from`
      up to, not including, the insert index `to`. At most seven messages can
      be told apart from an empty ring. */
  function Pending(slots: seq<TxMessage>, from: nat, to: nat): (r: seq<TxMessage>)
    requires |slots| == TX_BUFFER_SIZE && from < TX_BUFFER_SIZE && to < TX_BUFFER_SIZE
    ensures |r| == Distance(from, to)
    ensures r == [] <==> from == to
    decreases Distance(from, to)
  {
    if from == to then [] else [slots[from]] + Pending(slots, Advance(from), to)
  }

  /** The k-th waiting message sits k slots after the dispatch index. */
  lemma {:induction false} PendingAt(slots: seq<TxMessage>, from: nat, to: nat, k: nat)
    requires |slots| == TX_BUFFER_SIZE && from < TX_BUFFER_SIZE && to < TX_BUFFER_SIZE
    requires k < |Pending(slots, from, to)|
    ensures Pending(slots, from, to)[k] == slots[(from + k) % TX_BUFFER_SIZE]
    decreases k
  {
    if k > 0 {
      var rest := Pending(slots, Advance(from), to);
      assert Pending(slots, from, to) == [slots[from]] + rest;
      PendingAt(slots, Advance(from), to, k - 1);
      assert Pending(slots, from, to)[k] == rest[k - 1];
      if from + 1 == TX_BUFFER_SIZE {
        assert (k - 1) % TX_BUFFER_SIZE == (from + k) % TX_BUFFER_SIZE;
      } else {
        assert Advance(from) + (k - 1) == from + k;
      }
    } else {
      assert from % TX_BUFFER_SIZE == from;
    }
  }

  /** Writing a message at the insert index and advancing it appends the
      message to the waiting ones, provided the ring is not full. */
  lemma {:induction false} PendingPush(slots: seq<TxMessage>, from: nat, to: nat, m: TxMessage)
    requires |slots| == TX_BUFFER_SIZE && from < TX_BUFFER_SIZE && to < TX_BUFFER_SIZE
    requires |Pending(slots, from, to)| < TX_BUFFER_SIZE - 1
    ensures Pending(slots[to := m], from, Advance(to)) == Pending(slots, from, to) + [m]
    decreases Distance(from, to)
  {
    var slots' := slots[to := m];
    if from == to {
      assert Pending(slots', Advance(to), Advance(to)) == [];
      assert Pending(slots', from, Advance(to)) == [m] + [];
    } else {
      assert from != Advance(to);
      PendingPush(slots, Advance(from), to, m);
      assert Pending(slots', from, Advance(to)) == [slots[from]] + Pending(slots', Advance(from), Advance(to));
    }
  }

  /** Advancing the dispatch index takes the head off the waiting messages. */
  lemma PendingPop(slots: seq<TxMessage>, from: nat, to: nat)
    requires |slots| == TX_BUFFER_SIZE && from < TX_BUFFER_SIZE && to < TX_BUFFER_SIZE
    requires from != to
    ensures Pending(slots, Advance(from), to) == Pending(slots, from, to)[1..]
    ensures Pending(slots, from, to)[0] == slots[from]
  {
  }

  /** The enqueue operations do not check for a full ring: an eighth message
      makes the insert index catch up with the dispatch index, and the ring
      then looks empty, losing all eight. */
  lemma PendingOverflow(slots: seq<TxMessage>, from: nat, to: nat, m: TxMessage)
    requires |slots| == TX_BUFFER_SIZE && from < TX_BUFFER_SIZE && to < TX_BUFFER_SIZE
    requires |Pending(slots, from, to)| == TX_BUFFER_SIZE - 1
    ensures Pending(slots[to := m], from, Advance(to)) == []
  {
    assert Advance(to) == from;
  }

  /** m_tx_buffer with m_tx_insert_index and m_tx_index. The ghost fields
      record every message ever queued and every message the SoftDevice
      accepted; Valid ties them together: what was queued is what was sent
      followed by what is waiting. */
  class TxRing {
    const slots: array<TxMessage>
    var insert: nat
    var index: nat
    ghost var enqueued: seq<TxMessage>
    ghost var sent: seq<TxMessage>

    ghost predicate Valid()
      reads this, slots
    {
      && slots.Length == TX_BUFFER_SIZE && insert < TX_BUFFER_SIZE && index < TX_BUFFER_SIZE
      && enqueued == sent + Pending(slots[..], index, insert)
    }

    /** The waiting messages, head first. */
    ghost function Contents(): seq<TxMessage>
      reads this, slots
      requires Valid()
    {
      Pending(slots[..], index, insert)
    }

    /** What one tx_buffer_process call did, given the SoftDevice's answer:
        the call for the head, if any, was made, and the head left the ring
        exactly when the SoftDevice accepted it. */
    twostate predicate Processed(accepted: bool, new call: Option<TransportCall>)
      reads this, slots
    {
      && old(Valid()) && Valid()
      && insert == old(insert) && enqueued == old(enqueued)
      && (old(Contents()) == [] ==> call == None && Contents() == [] && sent == old(sent))
      && (old(Contents()) != [] ==>
            && call == Some(CallFor(old(Contents())[0]))
            && (if accepted then Contents() == old(Contents())[1..] && sent == old(sent) + [old(Contents())[0]]
                else Contents() == old(Contents()) && sent == old(sent)))
    }

    /** What an enqueue followed by tx_buffer_process did (the tail of
        cccd_configure and ble_ancs_get_notif_attrs): m was queued after the
        waiting messages, the head of the queue was submitted and left it
        exactly when the SoftDevice accepted it. */
    twostate predicate Submitted(m: TxMessage, accepted: bool, new call: Option<TransportCall>)
      reads this, slots
    {
      && old(Valid()) && Valid()
      && enqueued == old(enqueued) + [m]
      && var q := old(Contents()) + [m];
      && call == Some(CallFor(q[0]))
      && (if accepted then Contents() == q[1..] && sent == old(sent) + [q[0]]
          else Contents() == q && sent == old(sent))
    }

    /** The zero-initialised static buffer: both indices 0. A zeroed slot has
        type 0, which is not READ_REQ and so would be sent as a write. */
    constructor ()
      ensures Valid() && fresh(slots)
      ensures insert == 0 && index == 0
      ensures Contents() == [] && enqueued == [] && sent == []
    {
      slots := new TxMessage[TX_BUFFER_SIZE](_ => WriteReq(0, WriteParams(0, 0, 0, [])));
      insert, index := 0, 0;
      enqueued, sent := [], [];
    }

    /** The enqueue of cccd_configure and ble_ancs_get_notif_attrs (lines
        601-602, 654-655): the slot at the insert index is written and the
        index advanced; no other slot changes. Neither caller checks for a full
        ring, so a full ring is excluded here (see PendingOverflow). */
    method Push(m: TxMessage)
      requires Valid()
      requires |Contents()| < TX_BUFFER_SIZE - 1
      modifies this, slots
      ensures Valid()
      ensures Contents() == old(Contents()) + [m]
      ensures insert == Advance(old(insert)) && index == old(index)
      ensures slots[old(insert)] == m
      ensures forall k :: 0 <= k < slots.Length && k != old(insert) ==> slots[k] == old(slots[k])
      ensures enqueued == old(enqueued) + [m] && sent == old(sent)
    {
      PendingPush(slots[..], index, insert, m);
      slots[insert] := m;
      assert slots[..] == old(slots[..])[old(insert) := m];
      insert := (insert + 1) % TX_BUFFER_SIZE;
      enqueued := enqueued + [m];
    }

    /** The tail of cccd_configure and ble_ancs_get_notif_attrs: enqueue m,
        then tx_buffer_process. */
    method Submit(m: TxMessage, accepted: bool) returns (call: Option<TransportCall>)
      requires Valid()
      requires |Contents()| < TX_BUFFER_SIZE - 1
      modifies this, slots
      ensures Submitted(m, accepted, call)
    {
      Push(m);
      call := Process(accepted);
    }

    /** tx_buffer_process (lines 252-275). When a message is waiting, the
        SoftDevice call for the head is returned; `accepted` is the
        SoftDevice's answer (NRF_SUCCESS or not). Only an accepted call moves
        the dispatch index on; on a rejection nothing changes and the same
        message is tried on the next trigger. */
    method Process(accepted: bool) returns (call: Option<TransportCall>)
      requires Valid()
      modifies this
      ensures Processed(accepted, call)
      ensures index == if old(Contents()) != [] && accepted then Advance(old(index)) else old(index)
    {
      call := None;
      if index != insert {
        PendingPop(slots[..], index, insert);
        var m := slots[index];
        match m {
          case ReadReq(c, h) => call := Some(GattcRead(c, h, 0));
          case WriteReq(c, w) => call := Some(GattcWrite(c, w));
        }
        if accepted {
          index := (index + 1) % TX_BUFFER_SIZE;
          sent := sent + [m];
        }
      }
    }
  }
}
