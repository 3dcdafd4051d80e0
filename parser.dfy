/** The semantics of parse_get_notif_attrs_response (ble_ancs_c.c lines
    293-409): the resumable state machine that reads a Get Notification
    Attributes response off the Data Source characteristic, one chunk (one
    GATT notification) per call.

    Step is one iteration of the parser's `for (index ...)` loop and Run the
    whole loop over a chunk; AncsClient.Feed is the imperative loop and is
    proved to do what Run says. A result of None stands for a chunk on which
    the C reads outside its inputs (a header cut short, an attribute ID used
    as an index past the registry): callers must not feed such a chunk. */
module AttrParser {
  import opened AncsTypes
  import opened NotifCodec

  /** ble_ancs_c_parse_state_t. */
  datatype ParseState = CommandIdAndNotifUid | AttrId | AttrLen1 | AttrLen2 | AttrData | Done

  /** The state kept between calls: m_parse_state, m_expected_number_of_attrs
      and the function statics p_data_dest, current_attr_index and evt.attr
      (its notification UID, attribute ID and attribute length). */
  datatype Parser = Parser(state: ParseState, expected: uint32, dest: array?<uint8>,
                           attrIndex: uint16, uid: uint32, attrId: uint8, attrLen: uint16)

  /** The BLE_ANCS_C_EVT_NOTIF_ATTRIBUTE event handed to the application:
      evt.attr as it is when the handler is called. */
  datatype AttrEvent = AttrEvent(notifUid: uint32, attrId: uint8, attrLen: uint16)

  /** One byte written into a caller's buffer. */
  datatype Store = Store(buf: array?<uint8>, at: nat, val: uint8)

  /** What one loop iteration does: the new state, the new value of `index`,
      the events it emits and the bytes it writes. */
  datatype StepOut = StepOut(p: Parser, next: nat, events: seq<AttrEvent>, stores: seq<Store>)

  /** What a whole call does; `end` is the final value of `index`, which can
      lie past the chunk. */
  datatype RunOut = RunOut(p: Parser, events: seq<AttrEvent>, stores: seq<Store>, end: nat)

  function Min(a: int, b: int): int { if a <= b then a else b }

  /** What the registry guarantees once every entry went through
      ble_ancs_c_attr_add: a requested attribute has a buffer with one slot
      more than its capacity (for the terminating 0) and a capacity in
      1 .. BLE_ANCS_ATTR_DATA_MAX. */
  predicate RegistryOk(reg: seq<AttrEntry>)
  {
    |reg| == NB_OF_ATTRS &&
    forall k :: 0 <= k < |reg| && reg[k].get ==>
      reg[k].buf != null && 1 <= reg[k].cap <= ATTR_DATA_MAX && reg[k].buf.Length > reg[k].cap
  }

  /** The parser is inside one attribute: after its ID, before its end. */
  predicate MidAttribute(p: Parser)
  {
    p.state == AttrLen1 || p.state == AttrLen2 || p.state == AttrData
  }

  /** The invariant every call keeps: inside an attribute the attribute is a
      registered one whose buffer `dest` holds capacity + 1 bytes; between the
      two length bytes only the low byte is set; while copying data the copy
      index is below the declared length and at most the capacity (it equals
      the capacity only once ble_ancs_c_attr_add has lowered the capacity of
      the attribute being received to the copy index). */
  predicate Inv(p: Parser, reg: seq<AttrEntry>)
  {
    && RegistryOk(reg)
    && (MidAttribute(p) ==>
          p.attrId < NB_OF_ATTRS && reg[p.attrId].get
          && p.dest != null && p.dest.Length > reg[p.attrId].cap)
    && (p.state == AttrLen2 ==> p.attrLen < 0x100)
    && (p.state == AttrData ==> p.attrIndex < p.attrLen && p.attrIndex <= reg[p.attrId].cap)
  }

  /** One iteration of the loop at `index` = i. `lastUid` is the UID of the
      last notification received (m_ancs_evt.notif.notif_uid). */
  function Step(p: Parser, reg: seq<AttrEntry>, lastUid: uint32, chunk: seq<uint8>, i: nat)
    : (r: Option<StepOut>)
    requires Inv(p, reg) && i < |chunk|
    ensures r.Some? ==> r.value.next > i && |r.value.events| <= 1
  {
    match p.state
    case CommandIdAndNotifUid =>
      // Lines 310-327: the command ID byte and the UID are read in one go. A
      // wrong command ID sets DONE, which the assignment of ATTR_ID right
      // after overwrites, so only the UID decides.
      if i + 5 > |chunk| then None
      else
        var uid := DecodeLe32(chunk[i + 1..i + 5]);
        Some(StepOut(p.(state := if uid != lastUid then Done else AttrId, uid := uid), i + 5, [], []))
    case AttrId =>
      if p.expected == 0 then
        Some(StepOut(p.(state := Done), i + 1, [], []))
      else if chunk[i] >= NB_OF_ATTRS then
        None
      else
        var id := chunk[i];
        Some(StepOut(p.(state := if reg[id].get then AttrLen1 else AttrId, attrId := id,
                        dest := reg[id].buf, expected := p.expected - 1), i + 1, [], []))
    case AttrLen1 =>
      Some(StepOut(p.(state := AttrLen2, attrLen := chunk[i]), i + 1, [], []))
    case AttrLen2 =>
      // attr_len |= byte << 8: the low byte is below 0x100, so the OR adds.
      var len: uint16 := p.attrLen + 0x100 * (chunk[i] as int);
      if len != 0 then
        Some(StepOut(p.(state := AttrData, attrLen := len, attrIndex := 0), i + 1, [], []))
      else
        Some(StepOut(p.(state := AttrId, attrLen := 0, attrIndex := 0), i + 1,
                     [AttrEvent(p.uid, p.attrId, 0)], []))
    case AttrData =>
      // Line 374 copies the byte unless the capacity was lowered to the copy
      // index meanwhile; lines 381-396 then end the attribute at once.
      var cap := reg[p.attrId].cap;
      var copied := p.attrIndex < cap;
      var k: uint16 := if copied then p.attrIndex + 1 else p.attrIndex;
      var copy := if copied then [Store(p.dest, p.attrIndex, chunk[i])] else [];
      var j := if copied then i + 1 else i;
      if k == p.attrLen || k == cap then
        var skip := if k < p.attrLen then p.attrLen - k else 0;
        Some(StepOut(p.(state := AttrId, attrIndex := k), j + skip,
                     [AttrEvent(p.uid, p.attrId, p.attrLen)], copy + [Store(p.dest, k, 0)]))
      else
        Some(StepOut(p.(attrIndex := k), j, [], copy))
    case Done =>
      Some(StepOut(p, |chunk|, [], []))
  }

  /** Prefixes what one step did to the rest of a call. */
  function Then(s: StepOut, r: Option<RunOut>): Option<RunOut>
  {
    match r
    case None => None
    case Some(t) => Some(RunOut(t.p, s.events + t.events, s.stores + t.stores, t.end))
  }

  /** The loop of parse_get_notif_attrs_response from `index` = i to the end
      of the chunk. */
  function Run(p: Parser, reg: seq<AttrEntry>, lastUid: uint32, chunk: seq<uint8>, i: nat)
    : (r: Option<RunOut>)
    requires Inv(p, reg)
    ensures r.Some? ==> Inv(r.value.p, reg) && r.value.end >= i && r.value.end >= |chunk|
    decreases |chunk| - i
  {
    if i >= |chunk| then Some(RunOut(p, [], [], i))
    else
      match Step(p, reg, lastUid, chunk, i)
      case None => None
      case Some(s) =>
        StepInv(p, reg, lastUid, chunk, i);
        Then(s, Run(s.p, reg, lastUid, chunk, s.next))
  }

  /** Every step keeps the invariant. */
  lemma StepInv(p: Parser, reg: seq<AttrEntry>, lastUid: uint32, chunk: seq<uint8>, i: nat)
    requires Inv(p, reg) && i < |chunk|
    ensures Step(p, reg, lastUid, chunk, i).Some? ==> Inv(Step(p, reg, lastUid, chunk, i).value.p, reg)
  {
  }

  /** The contents of buffer b after the given writes, oldest first; a write
      to another buffer leaves b alone. */
  ghost function ApplyStores(s: seq<uint8>, b: array<uint8>, stores: seq<Store>): (r: seq<uint8>)
    ensures |r| == |s|
  {
    if stores == [] then s
    else
      var r0 := ApplyStores(s, b, stores[..|stores| - 1]);
      var w := stores[|stores| - 1];
      if w.buf == b && w.at < |r0| then r0[w.at := w.val] else r0
  }

  /** One more write: it changes b only when it is aimed at b inside it. */
  lemma ApplyStoresSnoc(s: seq<uint8>, b: array<uint8>, stores: seq<Store>, w: Store)
    ensures ApplyStores(s, b, stores + [w])
            == if w.buf == b && w.at < |s| then ApplyStores(s, b, stores)[w.at := w.val]
               else ApplyStores(s, b, stores)
  {
    assert (stores + [w])[..|stores|] == stores;
  }

  /** Applying two lists of writes one after the other is applying their
      concatenation. */
  lemma {:induction false} ApplyStoresAppend(s: seq<uint8>, b: array<uint8>, x: seq<Store>, y: seq<Store>)
    ensures ApplyStores(ApplyStores(s, b, x), b, y) == ApplyStores(s, b, x + y)
    decreases |y|
  {
    if y != [] {
      var n := |y|;
      assert (x + y)[..|x + y| - 1] == x + y[..n - 1];
      assert (x + y)[|x + y| - 1] == y[n - 1];
      ApplyStoresAppend(s, b, x, y[..n - 1]);
    } else {
      assert x + y == x;
    }
  }

  /** The writes of one ATTR_DATA step: one byte, or a byte and the 0 after it. */
  lemma CopyStores(s: seq<uint8>, b: array<uint8>, at: nat, v: uint8, stores: seq<Store>)
    requires at < |s|
    requires stores == [Store(b, at, v)] || (at + 1 < |s| && stores == [Store(b, at, v), Store(b, at + 1, 0)])
    ensures ApplyStores(s, b, stores)
            == if |stores| == 1 then s[at := v] else s[at := v][at + 1 := 0]
  {
    ApplyStoresSnoc(s, b, [], Store(b, at, v));
    if |stores| == 2 {
      ApplyStoresSnoc(s, b, [Store(b, at, v)], Store(b, at + 1, 0));
    }
  }

  /** The writes of the bytes `bytes` at dest[from], dest[from + 1], ... */
  function DataStores(dest: array?<uint8>, from: nat, bytes: seq<uint8>): (r: seq<Store>)
    ensures |r| == |bytes|
  {
    seq(|bytes|, k requires 0 <= k < |bytes| => Store(dest, from + k, bytes[k]))
  }

  // ---------------------------------------------------------------------------
  // The states, one at a time

  /** In ATTR_ID with no attribute left to read, the parser moves to DONE and
      consumes one byte without looking at it. Otherwise it consumes one ID
      byte, counts it off and moves to ATTR_LEN1 exactly when the attribute is
      registered; an unregistered ID leaves it in ATTR_ID. An ID past the
      registry is outside the C's defined behaviour. */
  lemma AttrIdStep(p: Parser, reg: seq<AttrEntry>, lastUid: uint32, chunk: seq<uint8>, i: nat)
    requires Inv(p, reg) && p.state == AttrId && i < |chunk|
    ensures p.expected == 0 ==>
      Step(p, reg, lastUid, chunk, i) == Some(StepOut(p.(state := Done), i + 1, [], []))
    ensures p.expected != 0 ==> (Step(p, reg, lastUid, chunk, i).Some? <==> chunk[i] < NB_OF_ATTRS)
    ensures p.expected != 0 && chunk[i] < NB_OF_ATTRS ==>
      var s := Step(p, reg, lastUid, chunk, i).value;
      && s.next == i + 1 && s.events == [] && s.stores == []
      && s.p.expected == p.expected - 1 && s.p.attrId == chunk[i]
      && (s.p.state == AttrLen1 <==> reg[chunk[i]].get)
      && (s.p.state == AttrId <==> !reg[chunk[i]].get)
  {
  }

  /** The two length bytes are read least significant first, and may arrive in
      different chunks. A zero length emits the attribute's event at once and
      goes back to ATTR_ID without entering ATTR_DATA; any other length enters
      ATTR_DATA with the copy index at 0. */
  lemma LengthSteps(p: Parser, reg: seq<AttrEntry>, lastUid: uint32,
                    c1: seq<uint8>, i: nat, c2: seq<uint8>, j: nat)
    requires Inv(p, reg) && p.state == AttrLen1 && i < |c1| && j < |c2|
    ensures
      var s1 := Step(p, reg, lastUid, c1, i).value;
      var s2 := Step(s1.p, reg, lastUid, c2, j).value;
      var len := DecodeLe16([c1[i], c2[j]]);
      && s1.next == i + 1 && s1.p.state == AttrLen2 && s1.events == [] && s1.stores == []
      && s2.next == j + 1 && s2.p.attrLen == len && s2.p.attrIndex == 0 && s2.stores == []
      && (len == 0 ==> s2.p.state == AttrId && s2.events == [AttrEvent(p.uid, p.attrId, 0)])
      && (len != 0 ==> s2.p.state == AttrData && s2.events == [])
  {
  }

  /** A step that emits and writes nothing adds nothing to the rest of the call. */
  lemma ThenEmpty(s: StepOut, r: Option<RunOut>)
    requires s.events == [] && s.stores == []
    ensures Then(s, r) == r
  {
    if r.Some? {
      assert [] + r.value.events == r.value.events;
      assert [] + r.value.stores == r.value.stores;
    }
  }

  /** Once DONE, the rest of the chunk is discarded: nothing is emitted or
      written and the state stays DONE, chunk after chunk. */
  lemma DoneAbsorbs(p: Parser, reg: seq<AttrEntry>, lastUid: uint32, chunk: seq<uint8>, i: nat)
    requires Inv(p, reg) && p.state == Done
    ensures Run(p, reg, lastUid, chunk, i) == Some(RunOut(p, [], [], if i < |chunk| then |chunk| else i))
  {
    if i < |chunk| {
      var s := StepOut(p, |chunk|, [], []);
      assert Step(p, reg, lastUid, chunk, i) == Some(s);
      RunUnfold(p, reg, lastUid, chunk, i);
      assert Run(p, reg, lastUid, chunk, |chunk|) == Some(RunOut(p, [], [], |chunk|));
      ThenEmpty(s, Run(p, reg, lastUid, chunk, |chunk|));
    }
  }

  /** The header's command ID byte has no effect on the parse. */
  lemma CommandIdIgnored(p: Parser, reg: seq<AttrEntry>, lastUid: uint32, chunk: seq<uint8>, i: nat, c: uint8)
    requires Inv(p, reg) && p.state == CommandIdAndNotifUid && i < |chunk|
    ensures Step(p, reg, lastUid, chunk, i) == Step(p, reg, lastUid, chunk[i := c], i)
  {
    if i + 5 <= |chunk| {
      assert chunk[i + 1..i + 5] == chunk[i := c][i + 1..i + 5];
    }
  }

  /** A response whose UID is not that of the last notification received ends
      the stream: the rest of the chunk is discarded and nothing is emitted. A
      matching UID moves the parser to ATTR_ID after exactly five bytes. */
  lemma HeaderUid(p: Parser, reg: seq<AttrEntry>, lastUid: uint32, chunk: seq<uint8>)
    requires Inv(p, reg) && p.state == CommandIdAndNotifUid && |chunk| >= 5
    ensures var uid := DecodeLe32(chunk[1..5]);
      && (uid != lastUid ==>
            Run(p, reg, lastUid, chunk, 0) == Some(RunOut(p.(state := Done, uid := uid), [], [], |chunk|)))
      && (uid == lastUid ==>
            Run(p, reg, lastUid, chunk, 0) == Run(p.(state := AttrId, uid := uid), reg, lastUid, chunk, 5))
  {
    var uid := DecodeLe32(chunk[1..5]);
    var q := p.(state := if uid != lastUid then Done else AttrId, uid := uid);
    assert Step(p, reg, lastUid, chunk, 0) == Some(StepOut(q, 5, [], []));
    ThenEmpty(StepOut(q, 5, [], []), Run(q, reg, lastUid, chunk, 5));
    if uid != lastUid {
      DoneAbsorbs(q, reg, lastUid, chunk, 5);
    }
  }

  /** With no attribute registered at request time, a response carrying the
      right UID reaches DONE on the byte after the header and emits nothing. */
  lemma NothingRequested(p: Parser, reg: seq<AttrEntry>, lastUid: uint32, chunk: seq<uint8>)
    requires Inv(p, reg) && p.state == CommandIdAndNotifUid && p.expected == 0
    requires |chunk| >= 6 && DecodeLe32(chunk[1..5]) == lastUid
    ensures Run(p, reg, lastUid, chunk, 0)
            == Some(RunOut(p.(state := Done, uid := lastUid), [], [], |chunk|))
  {
    HeaderUid(p, reg, lastUid, chunk);
    var q := p.(state := AttrId, uid := lastUid);
    var s := StepOut(q.(state := Done), 6, [], []);
    assert Step(q, reg, lastUid, chunk, 5) == Some(s);
    RunUnfold(q, reg, lastUid, chunk, 5);
    ThenEmpty(s, Run(s.p, reg, lastUid, chunk, 6));
    DoneAbsorbs(s.p, reg, lastUid, chunk, 6);
  }

  // ---------------------------------------------------------------------------
  // The data state and truncation

  lemma ThenThen(s: StepOut, s2: StepOut, r: Option<RunOut>)
    ensures Then(s, Then(s2, r))
            == Then(StepOut(s2.p, s2.next, s.events + s2.events, s.stores + s2.stores), r)
  {
    if r.Some? {
      assert s.events + (s2.events + r.value.events) == (s.events + s2.events) + r.value.events;
      assert s.stores + (s2.stores + r.value.stores) == (s.stores + s2.stores) + r.value.stores;
    }
  }

  /** One iteration in ATTR_DATA: the byte is copied at the copy index; when
      the index then reaches the declared length or the capacity, a 0 follows
      it, the event is emitted, the surplus is skipped and the state returns to
      ATTR_ID. A copy index already at the capacity copies nothing and ends
      the attribute. */
  lemma DataStep(p: Parser, reg: seq<AttrEntry>, lastUid: uint32, chunk: seq<uint8>, i: nat)
    requires Inv(p, reg) && p.state == AttrData && i < |chunk|
    ensures p.attrIndex == reg[p.attrId].cap ==>
      Step(p, reg, lastUid, chunk, i)
      == Some(StepOut(p.(state := AttrId), i + (p.attrLen - p.attrIndex),
                      [AttrEvent(p.uid, p.attrId, p.attrLen)], [Store(p.dest, p.attrIndex, 0)]))
    ensures p.attrIndex < reg[p.attrId].cap ==>
      var k := p.attrIndex + 1;
      var copy := Store(p.dest, p.attrIndex, chunk[i]);
      Step(p, reg, lastUid, chunk, i)
      == if k == p.attrLen || k == reg[p.attrId].cap then
           Some(StepOut(p.(state := AttrId, attrIndex := k), i + 1 + (p.attrLen - k),
                        [AttrEvent(p.uid, p.attrId, p.attrLen)], [copy, Store(p.dest, k, 0)]))
         else
           Some(StepOut(p.(attrIndex := k), i + 1, [], [copy]))
  {
    var end := Store(p.dest, p.attrIndex, 0);
    if p.attrIndex < reg[p.attrId].cap {
      var copy := Store(p.dest, p.attrIndex, chunk[i]);
      assert [copy] + [Store(p.dest, p.attrIndex + 1, 0)] == [copy, Store(p.dest, p.attrIndex + 1, 0)];
    } else {
      assert [] + [end] == [end];
      assert p.(state := AttrId, attrIndex := p.attrIndex) == p.(state := AttrId);
    }
  }

  lemma RunUnfold(p: Parser, reg: seq<AttrEntry>, lastUid: uint32, chunk: seq<uint8>, i: nat)
    requires Inv(p, reg) && i < |chunk| && Step(p, reg, lastUid, chunk, i).Some?
    ensures Run(p, reg, lastUid, chunk, i)
            == Then(Step(p, reg, lastUid, chunk, i).value,
                    Run(Step(p, reg, lastUid, chunk, i).value.p, reg, lastUid, chunk,
                        Step(p, reg, lastUid, chunk, i).value.next))
  {
  }

  /** Run after a step that went through. */
  lemma RunStep(p: Parser, reg: seq<AttrEntry>, lastUid: uint32, chunk: seq<uint8>, i: nat, t: StepOut)
    requires Inv(p, reg) && i < |chunk| && Step(p, reg, lastUid, chunk, i) == Some(t)
    ensures Inv(t.p, reg)
    ensures Run(p, reg, lastUid, chunk, i) == Then(t, Run(t.p, reg, lastUid, chunk, t.next))
  {
    StepInv(p, reg, lastUid, chunk, i);
  }

  /** All that the data of one attribute does, from copy index p.attrIndex at
      chunk position i to the end of the attribute: the state it leaves, the
      position after the data and the skipped surplus, its event and its
      writes. */
  function DataPhaseStep(p: Parser, reg: seq<AttrEntry>, chunk: seq<uint8>, i: nat): (s: StepOut)
    requires Inv(p, reg) && p.state == AttrData
    requires i + Min(p.attrLen, reg[p.attrId].cap) - p.attrIndex <= |chunk|
    ensures Inv(s.p, reg) && s.p.state == AttrId
  {
    var m := Min(p.attrLen, reg[p.attrId].cap);
    var n := m - p.attrIndex;
    StepOut(p.(state := AttrId, attrIndex := m), i + n + (p.attrLen - m),
            [AttrEvent(p.uid, p.attrId, p.attrLen)],
            DataStores(p.dest, p.attrIndex, chunk[i..i + n]) + [Store(p.dest, m, 0)])
  }

  /** The last copy step of an attribute does all DataPhaseStep says. */
  lemma DataLastStep(p: Parser, reg: seq<AttrEntry>, lastUid: uint32, chunk: seq<uint8>, i: nat)
    requires Inv(p, reg) && p.state == AttrData
    requires p.attrIndex < reg[p.attrId].cap
    requires i + Min(p.attrLen, reg[p.attrId].cap) - p.attrIndex <= |chunk|
    requires p.attrIndex + 1 == p.attrLen || p.attrIndex + 1 == reg[p.attrId].cap
    ensures i < |chunk| && Step(p, reg, lastUid, chunk, i) == Some(DataPhaseStep(p, reg, chunk, i))
  {
    var copy := Store(p.dest, p.attrIndex, chunk[i]);
    DataStep(p, reg, lastUid, chunk, i);
    var k := p.attrIndex + 1;
    assert Min(p.attrLen, reg[p.attrId].cap) == k;
    assert DataStores(p.dest, p.attrIndex, chunk[i..i + 1]) == [copy];
    assert DataPhaseStep(p, reg, chunk, i)
           == StepOut(p.(state := AttrId, attrIndex := k), i + 1 + (p.attrLen - k),
                      [AttrEvent(p.uid, p.attrId, p.attrLen)], [copy, Store(p.dest, k, 0)]);
  }

  lemma DataPhaseLast(p: Parser, reg: seq<AttrEntry>, lastUid: uint32, chunk: seq<uint8>, i: nat)
    requires Inv(p, reg) && p.state == AttrData
    requires p.attrIndex < reg[p.attrId].cap
    requires i + Min(p.attrLen, reg[p.attrId].cap) - p.attrIndex <= |chunk|
    requires p.attrIndex + 1 == p.attrLen || p.attrIndex + 1 == reg[p.attrId].cap
    ensures var d := DataPhaseStep(p, reg, chunk, i);
      Run(p, reg, lastUid, chunk, i) == Then(d, Run(d.p, reg, lastUid, chunk, d.next))
  {
    DataLastStep(p, reg, lastUid, chunk, i);
    RunStep(p, reg, lastUid, chunk, i, DataPhaseStep(p, reg, chunk, i));
  }

  /** When ble_ancs_c_attr_add has lowered the capacity of the attribute
      being received to its copy index, the next iteration copies nothing: it
      writes the 0 at the copy index, skips the rest of the declared bytes,
      emits the event with the declared length and returns to ATTR_ID, as
      DataPhaseStep says of an attribute with no data left to copy. */
  lemma CapacityReached(p: Parser, reg: seq<AttrEntry>, lastUid: uint32, chunk: seq<uint8>, i: nat)
    requires Inv(p, reg) && p.state == AttrData && i < |chunk|
    requires p.attrIndex == reg[p.attrId].cap
    ensures Step(p, reg, lastUid, chunk, i) == Some(DataPhaseStep(p, reg, chunk, i))
    ensures var d := DataPhaseStep(p, reg, chunk, i);
      && d.stores == [Store(p.dest, p.attrIndex, 0)] && d.events == [AttrEvent(p.uid, p.attrId, p.attrLen)]
      && d.next == i + (p.attrLen - p.attrIndex) && d.p == p.(state := AttrId)
      && Run(p, reg, lastUid, chunk, i) == Then(d, Run(d.p, reg, lastUid, chunk, d.next))
  {
    DataStep(p, reg, lastUid, chunk, i);
    var d := DataPhaseStep(p, reg, chunk, i);
    assert DataStores(p.dest, p.attrIndex, chunk[i..i]) == [];
    assert d.stores == [Store(p.dest, p.attrIndex, 0)];
    RunStep(p, reg, lastUid, chunk, i, d);
  }

  /** The writes of a run of bytes start with the write of its first byte. */
  lemma DataStoresCons(dest: array?<uint8>, j: nat, chunk: seq<uint8>, i: nat, n: nat)
    requires 1 <= n && i + n <= |chunk|
    ensures [Store(dest, j, chunk[i])] + DataStores(dest, j + 1, chunk[i + 1..i + n])
            == DataStores(dest, j, chunk[i..i + n])
  {
  }

  /** A step that only writes one byte puts that write in front of the rest. */
  lemma ThenCons(p1: Parser, i: nat, copy: Store, s2: StepOut, r: Option<RunOut>)
    ensures Then(StepOut(p1, i, [], [copy]), Then(s2, r))
            == Then(StepOut(s2.p, s2.next, s2.events, [copy] + s2.stores), r)
  {
    ThenThen(StepOut(p1, i, [], [copy]), s2, r);
    assert [] + s2.events == s2.events;
  }

  /** A copy step that does not end the attribute, followed by the rest. */
  lemma RunDataMore(p: Parser, reg: seq<AttrEntry>, lastUid: uint32, chunk: seq<uint8>, i: nat)
    requires Inv(p, reg) && p.state == AttrData && i < |chunk|
    requires p.attrIndex < reg[p.attrId].cap
    requires p.attrIndex + 1 != p.attrLen && p.attrIndex + 1 != reg[p.attrId].cap
    ensures Inv(p.(attrIndex := p.attrIndex + 1), reg)
    ensures Run(p, reg, lastUid, chunk, i)
            == Then(StepOut(p.(attrIndex := p.attrIndex + 1), i + 1, [], [Store(p.dest, p.attrIndex, chunk[i])]),
                    Run(p.(attrIndex := p.attrIndex + 1), reg, lastUid, chunk, i + 1))
  {
    DataStep(p, reg, lastUid, chunk, i);
    RunUnfold(p, reg, lastUid, chunk, i);
  }

  /** The data of an attribute, one byte further on: the same end, and the
      writes without the first. */
  lemma DataPhaseStepNext(p: Parser, reg: seq<AttrEntry>, chunk: seq<uint8>, i: nat)
    requires Inv(p, reg) && p.state == AttrData
    requires p.attrIndex < reg[p.attrId].cap
    requires i + Min(p.attrLen, reg[p.attrId].cap) - p.attrIndex <= |chunk|
    requires p.attrIndex + 1 != p.attrLen && p.attrIndex + 1 != reg[p.attrId].cap
    ensures Inv(p.(attrIndex := p.attrIndex + 1), reg)
    ensures var d := DataPhaseStep(p, reg, chunk, i);
      var d1 := DataPhaseStep(p.(attrIndex := p.attrIndex + 1), reg, chunk, i + 1);
      d == StepOut(d1.p, d1.next, d1.events, [Store(p.dest, p.attrIndex, chunk[i])] + d1.stores)
  {
    var m := Min(p.attrLen, reg[p.attrId].cap);
    var n := m - p.attrIndex;
    var p1 := p.(attrIndex := p.attrIndex + 1);
    assert p1.(state := AttrId, attrIndex := m) == p.(state := AttrId, attrIndex := m);
    DataStoresCons(p.dest, p.attrIndex, chunk, i, n);
    var a := [Store(p.dest, p.attrIndex, chunk[i])];
    var b := DataStores(p.dest, p.attrIndex + 1, chunk[i + 1..i + n]);
    assert a + (b + [Store(p.dest, m, 0)]) == (a + b) + [Store(p.dest, m, 0)];
  }

  lemma DataPhaseMore(p: Parser, reg: seq<AttrEntry>, lastUid: uint32, chunk: seq<uint8>, i: nat)
    requires Inv(p, reg) && p.state == AttrData
    requires p.attrIndex < reg[p.attrId].cap
    requires i + Min(p.attrLen, reg[p.attrId].cap) - p.attrIndex <= |chunk|
    requires p.attrIndex + 1 != p.attrLen && p.attrIndex + 1 != reg[p.attrId].cap
    requires var d1 := DataPhaseStep(p.(attrIndex := p.attrIndex + 1), reg, chunk, i + 1);
      Run(p.(attrIndex := p.attrIndex + 1), reg, lastUid, chunk, i + 1)
      == Then(d1, Run(d1.p, reg, lastUid, chunk, d1.next))
    ensures var d := DataPhaseStep(p, reg, chunk, i);
      Run(p, reg, lastUid, chunk, i) == Then(d, Run(d.p, reg, lastUid, chunk, d.next))
  {
    var p1 := p.(attrIndex := p.attrIndex + 1);
    var d1 := DataPhaseStep(p1, reg, chunk, i + 1);
    RunDataMore(p, reg, lastUid, chunk, i);
    DataPhaseStepNext(p, reg, chunk, i);
    ThenCons(p1, i + 1, Store(p.dest, p.attrIndex, chunk[i]), d1, Run(d1.p, reg, lastUid, chunk, d1.next));
  }

  /** The data of one attribute: starting from copy index j, the next
      min(declared length, capacity) - j bytes of the chunk are written, in the
      order they arrived, at dest[j], dest[j + 1], ...; then a 0 is written at
      dest[min(declared length, capacity)], the one event of the attribute is
      emitted with the DECLARED length, the declared bytes that did not fit are
      skipped (even past the end of the chunk) and the state returns to
      ATTR_ID. */
  lemma DataPhase(p: Parser, reg: seq<AttrEntry>, lastUid: uint32, chunk: seq<uint8>, i: nat)
    requires Inv(p, reg) && p.state == AttrData && i < |chunk|
    requires i + Min(p.attrLen, reg[p.attrId].cap) - p.attrIndex <= |chunk|
    ensures var d := DataPhaseStep(p, reg, chunk, i);
      Run(p, reg, lastUid, chunk, i) == Then(d, Run(d.p, reg, lastUid, chunk, d.next))
  {
    if p.attrIndex == reg[p.attrId].cap {
      CapacityReached(p, reg, lastUid, chunk, i);
    } else {
      DataPhaseCopying(p, reg, lastUid, chunk, i);
    }
  }

  /** DataPhase while there is data left to copy, by induction on it. */
  lemma {:induction false} DataPhaseCopying(p: Parser, reg: seq<AttrEntry>, lastUid: uint32, chunk: seq<uint8>, i: nat)
    requires Inv(p, reg) && p.state == AttrData && p.attrIndex < reg[p.attrId].cap
    requires i + Min(p.attrLen, reg[p.attrId].cap) - p.attrIndex <= |chunk|
    ensures var d := DataPhaseStep(p, reg, chunk, i);
      Run(p, reg, lastUid, chunk, i) == Then(d, Run(d.p, reg, lastUid, chunk, d.next))
    decreases Min(p.attrLen, reg[p.attrId].cap) - p.attrIndex
  {
    if p.attrIndex + 1 == p.attrLen || p.attrIndex + 1 == reg[p.attrId].cap {
      DataPhaseLast(p, reg, lastUid, chunk, i);
    } else {
      DataPhaseCopying(p.(attrIndex := p.attrIndex + 1), reg, lastUid, chunk, i + 1);
      DataPhaseMore(p, reg, lastUid, chunk, i);
    }
  }

  lemma {:induction false} ApplyDataStores(s: seq<uint8>, b: array<uint8>, from: nat, bytes: seq<uint8>)
    requires from + |bytes| <= |s|
    ensures ApplyStores(s, b, DataStores(b, from, bytes)) == s[..from] + bytes + s[from + |bytes|..]
    decreases |bytes|
  {
    if bytes != [] {
      var n := |bytes|;
      var st := DataStores(b, from, bytes);
      assert st[..n - 1] == DataStores(b, from, bytes[..n - 1]);
      ApplyDataStores(s, b, from, bytes[..n - 1]);
      assert st[n - 1] == Store(b, from + n - 1, bytes[n - 1]);
    }
  }

  /** The truncation law: after the data of an attribute whose copy started at
      index 0, the buffer holds the first min(declared length, capacity) bytes
      of the data in the order they arrived, followed by a 0, and is otherwise
      as it was; a buffer not in use is left alone. */
  lemma TruncationLaw(s: seq<uint8>, dest: array<uint8>, other: array<uint8>, data: seq<uint8>, declared: nat, cap: nat)
    requires |data| == Min(declared, cap) && cap < |s|
    requires other != dest
    ensures ApplyStores(s, dest, DataStores(dest, 0, data) + [Store(dest, |data|, 0)])
            == data + [0] + s[|data| + 1..]
    ensures ApplyStores(s, other, DataStores(dest, 0, data) + [Store(dest, |data|, 0)]) == s
  {
    var d := DataStores(dest, 0, data);
    var w := Store(dest, |data|, 0);
    ApplyStoresSnoc(s, dest, d, w);
    ApplyDataStores(s, dest, 0, data);
    assert s[..0] + data + s[|data|..] == data + s[|data|..];
    var t := data + s[|data|..];
    assert t[|data| := 0] == data + [0] + s[|data| + 1..];
    OtherBufferUntouched(s, other, d + [w]);
  }

  /** The truncation law for the parser itself: the data phase of an
      attribute copied from index 0 leaves its buffer holding the first
      min(declared length, capacity) bytes of the attribute's data in the
      order they arrived, followed by a 0, and otherwise as it was; any other
      buffer is left alone. */
  lemma DataPhaseTruncation(p: Parser, reg: seq<AttrEntry>, chunk: seq<uint8>, i: nat,
                            s: seq<uint8>, other: array<uint8>)
    requires Inv(p, reg) && p.state == AttrData && p.attrIndex == 0
    requires i + Min(p.attrLen, reg[p.attrId].cap) <= |chunk|
    requires |s| == p.dest.Length && other != p.dest
    ensures var m := Min(p.attrLen, reg[p.attrId].cap);
      var stores := DataPhaseStep(p, reg, chunk, i).stores;
      && ApplyStores(s, p.dest, stores) == chunk[i..i + m] + [0] + s[m + 1..]
      && ApplyStores(s, other, stores) == s
  {
    var m := Min(p.attrLen, reg[p.attrId].cap);
    assert DataPhaseStep(p, reg, chunk, i).stores
           == DataStores(p.dest, 0, chunk[i..i + m]) + [Store(p.dest, m, 0)];
    TruncationLaw(s, p.dest, other, chunk[i..i + m], p.attrLen, reg[p.attrId].cap);
  }

  lemma {:induction false} OtherBufferUntouched(s: seq<uint8>, b: array<uint8>, stores: seq<Store>)
    requires forall k :: 0 <= k < |stores| ==> stores[k].buf != b
    ensures ApplyStores(s, b, stores) == s
    decreases |stores|
  {
    if stores != [] {
      OtherBufferUntouched(s, b, stores[..|stores| - 1]);
    }
  }

  // ---------------------------------------------------------------------------
  // Chunking

  function ShiftStep(r: Option<StepOut>, n: nat): Option<StepOut>
  {
    match r
    case None => None
    case Some(s) => Some(s.(next := s.next + n))
  }

  function Shift(r: Option<RunOut>, n: nat): Option<RunOut>
  {
    match r
    case None => None
    case Some(t) => Some(t.(end := t.end + n))
  }

  lemma ThenShift(s: StepOut, r: Option<RunOut>, n: nat)
    ensures Then(s.(next := s.next + n), Shift(r, n)) == Shift(Then(s, r), n)
  {
  }

  /** One step of RunShift: when the call on c at n + j and the call on b at
      j both begin with the step t (moved on by n in c), and the rest of the
      calls agree likewise, the whole calls do. */
  lemma RunShiftCons(p: Parser, reg: seq<AttrEntry>, lastUid: uint32, c: seq<uint8>, b: seq<uint8>,
                     n: nat, j: nat, t: StepOut)
    requires Inv(p, reg) && Inv(t.p, reg)
    requires Run(p, reg, lastUid, b, j) == Then(t, Run(t.p, reg, lastUid, b, t.next))
    requires Run(p, reg, lastUid, c, n + j) == Then(t.(next := t.next + n), Run(t.p, reg, lastUid, c, n + t.next))
    requires Run(t.p, reg, lastUid, c, n + t.next) == Shift(Run(t.p, reg, lastUid, b, t.next), n)
    ensures Run(p, reg, lastUid, c, n + j) == Shift(Run(p, reg, lastUid, b, j), n)
  {
    ThenShift(t, Run(t.p, reg, lastUid, b, t.next), n);
  }

  /** A step reads only the bytes from `index` on. */
  lemma StepShift(p: Parser, reg: seq<AttrEntry>, lastUid: uint32, c: seq<uint8>, n: nat, j: nat)
    requires Inv(p, reg) && n + j < |c|
    ensures Step(p, reg, lastUid, c, n + j) == ShiftStep(Step(p, reg, lastUid, c[n..], j), n)
  {
    assert c[n..][j] == c[n + j];
    if n + j + 5 <= |c| {
      assert c[n..][j + 1..j + 5] == c[n + j + 1..n + j + 5];
    }
  }

  /** The first step of a call on c at n + j and of a call on c[n..] at j:
      both fail, or both take the same step t, moved on by n in c. */
  lemma ShiftedHead(p: Parser, reg: seq<AttrEntry>, lastUid: uint32, c: seq<uint8>, n: nat, j: nat)
    returns (r: Option<StepOut>)
    requires Inv(p, reg) && n + j < |c|
    ensures r.None? ==> Run(p, reg, lastUid, c, n + j) == Shift(Run(p, reg, lastUid, c[n..], j), n)
    ensures r.Some? ==>
      var t := r.value;
      && Inv(t.p, reg) && t.next > j
      && Run(p, reg, lastUid, c[n..], j) == Then(t, Run(t.p, reg, lastUid, c[n..], t.next))
      && Run(p, reg, lastUid, c, n + j) == Then(t.(next := t.next + n), Run(t.p, reg, lastUid, c, n + t.next))
  {
    StepShift(p, reg, lastUid, c, n, j);
    r := Step(p, reg, lastUid, c[n..], j);
    if r.Some? {
      RunStep(p, reg, lastUid, c[n..], j, r.value);
      RunStep(p, reg, lastUid, c, n + j, r.value.(next := r.value.next + n));
    }
  }

  /** Bytes before `index` make no difference to the rest of a call: running
      on c from n + j is running on c[n..] from j, ending n positions later. */
  lemma {:induction false} RunShift(p: Parser, reg: seq<AttrEntry>, lastUid: uint32, c: seq<uint8>, n: nat, j: nat)
    requires Inv(p, reg) && n <= |c|
    ensures Run(p, reg, lastUid, c, n + j) == Shift(Run(p, reg, lastUid, c[n..], j), n)
    decreases |c| - n - j, 1
  {
    if n + j < |c| {
      var r := ShiftedHead(p, reg, lastUid, c, n, j);
      if r.Some? {
        RunShiftAfter(p, reg, lastUid, c, n, j, r.value);
      }
    }
  }

  /** RunShift once both calls have taken their first step t. */
  lemma {:induction false} RunShiftAfter(p: Parser, reg: seq<AttrEntry>, lastUid: uint32, c: seq<uint8>,
                                         n: nat, j: nat, t: StepOut)
    requires Inv(p, reg) && Inv(t.p, reg) && n + j < |c| && t.next > j
    requires Run(p, reg, lastUid, c[n..], j) == Then(t, Run(t.p, reg, lastUid, c[n..], t.next))
    requires Run(p, reg, lastUid, c, n + j) == Then(t.(next := t.next + n), Run(t.p, reg, lastUid, c, n + t.next))
    ensures Run(p, reg, lastUid, c, n + j) == Shift(Run(p, reg, lastUid, c[n..], j), n)
    decreases |c| - n - j, 0
  {
    RunShift(t.p, reg, lastUid, c, n, t.next);
    RunShiftCons(p, reg, lastUid, c, c[n..], n, j, t);
  }

  /** A step that lies wholly inside the first chunk does the same when the
      chunk is extended, except in DONE, which discards the whole extension. */
  lemma StepPrefix(p: Parser, reg: seq<AttrEntry>, lastUid: uint32, c1: seq<uint8>, c2: seq<uint8>, i: nat)
    requires Inv(p, reg) && i < |c1| && p.state != Done
    requires Step(p, reg, lastUid, c1, i).Some?
    ensures Step(p, reg, lastUid, c1 + c2, i) == Step(p, reg, lastUid, c1, i)
  {
    assert (c1 + c2)[i] == c1[i];
    if p.state == CommandIdAndNotifUid {
      assert (c1 + c2)[i + 1..i + 5] == c1[i + 1..i + 5];
    }
  }

  /** Resumption: when a call on c1 ends exactly at the end of c1 (no header is
      cut and no truncation skip runs past it), feeding c1 then c2 emits the
      same events, writes the same bytes and leaves the same state as feeding
      c1 + c2 in one call. */
  lemma {:induction false} RunConcat(p: Parser, reg: seq<AttrEntry>, lastUid: uint32, c1: seq<uint8>, c2: seq<uint8>, i: nat)
    requires Inv(p, reg) && i <= |c1|
    requires Run(p, reg, lastUid, c1, i).Some? && Run(p, reg, lastUid, c1, i).value.end == |c1|
    ensures
      var r1 := Run(p, reg, lastUid, c1, i).value;
      Run(p, reg, lastUid, c1 + c2, i)
      == Then(StepOut(r1.p, |c1|, r1.events, r1.stores), Shift(Run(r1.p, reg, lastUid, c2, 0), |c1|))
    decreases |c1| - i
  {
    var r1 := Run(p, reg, lastUid, c1, i).value;
    if i == |c1| {
      RunShift(p, reg, lastUid, c1 + c2, |c1|, 0);
      assert (c1 + c2)[|c1|..] == c2;
      ThenEmpty(StepOut(r1.p, |c1|, r1.events, r1.stores), Shift(Run(r1.p, reg, lastUid, c2, 0), |c1|));
    } else if p.state == Done {
      DoneAbsorbs(p, reg, lastUid, c1, i);
      DoneAbsorbs(p, reg, lastUid, c1 + c2, i);
      DoneAbsorbs(p, reg, lastUid, c2, 0);
    } else {
      StepPrefix(p, reg, lastUid, c1, c2, i);
      var s := Step(p, reg, lastUid, c1, i).value;
      var r1' := Run(s.p, reg, lastUid, c1, s.next).value;
      RunConcat(s.p, reg, lastUid, c1, c2, s.next);
      ThenThen(s, StepOut(r1'.p, |c1|, r1'.events, r1'.stores), Shift(Run(r1.p, reg, lastUid, c2, 0), |c1|));
    }
  }

  /** A requested attribute of declared length 0 takes three bytes (ID and
      two length bytes) and emits its event, writing nothing. */
  lemma EmptyAttribute(p: Parser, reg: seq<AttrEntry>, lastUid: uint32, ch: seq<uint8>, i: nat, q: Parser)
    requires Inv(p, reg) && p.state == AttrId && p.expected > 0
    requires i + 3 <= |ch| && ch[i] < NB_OF_ATTRS && reg[ch[i]].get && ch[i + 1] == 0 && ch[i + 2] == 0
    requires q == p.(state := AttrId, attrId := ch[i], dest := reg[ch[i]].buf, expected := p.expected - 1,
                     attrLen := 0, attrIndex := 0)
    ensures Inv(q, reg)
    ensures Run(p, reg, lastUid, ch, i)
            == Then(StepOut(q, i + 3, [AttrEvent(p.uid, ch[i], 0)], []), Run(q, reg, lastUid, ch, i + 3))
  {
    var p1 := p.(state := AttrLen1, attrId := ch[i], dest := reg[ch[i]].buf, expected := p.expected - 1);
    var p2 := p1.(state := AttrLen2, attrLen := 0);
    assert q == p2.(state := AttrId, attrIndex := 0);
    RunStep(p, reg, lastUid, ch, i, StepOut(p1, i + 1, [], []));
    RunStep(p1, reg, lastUid, ch, i + 1, StepOut(p2, i + 2, [], []));
    RunStep(p2, reg, lastUid, ch, i + 2, StepOut(q, i + 3, [AttrEvent(p.uid, ch[i], 0)], []));
    ThenEmpty(StepOut(p1, i + 1, [], []), Run(p1, reg, lastUid, ch, i + 1));
    ThenEmpty(StepOut(p2, i + 2, [], []), Run(p2, reg, lastUid, ch, i + 2));
  }

  /** After the header, two requested attributes, IDs 0 and 3, both of
      declared length 0: the two events are emitted with the declared length
      0, nothing is written, and the parser is left in ATTR_ID with no
      attribute left to read; it reaches DONE only on a further byte. */
  lemma TwoEmptyAttributes(p: Parser, reg: seq<AttrEntry>, lastUid: uint32, chunk: seq<uint8>)
    requires Inv(p, reg) && p.state == AttrId && p.expected == 2
    requires reg[0].get && reg[3].get
    requires chunk == [0, 0, 0, 3, 0, 0]
    ensures Run(p, reg, lastUid, chunk, 0)
            == Some(RunOut(p.(expected := 0, attrId := 3, dest := reg[3].buf, attrLen := 0, attrIndex := 0),
                           [AttrEvent(p.uid, 0, 0), AttrEvent(p.uid, 3, 0)], [], 6))
  {
    var p1 := p.(attrId := 0, dest := reg[0].buf, expected := 1, attrLen := 0, attrIndex := 0);
    var q := p.(expected := 0, attrId := 3, dest := reg[3].buf, attrLen := 0, attrIndex := 0);
    var e1 := [AttrEvent(p.uid, 0, 0)];
    var e2 := [AttrEvent(p.uid, 3, 0)];
    var none: seq<Store> := [];
    EmptyAttribute(p, reg, lastUid, chunk, 0, p1);
    EmptyAttribute(p1, reg, lastUid, chunk, 3, q);
    var rest := Run(q, reg, lastUid, chunk, 6);
    assert rest == Some(RunOut(q, [], [], 6));
    ThenThen(StepOut(p1, 3, e1, none), StepOut(q, 6, e2, none), rest);
    assert none + none + none == none;
    assert e1 + e2 + [] == [AttrEvent(p.uid, 0, 0), AttrEvent(p.uid, 3, 0)];
  }
}
