/** The framing codec of `message_handler/message_handler.py`.

    Host to device, a frame is header-first:
      `>` id(2) context(2) length(4) crc(body)(2) `<` body
    Device to host, a frame is trailer-last:
      body `<` id(2) context(2) length(2) crc(body)(2) `>` crc(tail)(2)
    where the tail is the ten bytes from `<` to `>`. Multi-byte fields are
    packed little-endian. */
module MessageHandler {
  import opened Base
  import opened Auxiliary
  import opened Crc
  import opened CircularBuffer

  /** `MAX_PACKET_SIZE`: 2048 bytes of page data plus 20. */
  const MAX_PACKET_SIZE: nat := 256 * 8 + 20
  /** The header length `create_message` compares against the limit. */
  const HEADER_SIZE: nat := 10
  const TAIL_LEN: nat := 10
  const TAIL_CRC_SHIFT_POS: nat := 3
  /** `'>'`, which opens a host frame and closes a device tail. */
  const FRAME_START: byte := 0x3E
  const TAIL_END_MARK: byte := 0x3E
  /** `'<'`, which closes a host header and opens a device tail. */
  const TAIL_START_MARK: byte := 0x3C

  // ---- TransmissionStats ----

  /** `TransmissionStats`: counts of acknowledged and rejected transfers. */
  class TransmissionStats {
    var acks: nat
    var nacks: nat

    constructor ()
      ensures acks == 0 && nacks == 0
    {
      acks := 0;
      nacks := 0;
    }

    method Ack()
      modifies this
      ensures acks == old(acks) + 1 && nacks == old(nacks)
    {
      acks := acks + 1;
    }

    method Nack()
      modifies this
      ensures nacks == old(nacks) + 1 && acks == old(acks)
    {
      nacks := nacks + 1;
    }
  }

  // ---- MessageSender.ID ----

  /** The names and values of `MessageSender.ID`. */
  const IdTable: seq<(string, nat)> := [
    ("txt_message", 0), ("write_to_page", 1), ("rxflush", 2), ("setbankname", 3),
    ("get_sram_packet", 4), ("get_bank_packet", 5), ("enable_sram", 6), ("reload_sram", 7),
    ("send_sram_bytes", 8), ("handshake", 9), ("get_write_stats", 10), ("bootloader", 11),
    ("disable_btlrd", 12), ("dummy", 13), ("reset", 14), ("bank1_set", 15),
    ("bank2_set", 16), ("bank3_set", 17), ("get_bank_in_use", 18), ("set_bank_name", 19),
    ("dgf_code_check", 20), ("set_pin", 21), ("digidag_enable", 22), ("digidag_disable", 23),
    ("wipe_banks", 24), ("bootloader_old", 25), ("get_banks_info", 26), ("reset_banks_info", 27),
    ("update_bank_data", 28), ("run_main_app_btl", 254)]

  const ID_WRITE_TO_PAGE: nat := 1
  const ID_RXFLUSH: nat := 2
  const ID_BOOTLOADER: nat := 11
  const ID_RUN_MAIN_APP_BTL: nat := 254

  /** The first entry of `table` with value `mId`, by name. */
  function Lookup(table: seq<(string, nat)>, mId: int): (r: Option<string>)
    ensures r.None? <==> forall k :: 0 <= k < |table| ==> table[k].1 != mId
    ensures r.Some? ==> exists k :: 0 <= k < |table| && table[k] == (r.value, mId)
  {
    if table == [] then None
    else if table[0].1 == mId then Some(table[0].0)
    else
      var r := Lookup(table[1..], mId);
      assert r.Some? ==> exists k :: 0 <= k < |table[1..]| && table[1..][k] == (r.value, mId);
      assert forall k :: 1 <= k < |table| ==> table[k] == table[1..][k - 1];
      r
  }

  /** `ID.translate_id`: the name of a message id, `None` for an unknown one. */
  function TranslateId(mId: int): (r: Option<string>)
    ensures r.Some? ==> 0 <= mId <= 28 || mId == 254
  {
    IdValues();
    Lookup(IdTable, mId)
  }

  /** The ids are 0..28 in table order, then 254. */
  lemma IdValues()
    ensures |IdTable| == 30
    ensures forall k :: 0 <= k < 29 ==> IdTable[k].1 == k
    ensures IdTable[29].1 == 254
  {
  }

  /** Every id translates to its own name, and only the table's ids translate
      at all. */
  lemma TranslateIdInverse(k: nat)
    requires k < |IdTable|
    ensures TranslateId(IdTable[k].1) == Some(IdTable[k].0)
  {
    IdValues();
    var r := TranslateId(IdTable[k].1);
    var j :| 0 <= j < |IdTable| && IdTable[j] == (r.value, IdTable[k].1);
    assert j == k;
  }

  lemma TranslateIdUnknown(mId: int)
    requires !(0 <= mId <= 28) && mId != 254
    ensures TranslateId(mId) == None
  {
    IdValues();
  }

  // ---- RxMessage ----

  /** `RxMessage.RxId`: the response ids a device tail can carry. */
  const RX_ACK: nat := 0
  const RX_NACK: nat := 1
  const RX_DTX: nat := 2
  const RX_TXT: nat := 3
  /** `len(RxMessage.rx_id_tuple)`. */
  const RX_ID_COUNT: nat := 8

  /** A received message: id, context, CRC verdict, body and length. */
  datatype RxMessage = RxMessage(id: nat, context: nat, crcResult: nat, body: seq<byte>, length: nat)

  /** `RxMessage.__set_result`: only ack, nack and dtx are accepted verdicts;
      any other value raises. */
  function SetResult(result: int): (r: Result<nat, string>)
    ensures r.Ok? <==> result == RX_ACK || result == RX_NACK || result == RX_DTX
    ensures r.Ok? ==> r.value == result
  {
    if result == RX_ACK || result == RX_NACK || result == RX_DTX then Ok(result)
    else Err("Result must be ACK 0 | NACK 1 | DTX 2")
  }

  /** `RxMessage(msg_id, context, crc_check, body, length)`. */
  function NewRxMessage(id: nat, context: nat, crcCheck: int, body: seq<byte>, length: nat): (r: Result<RxMessage, string>)
    ensures r.Ok? <==> SetResult(crcCheck).Ok?
    ensures r.Ok? ==> r.value.body == body && r.value.crcResult == crcCheck
  {
    match SetResult(crcCheck)
    case Err(e) => Err(e)
    case Ok(v) => Ok(RxMessage(id, context, v, body, length))
  }

  // ---- create_message ----

  /** The bytes of a host frame whose body has the CRC `crc`: `>`, the id,
      the context, the body length, the CRC, `<`, then the body itself. */
  function Frame(msgId: int, context: int, body: seq<byte>, crc: seq<byte>): (m: seq<byte>)
    requires 0 <= msgId <= 0xffff && 0 <= context <= 0xffff && |body| < 0x1_0000_0000
    ensures |m| == 10 + |crc| + |body|
    ensures m[0] == FRAME_START && m[9 + |crc|] == TAIL_START_MARK
    ensures m[10 + |crc|..] == body
  {
    [FRAME_START] + Uint16ToRaw(msgId) + Uint16ToRaw(context) + Uint32ToRaw(|body|)
    + crc + [TAIL_START_MARK] + body
  }

  /** A frame reads back field by field. */
  lemma FrameFields(msgId: int, context: int, body: seq<byte>, crc: seq<byte>)
    requires 0 <= msgId <= 0xffff && 0 <= context <= 0xffff && |body| < 0x1_0000_0000
    requires |crc| == 2
    ensures var m := Frame(msgId, context, body, crc);
      && |m| == |body| + 12
      && m[0] == FRAME_START
      && RawToUint16(m[1..3]) == msgId
      && RawToUint16(m[3..5]) == context
      && RawToUint32(m[5..9]) == |body|
      && m[9..11] == crc
      && m[11] == TAIL_START_MARK
      && m[12..] == body
  {
    var m := Frame(msgId, context, body, crc);
    var len := Uint32ToRaw(|body|);
    assert m[1..3] == Uint16ToRaw(msgId);
    assert m[3..5] == Uint16ToRaw(context);
    assert m[5..9] == len;
    assert m[9..11] == crc;
    assert m[12..] == body;
  }

  /** `create_message(msg_id, body, context, max_packet_size)`: fails when the
      body and a 10-byte header would exceed the limit, or when a field does
      not fit its packed width. */
  function CreateMessage(msgId: int, body: seq<byte>, context: int, maxPacketSize: int): (r: Result<seq<byte>, string>)
    ensures r.Ok? <==> |body| + HEADER_SIZE <= maxPacketSize && |body| < 0x1_0000_0000
                       && 0 <= msgId <= 0xffff && 0 <= context <= 0xffff
    ensures r.Ok? ==> |r.value| == |body| + 12
  {
    if |body| + HEADER_SIZE > maxPacketSize then Err("msg len to big")
    else if |body| >= 0x1_0000_0000 || !(0 <= msgId <= 0xffff) || !(0 <= context <= 0xffff) then Err("struct.error")
    else Ok(Frame(msgId, context, body, CrcOf(body)))
  }

  /** A host frame reads back field by field: `>`, the id, the context, the
      body length, the body's CRC, `<`, then the body itself. */
  lemma CreateMessageFields(msgId: int, body: seq<byte>, context: int, maxPacketSize: int)
    requires CreateMessage(msgId, body, context, maxPacketSize).Ok?
    ensures var m := CreateMessage(msgId, body, context, maxPacketSize).value;
      && m[0] == FRAME_START
      && RawToUint16(m[1..3]) == msgId
      && RawToUint16(m[3..5]) == context
      && RawToUint32(m[5..9]) == |body|
      && m[9..11] == CrcOf(body)
      && m[11] == TAIL_START_MARK
      && m[12..] == body
  {
    FrameFields(msgId, context, body, CrcOf(body));
  }

  // ---- MessageSender ----

  /** `MessageSender.reserved_context`: contexts a sent message never gets. */
  const RESERVED_CONTEXT: set<int> := {0, 1}

  /** The counter after one send: one on, and after the largest `Uint16`
      the first context that is not reserved. */
  function NextContext(c: Uint16): (n: Uint16)
    requires c !in RESERVED_CONTEXT
    ensures n !in RESERVED_CONTEXT
  {
    if c < 0xfffe then c + 1 else 2
  }

  /** `MessageSender`: the context counter shared by every sent message, and
      the frames handed to the transmit interface so far. In the source the
      counter is a class attribute shared by all senders; this class stands
      for that one shared counter, and its constructor gives the attribute's
      initial value. */
  class MessageSender {
    var context: Uint16
    var transmitted: seq<seq<byte>>

    ghost predicate Valid()
      reads this
    {
      context !in RESERVED_CONTEXT
    }

    /** The counter starts just above the reserved contexts. */
    constructor ()
      ensures Valid() && context == 2 && transmitted == []
    {
      context := 2;
      transmitted := [];
    }

    /** `peek_context`: one past the counter, which is not the context the
        next send returns, and after the wrap is a reserved one. */
    function PeekContext(): (n: Uint16)
      reads this
      ensures context < 0xfffe ==> n == context + 1
      ensures context == 0xfffe ==> n == 0
    {
      Add(context, 1)
    }

    /** `__send_m`: transmits `msg` and returns the counter as it was, then
        advances the counter past the reserved contexts. */
    method SendM(msg: seq<byte>) returns (c: Uint16)
      requires Valid()
      modifies this
      ensures Valid()
      ensures c == old(context) && context == NextContext(old(context))
      ensures transmitted == old(transmitted) + [msg]
    {
      c := context;
      context := Add(context, 1);
      while context in RESERVED_CONTEXT
        invariant context == Add(c, 1) || (Add(c, 1) == 0 && 1 <= context <= 2)
        invariant transmitted == old(transmitted)
        decreases 2 - context
      {
        context := Add(context, 1);
      }
      transmitted := transmitted + [msg];
    }

    /** `__send(m_id, body)`: frames `body` with the current context when an
        id is given and sends it bare otherwise; a framing error propagates
        before anything is sent or counted. */
    method Send(mId: Option<int>, body: seq<byte>) returns (r: Result<Uint16, string>)
      requires Valid()
      modifies this
      ensures Valid()
      ensures mId.Some? ==> (r.Ok? <==> CreateMessage(mId.value, body, old(context), MAX_PACKET_SIZE).Ok?)
      ensures mId.None? ==> r.Ok?
      ensures r.Err? ==> context == old(context) && transmitted == old(transmitted)
      ensures r.Ok? ==> r.value == old(context) && context == NextContext(old(context))
      ensures r.Ok? && mId.None? ==> transmitted == old(transmitted) + [body]
      ensures r.Ok? && mId.Some? ==>
        transmitted == old(transmitted) + [CreateMessage(mId.value, body, old(context), MAX_PACKET_SIZE).value]
    {
      var msg := body;
      if mId.Some? {
        var framed := CreateMessage(mId.value, body, context, MAX_PACKET_SIZE);
        if framed.Err? {
          return Err(framed.error);
        }
        msg := framed.value;
      }
      var c := SendM(msg);
      r := Ok(c);
    }
  }

  /** `n` sends from context `c` leave the counter `n` steps along the cycle
      `2..0xfffe`, so no context repeats within 0xfffd sends. */
  function Advance(c: Uint16, n: nat): (r: Uint16)
    requires c !in RESERVED_CONTEXT
    ensures r !in RESERVED_CONTEXT
    decreases n
  {
    if n == 0 then c else Advance(NextContext(c), n - 1)
  }

  lemma {:induction false} AdvanceCycle(c: Uint16, n: nat)
    requires c !in RESERVED_CONTEXT
    ensures Advance(c, n) == 2 + (c - 2 + n) % 0xfffd
    decreases n
  {
    if n == 0 {
    } else {
      var next := NextContext(c);
      AdvanceCycle(next, n - 1);
      NextContextCycle(c);
      CycleStep(c, n, next);
    }
  }

  lemma CycleStep(c: int, n: nat, next: int)
    requires 2 <= c && n >= 1 && next - 2 == (c - 1) % 0xfffd
    ensures (next - 2 + (n - 1)) % 0xfffd == (c - 2 + n) % 0xfffd
  {
    var x := (c - 1) % 0xfffd;
    assert next - 2 + (n - 1) == x + (n - 1);
    ModShift(c - 1, n - 1);
    assert (c - 1) + (n - 1) == c - 2 + n;
  }

  lemma NextContextCycle(c: Uint16)
    requires c !in RESERVED_CONTEXT
    ensures NextContext(c) - 2 == (c - 1) % 0xfffd
  {
    if c == 0xfffe {
      assert (c - 1) % 0xfffd == 0;
    }
  }

  lemma ModShift(a: nat, b: nat)
    ensures ((a % 0xfffd) + b) % 0xfffd == (a + b) % 0xfffd
  {
    var q := a / 0xfffd;
    assert a == 0xfffd * q + a % 0xfffd;
    assert a + b == 0xfffd * q + (a % 0xfffd + b);
    ModOffset(a % 0xfffd + b, q);
  }

  lemma ModOffset(x: nat, q: nat)
    ensures (0xfffd * q + x) % 0xfffd == x % 0xfffd
  {
    if q > 0 {
      ModOffset(x, q - 1);
      assert 0xfffd * q + x == 0xfffd * (q - 1) + x + 0xfffd;
    }
  }

  // ---- MessageReceiver ----

  /** What `check_tail` returns for a tail it accepts: the fields it unpacked
      and the positions of the `<` and `>` marks. */
  datatype Tail = Tail(id: nat, context: nat, msgLen: nat, bodyCrc: seq<byte>, start: int, end: int)

  /** The outcome of one pass of the `check_tail` loop. `Stop` ends the
      search with `False` (an `IndexError` or a `struct.error`); `Skip` goes
      on with the same buffer; `Reject` goes on with the buffer cut at the
      current search position; `Accept` returns the tail. */
  datatype Candidate = Stop | Skip | Reject(shifted: seq<byte>) | Accept(tail: Tail)

  /** The fields of a tail window `w`, which runs from `<` through the
      tail's CRC: id, context and body length unpacked, the body CRC as its
      two bytes, and the marks' positions once `w` is placed at `start`. */
  function TailFields(w: seq<byte>, start: int): (t: Tail)
    requires |w| >= TAIL_LEN
    ensures t.start == start && t.end == start + TAIL_LEN - 1
    ensures t.id <= 0xffff && t.context <= 0xffff && t.msgLen <= 0xffff && |t.bodyCrc| == 2
  {
    Tail(RawToUint16(w[1..3]), RawToUint16(w[3..5]), RawToUint16(w[5..7]), w[7..9], start, start + TAIL_LEN - 1)
  }

  /** The checks `check_tail` makes on a window that ends in `>` at its
      tenth byte: an id `RxMessage` knows, a body length below the frame
      limit and below what is buffered, a context below 0xffff, and the two
      bytes after `>` equal to the CRC of the ten tail bytes. */
  predicate TailAccepted(w: seq<byte>, available: nat)
    requires |w| >= TAIL_LEN
    ensures TailAccepted(w, available) ==> |w| == TAIL_LEN + 2 && available > 0
  {
    var t := TailFields(w, 0);
    t.id < RX_ID_COUNT && t.msgLen < MAX_PACKET_SIZE && t.context < 0xffff
    && available > t.msgLen && w[TAIL_LEN..] == CrcOf(w[..TAIL_LEN])
  }

  /** `s` holds a tail `t` that `check_tail` accepts: `<` at `t.start`, `>`
      nine bytes on, the fields between, the tail's CRC after it, and every
      check passed. */
  ghost predicate TailAt(s: seq<byte>, t: Tail, available: nat)
  {
    0 <= t.start && t.start + TAIL_LEN + 2 <= |s|
    && var w := s[t.start..t.start + TAIL_LEN + 2];
    w[0] == TAIL_START_MARK && w[TAIL_LEN - 1] == TAIL_END_MARK
    && TailAccepted(w, available) && t == TailFields(w, t.start)
  }

  /** One pass of the `check_tail` loop at search position `latest`. The
      window runs from the first `<` of the suffix for twelve bytes, or to
      the end of the suffix. */
  function Examine(buff: seq<byte>, available: nat, latest: int): (c: Candidate)
    requires latest >= -1
    ensures c.Accept? ==> 0 <= c.tail.start && c.tail.end == c.tail.start + TAIL_LEN - 1
                          && c.tail.end + TAIL_CRC_SHIFT_POS <= |buff|
    ensures c.Reject? ==> 0 <= latest <= |buff| && c.shifted == buff[latest..]
  {
    var suffix := SliceFrom(buff, latest);
    var tsp := Find(suffix, TAIL_START_MARK);
    var tep := tsp + TAIL_LEN - 1;
    if tep >= |suffix| then Stop
    else if suffix[tep] != TAIL_END_MARK then Skip
    else if tsp < 0 then Stop
    else
      var w := suffix[tsp..if tsp + TAIL_LEN + 2 <= |suffix| then tsp + TAIL_LEN + 2 else |suffix|];
      if TailAccepted(w, available) then
        assert 0 <= latest && suffix == buff[latest..];
        Accept(TailFields(w, tsp + latest))
      else Reject(suffix)
  }

  /** `check_tail` accepts a candidate only when every check holds. */
  lemma ExamineAccepts(buff: seq<byte>, available: nat, latest: int)
    requires latest >= -1 && Examine(buff, available, latest).Accept?
    ensures TailAt(buff, Examine(buff, available, latest).tail, available)
  {
    var suffix := SliceFrom(buff, latest);
    var tsp := Find(suffix, TAIL_START_MARK);
    AcceptedWindow(buff, available, latest);
    var p := tsp + latest;
    assert suffix[tsp..tsp + TAIL_LEN + 2] == buff[p..p + TAIL_LEN + 2];
  }

  /** The window an accepted pass unpacks, within the suffix it searched. */
  lemma AcceptedWindow(buff: seq<byte>, available: nat, latest: int)
    requires latest >= -1 && Examine(buff, available, latest).Accept?
    ensures var suffix := SliceFrom(buff, latest);
      var tsp := Find(suffix, TAIL_START_MARK);
      && 0 <= latest <= |buff| && suffix == buff[latest..]
      && 0 <= tsp && tsp + TAIL_LEN + 2 <= |suffix|
      && var w := suffix[tsp..tsp + TAIL_LEN + 2];
      && w[0] == TAIL_START_MARK && w[TAIL_LEN - 1] == TAIL_END_MARK
      && TailAccepted(w, available)
      && Examine(buff, available, latest).tail == TailFields(w, tsp + latest)
  {
  }

  /** The slices `check_tail` unpacks, the way the host language takes
      them: empty fields when the suffix holds no `<`, the window's bytes
      otherwise. */
  lemma CandidateSlices(suffix: seq<byte>, tsp: int)
    requires -1 <= tsp && tsp + TAIL_LEN - 1 < |suffix|
    ensures tsp < 0 ==> Slice(Slice(suffix, tsp, tsp + TAIL_LEN - 1), 1, 3) == []
    ensures tsp >= 0 ==>
      var tail, w := Slice(suffix, tsp, tsp + TAIL_LEN - 1),
                     suffix[tsp..if tsp + TAIL_LEN + 2 <= |suffix| then tsp + TAIL_LEN + 2 else |suffix|];
      && Slice(tail, 1, 3) == w[1..3] && Slice(tail, 3, 5) == w[3..5]
      && Slice(tail, 5, 7) == w[5..7] && Slice(tail, 7, 9) == w[7..9]
      && Slice(suffix, tsp, tsp + TAIL_LEN) == w[..TAIL_LEN]
      && Slice(suffix, tsp + TAIL_LEN, tsp + TAIL_LEN - 1 + TAIL_CRC_SHIFT_POS) == w[TAIL_LEN..]
  {
    var tail := Slice(suffix, tsp, tsp + TAIL_LEN - 1);
    if tsp < 0 {
      assert |tail| == 0;
    } else {
      var w := suffix[tsp..if tsp + TAIL_LEN + 2 <= |suffix| then tsp + TAIL_LEN + 2 else |suffix|];
      assert tail == w[..TAIL_LEN - 1];
    }
  }

  /** The `check_tail` loop from pass `i` on, over the buffer as the earlier
      passes left it: `count` passes in all, pass `i` searching from
      `i + initFind`. */
  function Scan(buff: seq<byte>, available: nat, initFind: int, count: int, i: nat): (r: Option<Tail>)
    requires initFind >= -1
    ensures r.Some? ==> 0 <= r.value.start && r.value.end == r.value.start + TAIL_LEN - 1
                        && r.value.end + TAIL_CRC_SHIFT_POS <= |buff|
    decreases count - i
  {
    if i >= count then None
    else match Examine(buff, available, i + initFind)
      case Stop => None
      case Skip => Scan(buff, available, initFind, count, i + 1)
      case Reject(shifted) => Scan(shifted, available, initFind, count, i + 1)
      case Accept(t) => Some(t)
  }

  /** One pass of the scan decides it or hands it on to the next pass. */
  lemma ScanStep(buff: seq<byte>, available: nat, initFind: int, count: int, i: nat)
    requires initFind >= -1 && i < count
    ensures var c := Examine(buff, available, i + initFind);
      && (c.Stop? ==> Scan(buff, available, initFind, count, i) == None)
      && (c.Skip? ==> Scan(buff, available, initFind, count, i) == Scan(buff, available, initFind, count, i + 1))
      && (c.Reject? ==> Scan(buff, available, initFind, count, i) == Scan(c.shifted, available, initFind, count, i + 1))
      && (c.Accept? ==> Scan(buff, available, initFind, count, i) == Some(c.tail))
  {
  }

  /** `check_tail(peek_buff)` with `available()` standing for the ring
      buffer's count: `None` stands for `False`. */
  function CheckTailSpec(peek: seq<byte>, available: nat): (r: Option<Tail>)
    ensures r.Some? ==> 0 <= r.value.start && r.value.end == r.value.start + TAIL_LEN - 1
                        && r.value.end + TAIL_CRC_SHIFT_POS <= |peek|
  {
    var initFind := Find(peek, TAIL_START_MARK);
    Scan(peek, available, initFind, |peek| - TAIL_LEN + initFind, 0)
  }

  /** How far the rejected candidates have cut the buffer by pass `i` of
      the scan, when it ends. */
  ghost function Shift(buff: seq<byte>, available: nat, initFind: int, count: int, i: nat): (r: nat)
    requires initFind >= -1
    ensures r <= |buff|
    decreases count - i
  {
    if i >= count then 0
    else match Examine(buff, available, i + initFind)
      case Skip => Shift(buff, available, initFind, count, i + 1)
      case Reject(shifted) => (i + initFind) + Shift(shifted, available, initFind, count, i + 1)
      case _ => 0
  }

  /** Every tail the scan returns is a complete, accepted tail of the buffer
      it was handed, once cut by the rejected candidates before it. */
  lemma {:induction false} ScanSound(buff: seq<byte>, available: nat, initFind: int, count: int, i: nat)
    requires initFind >= -1
    requires Scan(buff, available, initFind, count, i).Some?
    ensures TailAt(buff[Shift(buff, available, initFind, count, i)..], Scan(buff, available, initFind, count, i).value, available)
    decreases count - i
  {
    match Examine(buff, available, i + initFind)
    case Accept(_) =>
      AcceptedHere(buff, available, initFind, count, i);
    case Skip =>
      ScanSound(buff, available, initFind, count, i + 1);
    case Reject(shifted) =>
      ScanSound(shifted, available, initFind, count, i + 1);
      AcceptedLater(buff, available, initFind, count, i);
  }

  lemma AcceptedHere(buff: seq<byte>, available: nat, initFind: int, count: int, i: nat)
    requires initFind >= -1 && i < count
    requires Examine(buff, available, i + initFind).Accept?
    ensures TailAt(buff[Shift(buff, available, initFind, count, i)..], Scan(buff, available, initFind, count, i).value, available)
  {
    ExamineAccepts(buff, available, i + initFind);
    assert buff[0..] == buff;
  }

  lemma AcceptedLater(buff: seq<byte>, available: nat, initFind: int, count: int, i: nat)
    requires initFind >= -1 && i < count
    requires Examine(buff, available, i + initFind).Reject?
    requires Scan(buff, available, initFind, count, i).Some?
    requires var shifted := Examine(buff, available, i + initFind).shifted;
      TailAt(shifted[Shift(shifted, available, initFind, count, i + 1)..], Scan(shifted, available, initFind, count, i + 1).value, available)
    ensures TailAt(buff[Shift(buff, available, initFind, count, i)..], Scan(buff, available, initFind, count, i).value, available)
  {
    var shifted := Examine(buff, available, i + initFind).shifted;
    var k := Shift(shifted, available, initFind, count, i + 1);
    ScanStep(buff, available, initFind, count, i);
    assert Shift(buff, available, initFind, count, i) == i + initFind + k;
    assert shifted[k..] == buff[i + initFind + k..];
  }

  /** What `check_tail` returns is an accepted tail: of the buffer itself
      when no candidate was rejected before it, of a suffix otherwise. */
  lemma CheckTailSound(peek: seq<byte>, available: nat)
    requires CheckTailSpec(peek, available).Some?
    ensures var initFind := Find(peek, TAIL_START_MARK);
      TailAt(peek[Shift(peek, available, initFind, |peek| - TAIL_LEN + initFind, 0)..], CheckTailSpec(peek, available).value, available)
  {
    var initFind := Find(peek, TAIL_START_MARK);
    ScanSound(peek, available, initFind, |peek| - TAIL_LEN + initFind, 0);
  }

  /** The message `get_message` returns for an accepted tail `t`: the bytes
      before `t.start` as the body, returned only when they match the tail's
      body CRC. A message that fails is built as a nack and dropped. */
  function DeliverTail(contents: seq<byte>, t: Tail): (m: Option<RxMessage>)
    requires 0 <= t.start <= |contents|
    ensures m.Some? <==> t.bodyCrc == CrcOf(contents[..t.start])
    ensures m.Some? ==> m.value == RxMessage(t.id, t.context, RX_ACK, contents[..t.start], t.start)
  {
    var body := contents[..t.start];
    if t.bodyCrc == CrcOf(body) then Some(RxMessage(t.id, t.context, RX_ACK, body, |body|)) else None
  }

  /** `get_message` on the unread bytes `contents`: the message it returns
      and how many bytes it consumes. A tail whose body fails its CRC is
      consumed with its body and nothing is returned. */
  function Receive(contents: seq<byte>): (r: (Option<RxMessage>, nat))
    ensures r.1 <= |contents|
    ensures |contents| < TAIL_LEN ==> r == (None, 0)
    ensures CheckTailSpec(contents, |contents|).None? ==> r == (None, 0)
    ensures r.0.Some? ==> var m := r.0.value;
      && m.crcResult == RX_ACK && m.length == |m.body| && r.1 == |m.body| + TAIL_LEN + 2
      && m.body == contents[..|m.body|] && m.id < RX_ID_COUNT && m.context < 0xffff
  {
    if |contents| < TAIL_LEN then (None, 0)
    else match CheckTailSpec(contents, |contents|)
      case None => (None, 0)
      case Some(t) =>
        CheckTailSound(contents, |contents|);
        (DeliverTail(contents, t), t.end + 1 + 2)
  }

  /** Once `check_tail` accepts `t`, `get_message` consumes through the
      tail's CRC and delivers what `DeliverTail` says. */
  lemma ReceiveAccepted(contents: seq<byte>, t: Tail)
    requires |contents| >= TAIL_LEN && CheckTailSpec(contents, |contents|) == Some(t)
    ensures 0 <= t.start && t.end == t.start + TAIL_LEN - 1 && t.end + TAIL_CRC_SHIFT_POS <= |contents|
    ensures Receive(contents) == (DeliverTail(contents, t), t.end + 1 + 2)
  {
  }

  /** Without any `<` in the buffer, `check_tail` finds nothing: its first
      pass searches only the last byte and runs off the end. */
  lemma NoStartMark(peek: seq<byte>, available: nat)
    requires forall j :: 0 <= j < |peek| ==> peek[j] != TAIL_START_MARK
    ensures CheckTailSpec(peek, available) == None
  {
    var count := |peek| - TAIL_LEN - 1;
    if count > 0 {
      assert |SliceFrom(peek, -1)| == 1;
      assert Examine(peek, available, -1) == Stop;
    }
  }

  /** The tail a device appends to `body`: `<`, id, context, body length,
      body CRC, `>`. */
  function DeviceTail(id: nat, context: nat, body: seq<byte>): (t: seq<byte>)
    requires id <= 0xffff && context <= 0xffff && |body| <= 0xffff
    ensures |t| == TAIL_LEN && t[0] == TAIL_START_MARK && t[TAIL_LEN - 1] == TAIL_END_MARK
  {
    [TAIL_START_MARK] + Uint16ToRaw(id) + Uint16ToRaw(context) + Uint16ToRaw(|body|) + CrcOf(body) + [TAIL_END_MARK]
  }

  /** A device frame: the body, its tail, and the tail's CRC. */
  function DeviceFrame(id: nat, context: nat, body: seq<byte>): (f: seq<byte>)
    requires id <= 0xffff && context <= 0xffff && |body| <= 0xffff
    ensures |f| == |body| + TAIL_LEN + 2
  {
    var tail := DeviceTail(id, context, body);
    body + tail + CrcOf(tail)
  }

  /** The tail window of a device frame decodes to the frame's own fields and
      passes every check once more than its body is buffered. */
  lemma DeviceTailAccepted(id: nat, context: nat, body: seq<byte>, available: nat)
    requires id < RX_ID_COUNT && context < 0xffff && |body| < MAX_PACKET_SIZE && available > |body|
    ensures var tail := DeviceTail(id, context, body);
      var w := tail + CrcOf(tail);
      TailAccepted(w, available) && TailFields(w, |body|) == Tail(id, context, |body|, CrcOf(body), |body|, |body| + TAIL_LEN - 1)
  {
    var tail := DeviceTail(id, context, body);
    var w := tail + CrcOf(tail);
    assert w[1..3] == Uint16ToRaw(id);
    assert w[3..5] == Uint16ToRaw(context);
    assert w[5..7] == Uint16ToRaw(|body|);
    assert w[7..9] == CrcOf(body);
    assert w[..TAIL_LEN] == tail;
  }

  /** Round trip: a buffer that starts with a device frame whose body holds
      no `<` yields that frame's tail from `check_tail`, and `get_message`
      returns its id, context and body as an acknowledged message and
      consumes the frame exactly, whatever follows it. */
  lemma ReceiveFrame(id: nat, context: nat, body: seq<byte>, rest: seq<byte>)
    requires id < RX_ID_COUNT && context < 0xffff && |body| < MAX_PACKET_SIZE
    requires forall j :: 0 <= j < |body| ==> body[j] != TAIL_START_MARK
    ensures var contents := DeviceFrame(id, context, body) + rest;
      && CheckTailSpec(contents, |contents|) == Some(Tail(id, context, |body|, CrcOf(body), |body|, |body| + TAIL_LEN - 1))
      && Receive(contents) == (Some(RxMessage(id, context, RX_ACK, body, |body|)), |body| + TAIL_LEN + 2)
  {
    var contents := DeviceFrame(id, context, body) + rest;
    var t := Tail(id, context, |body|, CrcOf(body), |body|, |body| + TAIL_LEN - 1);
    FrameFirstPass(id, context, body, rest);
    assert CheckTailSpec(contents, |contents|) == Some(t);
    ReceiveAccepted(contents, t);
    assert contents[..|body|] == body;
  }

  /** The first pass of the scan over a buffer that starts with a device
      frame searches from the frame's `<` and accepts its tail. */
  lemma FrameFirstPass(id: nat, context: nat, body: seq<byte>, rest: seq<byte>)
    requires id < RX_ID_COUNT && context < 0xffff && |body| < MAX_PACKET_SIZE
    requires forall j :: 0 <= j < |body| ==> body[j] != TAIL_START_MARK
    ensures var contents := DeviceFrame(id, context, body) + rest;
      && Find(contents, TAIL_START_MARK) == |body|
      && Examine(contents, |contents|, |body|) == Accept(Tail(id, context, |body|, CrcOf(body), |body|, |body| + TAIL_LEN - 1))
  {
    var tail := DeviceTail(id, context, body);
    var w := tail + CrcOf(tail);
    var contents := DeviceFrame(id, context, body) + rest;
    assert contents == body + w + rest;
    DeviceTailAccepted(id, context, body, |contents|);
    assert contents[|body|] == TAIL_START_MARK;
    assert forall j :: 0 <= j < |body| ==> contents[j] == body[j];
    var suffix := contents[|body|..];
    assert suffix == w + rest;
    assert Find(suffix, TAIL_START_MARK) == 0;
    assert suffix[..TAIL_LEN + 2] == w;
  }

  /** The cut `check_tail` makes at a rejected candidate shifts the positions
      it later returns by that candidate's search position (by their sum
      when several candidates are rejected). Here the junk
      holds a `<`...`>` pattern with an unknown id searched from index 1, so
      the frame's tail is found one byte before its real `<`, and
      `get_message` consumes one byte short of the frame and takes the junk
      as the body. */
  lemma RejectedCandidateShifts(context: nat)
    requires 2 <= context < 0xffff
    ensures var contents := ShiftJunk + DeviceFrame(0, context, []);
      && contents[|ShiftJunk|] == TAIL_START_MARK
      && CheckTailSpec(contents, |contents|).Some?
      && CheckTailSpec(contents, |contents|).value.start == |ShiftJunk| - 1
      && Receive(contents).1 == |contents| - 1
  {
    var contents := ShiftJunk + DeviceFrame(0, context, []);
    ShiftFirstPass(context);
    ShiftSecondPass(context);
    assert Scan(contents[1..], |contents|, 1, |contents| - TAIL_LEN + 1, 1).Some?;
  }

  lemma ShiftFirstPass(context: nat)
    requires 2 <= context < 0xffff
    ensures var contents := ShiftJunk + DeviceFrame(0, context, []);
      && contents[|ShiftJunk|] == TAIL_START_MARK
      && Find(contents, TAIL_START_MARK) == 1
      && Examine(contents, |contents|, 1) == Reject(contents[1..])
  {
    var contents := ShiftJunk + DeviceFrame(0, context, []);
    assert forall j :: 0 <= j < |ShiftJunk| ==> contents[j] == ShiftJunk[j];
    assert contents[0] != TAIL_START_MARK && contents[1] == TAIL_START_MARK;
    var first := contents[1..];
    assert Find(first, TAIL_START_MARK) == 0;
    assert first[..TAIL_LEN + 2][1..3] == contents[2..4];
    assert contents[2] == 0xff && contents[3] == 0xff;
  }

  lemma ShiftSecondPass(context: nat)
    requires 2 <= context < 0xffff
    ensures var contents := ShiftJunk + DeviceFrame(0, context, []);
      var tail := DeviceTail(0, context, []);
      Examine(contents[1..], |contents|, 2) == Accept(TailFields(tail + CrcOf(tail), |ShiftJunk| - 1))
  {
    var contents := ShiftJunk + DeviceFrame(0, context, []);
    DeviceTailAccepted(0, context, [], |contents|);
    ShiftSecondFind(context);
  }

  /** The second pass searches from the third byte of the cut buffer and
      finds the frame's `<` eight bytes on, followed by the frame's tail. */
  lemma ShiftSecondFind(context: nat)
    requires 2 <= context < 0xffff
    ensures var contents := ShiftJunk + DeviceFrame(0, context, []);
      var tail := DeviceTail(0, context, []);
      var second := SliceFrom(contents[1..], 2);
      && Find(second, TAIL_START_MARK) == 8
      && second[8..8 + TAIL_LEN + 2] == tail + CrcOf(tail)
  {
    var tail := DeviceTail(0, context, []);
    var w := tail + CrcOf(tail);
    var contents := ShiftJunk + DeviceFrame(0, context, []);
    assert contents == ShiftJunk + w;
    var second := contents[1..][2..];
    assert second == contents[3..];
    assert forall j :: 0 <= j < 8 ==> second[j] == ShiftJunk[j + 3] != TAIL_START_MARK;
    assert contents[|ShiftJunk|..] == w;
    assert second[8..] == contents[|ShiftJunk|..];
    assert second[8] == TAIL_START_MARK;
    assert second[8..8 + TAIL_LEN + 2] == w;
  }

  /** Eleven bytes a device might leave before a frame: a `<`, the id
      0xffff, zeros, and a `>` nine bytes after the `<`. */
  const ShiftJunk: seq<byte> := [0x41, TAIL_START_MARK, 0xff, 0xff, 0, 0, 0, 0, 0, 0, TAIL_END_MARK]

  /** `MessageReceiver`: takes device frames out of the ring buffer the
      serial reader fills. */
  class MessageReceiver {
    var rxBuffer: CircIoBuffer

    constructor (rxBuffer: CircIoBuffer)
      ensures this.rxBuffer == rxBuffer
    {
      this.rxBuffer := rxBuffer;
    }

    /** `check_tail(peek_buff)`: searches for an accepted tail, cutting the
        buffer at the search position whenever a `<`...`>` candidate fails
        its checks. */
    method CheckTail(peekBuff: seq<byte>) returns (r: Option<Tail>)
      ensures r == CheckTailSpec(peekBuff, rxBuffer.available)
    {
      var available := rxBuffer.available;
      var initFind := Find(peekBuff, TAIL_START_MARK);
      var peekBuffLen := |peekBuff|;
      var count := peekBuffLen - TAIL_LEN + initFind;
      var buff := peekBuff;
      var i: nat := 0;
      while i < count
        invariant Scan(buff, available, initFind, count, i) == CheckTailSpec(peekBuff, available)
        decreases count - i
      {
        var done, found, next := Step(buff, available, initFind, count, i);
        if done {
          return found;
        }
        buff := next;
        i := i + 1;
      }
      return None;
    }

    /** Pass `i` of the `check_tail` loop: either it ends the search with
        `found`, or the search goes on over `next`. */
    method Step(buff: seq<byte>, available: nat, initFind: int, count: int, i: nat)
      returns (done: bool, found: Option<Tail>, next: seq<byte>)
      requires initFind >= -1 && i < count
      ensures done ==> found == Scan(buff, available, initFind, count, i)
      ensures !done ==> Scan(next, available, initFind, count, i + 1) == Scan(buff, available, initFind, count, i)
    {
      var c := Pass(buff, available, i + initFind);
      ScanStep(buff, available, initFind, count, i);
      match c {
        case Stop => return true, None, buff;
        case Skip => return false, None, buff;
        case Reject(shifted) => return false, None, shifted;
        case Accept(t) => return true, Some(t), buff;
      }
    }

    /** One pass of the `check_tail` loop: searches the buffer from
        `latestFind` for `<`, looks for `>` nine bytes on, unpacks the
        fields and checks them. */
    method Pass(buff: seq<byte>, available: nat, latestFind: int) returns (c: Candidate)
      requires latestFind >= -1
      ensures c == Examine(buff, available, latestFind)
    {
      var suffix := SliceFrom(buff, latestFind);
      var tsp := Find(suffix, TAIL_START_MARK);
      var tep := tsp + TAIL_LEN - 1;
      if tep >= |suffix| {
        return Stop;
      }
      if suffix[tep] != TAIL_END_MARK {
        return Skip;
      }
      c := Unpack(buff, available, latestFind, suffix, tsp);
    }

    /** The rest of a pass once `>` sits nine bytes after the `<` found at
        `tsp` in `suffix`: unpacks the fields and the tail's CRC and checks
        them. */
    method Unpack(buff: seq<byte>, available: nat, latestFind: int, suffix: seq<byte>, tsp: int) returns (c: Candidate)
      requires latestFind >= -1 && suffix == SliceFrom(buff, latestFind)
      requires tsp == Find(suffix, TAIL_START_MARK) && tsp + TAIL_LEN - 1 < |suffix|
      requires suffix[tsp + TAIL_LEN - 1] == TAIL_END_MARK
      ensures c == Examine(buff, available, latestFind)
    {
      var tep := tsp + TAIL_LEN - 1;
      var tail := Slice(suffix, tsp, tep);
      var fullTail := Slice(suffix, tsp, tep + 1);
      var idRaw, contextRaw, lenRaw := Slice(tail, 1, 3), Slice(tail, 3, 5), Slice(tail, 5, 7);
      CandidateSlices(suffix, tsp);
      if |idRaw| != 2 || |contextRaw| != 2 || |lenRaw| != 2 {
        return Stop;
      }
      var id, context, msgLen := RawToUint16(idRaw), RawToUint16(contextRaw), RawToUint16(lenRaw);
      var bodyCrc := Slice(tail, 7, 9);
      var tailCrc := Slice(suffix, tep + 1, tep + TAIL_CRC_SHIFT_POS);
      var fullTailCrc := Crc.Crc(fullTail);
      if id < RX_ID_COUNT && msgLen < MAX_PACKET_SIZE && context < 0xffff
         && available > msgLen && tailCrc == fullTailCrc {
        return Accept(Tail(id, context, msgLen, bodyCrc, tsp + latestFind, tep + latestFind));
      }
      return Reject(suffix);
    }

    /** `get_message()`: with ten or more unread bytes, looks for a tail,
        consumes through its CRC and returns the message whose body passes
        its CRC check. */
    method GetMessage() returns (m: Option<RxMessage>)
      requires rxBuffer.Valid()
      modifies rxBuffer
      ensures rxBuffer.Valid()
      ensures rxBuffer.data == old(rxBuffer.data) && rxBuffer.limit == old(rxBuffer.limit)
      ensures rxBuffer.tail == old(rxBuffer.tail) && rxBuffer.writeLocked == old(rxBuffer.writeLocked)
      ensures m == Receive(old(rxBuffer.Contents)).0
      ensures rxBuffer.Contents == old(rxBuffer.Contents)[Receive(old(rxBuffer.Contents)).1..]
    {
      ghost var contents := rxBuffer.Contents;
      m := None;
      if rxBuffer.Available() < TAIL_LEN {
        assert Receive(contents) == (None, 0);
        return;
      }
      var peekBuff := rxBuffer.Peek(None);
      assert peekBuff == contents;
      var tailResult := CheckTail(peekBuff);
      if tailResult.None? {
        assert Receive(contents) == (None, 0);
        return;
      }
      ReceiveAccepted(contents, tailResult.value);
      m := Consume(tailResult.value);
    }

    /** The part of `get_message` after a tail was accepted: reads through
        the tail's CRC, cuts the body before `<` and checks its CRC. */
    method Consume(t: Tail) returns (m: Option<RxMessage>)
      requires rxBuffer.Valid() && 0 <= t.start && t.end == t.start + TAIL_LEN - 1
      requires t.end + TAIL_CRC_SHIFT_POS <= |rxBuffer.Contents|
      modifies rxBuffer
      ensures rxBuffer.Valid()
      ensures rxBuffer.data == old(rxBuffer.data) && rxBuffer.limit == old(rxBuffer.limit)
      ensures rxBuffer.tail == old(rxBuffer.tail) && rxBuffer.writeLocked == old(rxBuffer.writeLocked)
      ensures m == DeliverTail(old(rxBuffer.Contents), t)
      ensures rxBuffer.Contents == old(rxBuffer.Contents)[t.end + 1 + 2..]
    {
      ghost var contents := rxBuffer.Contents;
      var msgBody := rxBuffer.Read(Some(t.end + 1 + 2));
      msgBody := Slice(msgBody, 0, t.start);
      assert msgBody == contents[..t.start];
      var bodyCrc := Crc.Crc(msgBody);
      var crcCheck := if t.bodyCrc == bodyCrc then RX_ACK else RX_NACK;
      var rxMsg := NewRxMessage(t.id, t.context, crcCheck, msgBody, |msgBody|);
      m := None;
      if t.bodyCrc == bodyCrc {
        m := Some(rxMsg.value);
      }
    }
  }
}
