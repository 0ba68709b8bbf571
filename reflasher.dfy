/** The transfer side of the `Reflasher` window in `main.py`: cutting an image
    segment into packets, collecting device responses, the bootloader
    handshake and the packet bookkeeping of a reflash.

    Time is abstract. A wait is a sequence of polls; each poll says which
    responses the receiver stored while the host slept and whether the wait's
    timeout had passed when it woke. When the given polls run out, every
    further poll times out with nothing stored, because the clock always
    advances. */
module Reflasher {
  import opened Base
  import opened Auxiliary
  import opened Crc
  import opened CircularBuffer
  import opened MessageHandler

  /** `PACKET_SIZE`, `256 * 8`: image bytes carried by one `write_to_page` frame. */
  const PACKET_SIZE: nat := 2048

  /** The default body of `MessageSender.send`, the text `NULL`. */
  const NULL_BODY: seq<byte> := [0x4E, 0x55, 0x4C, 0x4C]

  /** The text `bootloader3` the device answers the handshake with. */
  const BOOTLOADER_REPLY: seq<byte> := [0x62, 0x6F, 0x6F, 0x74, 0x6C, 0x6F, 0x61, 0x64, 0x65, 0x72, 0x33]

  // ---- bin_segments_to_packets ----

  /** The packet at key `k`: the `PACKET_SIZE` bytes from `k * PACKET_SIZE`,
      fewer at the end of the segment. */
  function Chunk(segment: seq<byte>, k: nat): seq<byte>
  {
    Slice(segment, k * PACKET_SIZE, k * PACKET_SIZE + PACKET_SIZE)
  }

  /** The packets `bin_segments_to_packets` builds: one per multiple of
      `PACKET_SIZE` below the segment's length, keyed by its ordinal. */
  function Packetise(segment: seq<byte>): (packets: map<nat, seq<byte>>)
    ensures 0 in packets <==> |segment| > 0
    ensures forall k :: k in packets ==> 0 < |packets[k]| <= PACKET_SIZE
  {
    map k: nat | k < |segment| && k * PACKET_SIZE < |segment| :: Chunk(segment, k)
  }

  /** The first `n` chunks, keyed `0..n-1`. */
  function ChunksBelow(segment: seq<byte>, n: nat): map<nat, seq<byte>>
  {
    map k: nat | k < n :: Chunk(segment, k)
  }

  /** One more chunk extends the first `n`. */
  lemma ChunksNext(segment: seq<byte>, n: nat)
    ensures ChunksBelow(segment, n)[n := Chunk(segment, n)] == ChunksBelow(segment, n + 1)
  {
  }

  /** Once `n` chunks reach the end of the segment, and the last of them
      starts inside it, they are all the packets. */
  lemma ChunksComplete(segment: seq<byte>, n: nat)
    requires |segment| <= n * PACKET_SIZE < |segment| + PACKET_SIZE
    ensures ChunksBelow(segment, n) == Packetise(segment)
  {
    forall k: nat
      ensures k in ChunksBelow(segment, n) <==> k in Packetise(segment)
    {
      if k < n {
        assert k * PACKET_SIZE <= (n - 1) * PACKET_SIZE;
      } else {
        assert k * PACKET_SIZE >= n * PACKET_SIZE;
      }
    }
  }

  /** The keys are exactly `0..n-1` with `n` the segment's length divided by
      `PACKET_SIZE` and rounded up; an empty segment gives no packets. */
  lemma PacketKeys(segment: seq<byte>)
    ensures forall k: nat :: k in Packetise(segment) <==> k < (|segment| + PACKET_SIZE - 1) / PACKET_SIZE
    ensures |segment| == 0 ==> Packetise(segment) == map[]
  {
    var len := |segment|;
    var q := (len + PACKET_SIZE - 1) / PACKET_SIZE;
    var r := (len + PACKET_SIZE - 1) % PACKET_SIZE;
    assert len + PACKET_SIZE - 1 == q * PACKET_SIZE + r;
    forall k: nat
      ensures k in Packetise(segment) <==> k < q
    {
      if k < q {
        assert k * PACKET_SIZE <= q * PACKET_SIZE - PACKET_SIZE;
      } else {
        assert k * PACKET_SIZE >= q * PACKET_SIZE;
      }
    }
  }

  /** Every packet is the run of the segment at its offset, holds between one
      and `PACKET_SIZE` bytes, and is full unless it is the last one. */
  lemma PacketSizes(segment: seq<byte>, k: nat)
    requires k in Packetise(segment)
    ensures var p := Packetise(segment)[k];
      && 0 < |p| <= PACKET_SIZE
      && p == segment[k * PACKET_SIZE..k * PACKET_SIZE + |p|]
      && (k + 1 in Packetise(segment) ==> |p| == PACKET_SIZE)
  {
  }

  /** The packets `0..n-1` joined in key order. */
  function Join(packets: map<nat, seq<byte>>, n: nat): seq<byte>
    requires forall k: nat :: k < n ==> k in packets
  {
    if n == 0 then [] else Join(packets, n - 1) + packets[n - 1]
  }

  /** The first `n` chunks joined give the segment up to `n` packets' worth. */
  lemma {:induction false} JoinPrefix(segment: seq<byte>, p: map<nat, seq<byte>>, n: nat)
    requires n == 0 || (n - 1) * PACKET_SIZE < |segment|
    requires forall k: nat :: k < n ==> k in p && p[k] == Chunk(segment, k)
    ensures Join(p, n) == segment[..if n * PACKET_SIZE < |segment| then n * PACKET_SIZE else |segment|]
  {
    if n > 0 {
      JoinPrefix(segment, p, n - 1);
      var lo := (n - 1) * PACKET_SIZE;
      var hi := if n * PACKET_SIZE < |segment| then n * PACKET_SIZE else |segment|;
      assert p[n - 1] == segment[lo..hi];
      assert segment[..lo] + segment[lo..hi] == segment[..hi];
    }
  }

  /** Joining all the packets in key order gives back the segment. */
  lemma PacketsJoin(segment: seq<byte>)
    ensures var n := (|segment| + PACKET_SIZE - 1) / PACKET_SIZE;
      (forall k: nat :: k < n ==> k in Packetise(segment))
      && Join(Packetise(segment), n) == segment
  {
    var n := (|segment| + PACKET_SIZE - 1) / PACKET_SIZE;
    PacketKeys(segment);
    assert n * PACKET_SIZE >= |segment|;
    JoinPrefix(segment, Packetise(segment), n);
  }

  /** A `write_to_page` frame for a packet fits the frame limit: the 2-byte
      index, at most `PACKET_SIZE` image bytes and the 10-byte header stay
      within `MAX_PACKET_SIZE`, and the frame carries the index and the packet
      as its body. */
  lemma PacketFrameFits(segment: seq<byte>, k: nat, context: Uint16)
    requires k in Packetise(segment) && k <= 0xffff
    ensures var body := Uint16ToRaw(k) + Packetise(segment)[k];
      var m := CreateMessage(ID_WRITE_TO_PAGE, body, context, MAX_PACKET_SIZE);
      m.Ok? && m.value[12..] == body && RawToUint16(m.value[12..14]) == k
  {
    PacketSizes(segment, k);
    var body := Uint16ToRaw(k) + Packetise(segment)[k];
    CreateMessageFields(ID_WRITE_TO_PAGE, body, context, MAX_PACKET_SIZE);
    var m := CreateMessage(ID_WRITE_TO_PAGE, body, context, MAX_PACKET_SIZE).value;
    assert m[12..14] == body[..2] == Uint16ToRaw(k);
  }

  // ---- the response store ----

  /** `rx_message_buffer[msg.context] = msg` for each message in turn. */
  function Store(buffer: map<nat, RxMessage>, msgs: seq<RxMessage>): (r: map<nat, RxMessage>)
    ensures buffer.Keys <= r.Keys
    ensures msgs != [] ==> msgs[|msgs| - 1].context in r && r[msgs[|msgs| - 1].context] == msgs[|msgs| - 1]
  {
    if msgs == [] then buffer
    else Store(buffer, msgs[..|msgs| - 1])[msgs[|msgs| - 1].context := msgs[|msgs| - 1]]
  }

  /** Storing one more message. */
  lemma StoreNext(buffer: map<nat, RxMessage>, msgs: seq<RxMessage>, m: RxMessage)
    ensures Store(buffer, msgs + [m]) == Store(buffer, msgs)[m.context := m]
  {
    assert (msgs + [m])[..|msgs|] == msgs;
  }

  /** The stored contexts are the earlier ones plus those of the messages. */
  lemma {:induction false} StoreKeys(buffer: map<nat, RxMessage>, msgs: seq<RxMessage>, c: nat)
    ensures c in Store(buffer, msgs) <==> c in buffer || exists i :: 0 <= i < |msgs| && msgs[i].context == c
  {
    if msgs != [] {
      var init := msgs[..|msgs| - 1];
      StoreKeys(buffer, init, c);
      if exists i :: 0 <= i < |msgs| && msgs[i].context == c {
        var i :| 0 <= i < |msgs| && msgs[i].context == c;
        if i < |msgs| - 1 {
          assert init[i].context == c;
        }
      }
      if exists i :: 0 <= i < |init| && init[i].context == c {
        var i :| 0 <= i < |init| && init[i].context == c;
        assert msgs[i].context == c;
      }
    }
  }

  /** Each context holds the last message that carried it; a context no
      message carried keeps its earlier entry. */
  lemma {:induction false} StoreLatest(buffer: map<nat, RxMessage>, msgs: seq<RxMessage>, i: nat)
    requires i < |msgs|
    requires forall j :: i < j < |msgs| ==> msgs[j].context != msgs[i].context
    ensures msgs[i].context in Store(buffer, msgs)
    ensures Store(buffer, msgs)[msgs[i].context] == msgs[i]
  {
    if i < |msgs| - 1 {
      StoreLatest(buffer, msgs[..|msgs| - 1], i);
    }
  }

  lemma {:induction false} StoreUntouched(buffer: map<nat, RxMessage>, msgs: seq<RxMessage>, c: nat)
    requires c in buffer
    requires forall j :: 0 <= j < |msgs| ==> msgs[j].context != c
    ensures c in Store(buffer, msgs) && Store(buffer, msgs)[c] == buffer[c]
  {
    if msgs != [] {
      StoreUntouched(buffer, msgs[..|msgs| - 1], c);
    }
  }

  // ---- retrieve_messages ----

  /** The messages `get_message` hands out, one call after another, until it
      returns nothing, and the bytes left unread then. */
  function Drain(contents: seq<byte>): (r: (seq<RxMessage>, seq<byte>))
    ensures |r.1| <= |contents| && r.1 == contents[|contents| - |r.1|..]
    decreases |contents|
  {
    var (m, used) := Receive(contents);
    if m.None? then ([], contents[used..])
    else
      var rest := Drain(contents[used..]);
      ([m.value] + rest.0, rest.1)
  }

  /** One call of `get_message` ahead of the rest of the drain; a call that
      returns a message consumes bytes. */
  lemma DrainStep(contents: seq<byte>, m: Option<RxMessage>, rest: seq<byte>)
    requires m == Receive(contents).0 && rest == contents[Receive(contents).1..]
    ensures m.None? ==> Drain(contents) == ([], rest)
    ensures m.Some? ==> |rest| < |contents| && Drain(contents) == ([m.value] + Drain(rest).0, Drain(rest).1)
  {
  }

  /** The drain seen after one more message was handed out. */
  lemma DrainMore(total: (seq<RxMessage>, seq<byte>), got: seq<RxMessage>, before: seq<byte>, m: RxMessage, after: seq<byte>)
    requires total == (got + Drain(before).0, Drain(before).1)
    requires Drain(before) == ([m] + Drain(after).0, Drain(after).1)
    ensures total == ((got + [m]) + Drain(after).0, Drain(after).1)
  {
    assert got + ([m] + Drain(after).0) == (got + [m]) + Drain(after).0;
  }

  /** The drain once `get_message` hands out nothing more. */
  lemma DrainDone(total: (seq<RxMessage>, seq<byte>), got: seq<RxMessage>, before: seq<byte>, after: seq<byte>)
    requires total == (got + Drain(before).0, Drain(before).1)
    requires Drain(before) == ([], after)
    ensures total == (got, after)
  {
    assert got + [] == got;
  }

  /** The messages drained come from the front of the buffer, each body
      followed by its 12 bytes of tail and CRC, so nothing is invented. */
  lemma {:induction false} DrainConsumes(contents: seq<byte>)
    ensures |Drain(contents).1| + TotalLength(Drain(contents).0) <= |contents|
    decreases |contents|
  {
    var (m, used) := Receive(contents);
    if m.Some? {
      DrainConsumes(contents[used..]);
    }
  }

  /** The bytes the messages occupy on the wire: each body plus its tail and
      the tail's CRC. */
  function TotalLength(msgs: seq<RxMessage>): nat
  {
    if msgs == [] then 0 else |msgs[0].body| + TAIL_LEN + 2 + TotalLength(msgs[1..])
  }

  /** A poll of a wait: the responses the receiver stored while the host
      slept, and whether the wait's timeout had passed on waking. */
  datatype Poll = Poll(arrived: seq<RxMessage>, timedOut: bool)

  /** The next poll; past the given ones the timeout has passed. */
  function NextPoll(polls: seq<Poll>): Poll
  {
    if polls == [] then Poll([], true) else polls[0]
  }

  function AfterPoll(polls: seq<Poll>): seq<Poll>
  {
    if polls == [] then [] else polls[1..]
  }

  // ---- waiting for a response ----

  /** Some stored response has exactly the body `bootloader3`. */
  predicate Answered(buffer: map<nat, RxMessage>)
  {
    exists c :: c in buffer && buffer[c].body == BOOTLOADER_REPLY
  }

  /** What a wait is for: the handshake reply (`None`) or the response with a
      given context. */
  predicate Arrived(buffer: map<nat, RxMessage>, target: Option<nat>)
  {
    match target
    case None => Answered(buffer)
    case Some(context) => context in buffer
  }

  /** Where a wait ends: the responses stored by then, the polls left and
      whether it ended by timing out. */
  datatype Wait = Wait(buffer: map<nat, RxMessage>, polls: seq<Poll>, timedOut: bool)

  /** The polling loops of `test_connection_with_req` and `reflash`: while
      the target has not arrived, sleep one poll, storing what arrives, and
      stop once the timeout has passed, without looking at what the last poll
      stored. */
  function Waited(buffer: map<nat, RxMessage>, polls: seq<Poll>, target: Option<nat>): (w: Wait)
    ensures buffer.Keys <= w.buffer.Keys
    ensures Arrived(buffer, target) ==> w == Wait(buffer, polls, false)
    decreases |polls|
  {
    if Arrived(buffer, target) then Wait(buffer, polls, false)
    else
      var poll := NextPoll(polls);
      var stored := Store(buffer, poll.arrived);
      if poll.timedOut then Wait(stored, AfterPoll(polls), true)
      else Waited(stored, AfterPoll(polls), target)
  }

  /** A wait that did not time out found its target, and a wait never gives
      back polls it did not have. */
  lemma {:induction false} WaitOutcome(buffer: map<nat, RxMessage>, polls: seq<Poll>, target: Option<nat>)
    ensures var w := Waited(buffer, polls, target);
      && (!w.timedOut ==> Arrived(w.buffer, target))
      && |w.polls| <= |polls|
    decreases |polls|
  {
    if !Arrived(buffer, target) {
      var poll := NextPoll(polls);
      if !poll.timedOut {
        WaitOutcome(Store(buffer, poll.arrived), AfterPoll(polls), target);
      }
    }
  }

  // ---- test_connection_with_req ----

  /** Where the handshake ends: whether it succeeded, the responses stored by
      then and how many requests it had sent after the first. */
  datatype Handshake = Handshake(ok: bool, buffer: map<nat, RxMessage>, resends: nat)

  /** The handshake with `retx` retries left, `resends` requests already sent
      after the first: it succeeds when a wait for the reply ends before its
      timeout; after a timeout it sends the request again and uses up a retry,
      and it gives up once none are left. */
  function HandshakeFrom(buffer: map<nat, RxMessage>, polls: seq<Poll>, retx: nat, resends: nat): (h: Handshake)
    ensures buffer.Keys <= h.buffer.Keys
    ensures retx == 0 ==> !h.ok && h.buffer == buffer
    decreases retx
  {
    if retx == 0 then Handshake(false, buffer, resends)
    else
      var w := Waited(buffer, polls, None);
      if !w.timedOut then Handshake(true, w.buffer, resends)
      else HandshakeFrom(w.buffer, w.polls, retx - 1, resends + 1)
  }

  /** The handshake sends at most one request per retry; it succeeds only
      with the reply stored, and fails only after every retry was sent. */
  lemma {:induction false} HandshakeBounds(buffer: map<nat, RxMessage>, polls: seq<Poll>, retx: nat, resends: nat)
    ensures var h := HandshakeFrom(buffer, polls, retx, resends);
      && resends <= h.resends <= resends + retx
      && (h.ok ==> Answered(h.buffer))
      && (!h.ok ==> h.resends == resends + retx)
    decreases retx
  {
    if retx > 0 {
      var w := Waited(buffer, polls, None);
      WaitOutcome(buffer, polls, None);
      if w.timedOut {
        HandshakeBounds(w.buffer, w.polls, retx - 1, resends + 1);
      }
    }
  }

  /** `test_connection_with_req` sends at most four bootloader requests, one
      and three retries; it returns true only when a stored response's body
      is exactly `bootloader3`, and false only after all four were sent. */
  lemma HandshakeRequests(polls: seq<Poll>)
    ensures var h := HandshakeFrom(map[], polls, 3, 0);
      && 1 + h.resends <= 4
      && (h.ok ==> exists c :: c in h.buffer && h.buffer[c].body == BOOTLOADER_REPLY)
      && (!h.ok ==> 1 + h.resends == 4)
  {
    HandshakeBounds(map[], polls, 3, 0);
  }

  /** The CRC-16/XMODEM of the default body, packed: the register 0xb811. */
  const NULL_CRC: seq<byte> := [0x11, 0xb8]

  lemma NullBodyCrc()
    ensures CrcOf(NULL_BODY) == NULL_CRC
  {
    assert Step(0, 0x4E) == 0xa90a;
    assert Step(0xa90a, 0x55) == 0x2493;
    assert Step(0x2493, 0x4C) == 0x7eae;
    assert Step(0x7eae, 0x4C) == 0xb811;
    assert Register(0, NULL_BODY) == Register(0xa90a, [0x55, 0x4C, 0x4C]);
    assert Register(0xa90a, [0x55, 0x4C, 0x4C]) == Register(0x2493, [0x4C, 0x4C]);
    assert Register(0x2493, [0x4C, 0x4C]) == Register(0x7eae, [0x4C]);
    assert Register(0x7eae, [0x4C]) == Register(0xb811, []);
  }

  /** The request frame `send(id)` builds with context `c`: the id and the
      default body. */
  function Request(id: nat, c: Uint16): (m: seq<byte>)
    requires id <= 0xffff
    ensures |m| == 12 + |NULL_BODY| && m[0] == FRAME_START && m[12..] == NULL_BODY
  {
    Frame(id, c, NULL_BODY, NULL_CRC)
  }

  /** `create_message` frames the default body as the request frame. */
  lemma RequestIsCreated(id: nat, c: Uint16)
    requires id <= 0xffff
    ensures CreateMessage(id, NULL_BODY, c, MAX_PACKET_SIZE) == Ok(Request(id, c))
  {
    NullBodyCrc();
  }

  /** The request frame carries its id, its context and the body `NULL`. */
  lemma RequestFields(id: nat, c: Uint16)
    requires id <= 0xffff
    ensures var m := Request(id, c);
      && |m| == 12 + |NULL_BODY| && m[0] == FRAME_START
      && RawToUint16(m[1..3]) == id && RawToUint16(m[3..5]) == c
      && m[12..] == NULL_BODY
  {
    FrameFields(id, c, NULL_BODY, NULL_CRC);
  }

  /** The transmit log `log` after `n` more `send(id)` calls from context
      `c` on. */
  function Transmitted(log: seq<seq<byte>>, id: nat, c: Uint16, n: nat): seq<seq<byte>>
    requires id <= 0xffff && c !in RESERVED_CONTEXT
  {
    if n == 0 then log else Transmitted(log, id, c, n - 1) + [Request(id, Advance(c, n - 1))]
  }

  /** `n` sends keep the log and add `n` frames, the `i`-th carrying the
      context `i` steps along from `c`. */
  lemma {:induction false} TransmittedFrames(log: seq<seq<byte>>, id: nat, c: Uint16, n: nat)
    requires id <= 0xffff && c !in RESERVED_CONTEXT
    ensures var t := Transmitted(log, id, c, n);
      && |t| == |log| + n && t[..|log|] == log
      && forall i :: 0 <= i < n ==> t[|log| + i] == Request(id, Advance(c, i))
  {
    if n > 0 {
      TransmittedFrames(log, id, c, n - 1);
    }
  }

  /** One more send moves the counter one step on. */
  lemma {:induction false} AdvanceNext(c: Uint16, n: nat)
    requires c !in RESERVED_CONTEXT
    ensures Advance(c, n + 1) == NextContext(Advance(c, n))
    decreases n
  {
    if n > 0 {
      AdvanceNext(NextContext(c), n - 1);
    }
  }

  /** `send(id)` with the default body: transmits the request frame for the
      current context and moves the counter on. */
  method SendDefault(sender: MessageSender, id: nat)
    requires id <= 0xffff && sender.Valid()
    modifies sender
    ensures sender.Valid()
    ensures sender.context == NextContext(old(sender.context))
    ensures sender.transmitted == old(sender.transmitted) + [Request(id, old(sender.context))]
  {
    RequestIsCreated(id, sender.context);
    var _ := sender.Send(Some(id), NULL_BODY);
  }

  /** `send(id)` with the default body, as the next of a run of requests
      started from context `c0` onto the transmitted frames `t0`. */
  method SendRequest(sender: MessageSender, id: nat, ghost c0: Uint16, ghost t0: seq<seq<byte>>, ghost n: nat)
    requires id <= 0xffff && sender.Valid() && c0 !in RESERVED_CONTEXT
    requires sender.context == Advance(c0, n) && sender.transmitted == Transmitted(t0, id, c0, n)
    modifies sender
    ensures sender.Valid()
    ensures sender.context == Advance(c0, n + 1) && sender.transmitted == Transmitted(t0, id, c0, n + 1)
  {
    AdvanceNext(c0, n);
    SendDefault(sender, id);
  }

  // ---- reflash ----

  /** How `reflash` ends: the handshake answered false, every packet was
      acknowledged, the overall timeout passed, or framing a packet raised. */
  datatype Outcome = NoBootloader | Finished | Failed | Aborted

  /** The state the transfer loop of `reflash` works on: the packets still
      to send, the stored responses, the map from sent contexts to packet
      indices, the sender's counter and transmit log, and the polls left. */
  datatype Transfer = Transfer(packets: map<nat, seq<byte>>, rx: map<nat, RxMessage>,
                               contexts: map<nat, nat>, counter: Uint16,
                               log: seq<seq<byte>>, polls: seq<Poll>)

  /** A set of indices holding `x` has a least element. */
  lemma {:induction false} LeastExists(keys: set<nat>, x: nat)
    requires x in keys
    ensures exists k :: k in keys && forall j :: j in keys ==> k <= j
    decreases x
  {
    if !forall j :: j in keys ==> x <= j {
      var y :| y in keys && y < x;
      LeastExists(keys, y);
    }
  }

  /** `self.packets.keys()[0]`: the dictionary's first key, which for the
      small integer keys of a packet map is the least one. */
  function FirstKey(packets: map<nat, seq<byte>>): (k: nat)
    requires packets != map[]
    ensures k in packets && forall j :: j in packets ==> k <= j
  {
    var x :| x in packets;
    LeastExists(packets.Keys, x);
    var k :| k in packets && forall j :: j in packets ==> k <= j;
    k
  }

  /** The `write_to_page` body for packet `k`: its index as `H`, then its bytes. */
  function PageBody(k: nat, packet: seq<byte>): (b: seq<byte>)
    requires k <= 0xffff
    ensures |b| == 2 + |packet| && RawToUint16(b[..2]) == k && b[2..] == packet
  {
    Uint16ToRaw(k) + packet
  }

  /** One round of the transfer loop: sends the first packet under the
      sender's current context and waits for the response with that context;
      an acknowledgement removes the packet, any response is then dropped
      with its context, and a timeout leaves everything in place. Packing an
      index above 0xffff or framing a body that is too long raises, and the
      round fails. */
  function PacketRound(t: Transfer): (r: Result<Transfer, string>)
    requires t.packets != map[] && t.counter !in RESERVED_CONTEXT
    ensures r.Ok? ==> r.value.counter !in RESERVED_CONTEXT
  {
    var k := FirstKey(t.packets);
    if k > 0xffff then Err("struct.error")
    else
      match CreateMessage(ID_WRITE_TO_PAGE, PageBody(k, t.packets[k]), t.counter, MAX_PACKET_SIZE)
      case Err(e) => Err(e)
      case Ok(frame) =>
        var c := t.counter;
        var contexts := t.contexts[c := k];
        var w := Waited(t.rx, t.polls, Some(c));
        var log := t.log + [frame];
        WaitOutcome(t.rx, t.polls, Some(c));
        if w.timedOut then Ok(Transfer(t.packets, w.buffer, contexts, NextContext(c), log, w.polls))
        else
          var packets := if w.buffer[c].id == RX_ACK then t.packets - {contexts[c]} else t.packets;
          Ok(Transfer(packets, w.buffer - {c}, contexts - {c}, NextContext(c), log, w.polls))
  }

  /** The transfer loop from `t`: it finishes once no packet is left, and
      after each round it fails when the overall timeout has passed.
      `expired[i]` says whether it had passed after round `i`; once the
      flags run out, it has. */
  function Transferred(t: Transfer, expired: seq<bool>): (r: (Outcome, Transfer))
    requires t.counter !in RESERVED_CONTEXT
    ensures r.1.counter !in RESERVED_CONTEXT
    decreases |expired|
  {
    if t.packets == map[] then (Finished, t)
    else
      match PacketRound(t)
      case Err(_) => (Aborted, t)
      case Ok(next) =>
        if expired == [] || expired[0] then (Failed, next)
        else Transferred(next, expired[1..])
  }

  /** One round sends the first packet as a `write_to_page` frame under the
      sender's context, its body the packet's index then its bytes, and moves
      the counter on. */
  lemma RoundFrame(t: Transfer)
    requires t.packets != map[] && t.counter !in RESERVED_CONTEXT
    requires PacketRound(t).Ok?
    ensures var k := FirstKey(t.packets);
      var n := PacketRound(t).value;
      && k <= 0xffff && |n.log| == |t.log| + 1 && n.log[..|t.log|] == t.log
      && var f := n.log[|t.log|];
      && RawToUint16(f[1..3]) == ID_WRITE_TO_PAGE && RawToUint16(f[3..5]) == t.counter
      && RawToUint16(f[12..14]) == k && f[14..] == t.packets[k]
      && n.counter == NextContext(t.counter)
  {
    var k := FirstKey(t.packets);
    var body := PageBody(k, t.packets[k]);
    CreateMessageFields(ID_WRITE_TO_PAGE, body, t.counter, MAX_PACKET_SIZE);
    var f := CreateMessage(ID_WRITE_TO_PAGE, body, t.counter, MAX_PACKET_SIZE).value;
    var n := PacketRound(t).value;
    assert n.log == t.log + [f];
    assert f[12..14] == body[..2];
    assert f[14..] == body[2..];
  }

  /** Only an acknowledgement removes a packet: the round drops the packet it
      sent exactly when the response stored for its context arrived in time
      with the `ack` id, and it never touches the other packets. */
  lemma RoundRemovesOnAck(t: Transfer)
    requires t.packets != map[] && t.counter !in RESERVED_CONTEXT
    requires PacketRound(t).Ok?
    ensures var k := FirstKey(t.packets);
      var n := PacketRound(t).value;
      var w := Waited(t.rx, t.polls, Some(t.counter));
      && (k !in n.packets <==> !w.timedOut && t.counter in w.buffer && w.buffer[t.counter].id == RX_ACK)
      && (forall j :: j != k ==> (j in n.packets <==> j in t.packets))
      && (forall j :: j in n.packets ==> n.packets[j] == t.packets[j])
  {
    WaitOutcome(t.rx, t.polls, Some(t.counter));
  }

  /** A response that arrives in time is dropped with its context; after a
      timeout the context stays mapped to the packet and whatever arrived
      stays stored. */
  lemma RoundResponses(t: Transfer)
    requires t.packets != map[] && t.counter !in RESERVED_CONTEXT
    requires PacketRound(t).Ok?
    ensures var k := FirstKey(t.packets);
      var n := PacketRound(t).value;
      var w := Waited(t.rx, t.polls, Some(t.counter));
      && (!w.timedOut ==> t.counter !in n.rx && t.counter !in n.contexts
                          && n.rx == w.buffer - {t.counter} && n.contexts == t.contexts - {t.counter})
      && (w.timedOut ==> n.rx == w.buffer && n.contexts == t.contexts[t.counter := k] && n.packets == t.packets)
  {
  }

  /** Packets that fit a frame and indices that fit `H` never make a round
      raise. */
  lemma RoundSucceeds(t: Transfer)
    requires t.packets != map[] && t.counter !in RESERVED_CONTEXT
    requires forall j :: j in t.packets ==> j <= 0xffff && |t.packets[j]| <= PACKET_SIZE
    ensures PacketRound(t).Ok?
  {
  }

  /** The packets of a segment of at most 0x10000 packets can all be framed:
      their indices fit `H` and their bodies fit a frame. */
  lemma PacketsFitFrames(segment: seq<byte>)
    requires |segment| <= 0x10000 * PACKET_SIZE
    ensures forall j :: j in Packetise(segment) ==> j <= 0xffff && |Packetise(segment)[j]| <= PACKET_SIZE
  {
    forall j | j in Packetise(segment)
      ensures j <= 0xffff && |Packetise(segment)[j]| <= PACKET_SIZE
    {
      PacketSizes(segment, j);
    }
  }

  /** The transfer loop never adds a packet or changes one: what is left is
      part of what there was. */
  lemma {:induction false} TransferKeepsPackets(t: Transfer, expired: seq<bool>)
    requires t.counter !in RESERVED_CONTEXT
    ensures var f := Transferred(t, expired).1;
      forall j :: j in f.packets ==> j in t.packets && f.packets[j] == t.packets[j]
    decreases |expired|
  {
    if t.packets != map[] && PacketRound(t).Ok? {
      var n := PacketRound(t).value;
      RoundRemovesOnAck(t);
      if expired != [] && !expired[0] {
        TransferKeepsPackets(n, expired[1..]);
      }
    }
  }

  /** The loop finishes only with every packet gone; it aborts only on a
      round that raises, with nothing of that round done; and it sends one
      frame per round, at most one more than the timeout checks it is given. */
  lemma {:induction false} TransferOutcome(t: Transfer, expired: seq<bool>)
    requires t.counter !in RESERVED_CONTEXT
    ensures var (o, f) := Transferred(t, expired);
      && (o == Finished ==> f.packets == map[])
      && (o == Aborted ==> f.packets != map[] && PacketRound(f).Err?)
      && (o == Finished || o == Failed || o == Aborted)
      && |t.log| <= |f.log| <= |t.log| + |expired| + 1 && f.log[..|t.log|] == t.log
    decreases |expired|
  {
    if t.packets != map[] && PacketRound(t).Ok? {
      var n := PacketRound(t).value;
      RoundFrame(t);
      if expired != [] && !expired[0] {
        TransferOutcome(n, expired[1..]);
        var f := Transferred(n, expired[1..]).1;
        assert f.log[..|t.log|] == f.log[..|n.log|][..|t.log|];
      }
    }
  }

  /** The overall timeout is checked after the round, so a transfer whose
      last packet was acknowledged in the very round the timeout passed
      still fails. */
  lemma FailsAfterLastAck(t: Transfer)
    requires t.packets != map[] && t.counter !in RESERVED_CONTEXT
    requires PacketRound(t).Ok? && PacketRound(t).value.packets == map[]
    ensures Transferred(t, [true]) == (Failed, PacketRound(t).value)
  {
  }

  /** The host window of `main.py`: the ring buffer the serial reader fills,
      the receiver reading it, the responses stored by context and the
      packets still to send. */
  class Reflasher {
    var rxBuffer: CircIoBuffer
    var receiver: MessageReceiver
    var rxMessageBuffer: map<nat, RxMessage>
    var packets: map<nat, seq<byte>>

    ghost predicate Valid()
      reads this, receiver, rxBuffer, rxBuffer.data
    {
      receiver.rxBuffer == rxBuffer && rxBuffer.Valid()
    }

    /** A ring buffer of 258 * 10 bytes, no responses and no packets. */
    constructor ()
      ensures Valid() && fresh(rxBuffer) && fresh(receiver)
      ensures rxBuffer.limit == 258 * 10 && rxBuffer.Contents == []
      ensures rxMessageBuffer == map[] && packets == map[]
    {
      var buffer := new CircIoBuffer([], 258 * 10);
      rxBuffer := buffer;
      receiver := new MessageReceiver(buffer);
      rxMessageBuffer := map[];
      packets := map[];
    }

    /** `bin_segments_to_packets`: discards the previous packets and cuts
        `segment` into `PACKET_SIZE` pieces keyed by their ordinal. */
    method BinSegmentsToPackets(segment: seq<byte>) returns (r: map<nat, seq<byte>>)
      modifies this
      ensures packets == Packetise(segment) && r == packets
      ensures rxMessageBuffer == old(rxMessageBuffer)
      ensures rxBuffer == old(rxBuffer) && receiver == old(receiver)
    {
      packets := map[];
      var count: nat := 0;
      var i: nat := 0;
      while i < |segment|
        invariant i == count * PACKET_SIZE && i < |segment| + PACKET_SIZE
        invariant packets == ChunksBelow(segment, count)
        invariant rxMessageBuffer == old(rxMessageBuffer)
        invariant rxBuffer == old(rxBuffer) && receiver == old(receiver)
        decreases |segment| - i
      {
        ChunksNext(segment, count);
        packets := packets[count := Slice(segment, i, i + PACKET_SIZE)];
        count := count + 1;
        i := i + PACKET_SIZE;
      }
      ChunksComplete(segment, count);
      r := packets;
    }

    /** The polling loop of a wait: sleeps poll by poll, storing what
        arrives, until the target is stored or the timeout passes. */
    method Await(target: Option<nat>, polls: seq<Poll>) returns (rest: seq<Poll>, timedOut: bool)
      modifies this
      ensures rxBuffer == old(rxBuffer) && receiver == old(receiver) && packets == old(packets)
      ensures Wait(rxMessageBuffer, rest, timedOut) == Waited(old(rxMessageBuffer), polls, target)
    {
      rest := polls;
      timedOut := false;
      while !Arrived(rxMessageBuffer, target)
        invariant rxBuffer == old(rxBuffer) && receiver == old(receiver) && packets == old(packets)
        invariant Waited(rxMessageBuffer, rest, target) == Waited(old(rxMessageBuffer), polls, target)
        invariant !timedOut
        decreases |rest|
      {
        var poll := NextPoll(rest);
        rxMessageBuffer := Store(rxMessageBuffer, poll.arrived);
        rest := AfterPoll(rest);
        if poll.timedOut {
          timedOut := true;
          break;
        }
      }
    }

    /** `test_connection_with_req`: clears the stored responses, sends a
        bootloader request, then waits for the reply, sending the request
        again after each timeout, three times at most. */
    method TestConnectionWithReq(sender: MessageSender, polls: seq<Poll>) returns (ok: bool, ghost resends: nat)
      requires sender.Valid()
      modifies this, sender
      ensures rxBuffer == old(rxBuffer) && receiver == old(receiver) && packets == old(packets)
      ensures sender.Valid()
      ensures HandshakeFrom(map[], polls, 3, 0) == Handshake(ok, rxMessageBuffer, resends)
      ensures sender.context == Advance(old(sender.context), 1 + resends)
      ensures sender.transmitted == Transmitted(old(sender.transmitted), ID_BOOTLOADER, old(sender.context), 1 + resends)
    {
      ghost var c0 := old(sender.context);
      ghost var t0 := old(sender.transmitted);
      ghost var total := HandshakeFrom(map[], polls, 3, 0);
      var retx: nat := 3;
      rxMessageBuffer := map[];
      SendRequest(sender, ID_BOOTLOADER, c0, t0, 0);
      resends := 0;
      var rest := polls;
      while retx > 0
        invariant sender.Valid()
        invariant rxBuffer == old(rxBuffer) && receiver == old(receiver) && packets == old(packets)
        invariant HandshakeFrom(rxMessageBuffer, rest, retx, resends) == total
        invariant sender.context == Advance(c0, 1 + resends)
        invariant sender.transmitted == Transmitted(t0, ID_BOOTLOADER, c0, 1 + resends)
        decreases retx
      {
        var timedOut;
        rest, timedOut := Await(None, rest);
        if !timedOut {
          return true, resends;
        }
        SendRequest(sender, ID_BOOTLOADER, c0, t0, 1 + resends);
        retx := retx - 1;
        resends := resends + 1;
      }
      return false, resends;
    }

    /** One round of the transfer loop of `reflash`, on the packets and
        stored responses of this window, the context map `contexts` and the
        polls `polls`; `ok` is false when framing the packet raised. */
    method PacketRoundStep(sender: MessageSender, contexts: map<nat, nat>, polls: seq<Poll>)
      returns (ok: bool, contexts': map<nat, nat>, rest: seq<Poll>)
      requires packets != map[] && sender.Valid()
      modifies this, sender
      ensures rxBuffer == old(rxBuffer) && receiver == old(receiver) && sender.Valid()
      ensures var r := PacketRound(Transfer(old(packets), old(rxMessageBuffer), contexts, old(sender.context),
                                            old(sender.transmitted), polls));
        && (ok <==> r.Ok?)
        && (ok ==> r.value == Transfer(packets, rxMessageBuffer, contexts', sender.context, sender.transmitted, rest))
        && (!ok ==> packets == old(packets) && rxMessageBuffer == old(rxMessageBuffer)
                    && sender.context == old(sender.context) && sender.transmitted == old(sender.transmitted))
    {
      contexts' := contexts;
      rest := polls;
      var k := FirstKey(packets);
      if k > 0xffff {
        return false, contexts', rest;
      }
      var sent := sender.Send(Some(ID_WRITE_TO_PAGE), PageBody(k, packets[k]));
      if sent.Err? {
        return false, contexts', rest;
      }
      var context := sent.value;
      contexts' := contexts'[context := k];
      var timedOut;
      rest, timedOut := Await(Some(context), rest);
      WaitOutcome(old(rxMessageBuffer), polls, Some(context));
      if !timedOut {
        if rxMessageBuffer[context].id == RX_ACK {
          packets := packets - {contexts'[context]};
        }
        rxMessageBuffer := rxMessageBuffer - {context};
        contexts' := contexts' - {context};
      }
      ok := true;
    }

    /** The transfer loop of `reflash`, with an empty context map: rounds
        until no packet is left, framing raises or the overall timeout has
        passed after a round. */
    method TransferPackets(sender: MessageSender, polls: seq<Poll>, expired: seq<bool>) returns (outcome: Outcome)
      requires sender.Valid()
      modifies this, sender
      ensures rxBuffer == old(rxBuffer) && receiver == old(receiver) && sender.Valid()
      ensures var (o, t) := Transferred(Transfer(old(packets), old(rxMessageBuffer), map[], old(sender.context),
                                                 old(sender.transmitted), polls), expired);
        && outcome == o && packets == t.packets && rxMessageBuffer == t.rx
        && sender.context == t.counter && sender.transmitted == t.log
    {
      var contexts: map<nat, nat> := map[];
      var rest := polls;
      var left := expired;
      while packets != map[]
        invariant rxBuffer == old(rxBuffer) && receiver == old(receiver) && sender.Valid()
        invariant Transferred(Transfer(packets, rxMessageBuffer, contexts, sender.context, sender.transmitted, rest), left)
          == Transferred(Transfer(old(packets), old(rxMessageBuffer), map[], old(sender.context), old(sender.transmitted), polls), expired)
        decreases |left|
      {
        var ok;
        ok, contexts, rest := PacketRoundStep(sender, contexts, rest);
        if !ok {
          return Aborted;
        }
        if left == [] || left[0] {
          return Failed;
        }
        left := left[1..];
      }
      return Finished;
    }

    /** `reflash`, from the handshake's answer on: unless the handshake
        answered false, sends `rxflush`, clears the stored responses and runs
        the transfer loop; once every packet is acknowledged it sends
        `run_main_app_btl`. */
    method Reflash(sender: MessageSender, handshake: Option<bool>, polls: seq<Poll>, expired: seq<bool>)
      returns (outcome: Outcome)
      requires sender.Valid()
      modifies this, sender
      ensures rxBuffer == old(rxBuffer) && receiver == old(receiver) && sender.Valid()
      ensures handshake == Some(false) ==>
        && outcome == NoBootloader && packets == old(packets) && rxMessageBuffer == old(rxMessageBuffer)
        && sender.context == old(sender.context) && sender.transmitted == old(sender.transmitted)
      ensures handshake != Some(false) ==>
        var start := Transfer(old(packets), map[], map[], NextContext(old(sender.context)),
                              old(sender.transmitted) + [Request(ID_RXFLUSH, old(sender.context))], polls);
        var (o, t) := Transferred(start, expired);
        && outcome == o && packets == t.packets && rxMessageBuffer == t.rx
        && sender.context == (if o == Finished then NextContext(t.counter) else t.counter)
        && sender.transmitted == t.log + (if o == Finished then [Request(ID_RUN_MAIN_APP_BTL, t.counter)] else [])
    {
      if handshake == Some(false) {
        return NoBootloader;
      }
      SendDefault(sender, ID_RXFLUSH);
      rxMessageBuffer := map[];
      outcome := TransferPackets(sender, polls, expired);
      if outcome == Finished {
        SendDefault(sender, ID_RUN_MAIN_APP_BTL);
      }
    }

    /** One call of `get_message`, seen as the next step of the drain. */
    method NextMessage() returns (msg: Option<RxMessage>)
      requires Valid()
      modifies rxBuffer
      ensures Valid()
      ensures msg.None? ==> Drain(old(rxBuffer.Contents)) == ([], rxBuffer.Contents)
      ensures msg.Some? ==>
        |rxBuffer.Contents| < |old(rxBuffer.Contents)|
        && Drain(old(rxBuffer.Contents)) == ([msg.value] + Drain(rxBuffer.Contents).0, Drain(rxBuffer.Contents).1)
    {
      ghost var before := rxBuffer.Contents;
      msg := receiver.GetMessage();
      DrainStep(before, msg, rxBuffer.Contents);
    }

    /** One round of `retrieve_messages`: one call of `get_message`, and the
        message it returns, if any, stored under its context. `total` is the
        whole drain, of which the messages `got` were stored on top of
        `stored` so far. */
    method RetrieveOne(ghost total: (seq<RxMessage>, seq<byte>), ghost got: seq<RxMessage>, ghost stored: map<nat, RxMessage>)
      returns (more: bool, ghost got': seq<RxMessage>)
      requires Valid()
      requires total == (got + Drain(rxBuffer.Contents).0, Drain(rxBuffer.Contents).1)
      requires rxMessageBuffer == Store(stored, got)
      modifies this, rxBuffer
      ensures Valid() && rxBuffer == old(rxBuffer) && receiver == old(receiver) && packets == old(packets)
      ensures rxMessageBuffer == Store(stored, got')
      ensures more ==> |rxBuffer.Contents| < |old(rxBuffer.Contents)|
      ensures more ==> total == (got' + Drain(rxBuffer.Contents).0, Drain(rxBuffer.Contents).1)
      ensures !more ==> total == (got', rxBuffer.Contents)
    {
      ghost var before := rxBuffer.Contents;
      var msg := NextMessage();
      got' := got;
      if msg.None? {
        DrainDone(total, got, before, rxBuffer.Contents);
        return false, got';
      }
      Keep(msg.value, stored, got);
      DrainMore(total, got, before, msg.value, rxBuffer.Contents);
      got' := got + [msg.value];
      more := true;
    }

    /** `self.rx_message_buffer[msg.context] = msg`. */
    method Keep(m: RxMessage, ghost stored: map<nat, RxMessage>, ghost got: seq<RxMessage>)
      requires rxMessageBuffer == Store(stored, got)
      modifies this
      ensures rxMessageBuffer == Store(stored, got + [m])
      ensures rxBuffer == old(rxBuffer) && receiver == old(receiver) && packets == old(packets)
    {
      rxMessageBuffer := rxMessageBuffer[m.context := m];
      StoreNext(stored, got, m);
    }

    /** `retrieve_messages`: stores every message `get_message` returns under
        its context until it returns nothing. The source's read-ahead loop
        (`msg = get_message()` before the loop and again at its end) is written
        here as one call at the top of each round. */
    method RetrieveMessages()
      requires Valid()
      modifies this, rxBuffer
      ensures Valid() && rxBuffer == old(rxBuffer) && receiver == old(receiver)
      ensures packets == old(packets)
      ensures rxMessageBuffer == Store(old(rxMessageBuffer), Drain(old(rxBuffer.Contents)).0)
      ensures rxBuffer.Contents == Drain(old(rxBuffer.Contents)).1
    {
      ghost var total := Drain(rxBuffer.Contents);
      ghost var got: seq<RxMessage> := [];
      assert got + total.0 == total.0;
      var more := true;
      while more
        invariant Valid() && rxBuffer == old(rxBuffer) && receiver == old(receiver) && packets == old(packets)
        invariant rxMessageBuffer == Store(old(rxMessageBuffer), got)
        invariant more ==> total == (got + Drain(rxBuffer.Contents).0, Drain(rxBuffer.Contents).1)
        invariant !more ==> total == (got, rxBuffer.Contents)
        decreases more, |rxBuffer.Contents|
      {
        more, got := RetrieveOne(total, got, old(rxMessageBuffer));
      }
    }
  }
}
