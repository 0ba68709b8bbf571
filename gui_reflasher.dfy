/** The older reflash window of `gui/reflasher.py`: the version text looked
    up in the image, packetising without clearing, the slot that stores
    each response as it arrives, and a transfer loop that reports `nack`s
    and never drops stored responses. Time is abstract as in the `Reflasher`
    module: waits are sequences of polls and the overall timeout is one flag
    per round. */
module GuiReflasher {
  import opened Base
  import opened Auxiliary
  import opened CircularBuffer
  import opened MessageHandler
  import opened Reflasher

  // ---- _find_version_of_hex_to_reflash ----

  /** The text `Version:R`. */
  const VERSION_MARKER: seq<byte> := [0x56, 0x65, 0x72, 0x73, 0x69, 0x6F, 0x6E, 0x3A, 0x52]

  const NEWLINE: byte := 0x0A
  const CARRIAGE_RETURN: byte := 0x0D

  /** `haystack.find(needle, start)` for a non-empty needle: the first index
      at or after `start` where `needle` occurs, or -1. */
  function FindRunFrom(haystack: seq<byte>, needle: seq<byte>, start: nat): (r: int)
    requires start <= |haystack|
    ensures r == -1 || start <= r
    ensures r >= 0 ==> RunAt(needle, haystack, r) && forall j :: start <= j < r ==> !RunAt(needle, haystack, j)
    ensures r == -1 ==> forall j :: start <= j ==> !RunAt(needle, haystack, j)
    decreases |haystack| - start
  {
    if start + |needle| > |haystack| then -1
    else if haystack[start..start + |needle|] == needle then start
    else FindRunFrom(haystack, needle, start + 1)
  }

  /** `haystack.find(needle)`. */
  function FindRun(haystack: seq<byte>, needle: seq<byte>): (r: int)
    ensures r == -1 || 0 <= r
    ensures r >= 0 ==> RunAt(needle, haystack, r) && forall j :: 0 <= j < r ==> !RunAt(needle, haystack, j)
    ensures r == -1 ==> forall j :: 0 <= j ==> !RunAt(needle, haystack, j)
  {
    FindRunFrom(haystack, needle, 0)
  }

  /** `_find_version_of_hex_to_reflash(bin_file)`: from the first
      `Version:R` to one byte short of the next newline; `None` when the
      marker is missing or starts at index 0 or 1. */
  function FindVersion(bin: seq<byte>): (v: Option<seq<byte>>)
    ensures v.Some? ==> var p := FindRun(bin, VERSION_MARKER);
      1 < p && p + |v.value| <= |bin| && v.value == bin[p..p + |v.value|]
    ensures v.Some? ==> NEWLINE !in v.value
  {
    var p := FindRun(bin, VERSION_MARKER);
    if p > 1 then Some(Slice(bin, p, FindFrom(bin, NEWLINE, p) - 1)) else None
  }

  /** No version is found exactly when no marker starts past index 1, or
      one starts at index 0 or 1: an early marker hides every later one. */
  lemma FindVersionNone(bin: seq<byte>)
    ensures FindVersion(bin).None? <==>
      RunAt(VERSION_MARKER, bin, 0) || RunAt(VERSION_MARKER, bin, 1)
      || forall j :: j > 1 ==> !RunAt(VERSION_MARKER, bin, j)
  {
    var p := FindRun(bin, VERSION_MARKER);
    if p > 1 {
      assert RunAt(VERSION_MARKER, bin, p);
    }
  }

  /** With the first marker at `p > 1` and the next newline at `e`, the
      version is the bytes from the marker to just before `e - 1`. On a line
      ending in carriage return and newline that is the line's text, and it
      starts with the marker. */
  lemma FindVersionLine(bin: seq<byte>, p: nat, e: nat)
    requires p > 1 && RunAt(VERSION_MARKER, bin, p)
    requires forall j :: 0 <= j < p ==> !RunAt(VERSION_MARKER, bin, j)
    requires p <= e < |bin| && bin[e] == NEWLINE
    requires forall j :: p <= j < e ==> bin[j] != NEWLINE
    ensures e >= p + |VERSION_MARKER|
    ensures FindVersion(bin) == Some(bin[p..e - 1])
    ensures bin[e - 1] == CARRIAGE_RETURN ==>
      |bin[p..e - 1]| >= |VERSION_MARKER| && bin[p..e - 1][..|VERSION_MARKER|] == VERSION_MARKER
      && NEWLINE !in bin[p..e - 1]
  {
    assert bin[p..p + |VERSION_MARKER|] == VERSION_MARKER;
    forall j | p <= j < p + |VERSION_MARKER|
      ensures bin[j] != NEWLINE
    {
      assert bin[j] == VERSION_MARKER[j - p];
    }
    assert FindRun(bin, VERSION_MARKER) == p;
    assert FindFrom(bin, NEWLINE, p) == e;
    if bin[e - 1] == CARRIAGE_RETURN {
      assert e - 1 != p + |VERSION_MARKER| - 1;
    }
  }

  /** With no newline after the first marker, the last two bytes of the
      image are cut off instead. */
  lemma FindVersionNoNewline(bin: seq<byte>, p: nat)
    requires p > 1 && RunAt(VERSION_MARKER, bin, p)
    requires forall j :: 0 <= j < p ==> !RunAt(VERSION_MARKER, bin, j)
    requires forall j :: p <= j < |bin| ==> bin[j] != NEWLINE
    ensures FindVersion(bin) == Some(bin[p..|bin| - 2])
  {
    assert FindRun(bin, VERSION_MARKER) == p;
    assert FindFrom(bin, NEWLINE, p) == -1;
  }

  // ---- get_raw_rx_buffer_slot ----

  /** The lines the window appends to its text browser. */
  datatype Note =
    | Echo(text: seq<byte>)  // `E: ` and the body of a text message
    | VersionConfirmed       // `Reflashing done`, `You can close Reflasher window`
    | Nack
    | ReflashingFailed
    | ReflashingFinished
    | Verifying

  /** `self.__expected_version and self.__expected_version in msg.msg`: a
      non-empty expected version that occurs in the body. */
  ghost predicate Confirms(expected: Option<seq<byte>>, body: seq<byte>)
    ensures Confirms(expected, body) ==> expected.Some? && 0 < |expected.value| <= |body|
  {
    expected.Some? && expected.value != [] && IsSubstring(expected.value, body)
  }

  // ---- the transfer loop of reflash ----

  /** One round of the transfer loop: sends the first packet under the
      sender's current context and waits for the response with that
      context. An acknowledgement removes the packet, any other response is
      reported as a `nack` (the flag), and the response and the context
      stay stored either way. Packing an index above 0xffff or framing a
      body that is too long raises. */
  function GuiRound(t: Transfer): (r: Result<(Transfer, bool), string>)
    requires t.packets != map[] && t.counter !in RESERVED_CONTEXT
    ensures r.Ok? ==> r.value.0.counter !in RESERVED_CONTEXT
  {
    var k := FirstKey(t.packets);
    if k > 0xffff then Err("struct.error")
    else
      match CreateMessage(ID_WRITE_TO_PAGE, PageBody(k, t.packets[k]), t.counter, MAX_PACKET_SIZE)
      case Err(e) => Err(e)
      case Ok(frame) =>
        var c := t.counter;
        var contexts := t.contexts[c := k];
        var w := Waited(t.rx, t.polls, Some(c));
        var acked := !w.timedOut && c in w.buffer && w.buffer[c].id == RX_ACK;
        var packets := if acked then t.packets - {contexts[c]} else t.packets;
        Ok((Transfer(packets, w.buffer, contexts, NextContext(c), t.log + [frame], w.polls), !w.timedOut && !acked))
  }

  /** The transfer loop from `t`, with `nacks` rounds reported as `nack`
      so far: it finishes once no packet is left and, after each round,
      fails when the overall timeout has passed (`expired[i]` for round
      `i`; past the flags it has). The last component counts the rounds
      reported as `nack`. */
  function GuiTransferred(t: Transfer, nacks: nat, expired: seq<bool>): (r: (Outcome, Transfer, nat))
    requires t.counter !in RESERVED_CONTEXT
    ensures r.1.counter !in RESERVED_CONTEXT
    decreases |expired|
  {
    if t.packets == map[] then (Finished, t, nacks)
    else
      match GuiRound(t)
      case Err(_) => (Aborted, t, nacks)
      case Ok((next, nack)) =>
        var nacks' := if nack then nacks + 1 else nacks;
        if expired == [] || expired[0] then (Failed, next, nacks')
        else GuiTransferred(next, nacks', expired[1..])
  }

  /** One step of the transfer loop, in terms of its round. */
  lemma GuiTransferredUnfold(t: Transfer, nacks: nat, expired: seq<bool>)
    requires t.packets != map[] && t.counter !in RESERVED_CONTEXT
    ensures GuiRound(t).Err? ==> GuiTransferred(t, nacks, expired) == (Aborted, t, nacks)
    ensures GuiRound(t).Ok? ==>
      var (next, nack) := GuiRound(t).value;
      var nacks' := if nack then nacks + 1 else nacks;
      GuiTransferred(t, nacks, expired)
        == if expired == [] || expired[0] then (Failed, next, nacks') else GuiTransferred(next, nacks', expired[1..])
  {
  }

  /** `n` lines reading `nack`. */
  function NackLines(n: nat): (r: seq<Note>)
    ensures |r| == n && forall i :: 0 <= i < n ==> r[i] == Nack
  {
    seq(n, _ => Nack)
  }

  /** The lines the loop shows when it ends with `o`: the elapsed time that
      follows `VERYFYING` is not modelled. */
  function Closing(o: Outcome): (notes: seq<Note>)
    ensures notes != [] <==> o.Finished? || o.Failed?
    ensures o.Finished? ==> notes[0] == ReflashingFinished && Verifying in notes
    ensures o.Failed? ==> ReflashingFailed in notes && Verifying !in notes
  {
    match o
    case Finished => [ReflashingFinished, Verifying]
    case Failed => [ReflashingFailed]
    case _ => []
  }

  /** Only an acknowledgement removes the packet, and only a response that
      is not one is reported; a timeout does neither. The other packets are
      untouched, and nothing stored is ever dropped: the response stays
      under its context and the context stays mapped to the packet. */
  lemma GuiRoundOnResponse(t: Transfer)
    requires t.packets != map[] && t.counter !in RESERVED_CONTEXT
    requires GuiRound(t).Ok?
    ensures var k := FirstKey(t.packets);
      var (n, nack) := GuiRound(t).value;
      var w := Waited(t.rx, t.polls, Some(t.counter));
      && (k !in n.packets <==> !w.timedOut && t.counter in w.buffer && w.buffer[t.counter].id == RX_ACK)
      && (nack <==> !w.timedOut && t.counter in w.buffer && w.buffer[t.counter].id != RX_ACK)
      && (forall j :: j != k ==> (j in n.packets <==> j in t.packets))
      && (forall j :: j in n.packets ==> n.packets[j] == t.packets[j])
      && n.rx == w.buffer && n.contexts == t.contexts[t.counter := k]
      && (forall c :: c in t.rx ==> c in n.rx)
  {
    var w := Waited(t.rx, t.polls, Some(t.counter));
    WaitOutcome(t.rx, t.polls, Some(t.counter));
    WaitKeeps(t.rx, t.polls, Some(t.counter));
  }

  /** A wait only ever adds responses. */
  lemma {:induction false} WaitKeeps(buffer: map<nat, RxMessage>, polls: seq<Poll>, target: Option<nat>)
    ensures forall c :: c in buffer ==> c in Waited(buffer, polls, target).buffer
    decreases |polls|
  {
    if !Arrived(buffer, target) {
      var poll := NextPoll(polls);
      forall c | c in buffer
        ensures c in Store(buffer, poll.arrived)
      {
        StoreKeys(buffer, poll.arrived, c);
      }
      if !poll.timedOut {
        WaitKeeps(Store(buffer, poll.arrived), AfterPoll(polls), target);
      }
    }
  }

  /** Since stored responses are never dropped, a response left from an
      earlier round under the context a round sends with is taken as that
      round's answer at once, before any poll: an `ack` stored there removes
      the new packet unanswered. */
  lemma StaleResponseAnswers(t: Transfer)
    requires t.packets != map[] && t.counter !in RESERVED_CONTEXT
    requires GuiRound(t).Ok? && t.counter in t.rx && t.rx[t.counter].id == RX_ACK
    ensures var (n, nack) := GuiRound(t).value;
      && FirstKey(t.packets) !in n.packets && !nack && n.polls == t.polls && n.rx == t.rx
  {
  }

  /** The loop never adds or changes a packet; it finishes only with every
      packet gone; it aborts only on a round that raises; and it reports
      no more `nack`s than it runs rounds. */
  lemma {:induction false} GuiTransferOutcome(t: Transfer, nacks: nat, expired: seq<bool>)
    requires t.counter !in RESERVED_CONTEXT
    ensures var (o, f, n) := GuiTransferred(t, nacks, expired);
      && (forall j :: j in f.packets ==> j in t.packets && f.packets[j] == t.packets[j])
      && (o == Finished ==> f.packets == map[])
      && (o == Aborted ==> f.packets != map[] && GuiRound(f).Err?)
      && o != NoBootloader
      && nacks <= n <= nacks + |expired| + 1
    decreases |expired|
  {
    if t.packets != map[] && GuiRound(t).Ok? {
      var (next, nack) := GuiRound(t).value;
      GuiRoundOnResponse(t);
      if expired != [] && !expired[0] {
        GuiTransferOutcome(next, if nack then nacks + 1 else nacks, expired[1..]);
      }
    }
  }

  /** The reflash window of `gui/reflasher.py`: the ring buffer the serial
      connection fills, the receiver reading it, the responses stored by
      context, the packets still to send, the expected version, the lines
      shown and whether the cancel button was relabelled `CLOSE`. */
  class GuiReflasher {
    var rxBuffer: CircIoBuffer
    var receiver: MessageReceiver
    var rxMessageBuffer: map<nat, RxMessage>
    var packets: map<nat, seq<byte>>
    var expectedVersion: Option<seq<byte>>
    var shown: seq<Note>
    var closeOffered: bool

    ghost predicate Valid()
      reads this, receiver, rxBuffer, rxBuffer.data
    {
      receiver.rxBuffer == rxBuffer && rxBuffer.Valid()
    }

    /** The window over the serial connection's ring buffer: no responses,
        no packets and no expected version yet. */
    constructor (rxBuffer: CircIoBuffer)
      requires rxBuffer.Valid()
      ensures Valid() && this.rxBuffer == rxBuffer && fresh(receiver)
      ensures rxMessageBuffer == map[] && packets == map[] && expectedVersion == None
      ensures shown == [] && !closeOffered
    {
      this.rxBuffer := rxBuffer;
      receiver := new MessageReceiver(rxBuffer);
      rxMessageBuffer := map[];
      packets := map[];
      expectedVersion := None;
      shown := [];
      closeOffered := false;
    }

    /** `self.__expected_version = self._find_version_of_hex_to_reflash(...)`
        on the image segment chosen for reflashing. */
    method ExpectVersionOf(segment: seq<byte>)
      modifies this
      ensures expectedVersion == FindVersion(segment)
      ensures rxBuffer == old(rxBuffer) && receiver == old(receiver) && rxMessageBuffer == old(rxMessageBuffer)
      ensures packets == old(packets) && shown == old(shown) && closeOffered == old(closeOffered)
    {
      expectedVersion := FindVersion(segment);
    }

    /** `bin_segments_to_packets`: writes the packets of `segment` over the
        packet map without clearing it first. */
    method BinSegmentsToPackets(segment: seq<byte>) returns (r: map<nat, seq<byte>>)
      modifies this
      ensures packets == old(packets) + Packetise(segment) && r == packets
      ensures rxBuffer == old(rxBuffer) && receiver == old(receiver) && rxMessageBuffer == old(rxMessageBuffer)
      ensures expectedVersion == old(expectedVersion) && shown == old(shown) && closeOffered == old(closeOffered)
    {
      var written := PacketsOf(segment);
      packets := packets + written;
      r := packets;
    }

    /** `get_raw_rx_buffer_slot`: takes the next message from the receiver
        and stores it under its context, replacing any earlier one; a text
        message is shown, and one holding the expected version is taken as
        the sign that the reflash is done. */
    method GetRawRxBufferSlot()
      requires Valid()
      modifies this, rxBuffer
      ensures Valid() && rxBuffer == old(rxBuffer) && receiver == old(receiver)
      ensures packets == old(packets) && expectedVersion == old(expectedVersion)
      ensures var (m, used) := Receive(old(rxBuffer.Contents));
        && rxBuffer.Contents == old(rxBuffer.Contents)[used..]
        && rxMessageBuffer == (if m.Some? then old(rxMessageBuffer)[m.value.context := m.value] else old(rxMessageBuffer))
      ensures var m := Receive(old(rxBuffer.Contents)).0;
        !(m.Some? && m.value.id == RX_TXT) ==> shown == old(shown) && closeOffered == old(closeOffered)
      ensures var m := Receive(old(rxBuffer.Contents)).0;
        m.Some? && m.value.id == RX_TXT && !Confirms(expectedVersion, m.value.body) ==>
          shown == old(shown) + [Echo(m.value.body)] && closeOffered == old(closeOffered)
      ensures var m := Receive(old(rxBuffer.Contents)).0;
        m.Some? && m.value.id == RX_TXT && Confirms(expectedVersion, m.value.body) ==>
          shown == old(shown) + [Echo(m.value.body), VersionConfirmed] && closeOffered
    {
      var msg := receiver.GetMessage();
      if msg.Some? {
        Handle(msg.value);
      }
    }

    /** What the slot does with a message: stores it and, for a text
        message, shows it and looks for the expected version in it. */
    method Handle(m: RxMessage)
      modifies this
      ensures rxBuffer == old(rxBuffer) && receiver == old(receiver)
      ensures packets == old(packets) && expectedVersion == old(expectedVersion)
      ensures rxMessageBuffer == old(rxMessageBuffer)[m.context := m]
      ensures m.id != RX_TXT ==> shown == old(shown) && closeOffered == old(closeOffered)
      ensures m.id == RX_TXT && !Confirms(expectedVersion, m.body) ==>
        shown == old(shown) + [Echo(m.body)] && closeOffered == old(closeOffered)
      ensures m.id == RX_TXT && Confirms(expectedVersion, m.body) ==>
        shown == old(shown) + [Echo(m.body), VersionConfirmed] && closeOffered
    {
      rxMessageBuffer := rxMessageBuffer[m.context := m];
      if m.id == RX_TXT {
        shown := shown + [Echo(m.body)];
        var expected := expectedVersion;
        if expected.Some? && expected.value != [] {
          OccursIsSubstring(expected.value, m.body);
          if Occurs(expected.value, m.body) {
            shown := shown + [VersionConfirmed];
            closeOffered := true;
          }
        }
      }
    }

    /** The polling loop of a wait, as in `Reflasher.Await`. */
    method Await(target: Option<nat>, polls: seq<Poll>) returns (rest: seq<Poll>, timedOut: bool)
      modifies this
      ensures rxBuffer == old(rxBuffer) && receiver == old(receiver) && packets == old(packets)
      ensures expectedVersion == old(expectedVersion) && shown == old(shown) && closeOffered == old(closeOffered)
      ensures Wait(rxMessageBuffer, rest, timedOut) == Waited(old(rxMessageBuffer), polls, target)
    {
      rest := polls;
      timedOut := false;
      while !Arrived(rxMessageBuffer, target)
        invariant rxBuffer == old(rxBuffer) && receiver == old(receiver) && packets == old(packets)
        invariant expectedVersion == old(expectedVersion) && shown == old(shown) && closeOffered == old(closeOffered)
        invariant Waited(rxMessageBuffer, rest, target) == Waited(old(rxMessageBuffer), polls, target)
        invariant !timedOut
        decreases |rest|
      {
        var poll := NextPoll(rest);
        rxMessageBuffer := Store(rxMessageBuffer, poll.arrived);
        rest := AfterPoll(rest);
        if poll.timedOut {
          timedOut := true;
          break;
        }
      }
    }

    /** One round of the transfer loop of `reflash` on this window's packets,
        stored responses and shown lines, the context map `contexts` and
        the polls `polls`; `ok` is false when framing the packet raised. */
    method GuiRoundStep(sender: MessageSender, contexts: map<nat, nat>, polls: seq<Poll>)
      returns (ok: bool, nack: bool, contexts': map<nat, nat>, rest: seq<Poll>)
      requires packets != map[] && sender.Valid()
      modifies this, sender
      ensures rxBuffer == old(rxBuffer) && receiver == old(receiver) && sender.Valid()
      ensures expectedVersion == old(expectedVersion) && closeOffered == old(closeOffered)
      ensures var r := GuiRound(Transfer(old(packets), old(rxMessageBuffer), contexts, old(sender.context),
                                         old(sender.transmitted), polls));
        && (ok <==> r.Ok?)
        && (ok ==> r.value.0 == Transfer(packets, rxMessageBuffer, contexts', sender.context, sender.transmitted, rest)
                   && nack == r.value.1 && shown == (if nack then old(shown) + [Nack] else old(shown)))
        && (!ok ==> packets == old(packets) && rxMessageBuffer == old(rxMessageBuffer) && shown == old(shown)
                    && sender.context == old(sender.context) && sender.transmitted == old(sender.transmitted)
                    && contexts' == contexts && rest == polls)
    {
      contexts' := contexts;
      rest := polls;
      nack := false;
      var k := FirstKey(packets);
      if k > 0xffff {
        return false, nack, contexts', rest;
      }
      var sent := sender.Send(Some(ID_WRITE_TO_PAGE), PageBody(k, packets[k]));
      if sent.Err? {
        return false, nack, contexts', rest;
      }
      var context := sent.value;
      contexts' := contexts'[context := k];
      var timedOut;
      rest, timedOut := Await(Some(context), rest);
      WaitOutcome(old(rxMessageBuffer), polls, Some(context));
      if !timedOut {
        if rxMessageBuffer[context].id == RX_ACK {
          packets := packets - {contexts'[context]};
        } else {
          shown := shown + [Nack];
          nack := true;
        }
      }
      ok := true;
    }

    /** `reflash`, with `sender` standing for the message sender the window
        was meant to hold: rounds until no packet is left, framing raises or
        the overall timeout has passed after a round; once every packet is
        acknowledged it sends `run_main_app_btl`. */
    method Reflash(sender: MessageSender, polls: seq<Poll>, expired: seq<bool>) returns (outcome: Outcome)
      requires sender.Valid()
      modifies this, sender
      ensures rxBuffer == old(rxBuffer) && receiver == old(receiver) && sender.Valid()
      ensures expectedVersion == old(expectedVersion) && closeOffered == old(closeOffered)
      ensures var (o, t, n) := GuiTransferred(Transfer(old(packets), old(rxMessageBuffer), map[], old(sender.context),
                                                       old(sender.transmitted), polls), 0, expired);
        && outcome == o && packets == t.packets && rxMessageBuffer == t.rx && shown == old(shown) + NackLines(n) + Closing(o)
        && sender.context == (if o == Finished then NextContext(t.counter) else t.counter)
        && sender.transmitted == t.log + (if o == Finished then [Request(ID_RUN_MAIN_APP_BTL, t.counter)] else [])
    {
      outcome := TransferPackets(sender, polls, expired);
      if outcome == Finished {
        SendDefault(sender, ID_RUN_MAIN_APP_BTL);
      }
    }

    /** The transfer loop of `reflash`, with an empty context map. */
    method TransferPackets(sender: MessageSender, polls: seq<Poll>, expired: seq<bool>) returns (outcome: Outcome)
      requires sender.Valid()
      modifies this, sender
      ensures rxBuffer == old(rxBuffer) && receiver == old(receiver) && sender.Valid()
      ensures expectedVersion == old(expectedVersion) && closeOffered == old(closeOffered)
      ensures var (o, t, n) := GuiTransferred(Transfer(old(packets), old(rxMessageBuffer), map[], old(sender.context),
                                                       old(sender.transmitted), polls), 0, expired);
        && outcome == o && packets == t.packets && rxMessageBuffer == t.rx && shown == old(shown) + NackLines(n) + Closing(o)
        && sender.context == t.counter && sender.transmitted == t.log
    {
      var contexts: map<nat, nat> := map[];
      var rest := polls;
      var left := expired;
      var nacks: nat := 0;
      var done := false;
      while packets != map[]
        invariant rxBuffer == old(rxBuffer) && receiver == old(receiver) && sender.Valid()
        invariant expectedVersion == old(expectedVersion) && closeOffered == old(closeOffered)
        invariant shown == old(shown) + NackLines(nacks)
        invariant GuiTransferred(Transfer(packets, rxMessageBuffer, contexts, sender.context, sender.transmitted, rest), nacks, left)
          == GuiTransferred(Transfer(old(packets), old(rxMessageBuffer), map[], old(sender.context), old(sender.transmitted), polls),
                            0, expired)
        decreases |left|
      {
        done, outcome, contexts, rest, nacks, left := LoopStep(sender, contexts, rest, nacks, left, old(shown));
        if done {
          return;
        }
      }
      shown := shown + [ReflashingFinished, Verifying];
      return Finished;
    }

    /** One pass of the transfer loop: a round, then the check of the
        overall timeout. `done` says the loop ends here with `outcome`. */
    method LoopStep(sender: MessageSender, contexts: map<nat, nat>, polls: seq<Poll>, nacks: nat, expired: seq<bool>,
                    ghost base: seq<Note>)
      returns (done: bool, outcome: Outcome, contexts': map<nat, nat>, rest: seq<Poll>, nacks': nat, left: seq<bool>)
      requires packets != map[] && sender.Valid() && shown == base + NackLines(nacks)
      modifies this, sender
      ensures rxBuffer == old(rxBuffer) && receiver == old(receiver) && sender.Valid()
      ensures expectedVersion == old(expectedVersion) && closeOffered == old(closeOffered)
      ensures var start := GuiTransferred(Transfer(old(packets), old(rxMessageBuffer), contexts, old(sender.context),
                                                   old(sender.transmitted), polls), nacks, expired);
        && (!done ==> |left| < |expired| && shown == base + NackLines(nacks')
                      && GuiTransferred(Transfer(packets, rxMessageBuffer, contexts', sender.context, sender.transmitted, rest), nacks', left)
                         == start)
        && (done ==> start == (outcome, Transfer(packets, rxMessageBuffer, contexts', sender.context, sender.transmitted, rest), nacks')
                     && shown == base + NackLines(nacks') + Closing(outcome))
    {
      var ok, nack;
      nacks' := nacks;
      left := expired;
      ghost var t := Transfer(old(packets), old(rxMessageBuffer), contexts, old(sender.context), old(sender.transmitted), polls);
      ok, nack, contexts', rest := GuiRoundStep(sender, contexts, polls);
      GuiTransferredUnfold(t, nacks, expired);
      if !ok {
        assert shown == base + NackLines(nacks) + Closing(Aborted);
        return true, Aborted, contexts', rest, nacks', left;
      }
      if nack {
        assert NackLines(nacks + 1) == NackLines(nacks) + [Nack];
        nacks' := nacks + 1;
      }
      if left == [] || left[0] {
        shown := shown + [ReflashingFailed];
        return true, Failed, contexts', rest, nacks', left;
      }
      left := left[1..];
      done := false;
      outcome := Aborted;
    }
  }

  /** The loop of `bin_segments_to_packets`: the packets of `segment`,
      keyed by their ordinal. */
  method PacketsOf(segment: seq<byte>) returns (written: map<nat, seq<byte>>)
    ensures written == Packetise(segment)
  {
    written := map[];
    var count: nat := 0;
    var i: nat := 0;
    while i < |segment|
      invariant i == count * PACKET_SIZE && i < |segment| + PACKET_SIZE
      invariant written == ChunksBelow(segment, count)
      decreases |segment| - i
    {
      ChunksNext(segment, count);
      written := written[count := Slice(segment, i, i + PACKET_SIZE)];
      count := count + 1;
      i := i + PACKET_SIZE;
    }
    ChunksComplete(segment, count);
  }

  /** Packetising without clearing: the keys of the new image are
      overwritten with its packets, and every other packet of an earlier
      image survives unchanged. */
  lemma StalePacketsSurvive(previous: map<nat, seq<byte>>, segment: seq<byte>, j: nat)
    ensures var p := previous + Packetise(segment);
      && (j * PACKET_SIZE < |segment| ==> j in p && p[j] == Chunk(segment, j))
      && (j * PACKET_SIZE >= |segment| ==> (j in p <==> j in previous) && (j in previous ==> p[j] == previous[j]))
  {
    if j * PACKET_SIZE < |segment| {
      assert j <= j * PACKET_SIZE;
    }
  }
}
