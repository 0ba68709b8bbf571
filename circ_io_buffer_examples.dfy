/** The concrete sequences of `circ_io_buffer_test.py`, replayed on the model
    (characters written as their byte values). */
module CircularBufferExamples {
  import opened Base
  import opened CircularBuffer

  /** Writing eleven bytes `abcde67890x` into an empty store of five and
      reading everything gives the newest five, `7890x`. */
  method OverwriteOldest() returns (r: seq<byte>)
    ensures r == [55, 56, 57, 48, 120]
  {
    var cb := WriteEleven();
    r := cb.Read(None);
  }

  /** The store after the eleven bytes were written. */
  method WriteEleven() returns (cb: CircIoBuffer)
    ensures fresh(cb) && fresh(cb.data) && cb.Valid()
    ensures cb.Contents == [55, 56, 57, 48, 120] && cb.available == 5
  {
    cb := new CircIoBuffer([], 5);
    var ok := cb.Write(Eleven);
    NewestOfEleven([], Eleven);
  }

  /** `abcde67890x` */
  const Eleven: seq<byte> := [97, 98, 99, 100, 101, 54, 55, 56, 57, 48, 120]

  lemma NewestOfEleven(empty: seq<byte>, bytes: seq<byte>)
    requires empty == [] && bytes == Eleven
    ensures Newest(empty + bytes, 5) == [55, 56, 57, 48, 120]
  {
    assert empty + bytes == bytes;
  }

  /** A full store `12345` written `x`: the oldest byte goes, and head and
      tail both move to 1. */
  method WriteIntoFull() returns (r: seq<byte>, head: nat, tail: nat)
    ensures r == [50] && head == 2 && tail == 1
  {
    var cb := new CircIoBuffer([49, 50, 51, 52, 53], 5);
    var ok := cb.Write([120]);
    assert cb.head == 1 && cb.tail == 1;
    r := cb.Read(Some(1));
    head, tail := cb.head, cb.tail;
  }

  /** `test_head_marker`: on a full store `12345`, writing `12`, `3450` and
      `0000` leaves the head at 2, 1 and 0. */
  method HeadMarker() returns (h1: nat, h2: nat, h3: nat)
    ensures h1 == 2 && h2 == 1 && h3 == 0
  {
    var cb := new CircIoBuffer([49, 50, 51, 52, 53], 5);
    var ok := cb.Write([49, 50]);
    h1 := cb.head;
    ok := cb.Write([51, 52, 53, 48]);
    h2 := cb.head;
    ok := cb.Write([48, 48, 48, 48]);
    h3 := cb.head;
  }

  /** `test_tail_markger`: on a full store `12345`, writing `12` and `3451`
      leaves the tail at 2 and 1, with the store still full. */
  method TailMarker() returns (t1: nat, t2: nat, n: nat)
    ensures t1 == 2 && t2 == 1 && n == 5
  {
    var cb := new CircIoBuffer([49, 50, 51, 52, 53], 5);
    var ok := cb.Write([49, 50]);
    t1 := cb.tail;
    ok := cb.Write([51, 52, 53, 49]);
    t2 := cb.tail;
    n := cb.Available();
  }

  /** `test string`, the text of the unit tests. */
  const TestString: seq<byte> := [116, 101, 115, 116, 32, 115, 116, 114, 105, 110, 103]

  /** `test_contains`: `test` is in `test string`, and no longer once its
      first four bytes are read. */
  method ContainsTest() returns (before: bool, after: bool)
    ensures before && !after
  {
    var cb := TestStringBuffer();
    before := cb.Contains(TestString[..4]);
    assert RunAt(TestString[..4], cb.Contents, 0);
    after := ContainsAfterRead(cb);
  }

  /** A store of 1024 bytes seeded with `test string`. */
  method TestStringBuffer() returns (cb: CircIoBuffer)
    ensures fresh(cb) && fresh(cb.data) && cb.Valid() && cb.Contents == TestString
  {
    cb := new CircIoBuffer(TestString, 1024);
  }

  /** The second half of `test_contains`: reading four bytes of `test
      string` removes the only occurrence of `test`. */
  method ContainsAfterRead(cb: CircIoBuffer) returns (after: bool)
    requires cb.Valid() && cb.Contents == TestString
    modifies cb
    ensures !after
  {
    var r := cb.Read(Some(4));
    assert cb.Contents == TestString[4..];
    after := cb.Contains(TestString[..4]);
    TestNotInRest();
  }

  lemma TestNotInRest()
    ensures !IsSubstring(TestString[..4], TestString[4..])
  {
    var needle, hay := TestString[..4], TestString[4..];
    assert needle == [116, 101, 115, 116] && hay == [32, 115, 116, 114, 105, 110, 103];
    forall i
      ensures !RunAt(needle, hay, i)
    {
      if i == 2 {
        assert hay[i..i + 4][1] != needle[1];
      } else if 0 <= i && i + 4 <= 7 {
        assert hay[i..i + 4][0] != needle[0];
      }
    }
  }

  /** `this is test buffer` and `test`, from `test_flush_until`. */
  const FlushText: seq<byte> := [116, 104, 105, 115, 32, 105, 115, 32, 116, 101, 115, 116, 32, 98, 117, 102, 102, 101, 114]
  const FlushMarker: seq<byte> := [116, 101, 115, 116]

  /** `test_flush_until`: flushing a store of 20 holding `this is test
      buffer` up to `test` leaves ` buffer`. */
  method FlushUntilTest() returns (rest: seq<byte>)
    ensures rest == [32, 98, 117, 102, 102, 101, 114]
  {
    var cb := new CircIoBuffer(FlushText, 20);
    assert cb.Contents == FlushText;
    var ok := cb.FlushUntil(FlushMarker);
    FirstTestEndsAt12();
    rest := cb.Read(None);
  }

  /** `test_flush_unit_sequence_not_present`: flushing up to `xxx`, which does
      not occur, drains the store. */
  method FlushUntilAbsent() returns (n: nat)
    ensures n == 0
  {
    var cb := new CircIoBuffer(FlushText, 20);
    assert cb.Contents == FlushText;
    var ok := cb.FlushUntil([120, 120, 120]);
    NoXxx();
    n := cb.Available();
  }

  lemma FirstTestEndsAt12()
    ensures FirstMatchEnd(FlushText, FlushMarker, 0) == 12
  {
    EndsAt12(FlushText, FlushMarker);
  }

  lemma EndsAt12(text: seq<byte>, marker: seq<byte>)
    requires text == FlushText && marker == FlushMarker
    ensures FirstMatchEnd(text, marker, 0) == 12
  {
    NoEndBefore12(text, marker);
    FirstMatchEndSkips(text, marker, 0, 12);
    MarkerEndsAt12(text, marker);
  }

  lemma NoEndBefore12(text: seq<byte>, marker: seq<byte>)
    requires text == FlushText && marker == FlushMarker
    ensures forall k :: 0 <= k < 12 ==> !EndsWithAt(text, marker, k)
  {
    NoEndBefore8(text, marker);
    FirstByteDiffers(text, marker, 9);
    LastByteDiffers(text, marker, 10);
    LastByteDiffers(text, marker, 11);
    forall k: nat | 8 <= k < 12
      ensures !EndsWithAt(text, marker, k)
    {
      assert k == 8 || k == 9 || k == 10 || k == 11;
    }
  }

  lemma NoEndBefore8(text: seq<byte>, marker: seq<byte>)
    requires text == FlushText && marker == FlushMarker
    ensures forall k :: 0 <= k < 9 ==> !EndsWithAt(text, marker, k)
  {
    LastByteDiffers(text, marker, 4);
    LastByteDiffers(text, marker, 5);
    LastByteDiffers(text, marker, 6);
    LastByteDiffers(text, marker, 7);
    LastByteDiffers(text, marker, 8);
    forall k: nat | k < 9
      ensures !EndsWithAt(text, marker, k)
    {
      assert k < 4 || k == 4 || k == 5 || k == 6 || k == 7 || k == 8;
    }
  }

  lemma MarkerEndsAt12(text: seq<byte>, marker: seq<byte>)
    requires text == FlushText && marker == FlushMarker
    ensures FirstMatchEnd(text, marker, 12) == 12
  {
    assert text[8..12] == marker;
  }

  lemma LastByteDiffers(s: seq<byte>, marker: seq<byte>, k: nat)
    requires 0 < |marker| <= k <= |s| && s[k - 1] != marker[|marker| - 1]
    ensures !EndsWithAt(s, marker, k)
  {
    assert s[k - |marker|..k][|marker| - 1] == s[k - 1];
  }

  lemma FirstByteDiffers(s: seq<byte>, marker: seq<byte>, k: nat)
    requires 0 < |marker| <= k <= |s| && s[k - |marker|] != marker[0]
    ensures !EndsWithAt(s, marker, k)
  {
    assert s[k - |marker|..k][0] == s[k - |marker|];
  }

  lemma NoXxx()
    ensures FirstMatchEnd(FlushText, [120, 120, 120], 0) == |FlushText|
  {
    forall k: nat | k < |FlushText|
      ensures !EndsWithAt(FlushText, [120, 120, 120], k)
    {
      if 3 <= k {
        assert FlushText[k - 3..k][2] != 120;
      }
    }
    FirstMatchEndSkips(FlushText, [120, 120, 120], 0, |FlushText|);
  }
}
