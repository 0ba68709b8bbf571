module CircularBuffer {
  import opened Base

  /** A position `k` of the backing store folded once into `0..limit`: the
      value `k % limit` takes for `k < 2 * limit`. */
  function Wrap(k: nat, limit: nat): (r: nat)
    requires k < 2 * limit
    ensures r < limit
  {
    if k < limit then k else k - limit
  }

  /** `s[-n:]`: the newest `n` items of `s`, or all of them. */
  function Newest<T>(s: seq<T>, n: nat): (r: seq<T>)
    requires n > 0
    ensures |r| == (if |s| <= n then |s| else n)
  {
    SliceFrom(s, -(n as int))
  }

  /** The `n` bytes of the backing store `d` read from `head` onwards, wrapping
      round its end. */
  ghost function View(d: seq<byte>, head: nat, n: nat): (v: seq<byte>)
    requires head < |d| && n <= |d|
    ensures |v| == n
    ensures forall i :: 0 <= i < n ==> v[i] == d[Wrap(head + i, |d|)]
  {
    seq(n, i requires 0 <= i < n => d[Wrap(head + i, |d|)])
  }

  lemma WriteChunkView(d: seq<byte>, d2: seq<byte>, h: nat, a: nat, t: nat, c: seq<byte>, h2: nat, a2: nat)
    requires 0 < |d| && h < |d| && a <= |d|
    requires t == Wrap(h + a, |d|) && t + |c| <= |d|
    requires d2 == d[..t] + c + d[t + |c|..]
    requires a2 == (if a + |c| > |d| then |d| else a + |c|)
    requires h2 == (if a2 == |d| then Wrap(t + |c|, |d|) else h)
    ensures View(d2, h2, a2) == Newest(View(d, h, a) + c, |d|)
  {
    var L := |d|;
    var s := View(d, h, a) + c;
    var nw := Newest(s, L);
    var v2 := View(d2, h2, a2);
    assert |nw| == a2;
    forall i | 0 <= i < a2
      ensures v2[i] == nw[i]
    {
      var j := |s| - a2 + i;
      assert nw[i] == s[j];
      WriteIndex(L, h, a, t, |c|, h2, a2, i, j);
      WriteElement(d, d2, h, a, t, c, h2, a2, i, j);
    }
  }

  /** One byte of the view after a chunk is stored: the `j`-th byte of the
      old view followed by the chunk. */
  lemma WriteElement(d: seq<byte>, d2: seq<byte>, h: nat, a: nat, t: nat, c: seq<byte>, h2: nat, a2: nat, i: nat, j: nat)
    requires 0 < |d| && h < |d| && a <= |d| && t + |c| <= |d|
    requires d2 == d[..t] + c + d[t + |c|..]
    requires h2 < |d| && i < a2 <= |d| && j < a + |c|
    requires j < a ==> Wrap(h2 + i, |d|) == Wrap(h + j, |d|)
    requires j < a ==> Wrap(h + j, |d|) < t || t + |c| <= Wrap(h + j, |d|)
    requires j >= a ==> Wrap(h2 + i, |d|) == t + (j - a)
    ensures View(d2, h2, a2)[i] == (View(d, h, a) + c)[j]
  {
    var p := Wrap(h2 + i, |d|);
    assert View(d2, h2, a2)[i] == d2[p];
    if j < a {
      assert d2[p] == d[p];
    } else {
      assert d2[p] == c[j - a];
    }
  }

  /** Where the `i`-th byte of the view after a chunk of `n` bytes is stored
      at the tail sits: it is the `j`-th of the old contents followed by the
      chunk, stored outside the chunk when `j < a` and inside it otherwise. */
  lemma WriteIndex(L: nat, h: nat, a: nat, t: nat, n: nat, h2: nat, a2: nat, i: nat, j: nat)
    requires 0 < L && h < L && a <= L
    requires t == Wrap(h + a, L) && t + n <= L
    requires a2 == (if a + n > L then L else a + n)
    requires h2 == (if a2 == L then Wrap(t + n, L) else h)
    requires i < a2 && j == a + n - a2 + i
    ensures j < a ==> Wrap(h2 + i, L) == Wrap(h + j, L)
    ensures j < a ==> Wrap(h + j, L) < t || t + n <= Wrap(h + j, L)
    ensures j >= a ==> Wrap(h2 + i, L) == t + (j - a)
  {
  }

  /** Reading `n <= a` bytes from `head` in at most two pieces, as `peek`
      does: up to the end of the store, then from its start. */
  lemma PeekView(d: seq<byte>, h: nat, a: nat, n: nat, stop: nat)
    requires 0 < |d| && h < |d| && n <= a <= |d|
    requires stop == (if h + n < |d| then h + n else |d|)
    ensures d[h..stop] + (if stop == |d| then d[..n - (stop - h)] else []) == View(d, h, a)[..n]
  {
    var r := d[h..stop] + (if stop == |d| then d[..n - (stop - h)] else []);
    var v := View(d, h, a);
    assert |r| == n;
    forall i | 0 <= i < n
      ensures r[i] == v[i]
    {
      if h + i < |d| {
        assert r[i] == d[h + i];
      } else {
        assert r[i] == d[h + i - |d|];
      }
    }
  }

  /** Consuming `n` bytes moves the view's start `n` places on. */
  lemma ReadView(d: seq<byte>, h: nat, a: nat, n: nat)
    requires 0 < |d| && h < |d| && n <= a <= |d|
    ensures View(d, Wrap(h + n, |d|), a - n) == View(d, h, a)[n..]
  {
    var v := View(d, h, a);
    var w := View(d, Wrap(h + n, |d|), a - n);
    forall i | 0 <= i < a - n
      ensures w[i] == v[n + i]
    {
      assert Wrap(Wrap(h + n, |d|) + i, |d|) == Wrap(h + n + i, |d|);
    }
  }

  /** Keeping the newest `n` items twice keeps the newest `n` of the whole. */
  lemma NewestAppend<T>(s: seq<T>, x: seq<T>, n: nat)
    requires n > 0
    ensures Newest(Newest(s, n) + x, n) == Newest(s + x, n)
  {
    var u := Newest(s, n);
    assert s + x == s[..|s| - |u|] + (u + x);
    var a := Newest(u + x, n);
    var b := Newest(s + x, n);
    assert |a| == |b|;
    assert a == (s + x)[|s + x| - |a|..];
  }

  lemma NewestOfSuffix<T>(s: seq<T>, x: seq<T>, n: nat)
    requires n > 0
    ensures Newest(s + Newest(x, n), n) == Newest(s + x, n)
  {
    var u := Newest(x, n);
    assert x == x[..|x| - |u|] + u;
    assert s + x == (s + x[..|x| - |u|]) + u;
  }

  /** The bytes consumed by `flush_until(marker)` from contents `s`: up to the
      end of the first occurrence of `marker`, or all of `s`. */
  function FirstMatchEnd(s: seq<byte>, marker: seq<byte>, from: nat): (k: nat)
    requires from <= |s|
    ensures from <= k <= |s|
    decreases |s| - from
  {
    if EndsWithAt(s, marker, from) || from == |s| then from
    else FirstMatchEnd(s, marker, from + 1)
  }

  /** The first `k` bytes of `s` end with `marker`. */
  predicate EndsWithAt(s: seq<byte>, marker: seq<byte>, k: nat)
  {
    |marker| <= k <= |s| && s[k - |marker|..k] == marker
  }

  class CircIoBuffer {
    /** The backing `BytesIO` store, at its full capacity. */
    var data: array<byte>
    var limit: nat
    var head: nat
    var tail: nat
    var available: nat
    var writeLocked: bool
    /** The unread bytes, oldest first. */
    ghost var Contents: seq<byte>

    ghost predicate Valid()
      reads this, data
    {
      0 < limit == data.Length && head < limit && tail < limit && available <= limit
      && tail == Wrap(head + available, limit)
      && Contents == View(data[..], head, available)
    }

    /** `CircIoBuffer(initial_buffer, size)`: keeps the last `size` bytes of
        the seed. */
    constructor (initial: seq<byte>, size: nat)
      requires size > 0
      ensures Valid() && fresh(data)
      ensures Contents == Newest(initial, size)
      ensures limit == size && head == 0 && tail == Wrap(|Contents|, size)
      ensures !writeLocked
    {
      var seed := SliceFrom(initial, -(size as int));
      data := new byte[size](i => if 0 <= i < |seed| then seed[i] else 0);
      available := |seed|;
      limit := size;
      head := 0;
      ModOnce(|seed|, size);
      tail := |seed| % size;
      Contents := seed;
      new;
      SetHead(|seed|, false);
      writeLocked := false;
      ViewFromStart(data[..], |seed|);
      assert data[..|seed|] == seed;
    }

    method LockWrite()
      requires Valid()
      modifies this
      ensures Valid() && writeLocked
      ensures data == old(data) && limit == old(limit) && head == old(head) && tail == old(tail)
      ensures available == old(available) && Contents == old(Contents)
    {
      writeLocked := true;
    }

    method UnlockWrite()
      requires Valid()
      modifies this
      ensures Valid() && !writeLocked
      ensures data == old(data) && limit == old(limit) && head == old(head) && tail == old(tail)
      ensures available == old(available) && Contents == old(Contents)
    {
      writeLocked := false;
    }

    /** `available()` and `len()`: the number of unread bytes. */
    function Available(): (n: nat)
      requires Valid()
      reads this, data
      ensures n == |Contents| && n <= limit
    {
      available
    }

    /** `_set_head`: the head moves on when the store is full or on a read. */
    method SetHead(amount: nat, readFlag: bool)
      requires head < limit && amount <= limit
      modifies this
      ensures data == old(data) && limit == old(limit) && tail == old(tail) && available == old(available)
      ensures head == (if old(available) >= limit || readFlag then Wrap(old(head) + amount, limit) else old(head))
      ensures writeLocked == old(writeLocked) && Contents == old(Contents)
    {
      if available >= limit || readFlag {
        ModOnce(head + amount, limit);
        head := (head + amount) % limit;
      }
    }

    /** `_set_tail`: the tail moves on, and a full store puts the head on it. */
    method SetTail(amount: nat)
      requires tail < limit && amount <= limit
      modifies this
      ensures data == old(data) && limit == old(limit) && available == old(available)
      ensures tail == Wrap(old(tail) + amount, limit)
      ensures head == (if old(available) == limit then tail else old(head))
      ensures writeLocked == old(writeLocked) && Contents == old(Contents)
    {
      ModOnce(tail + amount, limit);
      tail := (tail + amount) % limit;
      if available == limit {
        head := tail;
      }
    }

    /** Overwrites the backing store with `chunk` from position `pos` on, as
        a seek followed by a write on the store does. */
    method StoreAt(pos: nat, chunk: seq<byte>)
      requires pos + |chunk| <= data.Length
      modifies data
      ensures data[..] == old(data[..])[..pos] + chunk + old(data[..])[pos + |chunk|..]
    {
      forall k | 0 <= k < |chunk| {
        data[pos + k] := chunk[k];
      }
    }

    /** `_write`: stores a chunk that does not pass the end of the store at
        the tail, dropping the oldest bytes once the store is full. */
    method WriteChunk(chunk: seq<byte>)
      requires Valid() && |chunk| <= limit - tail
      modifies this, data
      ensures data == old(data) && limit == old(limit) && writeLocked == old(writeLocked)
      ensures Valid()
      ensures Contents == Newest(old(Contents) + chunk, limit)
      ensures tail == Wrap(old(tail) + |chunk|, limit)
      ensures available == (if old(available) + |chunk| > limit then limit else old(available) + |chunk|)
      ensures head == (if available == limit then tail else old(head))
    {
      ghost var d, h, a, t := data[..], head, available, tail;
      var n := |chunk|;
      available := available + n;
      if available > limit {
        available := limit;
      }
      StoreAt(tail, chunk);
      ghost var v := data[..];
      SetHead(n, false);
      ghost var h1 := head;
      SetTail(n);
      TailAfterWrite(h, a, t, n, limit, available, h1, tail, head);
      RecordChunk(d, h, a, t, chunk);
    }

    /** The contents after `_write` stored `chunk` at the old tail `t` of the
        store `d` and moved head and tail on. */
    ghost method RecordChunk(d: seq<byte>, h: nat, a: nat, t: nat, chunk: seq<byte>)
      requires 0 < limit == data.Length == |d| && h < limit && a <= limit
      requires t == Wrap(h + a, limit) && t + |chunk| <= limit
      requires Contents == View(d, h, a)
      requires data[..] == d[..t] + chunk + d[t + |chunk|..]
      requires available == (if a + |chunk| > limit then limit else a + |chunk|)
      requires head == (if available == limit then Wrap(t + |chunk|, limit) else h)
      requires tail < limit && tail == Wrap(head + available, limit)
      modifies this
      ensures Valid() && Contents == Newest(old(Contents) + chunk, limit)
      ensures data == old(data) && limit == old(limit) && head == old(head) && tail == old(tail)
      ensures available == old(available) && writeLocked == old(writeLocked)
    {
      WriteChunkView(d, data[..], h, a, t, chunk, head, available);
      Contents := Newest(Contents + chunk, limit);
    }

    /** `write`: unless write-locked, keeps the newest `limit` bytes of the
        contents followed by `bytes`, in two chunks split at the end of the
        store. */
    method Write(bytes: seq<byte>) returns (ok: bool)
      requires Valid()
      modifies this, data
      ensures Valid() && ok == !old(writeLocked)
      ensures data == old(data) && limit == old(limit) && writeLocked == old(writeLocked)
      ensures !ok ==> (Contents == old(Contents) && head == old(head) && tail == old(tail)
                       && available == old(available) && data[..] == old(data[..]))
      ensures ok ==> Contents == Newest(old(Contents) + bytes, limit)
      ensures ok ==> tail == Wrap(old(tail) + |Newest(bytes, limit)|, limit)
      ensures ok ==> head == (if available == limit then tail else old(head))
    {
      if writeLocked {
        return false;
      }
      var b := SliceFrom(bytes, -(limit as int));
      var b1 := Slice(b, 0, limit - tail);
      var b2 := SliceFrom(b, limit - tail);
      ghost var t, c := tail, Contents;
      SplitChunks(c, bytes, limit, t, b, b1, b2);
      WriteChunk(b1);
      WriteChunk(b2);
      TailAfterChunks(t, |b1|, |b2|, limit);
      ok := true;
    }

    /** `peek(amount)`: the oldest `amount` unread bytes (all of them for
        `None`), read across the end of the store; empty when nothing is
        unread. */
    method Peek(amount: Option<nat>) returns (r: seq<byte>)
      requires Valid()
      requires amount.None? || amount.value <= available || available == 0
      ensures r == (if available == 0 then [] else Contents[..Requested(amount)])
    {
      r := [];
      if available > 0 {
        var n := if amount.Some? then amount.value else available;
        var stop := if head + n < limit then head + n else limit;
        r := data[head..stop];
        if stop == limit {
          r := r + data[..n - |r|];
        }
        PeekView(data[..], head, available, n, stop);
      }
    }

    /** The amount a `peek` or `read` call asks for. */
    function Requested(amount: Option<nat>): nat
      reads this
    {
      if amount.Some? then amount.value else available
    }

    /** `read(amount)`: peeks, and consumes what was peeked. */
    method Read(amount: Option<nat>) returns (r: seq<byte>)
      requires Valid()
      requires amount.None? || amount.value <= available || available == 0
      modifies this
      ensures Valid()
      ensures r == (if old(available) == 0 then [] else old(Contents)[..old(Requested(amount))])
      ensures data == old(data) && limit == old(limit) && tail == old(tail) && writeLocked == old(writeLocked)
      ensures r != [] ==> (Contents == old(Contents)[|r|..] && available == old(available) - |r|
                           && head == Wrap(old(head) + |r|, limit))
      ensures r == [] ==> Contents == old(Contents) && available == old(available) && head == old(head)
    {
      var n := if amount.Some? then amount.value else available;
      r := Peek(Some(n));
      if r != [] {
        ghost var h, d := head, data[..];
        SetHead(n, true);
        available := available - n;
        ReadView(d, h, available + n, n);
        Contents := Contents[n..];
        assert data[..] == d;
      }
    }

    /** `flush`: re-initialises to an empty, unlocked store of the same
        capacity. */
    method Flush()
      requires Valid()
      modifies this
      ensures Valid() && fresh(data)
      ensures Contents == [] && head == 0 && tail == 0 && limit == old(limit) && !writeLocked
    {
      data := new byte[limit](i => 0);
      available := 0;
      head := 0;
      tail := 0;
      Contents := [];
      writeLocked := false;
    }

    /** `item in buffer`: does `item` occur in the unread bytes? */
    method Contains(item: seq<byte>) returns (b: bool)
      requires Valid()
      ensures b == IsSubstring(item, Contents)
    {
      var p := Peek(None);
      assert p == Contents;
      b := Occurs(item, p);
      OccursIsSubstring(item, p);
    }

    /** `flush_until(marker)`: reads byte by byte, keeping the last
        `|marker|` bytes read in a second ring buffer, until that buffer
        contains `marker` or nothing is left. An empty marker makes the
        second buffer's capacity 0, which raises before anything is read:
        `ok` is false then. */
    method FlushUntil(marker: seq<byte>) returns (ok: bool)
      requires Valid()
      modifies this
      ensures Valid() && ok == (|marker| > 0)
      ensures data == old(data) && limit == old(limit) && tail == old(tail) && writeLocked == old(writeLocked)
      ensures !ok ==> Contents == old(Contents) && head == old(head)
      ensures ok ==> Contents == old(Contents)[FirstMatchEnd(old(Contents), marker, 0)..]
    {
      if |marker| == 0 {
        return false;
      }
      ghost var s := Contents;
      ghost var d := data[..];
      var cb := new CircIoBuffer([], |marker|);
      assert data[..] == d;
      assert Valid();
      ghost var k := 0;
      var found := cb.Contains(marker);
      MatchInWindow(s, marker, 0);
      while !found
        invariant Valid() && cb.Valid() && !cb.writeLocked && cb.limit == |marker|
        invariant fresh(cb) && fresh(cb.data) && cb != this && cb.data != data
        invariant data == old(data) && limit == old(limit) && tail == old(tail) && writeLocked == old(writeLocked)
        invariant k <= |s| && Contents == s[k..]
        invariant cb.Contents == Newest(s[..k], |marker|)
        invariant found == EndsWithAt(s, marker, k)
        invariant FirstMatchEnd(s, marker, 0) == FirstMatchEnd(s, marker, k)
        decreases available
      {
        var c, f := FlushStep(cb, marker, s, k);
        if c == [] {
          break;
        }
        k := k + 1;
        found := f;
      }
      FirstMatchEndStops(s, marker, k);
      ok := true;
    }

    /** One round of `flush_until`'s loop over the unread bytes `s`, of
        which `k` were passed to `window` already: one more byte passes, and
        `found` says whether the window now holds the marker. */
    method FlushStep(window: CircIoBuffer, marker: seq<byte>, ghost s: seq<byte>, ghost k: nat)
      returns (c: seq<byte>, found: bool)
      requires Valid() && window.Valid() && !window.writeLocked && window.limit == |marker| > 0
      requires window != this && window.data != data
      requires k <= |s| && Contents == s[k..] && window.Contents == Newest(s[..k], |marker|)
      requires !EndsWithAt(s, marker, k)
      modifies this, window, window.data
      ensures Valid() && window.Valid() && !window.writeLocked && window.limit == |marker|
      ensures window.data == old(window.data)
      ensures data == old(data) && limit == old(limit) && tail == old(tail) && writeLocked == old(writeLocked)
      ensures c == [] ==> k == |s| && Contents == old(Contents)
      ensures c != [] ==> k < |s| && available == old(available) - 1 && Contents == s[k + 1..]
      ensures c != [] ==> window.Contents == Newest(s[..k + 1], |marker|) && found == EndsWithAt(s, marker, k + 1)
      ensures c != [] ==> FirstMatchEnd(s, marker, k) == FirstMatchEnd(s, marker, k + 1)
    {
      c := PassByte(window);
      found := false;
      if c != [] {
        ConsumeOne(s, k, c, marker);
        found := window.Contains(marker);
        MatchInWindow(s, marker, k + 1);
      }
    }

    /** One round of `flush_until`'s loop: reads one byte and, unless nothing
        was left, writes it into `window`. */
    method PassByte(window: CircIoBuffer) returns (c: seq<byte>)
      requires Valid() && window.Valid() && !window.writeLocked
      requires window != this && window.data != data
      modifies this, window, window.data
      ensures Valid() && window.Valid()
      ensures data == old(data) && limit == old(limit) && tail == old(tail) && writeLocked == old(writeLocked)
      ensures window.data == old(window.data) && window.limit == old(window.limit) && !window.writeLocked
      ensures c == (if old(available) == 0 then [] else old(Contents)[..1])
      ensures Contents == old(Contents)[|c|..] && available == old(available) - |c|
      ensures window.Contents == (if c == [] then old(window.Contents) else Newest(old(window.Contents) + c, window.limit))
    {
      c := Read(Some(1));
      if c != [] {
        ghost var d := data[..];
        var _ := window.Write(c);
        assert data[..] == d;
      }
    }
  }

  lemma ViewFromStart(d: seq<byte>, n: nat)
    requires 0 < |d| && n <= |d|
    ensures View(d, 0, n) == d[..n]
  {
  }

  /** How `write` splits its input at the end of the store: the two chunks
      fit, and storing one after the other keeps the same bytes as storing
      the input at once. */
  lemma SplitChunks(c: seq<byte>, bytes: seq<byte>, limit: nat, t: nat, b: seq<byte>, b1: seq<byte>, b2: seq<byte>)
    requires t < limit
    requires b == SliceFrom(bytes, -(limit as int))
    requires b1 == Slice(b, 0, limit - t) && b2 == SliceFrom(b, limit - t)
    ensures b == Newest(bytes, limit)
    ensures |b1| <= limit - t && |b1| + |b2| == |b| <= limit
    ensures b2 != [] ==> t + |b1| == limit
    ensures Newest(Newest(c + b1, limit) + b2, limit) == Newest(c + bytes, limit)
  {
    if |b| <= limit - t {
      assert b1 == b && b2 == [];
    } else {
      assert b1 == b[..limit - t] && b2 == b[limit - t..];
    }
    assert b1 + b2 == b;
    NewestAppend(c + b1, b2, limit);
    assert c + b1 + b2 == c + b;
    NewestOfSuffix(c, bytes, limit);
  }

  /** Two consecutive chunks move the tail as one chunk of their joint
      length. */
  lemma TailAfterChunks(t: nat, n1: nat, n2: nat, limit: nat)
    requires t < limit && t + n1 <= limit && n1 + n2 <= limit
    requires n2 > 0 ==> t + n1 == limit
    ensures Wrap(Wrap(t + n1, limit) + n2, limit) == Wrap(t + (n1 + n2), limit)
  {
  }

  lemma ModOnce(k: nat, limit: nat)
    requires k < 2 * limit
    ensures k % limit == Wrap(k, limit)
  {
    if k >= limit {
      assert k == limit * 1 + (k - limit);
    }
  }

  /** After a chunk of `n` bytes is stored at the tail, the tail is again
      `available` places after the head. */
  lemma TailAfterWrite(h: nat, a: nat, t: nat, n: nat, limit: nat, a2: nat, h1: nat, t2: nat, h2: nat)
    requires h < limit && a <= limit && t == Wrap(h + a, limit) && t + n <= limit
    requires a2 == (if a + n > limit then limit else a + n)
    requires h1 == (if a2 >= limit then Wrap(h + n, limit) else h)
    requires t2 == Wrap(t + n, limit)
    requires h2 == (if a2 == limit then t2 else h1)
    ensures h2 == (if a2 == limit then t2 else h)
    ensures h2 < limit && t2 == Wrap(h2 + a2, limit)
  {
  }

  /** No match ends before `to`: the search from `from` goes on to `to`. */
  lemma {:induction false} FirstMatchEndSkips(s: seq<byte>, marker: seq<byte>, from: nat, to: nat)
    requires from <= to <= |s|
    requires forall k :: from <= k < to ==> !EndsWithAt(s, marker, k)
    ensures FirstMatchEnd(s, marker, from) == FirstMatchEnd(s, marker, to)
    decreases |s| - from
  {
    if from < to {
      FirstMatchEndSkips(s, marker, from + 1, to);
    }
  }

  lemma FirstMatchEndStops(s: seq<byte>, marker: seq<byte>, k: nat)
    requires k <= |s| && (EndsWithAt(s, marker, k) || k == |s|)
    ensures FirstMatchEnd(s, marker, k) == k
  {
  }

  lemma ConsumeOne(s: seq<byte>, k: nat, c: seq<byte>, marker: seq<byte>)
    requires k < |s| && c == s[k..][..1] && |marker| > 0
    requires !EndsWithAt(s, marker, k)
    ensures s[k..][1..] == s[k + 1..]
    ensures Newest(Newest(s[..k], |marker|) + c, |marker|) == Newest(s[..k + 1], |marker|)
    ensures FirstMatchEnd(s, marker, k) == FirstMatchEnd(s, marker, k + 1)
  {
    assert s[..k + 1] == s[..k] + c;
    NewestAppend(s[..k], c, |marker|);
  }

  /** A window of the last `|marker|` bytes read contains `marker` exactly
      when those bytes end with it. */
  lemma MatchInWindow(s: seq<byte>, marker: seq<byte>, k: nat)
    requires |marker| > 0 && k <= |s|
    ensures IsSubstring(marker, Newest(s[..k], |marker|)) <==> EndsWithAt(s, marker, k)
  {
    var w := Newest(s[..k], |marker|);
    if IsSubstring(marker, w) {
      var i :| RunAt(marker, w, i);
      assert i == 0 && w == marker;
    }
    if EndsWithAt(s, marker, k) {
      assert RunAt(marker, w, 0);
    }
  }
}
