/** The byte queues of the WebSocket wrapper: a receive queue read through a
    cursor, with big-endian readers, an append path that grows or compacts
    the buffer, and a send queue flushed to the socket. */
module WebSocket {
  import opened Common

  /** The hard cap on the receive buffer: 40 MiB. */
  const MAX_RQ_GROW_SIZE: nat := 40 * 1024 * 1024
  /** The receive buffer size a new queue starts with: 4 MiB. */
  const INITIAL_RQ_BUFFER_SIZE: nat := 4 * 1024 * 1024
  /** The send buffer size: 10 KiB. */
  const SQ_BUFFER_SIZE: nat := 10 * 1024

  const TWO_32: int := 0x1_0000_0000
  const TWO_31: int := 0x8000_0000

  /** The exceptions the queues can raise. */
  datatype QueueError =
    | BufferExceeded   // the receive queue cannot grow enough for a message
    | RangeError       // a typed-array view or copy does not fit its buffer
    | HandlerError     // the message handler threw

  datatype Outcome = Done | Failed(error: QueueError)

  /** A typed-array view over the receive buffer, taken as a copy of its
      bytes, or the error its constructor raises. */
  datatype View = View(bytes: seq<Byte>) | BadView(error: QueueError)

  // ---------------------------------------------------------------------
  // Big-endian integers
  // ---------------------------------------------------------------------

  function Pow256(n: nat): (p: nat)
    ensures p >= 1
  {
    if n == 0 then 1 else 256 * Pow256(n - 1)
  }

  /** The unsigned big-endian value of a byte string. */
  function BigEndian(bs: seq<Byte>): (v: nat)
    ensures v < Pow256(|bs|)
  {
    if bs == [] then 0
    else
      var prefix := BigEndian(bs[..|bs| - 1]);
      assert prefix <= Pow256(|bs| - 1) - 1;
      prefix * 256 + bs[|bs| - 1]
  }

  /** The `n` bytes that represent `v` big-endian. */
  function EncodeBigEndian(v: nat, n: nat): (bs: seq<Byte>)
    requires v < Pow256(n)
    ensures |bs| == n
  {
    if n == 0 then []
    else
      assert v / 256 < Pow256(n - 1);
      EncodeBigEndian(v / 256, n - 1) + [v % 256]
  }

  /** Reading back an encoded value gives the value. */
  lemma {:induction false} BigEndianOfEncode(v: nat, n: nat)
    requires v < Pow256(n)
    ensures BigEndian(EncodeBigEndian(v, n)) == v
  {
    if n > 0 {
      var bs := EncodeBigEndian(v, n);
      assert bs[..n - 1] == EncodeBigEndian(v / 256, n - 1);
      BigEndianOfEncode(v / 256, n - 1);
    }
  }

  /** Encoding the value of a byte string gives the byte string back. */
  lemma {:induction false} EncodeOfBigEndian(bs: seq<Byte>)
    ensures EncodeBigEndian(BigEndian(bs), |bs|) == bs
  {
    if bs != [] {
      var n := |bs|;
      var prefix := bs[..n - 1];
      var v := BigEndian(bs);
      assert v / 256 == BigEndian(prefix) && v % 256 == bs[n - 1];
      EncodeOfBigEndian(prefix);
      assert bs == prefix + [bs[n - 1]];
    }
  }

  /** The signed 32-bit integer a JavaScript number becomes under a bitwise
      operator: the value modulo 2^32, taken in [-2^31, 2^31). */
  function ToInt32(x: int): (r: int)
    ensures -TWO_31 <= r < TWO_31
    ensures (x - r) % TWO_32 == 0
    ensures -TWO_31 <= x < TWO_31 ==> r == x
  {
    var m := x % TWO_32;
    if m >= TWO_31 then m - TWO_32 else m
  }

  /** `b << (8 * k)` for a byte `b`, with JavaScript's signed 32-bit result. */
  function ShiftLeft(b: Byte, k: nat): int
    requires k <= 3
  {
    ToInt32(b * Pow256(k))
  }

  /** The value `rQshift16` computes from its two bytes. */
  function Shift16Value(b0: Byte, b1: Byte): int
  {
    ShiftLeft(b0, 1) + b1
  }

  /** The value `rQshift32` computes from its four bytes. */
  function Shift32Value(b0: Byte, b1: Byte, b2: Byte, b3: Byte): int
  {
    ShiftLeft(b0, 3) + ShiftLeft(b1, 2) + ShiftLeft(b2, 1) + b3
  }

  /** `rQshift16` reads its two bytes as an unsigned big-endian number. */
  lemma Shift16IsBigEndian(b0: Byte, b1: Byte)
    ensures Shift16Value(b0, b1) == BigEndian([b0, b1])
    ensures 0 <= Shift16Value(b0, b1) < 0x1_0000
  {
    assert [b0, b1][..1] == [b0];
    assert [b0][..0] == [];
  }

  lemma BigEndian4(bs: seq<Byte>)
    requires |bs| == 4
    ensures BigEndian(bs) == bs[0] as int * 0x100_0000 + bs[1] as int * 0x1_0000 + bs[2] as int * 0x100 + bs[3]
  {
    assert bs[..3][..2] == bs[..2];
    assert bs[..2][..1] == bs[..1];
    assert bs[..1][..0] == [];
  }

  /** `rQshift32` reads its four bytes as a big-endian number taken as a
      signed 32-bit integer: a first byte of 0x80 or more gives a negative
      result. */
  lemma Shift32IsBigEndian(bs: seq<Byte>)
    requires |bs| == 4
    ensures Shift32Value(bs[0], bs[1], bs[2], bs[3]) == ToInt32(BigEndian(bs))
    ensures bs[0] < 0x80 ==> Shift32Value(bs[0], bs[1], bs[2], bs[3]) == BigEndian(bs)
    ensures bs[0] >= 0x80 ==> Shift32Value(bs[0], bs[1], bs[2], bs[3]) == BigEndian(bs) - TWO_32
  {
    BigEndian4(bs);
    var low: int := bs[1] as int * 0x1_0000 + bs[2] as int * 0x100 + bs[3];
    assert 0 <= low < 0x100_0000;
    var high: int := bs[0] as int * 0x100_0000;
    assert ShiftLeft(bs[1], 2) == bs[1] as int * 0x1_0000;
    assert ShiftLeft(bs[2], 1) == bs[2] as int * 0x100;
    if bs[0] < 0x80 {
      assert high + low < TWO_31;
    } else {
      assert TWO_31 <= high < TWO_32;
      assert ShiftLeft(bs[0], 3) == high - TWO_32;
      assert TWO_31 <= high + low < TWO_32;
      assert ToInt32(high + low) == high + low - TWO_32;
    }
  }

  // ---------------------------------------------------------------------
  // The grow-or-compact policy
  // ---------------------------------------------------------------------

  /** Whether the receive buffer is reallocated: when a message must fit
      (`minFit` non-zero; zero stands for an absent argument, which
      JavaScript treats alike), or when more than half of it is unread. */
  predicate ResizeNeeded(unread: nat, size: nat, minFit: nat)
  {
    minFit > 0 || 2 * unread > size
  }

  /** The size asked for before the cap: double for a plain compaction,
      eight times the unread bytes plus the message otherwise. */
  function RequestedSize(unread: nat, size: nat, minFit: nat): nat
  {
    if !ResizeNeeded(unread, size, minFit) then size
    else if minFit == 0 then 2 * size
    else (unread + minFit) * 8
  }

  /** The size after the 40 MiB cap. */
  function GrownSize(unread: nat, size: nat, minFit: nat): (s: nat)
    ensures s <= MAX_RQ_GROW_SIZE || s == size
  {
    var requested := RequestedSize(unread, size, minFit);
    if requested > MAX_RQ_GROW_SIZE then MAX_RQ_GROW_SIZE else requested
  }

  /** Whether the capped buffer cannot take the unread bytes and the message
      together, the test that makes the queue throw. */
  predicate Exceeds(unread: nat, size: nat, minFit: nat)
  {
    RequestedSize(unread, size, minFit) > MAX_RQ_GROW_SIZE
    && minFit > 0 && MAX_RQ_GROW_SIZE - unread < minFit
  }

  /** The throw test as the queue's code writes it, with the read cursor
      subtracted from the space left after the write cursor. */
  predicate ExceedsAsWritten(rQi: nat, rQlen: nat, size: nat, minFit: nat)
    requires rQi <= rQlen
  {
    RequestedSize(rQlen - rQi, size, minFit) > MAX_RQ_GROW_SIZE
    && minFit > 0 && MAX_RQ_GROW_SIZE - rQlen - rQi < minFit
  }

  /** The queue throws exactly when the unread bytes and the message
      together exceed the cap; a plain compaction never throws. */
  lemma ExceedsIff(unread: nat, size: nat, minFit: nat)
    ensures Exceeds(unread, size, minFit) <==> minFit > 0 && unread + minFit > MAX_RQ_GROW_SIZE
  {
    if minFit > 0 && unread + minFit > MAX_RQ_GROW_SIZE {
      assert RequestedSize(unread, size, minFit) == (unread + minFit) * 8;
    }
  }

  /** The buffer never grows beyond the cap, and it is left alone when no
      resize is needed. */
  lemma GrownSizeBounds(unread: nat, size: nat, minFit: nat)
    requires size <= MAX_RQ_GROW_SIZE
    ensures GrownSize(unread, size, minFit) <= MAX_RQ_GROW_SIZE
    ensures !ResizeNeeded(unread, size, minFit) ==> GrownSize(unread, size, minFit) == size
    ensures ResizeNeeded(unread, size, minFit) && minFit == 0 ==> GrownSize(unread, size, minFit) >= size
  {
  }

  /** When the queue does not throw, the resized buffer holds the unread
      bytes and the message; below the cap it keeps eight times that. */
  lemma GrownSizeFits(unread: nat, size: nat, minFit: nat)
    requires minFit > 0 && !Exceeds(unread, size, minFit)
    ensures unread + minFit <= GrownSize(unread, size, minFit)
    ensures RequestedSize(unread, size, minFit) <= MAX_RQ_GROW_SIZE
            ==> GrownSize(unread, size, minFit) == (unread + minFit) * 8
  {
  }

  /** The written test throws whenever the intended one does, and the two
      agree when nothing has been read yet. */
  lemma ExceedsAsWrittenIsStricter(rQi: nat, rQlen: nat, size: nat, minFit: nat)
    requires rQi <= rQlen
    ensures Exceeds(rQlen - rQi, size, minFit) ==> ExceedsAsWritten(rQi, rQlen, size, minFit)
    ensures rQi == 0 ==> (Exceeds(rQlen, size, minFit) <==> ExceedsAsWritten(0, rQlen, size, minFit))
  {
  }

  /** When the queue does not throw, the new size stays a multiple of 8 and
      takes every byte from the read cursor to the end of the old buffer,
      provided a fit is asked for only when the message does not fit after
      the write cursor. */
  lemma GrownSizeCovers(rQi: nat, rQlen: nat, len: nat, size: nat, minFit: nat)
    requires rQi <= rQlen <= len <= size <= MAX_RQ_GROW_SIZE && size % 8 == 0
    requires minFit == 0 || minFit > size - rQlen
    requires !Exceeds(rQlen - rQi, size, minFit)
    ensures GrownSize(rQlen - rQi, size, minFit) % 8 == 0
    ensures len - rQi <= GrownSize(rQlen - rQi, size, minFit) <= MAX_RQ_GROW_SIZE
  {
    var unread := rQlen - rQi;
    var g := GrownSize(unread, size, minFit);
    assert MAX_RQ_GROW_SIZE % 8 == 0;
    if !ResizeNeeded(unread, size, minFit) {
      assert g == size;
    } else if minFit == 0 {
      assert RequestedSize(unread, size, minFit) == 2 * size;
      DoubleMultipleOfEight(size);
    } else {
      var m := unread + minFit;
      assert RequestedSize(unread, size, minFit) == m * 8;
      assert m > size - rQi;
      MultipleOfEight(m);
    }
  }

  lemma MultipleOfEight(x: nat)
    ensures (x * 8) % 8 == 0 && x * 8 >= x
  {
  }

  lemma DoubleMultipleOfEight(x: nat)
    requires x % 8 == 0
    ensures (2 * x) % 8 == 0
  {
  }

  /** With 100 bytes read and 100 unread, a message of the cap less 200
      bytes fits in the capped buffer, yet the written test throws. */
  lemma ExceedsAsWrittenRejectsFittingMessage()
    ensures ExceedsAsWritten(100, 200, INITIAL_RQ_BUFFER_SIZE, MAX_RQ_GROW_SIZE - 200)
    ensures !Exceeds(100, INITIAL_RQ_BUFFER_SIZE, MAX_RQ_GROW_SIZE - 200)
    ensures 100 + (MAX_RQ_GROW_SIZE - 200) <= MAX_RQ_GROW_SIZE
    ensures MAX_RQ_GROW_SIZE - 200 > INITIAL_RQ_BUFFER_SIZE - 200
  {
  }

  // ---------------------------------------------------------------------
  // Sequence helpers
  // ---------------------------------------------------------------------

  function Zeros(n: nat): (z: seq<Byte>)
    ensures |z| == n && forall k :: 0 <= k < n ==> z[k] == 0
  {
    seq(n, _ => 0)
  }

  /** The contents after copying `s[i..]` to the front of `s` in place:
      the tail keeps its old bytes. */
  function Compacted(s: seq<Byte>, i: nat): (c: seq<Byte>)
    requires i <= |s|
    ensures |c| == |s|
  {
    s[i..] + s[|s| - i..]
  }

  /** Both copies below leave `s[i..j]` at the front. */
  lemma UnreadAtFront(s: seq<Byte>, t: seq<Byte>, i: nat, j: nat)
    requires i <= j <= |s| && |s| - i <= |t|
    requires t[..|s| - i] == s[i..]
    ensures t[..j - i] == s[i..j]
  {
    assert t[..j - i] == t[..|s| - i][..j - i];
  }

  /** A new zero-filled `Uint8Array` of `size` bytes into which the bytes of
      `a` from `from` on are set. */
  method CopyToNewBuffer(a: array<Byte>, from: nat, size: nat) returns (b: array<Byte>)
    requires from <= a.Length && a.Length - from <= size
    ensures fresh(b) && b.Length == size
    ensures b[..] == a[from..] + Zeros(size - (a.Length - from))
    ensures b[..a.Length - from] == a[from..]
  {
    b := new Byte[size](_ => 0);
    forall k | 0 <= k < a.Length - from {
      b[k] := a[from + k];
    }
  }

  /** Sets the bytes of `a` from `from` on at the start of `a` itself; the
      typed-array copy reads the source before it writes. */
  method CopyDown(a: array<Byte>, from: nat)
    requires from <= a.Length
    modifies a
    ensures a[..] == Compacted(old(a[..]), from)
    ensures a[..a.Length - from] == old(a[from..])
  {
    forall k | 0 <= k < a.Length - from {
      a[k] := a[from + k];
    }
  }

  /** `a.set(src, offset)`: the bytes of `src` written into `a` from
      `offset` on. */
  method SetAt(a: array<Byte>, src: seq<Byte>, offset: nat)
    requires offset + |src| <= a.Length
    modifies a
    ensures a[..] == old(a[..offset]) + src + old(a[offset + |src|..])
  {
    forall k | 0 <= k < |src| {
      a[offset + k] := src[k];
    }
  }

  /** All bytes of a sequence of messages, in order. */
  function Flatten(msgs: seq<seq<Byte>>): seq<Byte>
  {
    if msgs == [] then [] else Flatten(msgs[..|msgs| - 1]) + msgs[|msgs| - 1]
  }

  // ---------------------------------------------------------------------
  // The queues
  // ---------------------------------------------------------------------

  /** The queue object. `receiveQueue[rQi..rQlen]` holds the bytes received
      and not yet read; `sendQueue[..sQlen]` the bytes queued and not yet
      transmitted. `isOpen` is the socket's ready state being OPEN, and
      `transmitted` records every message handed to the socket. */
  class WebSock {
    var rQi: nat
    var rQlen: nat
    var rQbufferSize: nat
    var rQmax: nat
    var receiveQueue: array?<Byte>
    var sQbufferSize: nat
    var sQlen: nat
    var sendQueue: array?<Byte>
    var isOpen: bool
    var transmitted: seq<seq<Byte>>

    /** The sizes and cursors as every operation leaves them. */
    ghost predicate Configured()
      reads this
    {
      rQlen <= rQbufferSize <= MAX_RQ_GROW_SIZE && rQbufferSize % 8 == 0
      && rQmax * 8 <= rQbufferSize && sQlen <= sQbufferSize
    }

    /** The queue invariant once the buffers exist. The receive buffer may be
        shorter than `rQbufferSize`: a failed grow leaves the size at the cap
        and the buffer as it was. */
    ghost predicate Valid()
      reads this
    {
      Configured()
      && receiveQueue != null && sendQueue != null && receiveQueue != sendQueue
      && rQi <= rQlen <= receiveQueue.Length <= rQbufferSize
      && rQmax * 8 <= receiveQueue.Length
      && sendQueue.Length == sQbufferSize
    }

    /** The received bytes not yet read. */
    ghost function Unread(): seq<Byte>
      reads this, receiveQueue
      requires Valid()
    {
      receiveQueue[rQi..rQlen]
    }

    /** The bytes waiting in the send queue. */
    ghost function Pending(): seq<Byte>
      reads this, sendQueue
      requires Valid()
    {
      sendQueue[..sQlen]
    }

    twostate predicate SendSideUnchanged()
      reads this
    {
      sendQueue == old(sendQueue) && sQbufferSize == old(sQbufferSize) && sQlen == old(sQlen)
      && isOpen == old(isOpen) && transmitted == old(transmitted)
    }

    twostate predicate ReceiveSideUnchanged()
      reads this
    {
      receiveQueue == old(receiveQueue) && rQi == old(rQi) && rQlen == old(rQlen)
      && rQbufferSize == old(rQbufferSize) && rQmax == old(rQmax)
    }

    /** Only the read cursor has changed. */
    twostate predicate CursorMoved()
      reads this
    {
      SendSideUnchanged() && receiveQueue == old(receiveQueue) && rQlen == old(rQlen)
      && rQbufferSize == old(rQbufferSize) && rQmax == old(rQmax)
    }

    /** A new queue: 4 MiB receive size, a threshold of an eighth of it,
        10 KiB send size, and no buffers yet. */
    constructor()
      ensures Configured()
      ensures rQi == 0 && rQlen == 0 && rQbufferSize == INITIAL_RQ_BUFFER_SIZE
      ensures rQmax == INITIAL_RQ_BUFFER_SIZE / 8
      ensures receiveQueue == null && sendQueue == null
      ensures sQbufferSize == SQ_BUFFER_SIZE && sQlen == 0
      ensures !isOpen && transmitted == []
    {
      rQi := 0;
      rQlen := 0;
      rQbufferSize := INITIAL_RQ_BUFFER_SIZE;
      rQmax := INITIAL_RQ_BUFFER_SIZE / 8;
      receiveQueue := null;
      sQbufferSize := SQ_BUFFER_SIZE;
      sQlen := 0;
      sendQueue := null;
      isOpen := false;
      transmitted := [];
    }

    /** Allocates zero-filled buffers of the configured sizes and moves the
        read cursor to the start; there is no socket afterwards. The write
        cursor is left where it was. */
    method Init()
      requires Configured()
      modifies this
      ensures Valid() && fresh(receiveQueue) && fresh(sendQueue)
      ensures receiveQueue[..] == Zeros(rQbufferSize) && sendQueue[..] == Zeros(sQbufferSize)
      ensures rQi == 0 && !isOpen
      ensures rQlen == old(rQlen) && rQbufferSize == old(rQbufferSize) && rQmax == old(rQmax)
      ensures sQbufferSize == old(sQbufferSize) && sQlen == old(sQlen) && transmitted == old(transmitted)
    {
      receiveQueue := new Byte[rQbufferSize](_ => 0);
      sendQueue := new Byte[sQbufferSize](_ => 0);
      rQi := 0;
      isOpen := false;
    }

    /** The number of unread bytes. */
    function RQLen(): (n: nat)
      reads this, receiveQueue
      requires Valid()
      ensures n == |Unread()|
    {
      rQlen - rQi
    }

    /** The next unread byte, without moving either cursor. */
    function RQPeek8(): (b: Byte)
      reads this, receiveQueue
      requires Valid() && rQi < rQlen
      ensures b == Unread()[0]
    {
      receiveQueue[rQi]
    }

    /** Reads one byte. */
    method RQShift8() returns (b: Byte)
      requires Valid() && rQi < rQlen
      modifies this
      ensures Valid() && CursorMoved() && rQi == old(rQi) + 1
      ensures b == old(Unread())[0] && Unread() == old(Unread())[1..]
    {
      b := receiveQueue[rQi];
      rQi := rQi + 1;
    }

    /** Skips one byte. */
    method RQSkip8()
      requires Valid() && rQi < rQlen
      modifies this
      ensures Valid() && CursorMoved() && rQi == old(rQi) + 1
      ensures Unread() == old(Unread())[1..]
    {
      rQi := rQi + 1;
    }

    /** Skips `num` bytes. */
    method RQSkipBytes(num: nat)
      requires Valid() && rQi + num <= rQlen
      modifies this
      ensures Valid() && CursorMoved() && rQi == old(rQi) + num
      ensures Unread() == old(Unread())[num..]
    {
      rQi := rQi + num;
    }

    /** Reads two bytes as a big-endian number. */
    method RQShift16() returns (v: int)
      requires Valid() && rQi + 2 <= rQlen
      modifies this
      ensures Valid() && CursorMoved() && rQi == old(rQi) + 2
      ensures v == BigEndian(old(Unread())[..2]) && Unread() == old(Unread())[2..]
    {
      var b0 := receiveQueue[rQi];
      rQi := rQi + 1;
      var b1 := receiveQueue[rQi];
      rQi := rQi + 1;
      v := ShiftLeft(b0, 1) + b1;
      Shift16IsBigEndian(b0, b1);
      assert old(Unread())[..2] == [b0, b1];
    }

    /** Reads four bytes as a big-endian number, signed as the 32-bit
        result of JavaScript's `<<` makes it. */
    method RQShift32() returns (v: int)
      requires Valid() && rQi + 4 <= rQlen
      modifies this
      ensures Valid() && CursorMoved() && rQi == old(rQi) + 4
      ensures v == ToInt32(BigEndian(old(Unread())[..4])) && Unread() == old(Unread())[4..]
      ensures -TWO_31 <= v < TWO_31
    {
      ghost var bs := receiveQueue[rQi..rQi + 4];
      var b0 := receiveQueue[rQi];
      rQi := rQi + 1;
      var b1 := receiveQueue[rQi];
      rQi := rQi + 1;
      var b2 := receiveQueue[rQi];
      rQi := rQi + 1;
      var b3 := receiveQueue[rQi];
      rQi := rQi + 1;
      v := ShiftLeft(b0, 3) + ShiftLeft(b1, 2) + ShiftLeft(b2, 1) + b3;
      Shift32IsBigEndian(bs);
      assert old(Unread())[..4] == bs;
    }

    /** The number of bytes an optional length stands for: all unread bytes
        when it is absent. */
    function LengthOrRest(len: Option<nat>): (n: nat)
      reads this
      requires rQi <= rQlen
      ensures len.None? ==> n == rQlen - rQi
      ensures len.Some? ==> n == len.value
    {
      if len.None? then rQlen - rQi else len.value
    }

    /** Reads `len` bytes (all unread bytes when absent) as a string with
        one character per byte. */
    method ReceiveQueueShift(len: Option<nat>) returns (s: string)
      requires Valid() && rQi + LengthOrRest(len) <= rQlen
      modifies this
      ensures Valid() && CursorMoved() && rQi == old(rQi) + old(LengthOrRest(len))
      ensures s == CharsOfBytes(old(Unread())[..old(LengthOrRest(len))])
      ensures Unread() == old(Unread())[old(LengthOrRest(len))..]
      ensures len.None? ==> rQi == rQlen && |s| == old(|Unread()|)
    {
      var n := LengthOrRest(len);
      s := CharsOfBytes(receiveQueue[rQi..rQi + n]);
      rQi := rQi + n;
    }

    /** Reads `len` bytes (all unread bytes when absent). */
    method RQShiftBytes(len: Option<nat>) returns (bs: seq<Byte>)
      requires Valid() && rQi + LengthOrRest(len) <= rQlen
      modifies this
      ensures Valid() && CursorMoved() && rQi == old(rQi) + old(LengthOrRest(len))
      ensures bs == old(Unread())[..old(LengthOrRest(len))]
      ensures old(Unread()) == bs + Unread()
    {
      ghost var unread := Unread();
      var n := LengthOrRest(len);
      rQi := rQi + n;
      bs := receiveQueue[rQi - n..rQi];
      assert bs == unread[..n];
      assert Unread() == unread[n..];
    }

    /** Copies `len` bytes (all unread bytes when absent) to the front of
        `target`, which fails with a range error when they do not fit. */
    method RQShiftTo(target: array<Byte>, len: Option<nat>) returns (outcome: Outcome)
      requires Valid() && rQi + LengthOrRest(len) <= rQlen
      modifies this, target
      ensures Valid() && CursorMoved()
      ensures outcome.Failed? <==> old(LengthOrRest(len)) > target.Length
      ensures outcome.Failed? ==> outcome.error == RangeError && rQi == old(rQi)
                                  && target[..] == old(target[..])
      ensures outcome.Done? ==>
        rQi == old(rQi) + old(LengthOrRest(len))
        && target[..] == old(Unread())[..old(LengthOrRest(len))] + old(target[LengthOrRest(len)..])
      ensures target != receiveQueue ==> receiveQueue[..] == old(receiveQueue[..])
    {
      var n := LengthOrRest(len);
      if n > target.Length {
        return Failed(RangeError);
      }
      ghost var taken := Unread()[..n];
      ghost var rest := target[n..];
      forall k | 0 <= k < n {
        target[k] := receiveQueue[rQi + k];
      }
      assert target[..] == taken + rest by {
        assert forall k :: 0 <= k < n ==> target[k] == taken[k];
        assert forall k :: n <= k < target.Length ==> target[k] == rest[k - n];
      }
      rQi := rQi + n;
      outcome := Done;
    }

    /** All bytes written so far, read or not. */
    function RQWhole(): (bs: seq<Byte>)
      reads this, receiveQueue
      requires Valid()
      ensures |bs| == rQlen && bs[rQi..] == Unread()
    {
      receiveQueue[..rQlen]
    }

    /** The bytes from `start` past the read cursor up to `end` past it;
        an `end` of 0 (absent) means up to the write cursor. The view
        constructor raises a range error for a negative length or a range
        past the buffer. */
    function RQSlice(start: nat, end: nat): (r: View)
      reads this, receiveQueue
      requires Valid()
      ensures r.BadView? <==>
        (if end == 0 then start > rQlen - rQi else start > end || rQi + end > receiveQueue.Length)
      ensures r.BadView? ==> r.error == RangeError
      ensures end == 0 && r.View? ==> r.bytes == Unread()[start..]
      ensures end != 0 && r.View? ==> |r.bytes| == end - start
      ensures end != 0 && start <= end <= rQlen - rQi ==> r == View(Unread()[start..end])
    {
      if end != 0 then
        if start > end || rQi + end > receiveQueue.Length then BadView(RangeError)
        else
          assert end <= rQlen - rQi ==> receiveQueue[rQi + start..rQi + end] == Unread()[start..end] by {
            if end <= rQlen - rQi {
              assert Unread() == receiveQueue[rQi..rQlen];
              assert forall k :: 0 <= k < end - start ==> Unread()[start..end][k] == receiveQueue[rQi + start + k];
            }
          }
          View(receiveQueue[rQi + start..rQi + end])
      else if start > rQlen - rQi then BadView(RangeError)
      else View(receiveQueue[rQi + start..rQlen])
    }

    /** Sends the queued bytes as one message when there are any and the
        socket is open; otherwise they stay queued. */
    method Flush()
      requires Valid()
      modifies this
      ensures Valid() && ReceiveSideUnchanged()
      ensures sendQueue == old(sendQueue) && sQbufferSize == old(sQbufferSize) && isOpen == old(isOpen)
      ensures old(sQlen) > 0 && isOpen ==> sQlen == 0 && transmitted == old(transmitted) + [old(Pending())]
      ensures !(old(sQlen) > 0 && isOpen) ==> sQlen == old(sQlen) && transmitted == old(transmitted)
      ensures Flatten(transmitted) + Pending() == Flatten(old(transmitted)) + old(Pending())
    {
      if sQlen > 0 && isOpen {
        var msg := sendQueue[..sQlen];
        transmitted := transmitted + [msg];
        sQlen := 0;
        assert Flatten(transmitted) == Flatten(old(transmitted)) + msg by {
          assert transmitted[..|transmitted| - 1] == old(transmitted);
        }
      }
    }

    /** Appends `arr` to the send queue and flushes it; a range error when
        it does not fit, with nothing changed. */
    method Send(arr: seq<Byte>) returns (outcome: Outcome)
      requires Valid()
      modifies this, sendQueue
      ensures Valid() && ReceiveSideUnchanged() && Unread() == old(Unread())
      ensures sendQueue == old(sendQueue) && sQbufferSize == old(sQbufferSize) && isOpen == old(isOpen)
      ensures outcome.Failed? <==> old(sQlen) + |arr| > sQbufferSize
      ensures outcome.Failed? ==> outcome.error == RangeError && sQlen == old(sQlen)
                                  && transmitted == old(transmitted) && Pending() == old(Pending())
      ensures outcome.Done? && old(sQlen) + |arr| > 0 && isOpen ==>
        sQlen == 0 && transmitted == old(transmitted) + [old(Pending()) + arr]
      ensures outcome.Done? && !(old(sQlen) + |arr| > 0 && isOpen) ==>
        transmitted == old(transmitted) && Pending() == old(Pending()) + arr
      ensures outcome.Done? ==> Flatten(transmitted) + Pending() == Flatten(old(transmitted)) + old(Pending()) + arr
    {
      if sQlen + |arr| > sendQueue.Length {
        return Failed(RangeError);
      }
      SetAt(sendQueue, arr, sQlen);
      sQlen := sQlen + |arr|;
      assert Pending() == old(Pending()) + arr;
      Flush();
      outcome := Done;
    }
  
    /** The copy that ends a grow or compaction: the bytes from the read
        cursor on go to the start of a new zero-filled buffer of
        `rQbufferSize` bytes, whose eighth becomes the compaction threshold,
        or to the start of the current buffer; then the cursors move down. */
    method MoveUnreadToFront(reallocate: bool, ghost before: seq<Byte>)
      requires receiveQueue != null && before == receiveQueue[..]
      requires rQi <= rQlen <= |before| && |before| - rQi <= rQbufferSize && rQbufferSize % 8 == 0
      modifies this, receiveQueue
      ensures SendSideUnchanged() && rQbufferSize == old(rQbufferSize)
      ensures receiveQueue != null && rQi == 0 && rQlen == old(rQlen) - old(rQi) <= receiveQueue.Length
      ensures receiveQueue[..rQlen] == before[old(rQi)..old(rQlen)]
      ensures reallocate ==>
        fresh(receiveQueue) && receiveQueue.Length == rQbufferSize && rQmax * 8 == rQbufferSize
        && receiveQueue[..] == before[old(rQi)..] + Zeros(rQbufferSize - (|before| - old(rQi)))
      ensures !reallocate ==>
        receiveQueue == old(receiveQueue) && rQmax == old(rQmax)
        && receiveQueue[..] == Compacted(before, old(rQi))
    {
      var i, j := rQi, rQlen;
      if reallocate {
        GrowInto(before);
        UnreadAtFront(before, receiveQueue[..], i, j);
      } else {
        CopyDown(receiveQueue, i);
        UnreadAtFront(before, receiveQueue[..], i, j);
      }
      rQlen := j - i;
      rQi := 0;
    }

    /** The grow branch of the copy: a new zero-filled buffer of
        `rQbufferSize` bytes, whose eighth becomes the compaction threshold,
        takes the bytes from the read cursor on. */
    method GrowInto(ghost before: seq<Byte>)
      requires receiveQueue != null && before == receiveQueue[..]
      requires rQi <= |before| && |before| - rQi <= rQbufferSize
      modifies this
      ensures SendSideUnchanged() && rQi == old(rQi) && rQlen == old(rQlen) && rQbufferSize == old(rQbufferSize)
      ensures fresh(receiveQueue) && receiveQueue.Length == rQbufferSize && rQmax == rQbufferSize / 8
      ensures receiveQueue[..] == before[rQi..] + Zeros(rQbufferSize - (|before| - rQi))
      ensures receiveQueue[..|before| - rQi] == before[rQi..]
    {
      rQmax := rQbufferSize / 8;
      receiveQueue := CopyToNewBuffer(receiveQueue, rQi, rQbufferSize);
    }

    /** Moves the unread bytes to the start of the receive buffer. The
        buffer is reallocated when a message of `minFit` bytes must fit
        (0 stands for no such message) or when more than half of it is
        unread, at the size `GrownSize` gives; otherwise the bytes are
        copied down in place. Throws, having only set the size to the cap,
        when the capped buffer cannot take the unread bytes and the message.
        The caller asks for a fit only when the message does not fit after
        the write cursor. */
    method ExpandCompact(minFit: nat) returns (outcome: Outcome)
      requires Valid()
      requires minFit == 0 || minFit > rQbufferSize - rQlen
      modifies this, receiveQueue
      ensures Valid() && SendSideUnchanged() && Pending() == old(Pending())
      ensures outcome.Failed? <==> Exceeds(old(rQlen - rQi), old(rQbufferSize), minFit)
      ensures outcome.Failed? ==>
        outcome.error == BufferExceeded && rQbufferSize == MAX_RQ_GROW_SIZE
        && receiveQueue == old(receiveQueue) && receiveQueue[..] == old(receiveQueue[..])
        && rQi == old(rQi) && rQlen == old(rQlen) && rQmax == old(rQmax)
      ensures outcome.Done? ==>
        rQi == 0 && rQlen == old(rQlen - rQi) && Unread() == old(Unread())
        && rQbufferSize == GrownSize(old(rQlen - rQi), old(rQbufferSize), minFit)
      ensures outcome.Done? && ResizeNeeded(old(rQlen - rQi), old(rQbufferSize), minFit) ==>
        fresh(receiveQueue) && receiveQueue.Length == rQbufferSize && rQmax == rQbufferSize / 8
      ensures outcome.Done? && !ResizeNeeded(old(rQlen - rQi), old(rQbufferSize), minFit) ==>
        receiveQueue == old(receiveQueue) && rQmax == old(rQmax)
    {
      var unread := rQlen - rQi;
      var resizeNeeded := ResizeNeeded(unread, rQbufferSize, minFit);
      var newSize := RequestedSize(unread, rQbufferSize, minFit);
      if newSize > MAX_RQ_GROW_SIZE {
        newSize := MAX_RQ_GROW_SIZE;
        if minFit > 0 && newSize - unread < minFit {
          assert Exceeds(unread, rQbufferSize, minFit);
          rQbufferSize := newSize;
          return Failed(BufferExceeded);
        }
      }
      assert !Exceeds(unread, rQbufferSize, minFit) && newSize == GrownSize(unread, rQbufferSize, minFit);
      GrownSizeCovers(rQi, rQlen, receiveQueue.Length, rQbufferSize, minFit);
      Regrow(newSize, resizeNeeded);
      outcome := Done;
    }

    /** The successful end of a grow or compaction: the new size is recorded
        and the unread bytes move to the start of the buffer, a new one of
        the new size when `reallocate` is set. */
    method Regrow(newSize: nat, reallocate: bool)
      requires Valid()
      requires newSize <= MAX_RQ_GROW_SIZE && newSize % 8 == 0 && receiveQueue.Length - rQi <= newSize
      requires reallocate || newSize == rQbufferSize
      modifies this, receiveQueue
      ensures Valid() && SendSideUnchanged()
      ensures rQi == 0 && rQlen == old(rQlen - rQi) && Unread() == old(Unread()) && rQbufferSize == newSize
      ensures reallocate ==> fresh(receiveQueue) && receiveQueue.Length == newSize && rQmax == newSize / 8
      ensures !reallocate ==> receiveQueue == old(receiveQueue) && rQmax == old(rQmax)
    {
      ghost var unreadBytes := Unread();
      rQbufferSize := newSize;
      MoveUnreadToFront(reallocate, receiveQueue[..]);
      assert Unread() == unreadBytes;
    }
  
    /** Appends a received message after the unread bytes, first growing or
        compacting the buffer when it does not fit after the write cursor.
        Fails with the grow's exception when the unread bytes and the
        message exceed the cap, and with a range error when the buffer is
        shorter than its recorded size (left so by an earlier failed grow)
        and the message does not fit in it. */
    method DecodeMessage(data: seq<Byte>) returns (outcome: Outcome)
      requires Valid()
      modifies this, receiveQueue
      ensures Valid() && SendSideUnchanged() && Pending() == old(Pending())
      ensures receiveQueue == old(receiveQueue) || fresh(receiveQueue)
      ensures outcome == Failed(BufferExceeded) <==>
        |data| > old(rQbufferSize - rQlen) && old(rQlen - rQi) + |data| > MAX_RQ_GROW_SIZE
      ensures outcome == Failed(RangeError) <==>
        |data| <= old(rQbufferSize - rQlen) && old(rQlen) + |data| > old(receiveQueue.Length)
      ensures outcome.Failed? ==> outcome.error != HandlerError
      ensures outcome.Failed? ==>
        rQi == old(rQi) && rQlen == old(rQlen) && rQmax == old(rQmax)
        && receiveQueue == old(receiveQueue) && receiveQueue[..] == old(receiveQueue[..])
      ensures outcome == Failed(BufferExceeded) ==> rQbufferSize == MAX_RQ_GROW_SIZE
      ensures outcome == Failed(RangeError) ==> rQbufferSize == old(rQbufferSize)
      ensures outcome.Done? ==> Unread() == old(Unread()) + data
      ensures outcome.Done? && |data| <= old(rQbufferSize - rQlen) ==>
        rQi == old(rQi) && rQlen == old(rQlen) + |data| && ReceiveBufferKept()
        && receiveQueue[..] == old(receiveQueue[..rQlen]) + data + old(receiveQueue[rQlen + |data|..])
      ensures outcome.Done? && |data| > old(rQbufferSize - rQlen) ==>
        rQi == 0 && rQlen == old(rQlen - rQi) + |data|
    {
      if |data| > rQbufferSize - rQlen {
        ghost var unread, size := rQlen - rQi, rQbufferSize;
        ExceedsIff(unread, size, |data|);
        outcome := ExpandCompact(|data|);
        if outcome.Failed? {
          return;
        }
        GrownSizeFits(unread, size, |data|);
        assert rQlen + |data| <= receiveQueue.Length;
      }
      if rQlen + |data| > receiveQueue.Length {
        return Failed(RangeError);
      }
      Append(data);
      outcome := Done;
    }

    /** Writes `data` at the write cursor, which moves past it. */
    method Append(data: seq<Byte>)
      requires Valid() && rQlen + |data| <= receiveQueue.Length
      modifies this, receiveQueue
      ensures Valid() && SendSideUnchanged() && ReceiveBufferKept() && Pending() == old(Pending())
      ensures rQi == old(rQi) && rQlen == old(rQlen) + |data| && Unread() == old(Unread()) + data
      ensures receiveQueue[..] == old(receiveQueue[..rQlen]) + data + old(receiveQueue[rQlen + |data|..])
    {
      ghost var unread := Unread();
      SetAt(receiveQueue, data, rQlen);
      rQlen := rQlen + |data|;
      assert Unread() == unread + data;
    }

    /** The buffer, its size and its threshold are as they were. */
    twostate predicate ReceiveBufferKept()
      reads this
    {
      receiveQueue == old(receiveQueue) && rQbufferSize == old(rQbufferSize) && rQmax == old(rQmax)
    }

    /** The maintenance after the message handler: a drained queue has both
        cursors reset to 0; otherwise a write cursor past the threshold
        compacts (and possibly doubles) the buffer, which cannot fail. */
    method CompactAfterHandler()
      requires Valid()
      modifies this, receiveQueue
      ensures Valid() && SendSideUnchanged() && Unread() == old(Unread())
      ensures receiveQueue == old(receiveQueue) || fresh(receiveQueue)
      ensures old(rQlen == rQi) ==>
        rQi == 0 && rQlen == 0 && ReceiveBufferKept() && receiveQueue[..] == old(receiveQueue[..])
      ensures old(rQlen != rQi && rQlen > rQmax) ==> rQi == 0 && rQlen == old(rQlen - rQi)
      ensures old(rQlen != rQi && rQlen <= rQmax) ==>
        ReceiveSideUnchanged() && receiveQueue[..] == old(receiveQueue[..])
    {
      if rQlen == rQi {
        rQlen := 0;
        rQi := 0;
      } else if rQlen > rQmax {
        ExceedsIff(rQlen - rQi, rQbufferSize, 0);
        var compacted := ExpandCompact(0);
      }
    }

    /** One incoming message: appended to the queue, then, when the queue is
        non-empty, handed to the message handler, which reads `consumed`
        bytes from the front and then returns or, when `throws` holds,
        throws; after a return the queue is maintained. A failed append
        reaches the error handler with nothing read, and so does a throwing
        handler, with its bytes read and no maintenance. */
    method RecvMessage(data: seq<Byte>, consumed: nat, throws: bool) returns (outcome: Outcome)
      requires Valid() && consumed <= rQlen - rQi + |data|
      modifies this, receiveQueue
      ensures Valid() && SendSideUnchanged() && Pending() == old(Pending())
      ensures receiveQueue == old(receiveQueue) || fresh(receiveQueue)
      ensures outcome.Failed? && outcome.error != HandlerError <==>
        (|data| > old(rQbufferSize - rQlen) && old(rQlen - rQi) + |data| > MAX_RQ_GROW_SIZE)
        || (|data| <= old(rQbufferSize - rQlen) && old(rQlen) + |data| > old(receiveQueue.Length))
      ensures outcome.Failed? && outcome.error != HandlerError ==>
        rQi == old(rQi) && rQlen == old(rQlen) && Unread() == old(Unread())
      ensures outcome == Failed(HandlerError) ==> throws && old(rQlen - rQi) + |data| > 0
      ensures outcome.Done? && throws ==> old(rQlen - rQi) + |data| == 0
      ensures outcome.Done? || outcome == Failed(HandlerError) ==> Unread() == (old(Unread()) + data)[consumed..]
      ensures outcome.Done? && old(rQlen - rQi) + |data| == 0 ==> rQi == old(rQi) && rQlen == old(rQlen)
      ensures outcome.Done? && 0 < consumed == old(rQlen - rQi) + |data| ==> rQi == 0 && rQlen == 0
      ensures outcome == Failed(HandlerError) && |data| <= old(rQbufferSize - rQlen) ==>
        rQi == old(rQi) + consumed && rQlen == old(rQlen) + |data|
    {
      ghost var unread := Unread();
      outcome := DecodeMessage(data);
      if outcome.Failed? {
        assert outcome.error.BufferExceeded? || outcome.error.RangeError?;
        assert Unread() == unread;
        return;
      }
      assert Unread() == unread + data;
      if rQlen - rQi > 0 {
        outcome := HandleReceived(consumed, throws);
      }
    }

    /** The handler's turn on a non-empty queue: it reads `consumed` bytes
        from the front; when it returns the queue is maintained, and when it
        throws the cursors stay where the handler left them. */
    method HandleReceived(consumed: nat, throws: bool) returns (outcome: Outcome)
      requires Valid() && 0 < rQlen - rQi && consumed <= rQlen - rQi
      modifies this, receiveQueue
      ensures Valid() && SendSideUnchanged()
      ensures receiveQueue == old(receiveQueue) || fresh(receiveQueue)
      ensures Unread() == old(Unread())[consumed..]
      ensures outcome == (if throws then Failed(HandlerError) else Done)
      ensures throws ==> rQi == old(rQi) + consumed && rQlen == old(rQlen) && ReceiveBufferKept()
      ensures !throws && consumed == old(rQlen - rQi) ==> rQi == 0 && rQlen == 0
    {
      ghost var received := Unread();
      rQi := rQi + consumed;
      assert Unread() == received[consumed..];
      if throws {
        return Failed(HandlerError);
      }
      CompactAfterHandler();
      outcome := Done;
    }
  }
}
