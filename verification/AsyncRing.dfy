/** The growable ring buffer of the asynchronous log writer, as a byte queue. */
module AsyncRing {
  import opened Arith
  import opened Bytes

  const ASYNC_BUFSIZE: nat := 8 * 1024
  const ASYNC_LOCAL_BUFSIZE: nat := 64 * 1024
  const MAX_BUFSIZE: nat := 0x8000_0000

  /** One or two runs of queued bytes: `(start1, len1)` and then `(0, len2)`. */
  datatype Buffers = Buffers(start1: nat, len1: nat, len2: nat)

  ghost predicate IsBufferSize(n: nat) {
    exists k: nat :: k <= 31 && n == Pow2(k)
  }

  /** `size` after `steps` turns of the doubling loop, in 32-bit unsigned arithmetic. */
  function Doubled(size: nat, steps: nat): nat {
    if steps == 0 then size else (2 * Doubled(size, steps - 1)) % UINT_RANGE
  }

  lemma {:induction false} Pow2Bound(k: nat)
    requires k <= 31
    ensures 1 <= Pow2(k) <= MAX_BUFSIZE
    ensures k < 31 ==> Pow2(k) * 2 <= MAX_BUFSIZE
  {
    PowersOfTwo();
    Pow2Grows(k, 31);
    if k < 31 {
      Pow2Grows(k + 1, 31);
    }
  }

  lemma {:induction false} Pow2Grows(j: nat, k: nat)
    requires j <= k
    ensures 1 <= Pow2(j) <= Pow2(k)
    decreases k
  {
    if j < k {
      Pow2Grows(j, k - 1);
    } else if 0 < k {
      Pow2Grows(k - 1, k - 1);
    }
  }

  lemma NextPower(k: nat)
    requires k <= 31 && Pow2(k) < MAX_BUFSIZE
    ensures k < 31 && (Pow2(k) * 2) % UINT_RANGE == Pow2(k) * 2 == Pow2(k + 1)
  {
    PowersOfTwo();
    Pow2Bound(k);
  }

  /** Without wrap-around the loop walks through the powers of two; at 2^32 it falls to 0 and stays there. */
  lemma {:induction false} DoubledValue(k: nat, steps: nat)
    requires k <= 31
    ensures Doubled(Pow2(k), steps) == if k + steps <= 31 then Pow2(k + steps) else 0
  {
    if steps > 0 {
      var j := k + steps - 1;
      DoubledValue(k, steps - 1);
      if j < 31 {
        Pow2Bound(j);
        TwiceWraps(Pow2(j));
      } else {
        PowersOfTwo();
        TwiceWraps(Doubled(Pow2(k), steps - 1));
      }
    }
  }

  lemma TwiceWraps(x: nat)
    requires x <= MAX_BUFSIZE
    ensures (2 * x) % UINT_RANGE == if x == MAX_BUFSIZE then 0 else 2 * x
  {
  }

  /** The doubling loop stops with room for `need` bytes exactly when `need` is at most 2^31. */
  lemma {:induction false} DoublingSucceedsIff(size: nat, need: nat)
    requires IsBufferSize(size)
    ensures (exists steps: nat :: Doubled(size, steps) >= need) <==> need <= MAX_BUFSIZE
  {
    var k: nat :| k <= 31 && size == Pow2(k);
    if need <= MAX_BUFSIZE {
      DoubledValue(k, 31 - k);
      PowersOfTwo();
      assert Doubled(size, 31 - k) >= need;
    } else {
      forall steps: nat ensures Doubled(size, steps) < need {
        DoubledAtMost(size, steps);
      }
    }
  }

  /** The doubling loop ends after `steps` turns. */
  ghost predicate Stops(size: nat, need: nat, steps: nat) {
    Doubled(size, steps) >= need && forall k :: 0 <= k < steps ==> Doubled(size, k) < need
  }

  /**
    * What is needed is itself a 32-bit sum. The loop ends with room for `len + added` bytes and one more exactly when
    * their number is at most 2^31.
    */
  lemma GrowthFitsIff(size: nat, len: nat, added: nat)
    requires IsBufferSize(size)
    ensures (exists steps :: EndsWithRoom(size, len, added, steps)) <==> len + added + 1 <= MAX_BUFSIZE
  {
    hide Doubled, IsBufferSize, Stops;
    var sum := len + added + 1;
    if sum <= MAX_BUFSIZE {
      DoublingSucceedsIff(size, sum);
      var steps: nat :| Doubled(size, steps) >= sum;
      var first := FirstStop(size, sum, steps);
      assert EndsWithRoom(size, len, added, first);
    } else {
      forall steps: nat ensures !EndsWithRoom(size, len, added, steps) {
        DoubledAtMost(size, steps);
      }
    }
  }

  ghost predicate EndsWithRoom(size: nat, len: nat, added: nat, steps: nat) {
    Stops(size, (len + added + 1) % UINT_RANGE, steps) && len + added < Doubled(size, steps)
  }

  /** From 2^32 on the loop ends, with a buffer too small for the bytes. */
  lemma WrappedEndsEarly(size: nat, len: nat, added: nat)
    requires IsBufferSize(size) && len < MAX_BUFSIZE && added < UINT_RANGE && UINT_RANGE <= len + added + 1
    ensures exists steps ::
      Stops(size, (len + added + 1) % UINT_RANGE, steps) && Doubled(size, steps) <= len + added
  {
    hide Doubled, IsBufferSize, Stops;
    var need := len + added + 1 - UINT_RANGE;
    assert (len + added + 1) % UINT_RANGE == need <= MAX_BUFSIZE;
    DoublingSucceedsIff(size, need);
    var steps: nat :| Doubled(size, steps) >= need;
    var first := FirstStop(size, need, steps);
    DoubledAtMost(size, first);
  }

  lemma {:induction false} FirstStop(size: nat, need: nat, steps: nat) returns (first: nat)
    requires Doubled(size, steps) >= need
    ensures Stops(size, need, first) && Doubled(size, first) >= need
  {
    if k: nat :| k < steps && Doubled(size, k) >= need {
      first := FirstStop(size, need, k);
    } else {
      first := steps;
    }
  }

  lemma DoubledAtMost(size: nat, steps: nat)
    requires IsBufferSize(size)
    ensures Doubled(size, steps) <= MAX_BUFSIZE
  {
    var k: nat :| k <= 31 && size == Pow2(k);
    DoubledValue(k, steps);
    if k + steps <= 31 {
      Pow2Bound(k + steps);
    }
  }

  /** The bytes between the read and the write position of a circular buffer. */
  function Window<T>(buf: seq<T>, r: nat, w: nat): (s: seq<T>)
    requires r < |buf| && w < |buf|
    ensures |s| == if r <= w then w - r else |buf| + w - r
    ensures forall i :: 0 <= i < |s| ==> s[i] == buf[if r + i < |buf| then r + i else r + i - |buf|]
  {
    if r <= w then buf[r..w] else buf[r..] + buf[..w]
  }

  /** `buf` after copying `data` over it from position `at`. */
  function Store<T>(buf: seq<T>, at: nat, data: seq<T>): (s: seq<T>)
    requires at + |data| <= |buf|
    ensures |s| == |buf|
    ensures forall i :: 0 <= i < |s| ==> s[i] == if at <= i < at + |data| then data[i - at] else buf[i]
  {
    buf[..at] + data + buf[at + |data|..]
  }

  /** A write position moved on by `n`, in a buffer of `size`. */
  function Advance(w: nat, n: nat, size: nat): nat
    requires w < size
  {
    if w + n < size then w + n else w + n - size
  }

  lemma AdvanceIsModulo(w: nat, n: nat, size: nat)
    requires w < size && n <= size
    ensures Advance(w, n, size) == (w + n) % size
  {
    var q := if w + n < size then 0 else 1;
    DivModUnique(w + n, size, q, w + n - q * size);
  }

  lemma StoreContiguous<T>(buf: seq<T>, r: nat, w: nat, data: seq<T>)
    requires r < |buf| && w < |buf| && w + |data| <= |buf|
    requires |Window(buf, r, w)| + |data| < |buf|
    ensures Window(Store(buf, w, data), r, Advance(w, |data|, |buf|)) == Window(buf, r, w) + data
  {
    var old' := Window(buf, r, w);
    var new' := Window(Store(buf, w, data), r, Advance(w, |data|, |buf|));
    assert |new'| == |old'| + |data|;
    forall i | 0 <= i < |new'| ensures new'[i] == (old' + data)[i] {
    }
  }

  lemma StoreWrapped<T>(buf: seq<T>, r: nat, w: nat, data: seq<T>)
    requires r < |buf| && w < |buf| && |buf| < w + |data|
    requires |Window(buf, r, w)| + |data| < |buf|
    ensures var c := |buf| - w;
            |data| - c < r &&
            Window(Store(Store(buf, w, data[..c]), 0, data[c..]), r, |data| - c) == Window(buf, r, w) + data
  {
    var c := |buf| - w;
    var old' := Window(buf, r, w);
    var new' := Window(Store(Store(buf, w, data[..c]), 0, data[c..]), r, |data| - c);
    assert |new'| == |old'| + |data|;
    forall i | 0 <= i < |new'| ensures new'[i] == (old' + data)[i] {
    }
  }

  /** A run of `len1` bytes from `r` followed by the first `len2` bytes. */
  function Pieces<T>(buf: seq<T>, r: nat, len1: nat, len2: nat): seq<T>
    requires r + len1 <= |buf| && len2 <= |buf|
  {
    buf[r..r + len1] + buf[..len2]
  }

  /**
    * Taking up to `cap` bytes, first from the run that ends at the buffer's end and then from its start, takes a
    * prefix.
    */
  lemma WindowDrain<T>(buf: seq<T>, r: nat, w: nat, len1: nat, len2: nat)
    requires r < |buf| && w < |buf|
    requires if r <= w then len1 <= w - r && len2 == 0
             else len1 <= |buf| - r && len2 <= w && (len2 == 0 || len1 == |buf| - r)
    ensures var next := (r + len1 + len2) % |buf|;
            Window(buf, r, w) == Pieces(buf, r, len1, len2) + Window(buf, next, w)
  {
    AdvanceIsModulo(r, len1 + len2, |buf|);
    if len1 == |buf| - r {
      DrainToEnd(buf, r, w, len2);
    } else {
      DrainWithin(buf, r, w, len1);
    }
  }

  lemma DrainWithin<T>(buf: seq<T>, r: nat, w: nat, len1: nat)
    requires r < |buf| && w < |buf| && r + len1 < |buf| && (r <= w ==> len1 <= w - r)
    ensures Window(buf, r, w) == Pieces(buf, r, len1, 0) + Window(buf, r + len1, w)
  {
    if r <= w {
      assert buf[r..w] == buf[r..r + len1] + buf[r + len1..w];
    } else {
      assert buf[r..] == buf[r..r + len1] + buf[r + len1..];
      WrapsAt(buf, r + len1, w);
    }
  }

  lemma WrapsAt<T>(buf: seq<T>, r: nat, w: nat)
    requires w < r < |buf|
    ensures Window(buf, r, w) == buf[r..] + buf[..w]
  {
  }

  lemma DrainToEnd<T>(buf: seq<T>, r: nat, w: nat, len2: nat)
    requires w < r < |buf| && len2 <= w
    ensures Window(buf, r, w) == Pieces(buf, r, |buf| - r, len2) + Window(buf, len2, w)
  {
    assert buf[..w] == buf[..len2] + buf[len2..w];
  }

  /** Three copies one behind the other, from the front of a buffer that is large enough. */
  lemma StoredInOrder<T>(buf: seq<T>, first: seq<T>, second: seq<T>, data: seq<T>)
    requires |first| + |second| + |data| < |buf|
    ensures var n := |first| + |second|;
            Window(Store(Store(Store(buf, 0, first), |first|, second), n, data), 0, n + |data|) == first + second + data
  {
  }

  class Ring {
    var buffer: array<Byte>
    var readPos: nat
    var writePos: nat

    ghost predicate Valid()
      reads this, buffer
    {
      && IsBufferSize(buffer.Length)
      && 0 < buffer.Length
      && readPos < buffer.Length
      && writePos < buffer.Length
    }

    /** The queued bytes, oldest first. */
    ghost function Contents(): (s: seq<Byte>)
      requires Valid()
      reads this, buffer
      ensures |s| < buffer.Length
      ensures s == [] <==> readPos == writePos
    {
      Window(buffer[..], readPos, writePos)
    }

    constructor ()
      ensures Valid() && fresh(buffer) && Contents() == []
      ensures buffer.Length == ASYNC_BUFSIZE
    {
      buffer := new Byte[ASYNC_BUFSIZE];
      readPos, writePos := 0, 0;
      new;
      PowersOfTwo();
      assert buffer.Length == Pow2(13);
    }

    method BufferPtrs() returns (b: Buffers)
      requires Valid()
      ensures b.start1 == readPos
      ensures b.start1 + b.len1 <= buffer.Length && b.len2 <= writePos
      ensures Contents() == Pieces(buffer[..], readPos, b.len1, b.len2)
      ensures if readPos <= writePos then b.len1 == writePos - readPos && b.len2 == 0
              else b.len1 == buffer.Length - readPos && b.len2 == writePos
    {
      b := Buffers(readPos, 0, 0);
      if readPos < writePos {
        b := Buffers(readPos, writePos - readPos, 0);
      } else if readPos > writePos {
        b := Buffers(readPos, buffer.Length - readPos, writePos);
      }
    }

    method BufferLen() returns (n: nat)
      requires Valid()
      ensures n == |Contents()|
    {
      if writePos >= readPos {
        n := writePos - readPos;
      } else {
        n := buffer.Length + writePos - readPos;
      }
    }

    /**
      * The smallest reachable buffer size with room for `needSize`; the bound is the one `DoublingSucceedsIff` shows
      * exact.
      */
    static method NextBufferSize(curSize: nat, needSize: nat) returns (size: nat)
      requires IsBufferSize(curSize)
      requires needSize <= MAX_BUFSIZE
      ensures IsBufferSize(size) && needSize <= size && curSize <= size
      ensures size == curSize || size < 2 * needSize
    {
      hide Pow2;
      ghost var k: nat :| k <= 31 && curSize == Pow2(k);
      Pow2Bound(k);
      size := curSize;
      while size < needSize
        invariant k <= 31 && size == Pow2(k) && 0 < size && curSize <= size
        invariant size == curSize || size < 2 * needSize
        decreases 31 - k
      {
        NextPower(k);
        size := (size * 2) % UINT_RANGE;
        k := k + 1;
      }
    }

    /** The bytes of `data` stored from `at` on. */
    method MemCopy(dst: array<Byte>, at: nat, data: seq<Byte>)
      requires at + |data| <= dst.Length
      modifies dst
      ensures dst[..] == Store(old(dst[..]), at, data)
    {
      forall i | 0 <= i < |data| {
        dst[at + i] := data[i];
      }
      assert dst[..at] == old(dst[..at]);
      assert dst[at..at + |data|] == data;
      assert dst[at + |data|..] == old(dst[at + |data|..]);
      assert dst[..] == dst[..at] + dst[at..at + |data|] + dst[at + |data|..];
    }

    /**
      * Appends `data` to the queue, in place when it fits with a byte to spare and in a larger buffer otherwise. The
      * bound is the one `GrowthFitsIff` shows exact.
      */
    method WriteUnlocked(data: seq<Byte>)
      requires Valid()
      requires |Contents()| + |data| + 1 <= MAX_BUFSIZE
      modifies this, buffer
      ensures Valid()
      ensures Contents() == old(Contents()) + data
      ensures |old(Contents())| + |data| < old(buffer.Length) ==> buffer == old(buffer)
      ensures |old(Contents())| + |data| >= old(buffer.Length) ==> fresh(buffer)
    {
      var len := BufferLen();
      if |data| < buffer.Length - len {
        WriteInPlace(data);
      } else {
        Grow(len, data);
      }
    }

    method WriteInPlace(data: seq<Byte>)
      requires Valid()
      requires |Contents()| + |data| < buffer.Length
      modifies this`writePos, buffer
      ensures Valid()
      ensures Contents() == old(Contents()) + data
    {
      hide Window, Store, IsBufferSize;
      var rest := data;
      var contiguous := buffer.Length - writePos;
      if |rest| > contiguous {
        StoreWrapped(buffer[..], readPos, writePos, data);
        MemCopy(buffer, writePos, rest[..contiguous]);
        rest := rest[contiguous..];
        writePos := 0;
      } else {
        StoreContiguous(buffer[..], readPos, writePos, data);
      }
      AdvanceIsModulo(writePos, |rest|, buffer.Length);
      MemCopy(buffer, writePos, rest);
      writePos := (writePos + |rest|) % buffer.Length;
    }

    method Grow(len: nat, data: seq<Byte>)
      requires Valid()
      requires len == |Contents()| && buffer.Length <= len + |data|
      requires len + |data| + 1 <= MAX_BUFSIZE
      modifies this
      ensures Valid() && fresh(buffer)
      ensures Contents() == old(Contents()) + data
    {
      var nextSize := NextBufferSize(buffer.Length, len + |data| + 1);
      var nextBuffer := new Byte[nextSize];
      var b := BufferPtrs();
      var first, second := buffer[readPos..readPos + b.len1], buffer[..b.len2];
      StoredInOrder(nextBuffer[..], first, second, data);
      MemCopy(nextBuffer, 0, first);
      MemCopy(nextBuffer, b.len1, second);
      MemCopy(nextBuffer, len, data);
      assert first + second == Pieces(buffer[..], readPos, b.len1, b.len2);
      buffer, readPos, writePos := nextBuffer, 0, len + |data|;
    }

    /**
      * One turn of the writer's copy: takes at most `ASYNC_LOCAL_BUFSIZE` bytes off the front of the queue.
      */
    method Drain() returns (chunk: seq<Byte>)
      requires Valid()
      modifies this`readPos
      ensures Valid()
      ensures old(Contents()) == chunk + Contents()
      ensures |chunk| == Min(|old(Contents())|, ASYNC_LOCAL_BUFSIZE)
    {
      var b := BufferPtrs();
      var len1, len2 := b.len1, b.len2;
      if len1 > ASYNC_LOCAL_BUFSIZE {
        len1 := ASYNC_LOCAL_BUFSIZE;
      }
      if len2 > ASYNC_LOCAL_BUFSIZE - len1 {
        len2 := ASYNC_LOCAL_BUFSIZE - len1;
      }
      chunk := Pieces(buffer[..], readPos, len1, len2);
      WindowDrain(buffer[..], readPos, writePos, len1, len2);
      readPos := (readPos + len1 + len2) % buffer.Length;
    }
  }
}
