/** The sender's byte ring (sender_c/ring_buffer.c over the `ByteRing`
    struct of sender_c/ring_buffer.h): a fixed-capacity circular byte
    array with a write cursor `head`, a read cursor `tail`, a byte count
    `size` and a permanent `closed` flag.

    Each critical section of the source is one atomic step of the model;
    the mutex and condition variables are not modelled. A wait on a
    condition variable that nothing in a sequential run could end makes
    the call return with a `Blocked...` outcome. */
module RingBuffer {
  import opened Common

  // ---------------------------------------------------------------------
  // Cursor arithmetic
  // ---------------------------------------------------------------------

  /** The physical index of the `i`-th unread byte when reading starts at
      `tail`: `(tail + i) % cap`, written without `%`. */
  function Slot(tail: nat, i: nat, cap: nat): (r: nat)
    requires tail < cap && i <= cap
    ensures r < cap
    ensures r == (tail + i) % cap
  {
    ModBelowTwice(tail + i, cap);
    if tail + i < cap then tail + i else tail + i - cap
  }

  /** Moving a cursor by `n` positions that do not pass the physical end
      of the array (`(cursor + n) % cap` in the source): the cursor stays
      in `0..cap-1` and is 0 exactly when the end was reached. */
  function Advance(cursor: nat, n: nat, cap: nat): (r: nat)
    requires cursor + n <= cap && 0 < cap
    ensures r < cap
    ensures r == 0 <==> cursor + n == cap || (cursor == 0 && n == 0)
    ensures cursor + n < cap ==> r == cursor + n
  {
    ModBelowTwice(cursor + n, cap);
    (cursor + n) % cap
  }

  /** `x % m` for `x` below `2 * m` is a single conditional subtraction. */
  lemma ModBelowTwice(x: nat, m: nat)
    requires 0 < m && x < 2 * m
    ensures x % m == if x < m then x else x - m
  {
    if x < m {
      assert x == m * 0 + x;
    } else {
      assert x == m * 1 + (x - m);
    }
  }

  /** Reading `i` positions on from a cursor advanced by `n` is reading
      `n + i` positions on from the cursor itself. */
  lemma SlotAfterAdvance(cursor: nat, n: nat, i: nat, cap: nat)
    requires 0 < cap && cursor < cap && cursor + n <= cap && n + i < cap
    ensures Slot(Advance(cursor, n, cap), i, cap) == Slot(cursor, n + i, cap)
  {
  }

  /** How one piece of a push or pop is split around the physical end of
      the array (`first`, `left` in the source): at most `cap - cursor`
      bytes go in the first contiguous copy, and the rest, if any, in a
      second copy that starts at index 0. */
  function Split(cursor: nat, chunk: nat, cap: nat): (r: (nat, nat))
    requires cursor < cap && chunk <= cap
    ensures r.0 + r.1 == chunk
    ensures cursor + r.0 <= cap
    ensures r.1 > 0 ==> cursor + r.0 == cap && Advance(cursor, r.0, cap) == 0
    ensures r.1 > 0 ==> r.1 <= cursor
  {
    var first := Min(chunk, cap - cursor);
    (first, chunk - first)
  }

  // ---------------------------------------------------------------------
  // Outcomes
  // ---------------------------------------------------------------------

  /** How a call of `rb_push_bytes` ends. */
  datatype PushOutcome =
    | AllWritten   // the loop ran out of input
    | Dropped      // `closed` was observed: the rest of the input is dropped
    | BlockedFull  // the ring is full and open: the caller would sleep

  /** How a call of `rb_pop_exact` ends. */
  datatype PopOutcome =
    | Filled       // exactly `len` bytes were copied out
    | Drained      // closed and empty: returns short (early return)
    | BlockedEmpty // empty and open: the caller would sleep

  // ---------------------------------------------------------------------
  // The ring
  // ---------------------------------------------------------------------

  class ByteRing {
    /** Storage; NULL (before `rb_init`, after `rb_free`) is an empty array. */
    var buf: array<byte>
    var cap: nat
    /** Write index. */
    var head: nat
    /** Read index. */
    var tail: nat
    /** Bytes currently stored. */
    var size: nat
    var closed: bool

    /** The unread bytes, oldest first. */
    ghost var Contents: seq<byte>

    /** The struct invariant: cursors in `0..cap-1` (both 0 when there is
        no storage), `0 <= size <= cap`, `head` exactly `size` positions
        after `tail` circularly, and the `size` bytes read circularly
        from `tail` are `Contents`. */
    ghost predicate Valid()
      reads this, buf
    {
      && buf.Length == cap
      && size <= cap
      && |Contents| == size
      && (cap == 0 ==> head == 0 && tail == 0)
      && (0 < cap ==>
            && head < cap && tail < cap
            && head == Slot(tail, size, cap)
            && forall i :: 0 <= i < size ==> Contents[i] == buf[Slot(tail, i, cap)])
    }

    /** A zero-initialised `ByteRing` (the sender's ring is a static). */
    constructor ()
      ensures Valid() && fresh(buf)
      ensures cap == 0 && head == 0 && tail == 0 && size == 0 && !closed
      ensures Contents == []
    {
      buf := new byte[0];
      cap, head, tail, size := 0, 0, 0, 0;
      closed := false;
      Contents := [];
    }

    /** `rb_init`: fails for capacity 0 and leaves the struct alone; on
        success the ring has fresh storage of the requested capacity and
        is empty and open. */
    method Init(capacity: nat) returns (ok: bool)
      modifies this
      ensures ok <==> capacity > 0
      ensures !ok ==> unchanged(this)
      ensures ok ==> Valid() && fresh(buf) && cap == capacity
      ensures ok ==> head == 0 && tail == 0 && size == 0 && !closed && Contents == []
    {
      if capacity == 0 {
        return false;
      }
      buf := new byte[capacity];
      cap := capacity;
      head, tail, size := 0, 0, 0;
      closed := false;
      Contents := [];
      return true;
    }

    /** `rb_free`: releases the storage and resets `cap`, `head`, `tail`
        and `size` to 0; the unread bytes are gone. */
    method Free()
      requires Valid()
      modifies this
      ensures Valid()
      ensures cap == 0 && head == 0 && tail == 0 && size == 0
      ensures closed == old(closed) && Contents == []
    {
      buf := new byte[0];
      cap, head, tail, size := 0, 0, 0, 0;
      Contents := [];
    }

    /** `rb_close`: sets the permanent flag; storage, cursors, count and
        contents are untouched, so readers can still drain. */
    method Close()
      requires Valid()
      modifies this
      ensures Valid() && closed
      ensures buf == old(buf) && cap == old(cap)
      ensures head == old(head) && tail == old(tail) && size == old(size)
      ensures Contents == old(Contents)
    {
      closed := true;
    }

    /** One contiguous copy of a push piece (ring_buffer.c:54-57 and
        62-65): `memcpy` of `n` input bytes to `buf[head..head+n)`, which
        must not pass the physical end, then `head` and `size` advance.
        The bytes land after the unread ones and overwrite none of them. */
    method WriteRun(src: seq<byte>, off: nat, n: nat)
      requires Valid() && 0 < cap
      requires off + n <= |src|
      requires size + n <= cap && head + n <= cap
      modifies this, buf
      ensures Valid()
      ensures buf == old(buf) && cap == old(cap) && closed == old(closed)
      ensures tail == old(tail) && size == old(size) + n
      ensures head == Advance(old(head), n, cap)
      ensures Contents == old(Contents) + src[off..off + n]
    {
      forall k | 0 <= k < n {
        buf[head + k] := src[off + k];
      }
      ghost var added := src[off..off + n];
      ghost var oldContents := Contents;
      head := Advance(head, n, cap);
      size := size + n;
      Contents := Contents + added;
      forall i | 0 <= i < size ensures Contents[i] == buf[Slot(tail, i, cap)] {
        if i < |oldContents| {
          assert Contents[i] == oldContents[i];
        } else {
          assert Slot(tail, i, cap) == old(head) + (i - |oldContents|);
        }
      }
    }

    /** One contiguous copy of a pop piece (ring_buffer.c:87-90 and
        94-97): `memcpy` of the `n` oldest bytes, from `buf[tail..tail+n)`,
        to `dst[out..out+n)`, then `tail` advances and `size` drops. */
    method ReadRun(dst: array<byte>, out: nat, n: nat)
      requires Valid() && 0 < cap && dst != buf
      requires out + n <= dst.Length
      requires n <= size && tail + n <= cap
      modifies this, dst
      ensures Valid()
      ensures buf == old(buf) && cap == old(cap) && closed == old(closed)
      ensures head == old(head) && size == old(size) - n
      ensures tail == Advance(old(tail), n, cap)
      ensures dst[out..out + n] == old(Contents)[..n]
      ensures forall j :: 0 <= j < dst.Length && !(out <= j < out + n) ==> dst[j] == old(dst[j])
      ensures Contents == old(Contents)[n..]
    {
      forall k | 0 <= k < n {
        dst[out + k] := buf[tail + k];
      }
      ghost var oldContents := Contents;
      ghost var oldTail := tail;
      forall k | 0 <= k < n ensures dst[out + k] == oldContents[k] {
        assert Slot(oldTail, k, cap) == oldTail + k;
      }
      tail := Advance(tail, n, cap);
      size := size - n;
      Contents := Contents[n..];
      forall i | 0 <= i < size ensures Contents[i] == buf[Slot(tail, i, cap)] {
        SlotAfterAdvance(oldTail, n, i, cap);
      }
    }

    /** One critical section of `rb_push_bytes` once the ring is open and
        not full (ring_buffer.c:48-66): the piece is bounded by the
        remaining input and the free space, and is written in at most two
        contiguous copies, the second from index 0. */
    method PushPiece(src: seq<byte>, off: nat) returns (chunk: nat)
      requires Valid() && !closed && size < cap && off < |src|
      modifies this, buf
      ensures Valid()
      ensures buf == old(buf) && cap == old(cap) && closed == old(closed)
      ensures chunk == Min(|src| - off, cap - old(size)) && 0 < chunk
      ensures size == old(size) + chunk
      ensures Contents == old(Contents) + src[off..off + chunk]
    {
      chunk := Min(|src| - off, cap - size);
      var (first, left) := Split(head, chunk, cap);
      WriteRun(src, off, first);
      if left > 0 {
        WriteRun(src, off + first, left);
        assert src[off..off + chunk] == src[off..off + first] + src[off + first..off + chunk];
      }
    }

    /** `rb_push_bytes`: append the input, piece by piece.

        Returns the number of bytes written (`off`) and how the loop
        ended. Once `closed` is seen nothing more is written, even if
        there is room (the rest of the input is dropped); a full open ring
        is where the source's thread would sleep. A parked call is resumed
        by calling again with `src[off..]`: `off` is the loop's only state
        and every piece depends on the input only through `src[off..]`. */
    method PushBytes(src: seq<byte>) returns (off: nat, outcome: PushOutcome)
      requires Valid()
      modifies this, buf
      ensures Valid()
      ensures buf == old(buf) && cap == old(cap) && closed == old(closed)
      ensures off <= |src|
      ensures Contents == old(Contents) + src[..off]
      ensures outcome == AllWritten <==> off == |src|
      ensures outcome == Dropped <==> closed && src != []
      ensures outcome == Dropped ==> off == 0
      ensures outcome == BlockedFull ==> !closed && size == cap
      ensures !closed ==> off == Min(|src|, cap - old(size))
    {
      off := 0;
      while off < |src|
        invariant Valid()
        invariant buf == old(buf) && cap == old(cap) && closed == old(closed)
        invariant off <= |src|
        invariant Contents == old(Contents) + src[..off]
        invariant closed ==> off == 0
        invariant off <= cap - old(size) && size == old(size) + off
        invariant 0 < off < |src| ==> size == cap
      {
        if closed {
          return off, Dropped;
        }
        if size == cap {
          return off, BlockedFull;
        }
        var chunk := PushPiece(src, off);
        assert src[..off + chunk] == src[..off] + src[off..off + chunk];
        off := off + chunk;
      }
      return off, AllWritten;
    }

    /** One critical section of `rb_pop_exact` once the ring holds data
        (ring_buffer.c:82-98): the piece is bounded by the bytes still
        wanted and the bytes stored, taken oldest first in at most two
        contiguous copies, the second from index 0, and delivered to
        `dst[out..out+chunk)` in order. */
    method PopPiece(dst: array<byte>, out: nat, len: nat) returns (chunk: nat)
      requires Valid() && 0 < size && dst != buf && out < len <= dst.Length
      modifies this, dst
      ensures Valid()
      ensures buf == old(buf) && cap == old(cap) && closed == old(closed)
      ensures chunk == Min(len - out, old(size)) && 0 < chunk
      ensures size == old(size) - chunk
      ensures dst[out..out + chunk] == old(Contents)[..chunk]
      ensures forall j :: 0 <= j < dst.Length && !(out <= j < out + chunk) ==> dst[j] == old(dst[j])
      ensures Contents == old(Contents)[chunk..]
    {
      chunk := Min(len - out, size);
      var (first, left) := Split(tail, chunk, cap);
      ghost var before := Contents;
      ReadRun(dst, out, first);
      if left > 0 {
        ghost var mid := dst[out..out + first];
        ReadRun(dst, out + first, left);
        assert dst[out..out + first] == mid;
        assert dst[out..out + chunk] == dst[out..out + first] + dst[out + first..out + chunk];
        assert before[..chunk] == before[..first] + before[first..][..left];
      }
    }

    /** `rb_pop_exact`: copy up to `len` of the oldest bytes, in order, to
        `dst[0..len)`, piece by piece.

        Returns the number of bytes copied (`out`, a local the source does
        not return) and how the loop ended. The only early return is on a
        closed and empty ring (the drain rule), so a short count always
        leaves the ring empty; an empty open ring is where the source's
        thread would sleep. */
    method PopExact(dst: array<byte>, len: nat) returns (out: nat, outcome: PopOutcome)
      requires Valid() && dst != buf && len <= dst.Length
      modifies this, dst
      ensures Valid()
      ensures buf == old(buf) && cap == old(cap) && closed == old(closed)
      ensures out == Min(len, old(size))
      ensures dst[..out] == old(Contents)[..out]
      ensures dst[out..] == old(dst[out..])
      ensures Contents == old(Contents)[out..]
      ensures outcome == Filled <==> out == len
      ensures outcome == Drained <==> out < len && closed
      ensures outcome == BlockedEmpty <==> out < len && !closed
      ensures out < len ==> Contents == []
    {
      out := 0;
      while out < len
        invariant Valid()
        invariant buf == old(buf) && cap == old(cap) && closed == old(closed)
        invariant out <= len && out <= old(size) && size == old(size) - out
        invariant 0 < out < len ==> size == 0
        invariant dst[..out] == old(Contents)[..out]
        invariant dst[out..] == old(dst[out..])
        invariant Contents == old(Contents)[out..]
      {
        if size == 0 {
          if closed {
            return out, Drained;
          }
          return out, BlockedEmpty;
        }
        ghost var prefix := dst[..out];
        ghost var rest := Contents;
        var chunk := PopPiece(dst, out, len);
        assert dst[..out] == prefix;
        assert dst[..out + chunk] == dst[..out] + dst[out..out + chunk];
        assert old(Contents)[..out + chunk] == old(Contents)[..out] + rest[..chunk];
        out := out + chunk;
      }
      return out, Filled;
    }
  }
}
