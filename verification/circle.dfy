/** `CircleBuf`: a fixed-size byte ring with `start`/`end` cursors.

    The ring's own context (a child of the one given to `new`) is reduced to
    the `closed` flag: `close` sets it and `closed` reads it. The stored bytes
    are those from `start` up to `end`, wrapping at the end of the array. */
module CircleBuf {
  import opened Base

  datatype Ring = Ring(data: seq<u8>, start: nat, end: nat, closed: bool)

  /** Both cursors index the array; an empty array keeps both at 0. */
  predicate Valid(r: Ring)
  {
    if |r.data| == 0 then r.start == 0 && r.end == 0
    else r.start < |r.data| && r.end < |r.data|
  }

  /** The stored bytes, oldest first. */
  function Contents(r: Ring): seq<u8>
    requires Valid(r)
  {
    if r.start <= r.end then r.data[r.start..r.end]
    else r.data[r.start..] + r.data[..r.end]
  }

  const ClosedErr := IoError(Other, "ctx is end")
  const NoBuf := "not has available buf"

  /** `new(ctx, ln)`: a zeroed array of `ln` bytes, both cursors at 0. */
  function New(ln: nat): (r: Ring)
    ensures Valid(r) && |r.data| == ln && !r.closed
    ensures Contents(r) == []
  {
    Ring(seq(ln, _ => 0), 0, 0, false)
  }

  /** `close`: stops the ring's context. */
  function Close(r: Ring): (c: Ring)
    requires Valid(r)
    ensures Valid(c) && c.closed && Contents(c) == Contents(r)
  {
    r.(closed := true)
  }

  /** `closed`. */
  predicate Closed(r: Ring)
  {
    r.closed
  }

  /** `len`: the cursor distance, wrapping at `size`. */
  function Len(r: Ring): (n: nat)
    requires Valid(r)
    ensures n == |Contents(r)|
    ensures n == 0 <==> r.start == r.end
    ensures |r.data| > 0 ==> n < |r.data|
  {
    if r.start == r.end then 0
    else if r.start < r.end then r.end - r.start
    else |r.data| - (r.start - r.end)
  }

  /** `avail`: counts every free slot, so an empty ring offers all `size`. */
  function Avail(r: Ring): (n: nat)
    requires Valid(r)
    ensures n + |Contents(r)| == |r.data|
    ensures |r.data| > 0 ==> n >= 1
    ensures n == 0 <==> |r.data| == 0
  {
    |r.data| - Len(r)
  }

  /** `clear`: both cursors back to 0; the bytes are forgotten. */
  function Clear(r: Ring): (c: Ring)
    requires Valid(r)
    ensures Valid(c) && Contents(c) == [] && c.closed == r.closed && c.data == r.data
  {
    r.(start := 0, end := 0)
  }

  // ---------------------------------------------------------------- single bytes

  /** `put_byte`: stores `b` at `end` and advances `end`, refusing when that
      would make `end` meet `start`; one slot always stays empty. Indexing the
      array panics when it has no slot at all. */
  function PutByte(r: Ring, b: u8): (out: (Ring, Result<()>))
    requires Valid(r)
    requires r.closed || |r.data| > 0
    ensures Valid(out.0)
    ensures r.closed ==> out == (r, Err(ClosedErr))
    ensures !r.closed ==> (out.1.Err? <==> Len(r) == |r.data| - 1)
    ensures !r.closed && out.1.Err? ==> out.1.error.kind == OutOfMemory
    ensures out.1.Err? ==> out.0 == r
    ensures out.1.Ok? ==> && Contents(out.0) == Contents(r) + [b]
                          && |out.0.data| == |r.data| && !out.0.closed
  {
    if r.closed then
      (r, Err(ClosedErr))
    else
      var pos := if r.end + 1 == |r.data| then 0 else r.end + 1;
      if pos == r.start then
        (r, Err(IoError(OutOfMemory, NoBuf)))
      else
        var r' := r.(data := r.data[r.end := b], end := pos);
        PutContents(r, b, r');
        (r', Ok(()))
  }

  lemma PutContents(r: Ring, b: u8, r': Ring)
    requires Valid(r) && |r.data| > 0
    requires r'.data == r.data[r.end := b] && r'.start == r.start
    requires r'.end == (if r.end + 1 == |r.data| then 0 else r.end + 1)
    requires r'.end != r.start
    ensures Valid(r') && Contents(r') == Contents(r) + [b]
  {
    if r.start <= r.end {
      if r.end + 1 == |r.data| {
        assert r'.data[r.start..] == r.data[r.start..r.end] + [b];
      } else {
        assert r'.data[r.start..r'.end] == r.data[r.start..r.end] + [b];
      }
    } else {
      assert r'.data[r.start..] == r.data[r.start..];
      assert r'.data[..r'.end] == r.data[..r.end] + [b];
    }
  }

  /** `pop_byte`: takes the byte at `start` and advances `start`. */
  function PopByte(r: Ring): (out: (Ring, Result<u8>))
    requires Valid(r)
    ensures Valid(out.0)
    ensures r.closed ==> out == (r, Err(ClosedErr))
    ensures !r.closed ==> (out.1.Err? <==> Len(r) == 0)
    ensures !r.closed && out.1.Err? ==> out.1.error.kind == InvalidData
    ensures out.1.Err? ==> out.0 == r
    ensures out.1.Ok? ==> && out.1.value == Contents(r)[0]
                          && Contents(out.0) == Contents(r)[1..]
                          && out.0.data == r.data && !out.0.closed
  {
    if r.closed then
      (r, Err(ClosedErr))
    else if Len(r) == 0 then
      (r, Err(IoError(InvalidData, NoBuf)))
    else
      var pos := if r.start + 1 == |r.data| then 0 else r.start + 1;
      var r' := r.(start := pos);
      assert Contents(r') == Contents(r)[1..] by {
        if r.start > r.end && pos == 0 {
          assert r.data[r.start..] == [r.data[r.start]];
        }
      }
      (r', Ok(r.data[r.start]))
  }

  /** `get_byte(i)`: the `i`-th stored byte, read without moving a cursor and
      without looking at the closed flag. */
  function GetByte(r: Ring, i: nat): (out: Result<u8>)
    requires Valid(r)
    ensures out.Ok? <==> i < Len(r)
    ensures out.Ok? ==> out.value == Contents(r)[i]
  {
    if i >= Len(r) then
      Err(IoError(Other, "out of data buf"))
    else
      var pos := if r.start + i >= |r.data| then r.start + i - |r.data| else r.start + i;
      Ok(r.data[pos])
  }

  // ---------------------------------------------------------------- borrow / commit

  /** How far a read can go from `start` without wrapping: up to `end`, or
      up to the end of the array when the stored bytes wrap. */
  function ReadWindow(r: Ring): (w: nat)
    requires Valid(r)
    ensures r.start != r.end ==> 0 < w <= Len(r) && r.start + w <= |r.data|
  {
    if r.start < r.end then r.end - r.start else |r.data| - r.start
  }

  /** The first `k` stored bytes, within the read window, lie unwrapped in
      the array from `start`, whichever way the cursors are ordered. */
  lemma WindowContents(r: Ring, k: nat)
    requires Valid(r) && r.start != r.end && k <= ReadWindow(r)
    ensures Contents(r)[..k] == r.data[r.start..r.start + k]
  {
    if r.start > r.end {
      assert Contents(r)[..k] == r.data[r.start..][..k];
    }
  }

  /** `borrow_read_buf(ln)`: the stored bytes from `start`, at most `ln` of
      them and never past the wrap point. */
  function BorrowReadBuf(r: Ring, ln: nat): (out: Result<seq<u8>>)
    requires Valid(r)
    ensures out.Err? <==> r.closed || Len(r) == 0
    ensures r.closed ==> out == Err(ClosedErr)
    ensures out.Ok? ==> && |out.value| == Min(ln, ReadWindow(r))
                        && out.value == Contents(r)[..|out.value|]
  {
    if r.closed then
      Err(ClosedErr)
    else if Len(r) == 0 then
      Err(IoError(InvalidData, NoBuf))
    else
      var lns := r.start + ln;
      var lns := if r.start < r.end then Min(lns, r.end) else Min(lns, |r.data|);
      WindowContents(r, lns - r.start);
      Ok(r.data[r.start..lns])
  }

  /** `borrow_read_ok(ln)`: commits a read of `ln` bytes by advancing `start`.
      A zero-length commit succeeds before the closed check. */
  function BorrowReadOk(r: Ring, ln: nat): (out: (Ring, Result<()>))
    requires Valid(r)
    ensures Valid(out.0)
    ensures ln == 0 ==> out == (r, Ok(()))
    ensures ln > 0 ==> (out.1.Err? <==> r.closed || ln > Len(r) || r.start + ln > |r.data|)
    ensures ln > 0 && r.closed ==> out.1 == Err(ClosedErr)
    ensures out.1.Err? ==> out.0 == r
    ensures out.1.Ok? ==> && Contents(out.0) == Contents(r)[ln..]
                          && out.0.data == r.data && out.0.closed == r.closed
  {
    if ln == 0 then
      (r, Ok(()))
    else if r.closed then
      (r, Err(ClosedErr))
    else if ln > Len(r) then
      (r, Err(IoError(Other, "out of data buf")))
    else if r.start + ln > |r.data| then
      (r, Err(IoError(Other, "out of buf,please check")))
    else
      var pos := if r.start + ln == |r.data| then 0 else r.start + ln;
      var r' := r.(start := pos);
      assert Contents(r') == Contents(r)[ln..] by {
        if r.start > r.end && pos == 0 {
          assert r.data[r.start..] == Contents(r)[..ln];
        }
      }
      (r', Ok(()))
  }

  /** How far a write can go from `end` without wrapping: up to `start`, or
      up to the end of the array. It may reach `start`. */
  function WriteWindow(r: Ring): (w: nat)
    requires Valid(r)
    ensures w <= Avail(r) && r.end + w <= |r.data|
    ensures |r.data| > 0 ==> w > 0
  {
    if r.end < r.start then r.start - r.end else |r.data| - r.end
  }

  /** `borrow_write_buf(ln)`: the free slots from `end`, at most `ln` of them
      and never past the wrap point; returned as the window's length, the
      window being `data[end..end + length]`. */
  function BorrowWriteBuf(r: Ring, ln: nat): (out: Result<nat>)
    requires Valid(r)
    ensures out.Err? <==> r.closed || |r.data| == 0
    ensures r.closed ==> out == Err(ClosedErr)
    ensures out.Ok? ==> out.value == Min(ln, WriteWindow(r))
  {
    if r.closed then
      Err(ClosedErr)
    else if Avail(r) == 0 then
      Err(IoError(InvalidData, NoBuf))
    else
      var lns := r.end + ln;
      var lns := if r.end < r.start then Min(lns, r.start) else Min(lns, |r.data|);
      Ok(lns - r.end)
  }

  /** The caller's copy into the borrowed write window. The window lies
      outside the stored bytes, which it therefore leaves alone. */
  function Fill(r: Ring, bytes: seq<u8>): (r': Ring)
    requires Valid(r) && |bytes| <= WriteWindow(r)
    ensures Valid(r') && Contents(r') == Contents(r)
    ensures r'.start == r.start && r'.end == r.end && r'.closed == r.closed
    ensures |r'.data| == |r.data| && r'.data[r.end..r.end + |bytes|] == bytes
  {
    var r' := r.(data := r.data[..r.end] + bytes + r.data[r.end + |bytes|..]);
    assert r'.data[r.end..r.end + |bytes|] == bytes;
    assert Contents(r') == Contents(r) by {
      if r.start <= r.end {
        assert r'.data[r.start..r.end] == r.data[r.start..r.end];
      } else {
        assert r'.data[r.start..] == r.data[r.start..];
        assert r'.data[..r.end] == r.data[..r.end];
      }
    }
    r'
  }

  /** `borrow_write_ok(ln)`: commits a write of `ln` bytes by advancing `end`.
      It accepts `ln == avail()`, which moves `end` onto `start`: the ring
      then reads as empty and the written bytes are lost. */
  function BorrowWriteOk(r: Ring, ln: nat): (out: (Ring, Result<()>))
    requires Valid(r)
    ensures Valid(out.0)
    ensures ln == 0 ==> out == (r, Ok(()))
    ensures ln > 0 ==> (out.1.Err? <==> r.closed || ln > Avail(r) || r.end + ln > |r.data|)
    ensures ln > 0 && r.closed ==> out.1 == Err(ClosedErr)
    ensures out.1.Err? ==> out.0 == r
    ensures out.1.Ok? ==> out.0.data == r.data && out.0.closed == r.closed
    ensures out.1.Ok? && ln < Avail(r) ==> Contents(out.0) == Contents(r) + r.data[r.end..r.end + ln]
    ensures out.1.Ok? && 0 < ln == Avail(r) ==> Contents(out.0) == []
  {
    if ln == 0 then
      (r, Ok(()))
    else if r.closed then
      (r, Err(ClosedErr))
    else if ln > Avail(r) then
      (r, Err(IoError(Other, "out of data buf")))
    else if r.end + ln > |r.data| then
      (r, Err(IoError(Other, "out of buf,please check")))
    else
      var pos := if r.end + ln == |r.data| then 0 else r.end + ln;
      var r' := r.(end := pos);
      CommitContents(r, ln, r');
      (r', Ok(()))
  }

  lemma CommitContents(r: Ring, ln: nat, r': Ring)
    requires Valid(r) && 0 < ln <= Avail(r) && r.end + ln <= |r.data|
    requires r' == r.(end := if r.end + ln == |r.data| then 0 else r.end + ln)
    ensures Valid(r')
    ensures ln < Avail(r) ==> Contents(r') == Contents(r) + r.data[r.end..r.end + ln]
    ensures ln == Avail(r) ==> Contents(r') == []
  {
    if ln < Avail(r) {
      if r.start <= r.end {
        if r.end + ln == |r.data| {
          assert r.data[r.start..] == r.data[r.start..r.end] + r.data[r.end..r.end + ln];
        } else {
          assert r.data[r.start..r.end + ln] == r.data[r.start..r.end] + r.data[r.end..r.end + ln];
        }
      } else {
        assert r.data[..r.end + ln] == r.data[..r.end] + r.data[r.end..r.end + ln];
      }
    }
  }

  // ---------------------------------------------------------------- std::io

  /** `Write::write`: borrow the write window for `buf`, copy what fits,
      commit it, and report how many bytes were taken. */
  function Write(r: Ring, buf: seq<u8>): (out: (Ring, Result<nat>))
    requires Valid(r)
    ensures Valid(out.0)
    ensures out.1.Err? <==> r.closed || |r.data| == 0
    ensures out.1.Err? ==> out.0 == r
    ensures out.1.Ok? ==> out.1.value == Min(|buf|, WriteWindow(r)) && !out.0.closed
    ensures out.1.Ok? && out.1.value < Avail(r) ==> Contents(out.0) == Contents(r) + buf[..out.1.value]
    ensures out.1.Ok? && 0 < out.1.value == Avail(r) ==> Contents(out.0) == []
  {
    match BorrowWriteBuf(r, |buf|)
    case Err(e) => (r, Err(e))
    case Ok(w) =>
      var r1 := Fill(r, buf[..w]);
      var (r2, res) := BorrowWriteOk(r1, w);
      if res.Err? then assert false; (r, Err(ClosedErr)) else (r2, Ok(w))
  }

  /** `Read::read`: borrow the read window for a destination of `n` bytes,
      copy it, commit it, and report the count. */
  function Read(r: Ring, n: nat): (out: (Ring, Result<seq<u8>>))
    requires Valid(r)
    ensures Valid(out.0)
    ensures out.1.Err? <==> r.closed || Len(r) == 0
    ensures out.1.Err? ==> out.0 == r
    ensures out.1.Ok? ==> && |out.1.value| == Min(n, ReadWindow(r))
                          && out.1.value == Contents(r)[..|out.1.value|]
                          && Contents(out.0) == Contents(r)[|out.1.value|..]
  {
    match BorrowReadBuf(r, n)
    case Err(e) => (r, Err(e))
    case Ok(bufs) =>
      var (r1, res) := BorrowReadOk(r, |bufs|);
      if res.Err? then assert false; (r, Err(ClosedErr)) else (r1, Ok(bufs))
  }

  /** The write window as evidently intended: like `put_byte`, never let
      `end` reach `start`, so one slot stays free. */
  function WriteWindowFixed(r: Ring): (w: nat)
    requires Valid(r) && |r.data| > 0
    ensures w < Avail(r) && w <= WriteWindow(r)
    ensures Len(r) < |r.data| - 1 ==> w > 0
  {
    if r.end < r.start then r.start - r.end - 1
    else if r.start == 0 then |r.data| - r.end - 1
    else |r.data| - r.end
  }

  /** `Write::write` with the write window of `WriteWindowFixed`: every byte
      it reports taken is kept. */
  function WriteFixed(r: Ring, buf: seq<u8>): (out: (Ring, Result<nat>))
    requires Valid(r)
    ensures Valid(out.0)
    ensures out.1.Err? <==> r.closed || |r.data| == 0
    ensures out.1.Err? ==> out.0 == r
    ensures out.1.Ok? ==> && out.1.value <= |buf| && !out.0.closed
                          && Contents(out.0) == Contents(r) + buf[..out.1.value]
    ensures out.1.Ok? && |buf| > 0 && Len(r) < |r.data| - 1 ==> out.1.value > 0
  {
    if r.closed then
      (r, Err(ClosedErr))
    else if Avail(r) == 0 then
      (r, Err(IoError(InvalidData, NoBuf)))
    else
      var w: nat := Min(|buf|, WriteWindowFixed(r));
      var r1 := Fill(r, buf[..w]);
      var (r2, res) := BorrowWriteOk(r1, w);
      if res.Err? then assert false; (r, Err(ClosedErr)) else (r2, Ok(w))
  }

  // ---------------------------------------------------------------- properties

  /** `put_byte` of every byte of `xs` in turn; the ring has room for all. */
  function PutAll(r: Ring, xs: seq<u8>): (r': Ring)
    requires Valid(r) && !r.closed && Len(r) + |xs| < |r.data|
    ensures Valid(r') && !r'.closed && |r'.data| == |r.data|
    ensures Contents(r') == Contents(r) + xs
    decreases |xs|
  {
    if |xs| == 0 then
      r
    else
      var (r1, res) := PutByte(r, xs[0]);
      assert Contents(r) + xs == Contents(r1) + xs[1..];
      PutAll(r1, xs[1..])
  }

  /** `pop_byte` repeated `k` times; returns the ring and the bytes in the
      order they came out. */
  function PopN(r: Ring, k: nat): (out: (Ring, seq<u8>))
    requires Valid(r) && !r.closed && k <= Len(r)
    ensures Valid(out.0) && !out.0.closed
    ensures out.1 == Contents(r)[..k]
    ensures Contents(out.0) == Contents(r)[k..]
    decreases k
  {
    if k == 0 then
      (r, [])
    else
      var (r1, res) := PopByte(r);
      var (r2, rest) := PopN(r1, k - 1);
      HeadSplit(Contents(r), k);
      (r2, [res.value] + rest)
  }

  /** Taking or dropping `k` of `s` goes through its head and `k - 1` of its
      tail. */
  lemma HeadSplit(s: seq<u8>, k: nat)
    requires 0 < k <= |s|
    ensures s[..k] == [s[0]] + s[1..][..k - 1]
    ensures s[k..] == s[1..][k - 1..]
  {
  }

  /** The byte API is first-in first-out: bytes put into a ring come back out
      of it, after the ones already stored, in the order they went in. */
  lemma PutsThenPops(r: Ring, xs: seq<u8>)
    requires Valid(r) && !r.closed && Len(r) + |xs| < |r.data|
    ensures var r1 := PutAll(r, xs);
            Len(r1) == Len(r) + |xs| && PopN(r1, Len(r1)).1 == Contents(r) + xs
  {
  }

  /** A write that stops short of filling the ring is read back unchanged by
      the next `read` of an empty ring. */
  lemma WriteThenRead(r: Ring, buf: seq<u8>, n: nat)
    requires Valid(r) && !r.closed && |r.data| > 0 && Len(r) == 0
    requires Write(r, buf).1.Ok? && Write(r, buf).1.value < Avail(r)
    requires n >= Write(r, buf).1.value > 0
    ensures var w := Write(r, buf).1.value;
            Read(Write(r, buf).0, n).1 == Ok(buf[..w])
  {
    var (r1, res) := Write(r, buf);
    var w := res.value;
    assert ReadWindow(r1) == w;
  }

  /** `write` of a whole ring's worth into an empty ring of four bytes
      reports four bytes written, yet the ring then reads as empty and a
      `read` fails. */
  lemma WriteFillLosesData()
    ensures var (r1, res) := Write(New(4), [1, 2, 3, 4]);
            && res == Ok(4)
            && Len(r1) == 0
            && Read(r1, 4).1.Err?
  {
    assert WriteWindow(New(4)) == 4;
  }

  /** With the corrected window nothing written is lost: a write followed by
      reading back everything stored yields the old contents then the bytes
      the write reported. */
  lemma WriteFixedThenRead(r: Ring, buf: seq<u8>)
    requires Valid(r) && !r.closed && |r.data| > 0
    ensures var (r1, res) := WriteFixed(r, buf);
            && res.Ok?
            && PopN(r1, Len(r1)).1 == Contents(r) + buf[..res.value]
  {
  }
}
