/** `ByteBoxBuf`: a queue of immutable byte chunks with a running total.

    The linked list of `bytes::Bytes` becomes a sequence of byte sequences; of
    a chunk the source uses only its length and `split_to`. The abstract content
    of a buffer is the in-order concatenation of its chunks. */
module ByteBoxBuf {
  import opened Base

  /** `count` is the running total the source keeps beside its list. */
  datatype Buf = Buf(count: nat, chunks: seq<seq<u8>>)

  /** In-order concatenation of a list of chunks. */
  function Flatten(cs: seq<seq<u8>>): seq<u8>
  {
    if |cs| == 0 then [] else Flatten(cs[..|cs| - 1]) + cs[|cs| - 1]
  }

  /** The bytes a buffer holds, front first. */
  function Content(b: Buf): seq<u8>
  {
    Flatten(b.chunks)
  }

  /** The representation invariant: the running count is exact and no stored
      chunk is empty (both `push`es drop empty input). */
  predicate Valid(b: Buf)
  {
    && b.count == |Content(b)|
    && forall i | 0 <= i < |b.chunks| :: |b.chunks[i]| > 0
  }

  lemma {:induction false} FlattenAppend(a: seq<seq<u8>>, c: seq<seq<u8>>)
    ensures Flatten(a + c) == Flatten(a) + Flatten(c)
    decreases |c|
  {
    if |c| == 0 {
      assert a + c == a;
    } else {
      var c' := c[..|c| - 1];
      assert (a + c)[..|a + c| - 1] == a + c';
      assert (a + c)[|a + c| - 1] == c[|c| - 1];
      FlattenAppend(a, c');
      assert Flatten(c) == Flatten(c') + c[|c| - 1];
    }
  }

  lemma FlattenCons(x: seq<u8>, cs: seq<seq<u8>>)
    ensures Flatten([x] + cs) == x + Flatten(cs)
  {
    FlattenAppend([x], cs);
    assert [x][..0] == [];
  }

  /** The chunks up to `i` flatten to those before it followed by chunk `i`. */
  lemma FlattenPrefix(cs: seq<seq<u8>>, i: nat)
    requires i < |cs|
    ensures Flatten(cs[..i + 1]) == Flatten(cs[..i]) + cs[i]
  {
    var p := cs[..i + 1];
    assert p[..|p| - 1] == cs[..i] && p[|p| - 1] == cs[i];
  }

  /** Splitting the chunk list splits the content. */
  lemma FlattenSplit(cs: seq<seq<u8>>, j: nat)
    requires j <= |cs|
    ensures Flatten(cs) == Flatten(cs[..j]) + Flatten(cs[j..])
  {
    assert cs == cs[..j] + cs[j..];
    FlattenAppend(cs[..j], cs[j..]);
  }

  /** Chunk `i` sits in the flattened content right after the chunks before it. */
  lemma FlattenAt(cs: seq<seq<u8>>, i: nat)
    requires i < |cs|
    ensures Flatten(cs[..i + 1]) == Flatten(cs[..i]) + cs[i]
    ensures Flatten(cs) == Flatten(cs[..i]) + cs[i] + Flatten(cs[i + 1..])
  {
    FlattenPrefix(cs, i);
    FlattenSplit(cs, i + 1);
  }

  /** The same fact as offsets: chunk `i` occupies the content from the total
      length of the chunks before it. */
  lemma ChunkAt(cs: seq<seq<u8>>, i: nat)
    requires i < |cs|
    ensures |Flatten(cs[..i + 1])| == |Flatten(cs[..i])| + |cs[i]| <= |Flatten(cs)|
    ensures Flatten(cs)[|Flatten(cs[..i])|..|Flatten(cs[..i])| + |cs[i]|] == cs[i]
  {
    FlattenAt(cs, i);
  }

  lemma WholePrefix(cs: seq<seq<u8>>)
    ensures cs[..|cs|] == cs
  {
  }

  lemma SliceOfSlice(s: seq<u8>, a: nat, b: nat, c: nat, d: nat)
    requires a <= b <= |s| && c <= d <= b - a
    ensures s[a..b][c..d] == s[a + c..a + d]
  {
    forall k | 0 <= k < d - c
      ensures s[a..b][c..d][k] == s[a + c..a + d][k]
    {
    }
  }

  /** Copying `take` bytes of chunk `v`, which sits at offset `pre` of
      `flat`, from its offset `sr` extends a copy of `flat` that ends there. */
  lemma TakeFromChunk(flat: seq<u8>, v: seq<u8>, pre: nat, sr: nat, take: nat, start: nat, got: seq<u8>)
    requires pre + |v| <= |flat| && flat[pre..pre + |v|] == v
    requires sr + take <= |v| && start + |got| == sr + pre
    requires got == flat[start..start + |got|]
    ensures got + v[sr..sr + take] == flat[start..start + |got| + take]
  {
    SliceOfSlice(flat, pre, pre + |v|, sr, sr + take);
    assert flat[start..start + |got| + take] == flat[start..pre + sr] + flat[pre + sr..pre + sr + take];
  }

  /** Cutting `pos` bytes off `v + rest` inside `v`. */
  lemma SplitFront(x: seq<u8>, v: seq<u8>, rest: seq<u8>, pos: nat)
    requires x == v + rest && pos <= |v|
    ensures x[..pos] == [] + v[..pos] && x[pos..] == v[pos..] + rest
  {
  }

  /** One turn of the cut loop: `d` was cut off the front of `x`, leaving
      `y`, and cutting the remaining `p - |d|` bytes off `y` completes a cut
      of `p` bytes off `x`. */
  lemma CutAfter(x: seq<u8>, d: seq<u8>, y: seq<u8>, p: nat, f: seq<u8>, o1: seq<u8>, o0: seq<u8>)
    requires |d| <= p <= |x| && d == x[..|d|] && y == x[|d|..]
    requires o1 == (f + d) + y[..p - |d|] && o0 == y[p - |d|..]
    ensures o1 == f + x[..p] && o0 == x[p..]
  {
    assert x[..p] == x[..|d|] + x[|d|..p];
  }

  // ---------------------------------------------------------------- building

  function New(): (r: Buf)
    ensures Valid(r) && r.count == 0 && Content(r) == []
  {
    Buf(0, [])
  }

  /** `push`: appends a non-empty chunk at the back; empty input is ignored. */
  function Push(b: Buf, dt: seq<u8>): (r: Buf)
    requires Valid(b)
    ensures Valid(r)
    ensures Content(r) == Content(b) + dt
    ensures |dt| == 0 ==> r == b
    ensures |dt| > 0 ==> r.chunks == b.chunks + [dt]
  {
    if |dt| > 0 then
      assert (b.chunks + [dt])[..|b.chunks|] == b.chunks;
      Buf(b.count + |dt|, b.chunks + [dt])
    else
      b
  }

  /** `push_front`: prepends a non-empty chunk; empty input is ignored. */
  function PushFront(b: Buf, dt: seq<u8>): (r: Buf)
    requires Valid(b)
    ensures Valid(r)
    ensures Content(r) == dt + Content(b)
    ensures |dt| == 0 ==> r == b
    ensures |dt| > 0 ==> r.chunks == [dt] + b.chunks
  {
    if |dt| > 0 then
      FlattenCons(dt, b.chunks);
      Buf(b.count + |dt|, [dt] + b.chunks)
    else
      b
  }

  /** The loop of `push_all`: `push` every chunk of `cs`, front to back. */
  function PushChunks(b: Buf, cs: seq<seq<u8>>): (r: Buf)
    requires Valid(b)
    ensures Valid(r)
    ensures Content(r) == Content(b) + Flatten(cs)
    decreases |cs|
  {
    if |cs| == 0 then
      b
    else
      assert cs == [cs[0]] + cs[1..];
      FlattenCons(cs[0], cs[1..]);
      PushChunks(Push(b, cs[0]), cs[1..])
  }

  /** `push_all`: appends every chunk of `data`, which is left as it was. */
  function PushAll(b: Buf, data: Buf): (r: Buf)
    requires Valid(b)
    ensures Valid(r)
    ensures Content(r) == Content(b) + Content(data)
    ensures r.count == b.count + |Content(data)|
  {
    PushChunks(b, data.chunks)
  }

  /** `pushs`: `Vec::truncate(n)` then `push`. */
  function Pushs(b: Buf, dt: seq<u8>, n: nat): (r: Buf)
    requires Valid(b)
    ensures Valid(r)
    ensures Content(r) == Content(b) + dt[..Min(n, |dt|)]
    ensures r.count == b.count + Min(n, |dt|)
  {
    Push(b, if n < |dt| then dt[..n] else dt)
  }

  /** `Write::write`: appends a copy of `buf` and reports all of it written. */
  function Write(b: Buf, buf: seq<u8>): (r: (Buf, nat))
    requires Valid(b)
    ensures Valid(r.0)
    ensures Content(r.0) == Content(b) + buf
    ensures r.1 == |buf|
  {
    (Push(b, buf), |buf|)
  }

  // ---------------------------------------------------------------- taking

  /** `pull`: removes and returns the front chunk, `None` when empty. */
  function Pull(b: Buf): (r: (Buf, Option<seq<u8>>))
    requires Valid(b)
    ensures Valid(r.0)
    ensures r.1.None? <==> b.count == 0
    ensures r.1.None? ==> r.0 == b
    ensures r.1.Some? ==> && |r.1.value| > 0
                          && b.chunks == [r.1.value] + r.0.chunks
                          && Content(b) == r.1.value + Content(r.0)
                          && r.0.count == b.count - |r.1.value|
  {
    if |b.chunks| == 0 then
      (b, None)
    else
      var v := b.chunks[0];
      assert b.chunks == [v] + b.chunks[1..];
      FlattenCons(v, b.chunks[1..]);
      (Buf(b.count - |v|, b.chunks[1..]), Some(v))
  }

  /** `pull_all`: moves every chunk, in order, into a new buffer and leaves
      the source buffer empty. Returns the emptied buffer and the new one. */
  method PullAll(b: Buf) returns (rest: Buf, moved: Buf)
    requires Valid(b)
    ensures Valid(rest) && Valid(moved)
    ensures rest.count == 0 && rest.chunks == []
    ensures moved.chunks == b.chunks && moved.count == b.count
  {
    rest := b;
    moved := New();
    while |rest.chunks| > 0
      invariant Valid(rest) && Valid(moved)
      invariant moved.chunks + rest.chunks == b.chunks
      invariant moved.count + rest.count == b.count
      decreases |rest.chunks|
    {
      var p := Pull(rest);
      MoveFront(moved.chunks, p.1.value, p.0.chunks, b.chunks);
      rest := p.0;
      moved := Push(moved, p.1.value);
    }
  }

  lemma MoveFront(m: seq<seq<u8>>, v: seq<u8>, r: seq<seq<u8>>, all: seq<seq<u8>>)
    requires m + ([v] + r) == all
    ensures (m + [v]) + r == all
  {
    assert m + ([v] + r) == (m + [v]) + r;
  }

  /** `clear`. */
  function Clear(b: Buf): (r: Buf)
    ensures Valid(r) && r.count == 0 && Content(r) == []
  {
    New()
  }

  /** `len`: the running count, which the invariant makes the content length. */
  function Len(b: Buf): (r: nat)
    requires Valid(b)
    ensures r == |Content(b)|
  {
    b.count
  }

  /** `frtlen`: length of the front chunk, 0 when empty. */
  function Frtlen(b: Buf): (r: nat)
    requires Valid(b)
    ensures r <= b.count
    ensures r == 0 <==> b.count == 0
    ensures r > 0 ==> Content(b)[..r] == b.chunks[0]
  {
    if |b.chunks| > 0 then
      FlattenCons(b.chunks[0], b.chunks[1..]);
      assert b.chunks == [b.chunks[0]] + b.chunks[1..];
      |b.chunks[0]|
    else
      0
  }

  /** `lens`: recomputes the total by walking the chunks. */
  method Lens(b: Buf) returns (r: nat)
    ensures r == |Content(b)|
    ensures Valid(b) ==> r == b.count
  {
    r := 0;
    var i := 0;
    while i < |b.chunks|
      invariant 0 <= i <= |b.chunks|
      invariant r == |Flatten(b.chunks[..i])|
    {
      FlattenAt(b.chunks, i);
      r := r + |b.chunks[i]|;
      i := i + 1;
    }
    assert b.chunks[..i] == b.chunks;
  }

  /** `get_byte`: the byte at `idx` of the content, found by walking the chunks.
      The source's trailing "not found" error cannot be reached. */
  method GetByte(b: Buf, idx: nat) returns (r: Result<u8>)
    requires Valid(b)
    ensures r.Ok? <==> idx < b.count
    ensures r.Ok? ==> r.value == Content(b)[idx]
  {
    if idx >= b.count {
      return Err(IoError(Other, "idx err:more count"));
    }
    var lns := 0;
    var i := 0;
    while i < |b.chunks|
      invariant 0 <= i <= |b.chunks|
      invariant lns == |Flatten(b.chunks[..i])| <= idx
    {
      var v := b.chunks[i];
      FlattenAt(b.chunks, i);
      var idxs := idx - lns;
      if idxs < |v| {
        return Ok(v[idxs]);
      }
      lns := lns + |v|;
      i := i + 1;
    }
    WholePrefix(b.chunks);
    assert false;
    r := Err(IoError(Other, "not found index byte"));
  }

  /** `gets(start, len)`: copies `len` bytes from offset `start` without
      consuming them, and returns the offset just past them. The source's
      final length check cannot fail. */
  method Gets(b: Buf, start: nat, len: nat) returns (r: Result<(seq<u8>, nat)>)
    requires Valid(b)
    ensures r.Ok? <==> 0 < len && start < b.count && start + len <= b.count
    ensures r.Ok? ==> r.value == (Content(b)[start..start + len], start + len)
  {
    if len == 0 {
      return Err(IoError(Other, "len err"));
    }
    if start >= b.count || start + len > b.count {
      return Err(IoError(Other, "pos out limit"));
    }
    ghost var flat := Content(b);
    ghost var pre := 0;
    var rtbts: seq<u8> := [];
    var startReal := start;
    var lenReal := len;
    var i := 0;
    while i < |b.chunks|
      invariant 0 <= i <= |b.chunks|
      invariant pre == |Flatten(b.chunks[..i])| <= |flat|
      invariant 0 < lenReal && |rtbts| + lenReal == len
      invariant 0 <= startReal && startReal + pre == start + |rtbts|
      invariant |rtbts| > 0 ==> startReal == 0
      invariant rtbts == flat[start..start + |rtbts|]
    {
      var v := b.chunks[i];
      ChunkAt(b.chunks, i);
      if startReal < |v| {
        // the inner `for` pushes bytes until `len_real` reaches zero
        var take := Min(lenReal, |v| - startReal);
        TakeFromChunk(flat, v, pre, startReal, take, start, rtbts);
        rtbts := rtbts + v[startReal..startReal + take];
        lenReal := lenReal - take;
        if lenReal == 0 {
          break;
        }
        startReal := 0;
      } else {
        startReal := startReal - |v|;
      }
      pre := pre + |v|;
      i := i + 1;
    }
    if len != |rtbts| {
      WholePrefix(b.chunks);
      assert false;
      return Err(IoError(Other, "get len err"));
    }
    r := Ok((rtbts, start + len));
  }

  /** Rust's `Bytes::split_to(k)`: the first `k` bytes and the rest. It panics
      when `k` exceeds the length. */
  function SplitTo(v: seq<u8>, k: nat): (r: (seq<u8>, seq<u8>))
    requires k <= |v|
    ensures r.0 + r.1 == v && |r.0| == k
  {
    (v[..k], v[k..])
  }

  /** When `cut_front(pos)` runs without panicking: its first `split_to(pos)`
      is applied to the front chunk, so a cut of `0 < pos <= len()` must not
      reach past that chunk. */
  predicate CutFrontSafe(b: Buf, pos: nat)
    requires Valid(b)
  {
    pos > b.count || pos == 0 || pos <= Frtlen(b)
  }

  /** `cut_front(pos)` as written. Returns the remainder and the removed piece.
      The loop body runs once: the first `split_to(pos)` either panics or
      takes all `pos` bytes from the front chunk. */
  function CutFront(b: Buf, pos: nat): (r: Result<(Buf, Buf)>)
    requires Valid(b)
    requires CutFrontSafe(b, pos)
    ensures r.Err? <==> pos > b.count
    ensures pos == 0 ==> r == Ok((b, New()))
    ensures r.Ok? ==> && Valid(r.value.0) && Valid(r.value.1)
                      && r.value.1.count == pos
                      && Content(r.value.1) == Content(b)[..pos]
                      && Content(r.value.0) == Content(b)[pos..]
  {
    if pos > b.count then
      Err(IoError(Other, "cut_front pos out limit"))
    else if pos == 0 then
      Ok((b, New()))
    else
      var p := Pull(b);
      var sp := SplitTo(p.1.value, pos);
      var self2 := PushFront(p.0, sp.1);
      var frt := Push(New(), sp.0);
      SplitFront(Content(b), p.1.value, Content(p.0), pos);
      Ok((self2, frt))
  }

  /** The loop of `cut_front` with the split clamped to the chunk,
      `split_to(min(pos_real, v.len()))`, so that it walks across chunks. One
      turn of the loop is `ReadFixed`. */
  function CutLoop(rest: Buf, frt: Buf, posReal: nat): (r: (Buf, Buf))
    requires Valid(rest) && Valid(frt)
    requires posReal <= rest.count
    ensures Valid(r.0) && Valid(r.1)
    ensures Content(r.1) == Content(frt) + Content(rest)[..posReal]
    ensures Content(r.0) == Content(rest)[posReal..]
    decreases posReal
  {
    if posReal == 0 then
      (rest, frt)
    else
      var rd := ReadFixed(rest, posReal);
      var r := CutLoop(rd.0, Push(frt, rd.1), posReal - |rd.1|);
      CutAfter(Content(rest), rd.1, Content(rd.0), posReal, Content(frt), Content(r.1), Content(r.0));
      r
  }

  /** `cut_front` with the clamped split: removes exactly `pos` bytes from
      the front for every `pos <= len()`, across as many chunks as needed. */
  function CutFrontFixed(b: Buf, pos: nat): (r: Result<(Buf, Buf)>)
    requires Valid(b)
    ensures r.Err? <==> pos > b.count
    ensures pos == 0 ==> r == Ok((b, New()))
    ensures r.Ok? ==> && Valid(r.value.0) && Valid(r.value.1)
                      && r.value.1.count == pos
                      && Content(r.value.1) == Content(b)[..pos]
                      && Content(r.value.0) == Content(b)[pos..]
  {
    if pos > b.count then
      Err(IoError(Other, "cut_front pos out limit"))
    else if pos == 0 then
      Ok((b, New()))
    else
      Ok(CutLoop(b, New(), pos))
  }

  /** `Read::read` as written, for a destination of `n` bytes. It pulls the
      front chunk, splits `n` bytes off it (panicking if the chunk is
      shorter, and `copy_from_slice` demands exactly `n`), puts the rest back
      and copies. It always reports `Ok(0)`. Returns the new buffer, the
      bytes copied (None when the buffer was empty and nothing was touched)
      and the reported count. */
  function Read(b: Buf, n: nat): (r: (Buf, Option<seq<u8>>, nat))
    requires Valid(b)
    requires b.count == 0 || n <= Frtlen(b)
    ensures Valid(r.0)
    ensures r.2 == 0
    ensures r.1.None? <==> b.count == 0
    ensures r.1.None? ==> r.0 == b
    ensures r.1.Some? ==> r.1.value == Content(b)[..n] && Content(r.0) == Content(b)[n..]
  {
    var (self1, v) := Pull(b);
    if v.None? then
      (b, None, 0)
    else
      var (dt, tail) := SplitTo(v.value, n);
      var self2 := PushFront(self1, tail);
      assert Content(b) == dt + Content(self2);
      (self2, Some(dt), 0)
  }

  /** `Read::read` as evidently intended: copies as much of the front chunk as
      fits and reports how many bytes it copied. */
  function ReadFixed(b: Buf, n: nat): (r: (Buf, seq<u8>))
    requires Valid(b)
    ensures Valid(r.0)
    ensures |r.1| == Min(n, Frtlen(b))
    ensures r.1 == Content(b)[..|r.1|] && Content(r.0) == Content(b)[|r.1|..]
    ensures n > 0 && b.count > 0 ==> |r.1| > 0
  {
    var (self1, v) := Pull(b);
    if v.None? then
      (b, [])
    else
      var (dt, tail) := SplitTo(v.value, Min(n, |v.value|));
      var self2 := PushFront(self1, tail);
      assert Content(b) == dt + Content(self2);
      (self2, dt)
  }

  /** `to_bytes`: copies every chunk, in order, into one buffer. */
  method ToBytes(b: Buf) returns (r: seq<u8>)
    requires Valid(b)
    ensures r == Content(b)
    ensures |r| == b.count
  {
    r := [];
    var i := 0;
    while i < |b.chunks|
      invariant 0 <= i <= |b.chunks|
      invariant r == Flatten(b.chunks[..i])
    {
      FlattenAt(b.chunks, i);
      r := r + b.chunks[i];
      i := i + 1;
    }
    assert b.chunks[..i] == b.chunks;
  }

  // ---------------------------------------------------------------- properties

  /** Two pushes then `to_bytes` give the concatenation; a `cut_front` inside
      the first chunk splits that concatenation at `k`. */
  lemma PushPushCut(a: seq<u8>, c: seq<u8>, k: nat)
    requires 0 < k <= |a|
    ensures Content(Push(Push(New(), a), c)) == a + c
    ensures var b := Push(Push(New(), a), c);
            && CutFrontSafe(b, k)
            && CutFront(b, k).Ok?
            && Content(CutFront(b, k).value.1) == (a + c)[..k]
            && Content(CutFront(b, k).value.0) == (a + c)[k..]
  {
    var b := Push(Push(New(), a), c);
    assert b.chunks[0] == a;
    assert Frtlen(b) == |a|;
  }

  /** A cut that reaches past the front chunk makes `split_to` panic although
      it asks for no more than `len()`: two one-byte chunks, `cut_front(2)`. */
  lemma CutFrontPanicsAcrossChunks()
    ensures var b := Buf(2, [[1], [2]]);
            && Valid(b)
            && !CutFrontSafe(b, 2)
            && CutFrontFixed(b, 2).Ok?
            && Content(CutFrontFixed(b, 2).value.1) == [1, 2]
  {
    var b := Buf(2, [[1], [2]]);
    assert Flatten(b.chunks[..1]) == [1] by {
      assert b.chunks[..1][..0] == [];
    }
    assert Content(b) == [1, 2];
    assert Frtlen(b) == 1;
  }

  /** `read` into a two-byte destination takes both bytes of a two-byte
      buffer yet reports `Ok(0)`, which `std::io::Read` reserves for the end
      of the stream; the corrected read reports the two bytes it copied. */
  lemma ReadReportsZero()
    ensures var b := Push(New(), [7, 8]);
            && Content(b) == [7, 8]
            && Read(b, 2).1 == Some([7, 8]) && Read(b, 2).2 == 0
            && ReadFixed(b, 2).1 == [7, 8] && Content(ReadFixed(b, 2).0) == []
  {
    var b := Push(New(), [7, 8]);
    assert Content(b) == [7, 8];
    assert Frtlen(b) == 2;
  }

  /** Where the as-written `cut_front` does not panic it agrees with the
      clamped one. */
  lemma CutFrontAgrees(b: Buf, pos: nat)
    requires Valid(b) && CutFrontSafe(b, pos)
    ensures CutFront(b, pos) == CutFrontFixed(b, pos)
            || (CutFront(b, pos).Ok? && CutFrontFixed(b, pos).Ok?
                && Content(CutFront(b, pos).value.0) == Content(CutFrontFixed(b, pos).value.0)
                && Content(CutFront(b, pos).value.1) == Content(CutFrontFixed(b, pos).value.1))
  {
  }
}
