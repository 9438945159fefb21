/** The message frame: `send_msg` writes it to a stream and `parse_msg`
    reads it back.

    A frame is the magic pair `8d 8f`, a 16-byte packed header, the command,
    head and body bytes, and the trailer `8e 8f`. The header is the in-memory
    image of a `#[repr(C, packed)]` struct, here written out as little-endian
    fields (the byte order of the targets the crate runs on): `version` u16,
    `control` i32, `lenCmd` u16, `lenHead` u32, `lenBody` u32.

    The stream is the sequence of bytes that arrive before the peer closes
    it; `tcp_read(n)` takes the next `n` of them or fails when fewer remain.
    What `send_msg` writes is returned as a byte sequence. */
module Frame {
  import opened Base
  import Text
  import IntCodec
  import ByteBoxBuf

  const TwoTo16: nat := 0x1_0000
  const TwoTo31: nat := 0x8000_0000
  const TwoTo32: nat := 0x1_0000_0000

  /** The largest head and body lengths `parse_msg` accepts. */
  const MaxHeads: nat := 1024 * 1024 * 100
  const MaxBodys: nat := 1024 * 1024 * 1024

  const Magic: seq<u8> := [0x8d, 0x8f]
  const Trailer: seq<u8> := [0x8e, 0x8f]
  const HeaderLen: nat := 16

  predicate IsI32(v: int)
  {
    -(TwoTo31 as int) <= v < TwoTo31
  }

  // ---------------------------------------------------------------- little endian

  /** The low `n` bytes of `v`'s two's-complement form, least significant
      first. */
  function LeEncode(v: int, n: nat): (bs: seq<u8>)
    ensures |bs| == n
    decreases n
  {
    if n == 0 then [] else [v % 256] + LeEncode(v / 256, n - 1)
  }

  /** The unsigned value of a little-endian byte string. */
  function LeValue(bs: seq<u8>): nat
  {
    if |bs| == 0 then 0 else bs[0] + 256 * LeValue(bs[1..])
  }

  /** A 32-bit pattern read as an `i32`. */
  function ToI32(u: nat): (v: int)
    requires u < TwoTo32
    ensures IsI32(v) && (v == u || v == u - TwoTo32)
  {
    if u < TwoTo31 then u else u - TwoTo32
  }

  lemma {:induction false} LeValueBound(bs: seq<u8>)
    ensures LeValue(bs) < IntCodec.Pow256(|bs|)
    decreases |bs|
  {
    if |bs| > 0 {
      LeValueBound(bs[1..]);
      IntCodec.MulAtMost(256, LeValue(bs[1..]), IntCodec.Pow256(|bs| - 1) - 1);
    }
  }

  lemma Widths()
    ensures IntCodec.Pow256(2) == TwoTo16 && IntCodec.Pow256(4) == TwoTo32
  {
  }

  /** Reading an encoding back keeps the low `n` bytes of the value. */
  lemma {:induction false} LeValueEncode(v: int, n: nat)
    ensures LeValue(LeEncode(v, n)) == v % IntCodec.Pow256(n)
    decreases n
  {
    if n > 0 {
      var e := LeEncode(v, n);
      assert e[1..] == LeEncode(v / 256, n - 1);
      LeValueEncode(v / 256, n - 1);
      IntCodec.ModSplit(v, IntCodec.Pow256(n - 1));
    }
  }

  /** Encoding a value read from bytes gives the bytes back. */
  lemma {:induction false} LeEncodeValue(bs: seq<u8>)
    ensures LeEncode(LeValue(bs), |bs|) == bs
    decreases |bs|
  {
    if |bs| > 0 {
      var u := LeValue(bs);
      IntCodec.DivModUnique(u, 256, LeValue(bs[1..]), bs[0]);
      LeEncodeValue(bs[1..]);
    }
  }

  /** Adding a multiple of `256^n` does not change the low `n` bytes. */
  lemma {:induction false} LeEncodeShift(v: int, k: int, n: nat)
    ensures LeEncode(v + k * IntCodec.Pow256(n), n) == LeEncode(v, n)
    decreases n
  {
    if n > 0 {
      var w := v + k * IntCodec.Pow256(n);
      assert w == 256 * (v / 256 + k * IntCodec.Pow256(n - 1)) + v % 256;
      IntCodec.DivModUnique(w, 256, v / 256 + k * IntCodec.Pow256(n - 1), v % 256);
      LeEncodeShift(v / 256, k, n - 1);
    }
  }

  /** An unsigned field of `n` bytes holding `v` reads back as `v`. */
  lemma UnsignedRoundTrip(v: nat, n: nat)
    requires v < IntCodec.Pow256(n)
    ensures LeValue(LeEncode(v, n)) == v
  {
    LeValueEncode(v, n);
    IntCodec.DivModUnique(v, IntCodec.Pow256(n), 0, v);
  }

  /** The `i32` field reads back as the value written. */
  lemma SignedRoundTrip(v: int)
    requires IsI32(v)
    ensures LeValue(LeEncode(v, 4)) < TwoTo32
    ensures ToI32(LeValue(LeEncode(v, 4))) == v
  {
    Widths();
    LeValueEncode(v, 4);
    if v >= 0 {
      IntCodec.DivModUnique(v, TwoTo32, 0, v);
    } else {
      IntCodec.DivModUnique(v, TwoTo32, -1, v + TwoTo32);
    }
  }

  /** Four bytes read as an `i32` encode back to themselves. */
  lemma SignedBytesRoundTrip(bs: seq<u8>)
    requires |bs| == 4
    ensures LeValue(bs) < TwoTo32
    ensures LeEncode(ToI32(LeValue(bs)), 4) == bs
  {
    Widths();
    LeValueBound(bs);
    LeEncodeValue(bs);
    var u := LeValue(bs);
    if u >= TwoTo31 {
      LeEncodeShift(u - TwoTo32, 1, 4);
    }
  }

  // ---------------------------------------------------------------- header

  /** `MsgInfo`. */
  datatype Header = Header(version: nat, control: int, lenCmd: nat, lenHead: nat, lenBody: nat)

  /** Every field within its Rust type. */
  predicate HeaderOk(h: Header)
  {
    && h.version < TwoTo16 && IsI32(h.control) && h.lenCmd < TwoTo16
    && h.lenHead < TwoTo32 && h.lenBody < TwoTo32
  }

  /** `struct2byte(&info)`. */
  function EncodeHeader(h: Header): (bs: seq<u8>)
    ensures |bs| == HeaderLen
  {
    LeEncode(h.version, 2) + LeEncode(h.control, 4) + LeEncode(h.lenCmd, 2)
    + LeEncode(h.lenHead, 4) + LeEncode(h.lenBody, 4)
  }

  /** `byte2struct(&mut info, bts)`. Its length check cannot fail: the bytes
      come from `tcp_read` of exactly the struct's size. */
  function DecodeHeader(bs: seq<u8>): (h: Header)
    requires |bs| == HeaderLen
    ensures HeaderOk(h)
  {
    Widths();
    LeValueBound(bs[0..2]);
    LeValueBound(bs[2..6]);
    LeValueBound(bs[6..8]);
    LeValueBound(bs[8..12]);
    LeValueBound(bs[12..16]);
    Header(LeValue(bs[0..2]), ToI32(LeValue(bs[2..6])), LeValue(bs[6..8]),
           LeValue(bs[8..12]), LeValue(bs[12..16]))
  }

  lemma EncodeHeaderParts(h: Header)
    ensures var bs := EncodeHeader(h);
            && bs[0..2] == LeEncode(h.version, 2) && bs[2..6] == LeEncode(h.control, 4)
            && bs[6..8] == LeEncode(h.lenCmd, 2) && bs[8..12] == LeEncode(h.lenHead, 4)
            && bs[12..16] == LeEncode(h.lenBody, 4)
  {
  }

  /** Every header in range survives `struct2byte` then `byte2struct`. */
  lemma HeaderRoundTrip(h: Header)
    requires HeaderOk(h)
    ensures DecodeHeader(EncodeHeader(h)) == h
  {
    Widths();
    EncodeHeaderParts(h);
    UnsignedRoundTrip(h.version, 2);
    SignedRoundTrip(h.control);
    UnsignedRoundTrip(h.lenCmd, 2);
    UnsignedRoundTrip(h.lenHead, 4);
    UnsignedRoundTrip(h.lenBody, 4);
  }

  /** Every 16 bytes are the image of exactly one header. */
  lemma HeaderBytesRoundTrip(bs: seq<u8>)
    requires |bs| == HeaderLen
    ensures EncodeHeader(DecodeHeader(bs)) == bs
  {
    Widths();
    LeEncodeValue(bs[0..2]);
    SignedBytesRoundTrip(bs[2..6]);
    LeEncodeValue(bs[6..8]);
    LeEncodeValue(bs[8..12]);
    LeEncodeValue(bs[12..16]);
    assert bs == bs[0..2] + bs[2..6] + bs[6..8] + bs[8..12] + bs[12..16];
  }

  // ---------------------------------------------------------------- messages

  /** `Message`; `cmds` holds the bytes of the command string. */
  datatype Message = Message(version: nat, control: int, cmds: seq<u8>,
                             heads: Option<seq<u8>>, bodys: Option<seq<u8>>)

  function OrEmpty(o: Option<seq<u8>>): seq<u8>
  {
    if o.Some? then o.value else []
  }

  /** What `parse_msg` stores for a section of `n` bytes: nothing when `n`
      is zero. */
  function Section(bts: seq<u8>): (o: Option<seq<u8>>)
    ensures OrEmpty(o) == bts && (o.Some? <==> |bts| > 0)
  {
    if |bts| > 0 then Some(bts) else None
  }

  /** The messages `parse_msg` can return. */
  predicate MessageOk(m: Message)
  {
    && m.version < TwoTo16 && IsI32(m.control)
    && |m.cmds| < TwoTo16 && Text.ValidUtf8(m.cmds)
    && (m.heads.Some? ==> 0 < |m.heads.value| <= MaxHeads)
    && (m.bodys.Some? ==> 0 < |m.bodys.value| <= MaxBodys)
  }

  function HeaderOf(m: Message): Header
  {
    Header(m.version, m.control, |m.cmds|, |OrEmpty(m.heads)|, |OrEmpty(m.bodys)|)
  }

  /** The sections of `m`, in the order they travel. */
  function Payload(m: Message): seq<u8>
  {
    m.cmds + OrEmpty(m.heads) + OrEmpty(m.bodys)
  }

  /** A frame with header `h` around `payload`. */
  function Layout(h: Header, payload: seq<u8>): seq<u8>
  {
    Magic + EncodeHeader(h) + payload + Trailer
  }

  /** Where each part of a frame sits. */
  lemma LayoutParts(h: Header, payload: seq<u8>)
    ensures var f := Layout(h, payload);
            && |f| == 20 + |payload|
            && f[..2] == Magic && f[2..18] == EncodeHeader(h)
            && f[18..|f| - 2] == payload && f[|f| - 2..] == Trailer
  {
    Quarters(Magic, EncodeHeader(h), payload, Trailer);
  }

  lemma Quarters<T>(a: seq<T>, b: seq<T>, c: seq<T>, d: seq<T>)
    ensures var f := a + b + c + d;
            && |f| == |a| + |b| + |c| + |d|
            && f[..|a|] == a && f[|a|..|a| + |b|] == b
            && f[|a| + |b|..|f| - |d|] == c && f[|f| - |d|..] == d
  {
    var f := a + b + c + d;
    assert f[..|a|] == a;
    assert f[|a|..|a| + |b|] == b;
    assert f[|a| + |b|..|f| - |d|] == c;
    assert f[|f| - |d|..] == d;
  }

  /** The frame that carries `m`. */
  function FrameOf(m: Message): seq<u8>
  {
    Layout(HeaderOf(m), Payload(m))
  }

  // ---------------------------------------------------------------- send

  /** The header `send_msg` writes: version 1 and the lengths cast with
      `as u16` / `as u32`, which keep the low bits. */
  function SentHeader(ctrl: int, c: nat, hd: nat, bd: nat): Header
  {
    Header(1, ctrl, c % TwoTo16, hd % TwoTo32, bd % TwoTo32)
  }

  /** `send_msg`: the bytes it writes on success. An absent section is
      written as nothing. */
  function SendMsg(ctrl: int, cmds: Option<seq<u8>>, hds: Option<seq<u8>>, bds: Option<seq<u8>>): (out: seq<u8>)
    requires IsI32(ctrl)
    ensures |out| == 20 + |OrEmpty(cmds)| + |OrEmpty(hds)| + |OrEmpty(bds)|
    ensures out[..2] == Magic && out[|out| - 2..] == Trailer
    ensures var h := DecodeHeader(out[2..18]);
            && h.version == 1 && h.control == ctrl
            && h.lenCmd == |OrEmpty(cmds)| % TwoTo16
            && h.lenHead == |OrEmpty(hds)| % TwoTo32
            && h.lenBody == |OrEmpty(bds)| % TwoTo32
    ensures out[18..|out| - 2] == OrEmpty(cmds) + OrEmpty(hds) + OrEmpty(bds)
  {
    var c, hd, bd := OrEmpty(cmds), OrEmpty(hds), OrEmpty(bds);
    var h := SentHeader(ctrl, |c|, |hd|, |bd|);
    HeaderRoundTrip(h);
    LayoutParts(h, c + hd + bd);
    Layout(h, c + hd + bd)
  }

  lemma SendMsgLayout(ctrl: int, cmds: Option<seq<u8>>, hds: Option<seq<u8>>, bds: Option<seq<u8>>)
    requires IsI32(ctrl)
    ensures SendMsg(ctrl, cmds, hds, bds)
            == Layout(SentHeader(ctrl, |OrEmpty(cmds)|, |OrEmpty(hds)|, |OrEmpty(bds)|),
                      OrEmpty(cmds) + OrEmpty(hds) + OrEmpty(bds))
  {
  }

  /** `send_msg_buf`: as `send_msg`, but the body is a `ByteBoxBuf` whose
      chunks are written one after another; its length field is the
      buffer's `len()`. */
  method SendMsgBuf(ctrl: int, cmds: Option<seq<u8>>, hds: Option<seq<u8>>, bds: Option<ByteBoxBuf.Buf>)
    returns (out: seq<u8>)
    requires IsI32(ctrl)
    requires bds.Some? ==> ByteBoxBuf.Valid(bds.value)
    ensures out == SendMsg(ctrl, cmds, hds,
                           if bds.Some? then Some(ByteBoxBuf.Content(bds.value)) else None)
  {
    var count := if bds.Some? then bds.value.count else 0;
    var chunks := if bds.Some? then bds.value.chunks else [];
    var body := [];
    var i := 0;
    while i < |chunks|
      invariant 0 <= i <= |chunks|
      invariant body == ByteBoxBuf.Flatten(chunks[..i])
    {
      ByteBoxBuf.FlattenAt(chunks, i);
      body := body + chunks[i];
      i := i + 1;
    }
    assert chunks[..i] == chunks;
    var c, hd := OrEmpty(cmds), OrEmpty(hds);
    out := Layout(SentHeader(ctrl, |c|, |hd|, count), c + hd + body);
    SendMsgLayout(ctrl, cmds, hds, if bds.Some? then Some(ByteBoxBuf.Content(bds.value)) else None);
  }

  // ---------------------------------------------------------------- parse

  /** `tcp_read(n)`: the next `n` bytes and what follows them. Zero bytes
      are read without touching the stream; a stream that ends early is an
      error. */
  function ReadN(s: seq<u8>, n: nat): (r: Result<(seq<u8>, seq<u8>)>)
    ensures r.Ok? <==> n <= |s|
    ensures r.Ok? ==> |r.value.0| == n && r.value.0 + r.value.1 == s
  {
    if n == 0 then Ok(([], s))
    else if |s| < n then Err(IoError(Other, "read err!"))
    else Ok((s[..n], s[n..]))
  }

  /** Whether a check of magic bytes rejects `bts`. As written
      (`checked == false`) the source tests `bts.len() < k && ...`: the
      comparisons after `&&` are reached only for a short read, which
      `tcp_read` never returns, so only the length test matters. Checked,
      the bytes must be the expected ones. */
  predicate Rejects(bts: seq<u8>, want: seq<u8>, checked: bool)
  {
    if checked then bts != want else |bts| < |want|
  }

  /** `parse_msg` after the header: the limits, then the sections and the
      trailer. */
  function ParseBody(h: Header, s: seq<u8>, checked: bool): (r: Result<(Message, seq<u8>)>)
  {
    if h.lenHead > MaxHeads then Err(IoError(Other, "bytes2 out limit!!"))
    else if h.lenBody > MaxBodys then Err(IoError(Other, "bytes3 out limit!!"))
    else
      var c :- ReadN(s, h.lenCmd);
      if h.lenCmd > 0 && !Text.ValidUtf8(c.0) then Err(IoError(Other, "cmd err"))
      else
        var hs :- ReadN(c.1, h.lenHead);
        var bd :- ReadN(hs.1, h.lenBody);
        var t :- ReadN(bd.1, 2);
        if Rejects(t.0, Trailer, checked) then Err(IoError(Other, "end byte err"))
        else Ok((Message(h.version, h.control, c.0, Section(hs.0), Section(bd.0)), t.1))
  }

  /** `parse_msg`, with the magic and trailer checks as written
      (`checked == false`) or as evidently intended (`checked == true`).
      Returns the message and the unread rest of the stream. The error
      messages keep the source's text but not the `{:?}` dump of the
      offending bytes it appends to "first byte err" and "end byte err". */
  function Parse(s: seq<u8>, checked: bool): (r: Result<(Message, seq<u8>)>)
  {
    var m1 :- ReadN(s, 1);
    if Rejects(m1.0, Magic[..1], checked) then Err(IoError(Other, "first byte err"))
    else
      var m2 :- ReadN(m1.1, 1);
      if Rejects(m2.0, Magic[1..], checked) then Err(IoError(Other, "first byte err"))
      else
        var hd :- ReadN(m2.1, HeaderLen);
        ParseBody(DecodeHeader(hd.0), hd.1, checked)
  }

  /** `parse_msg` as written. */
  function ParseMsg(s: seq<u8>): Result<(Message, seq<u8>)>
  {
    Parse(s, false)
  }

  /** `parse_msg` with the magic and trailer checks it evidently intends. */
  function ParseMsgChecked(s: seq<u8>): Result<(Message, seq<u8>)>
  {
    Parse(s, true)
  }

  // ---------------------------------------------------------------- properties

  lemma ReadPrefix(x: seq<u8>, y: seq<u8>)
    ensures ReadN(x + y, |x|) == Ok((x, y))
  {
    assert (x + y)[..|x|] == x;
    assert (x + y)[|x|..] == y;
  }

  /** The sections of a message followed by a two-byte trailer `z` read back
      as the message, leaving what follows. */
  lemma ParseBodyFramed(m: Message, z: seq<u8>, rest: seq<u8>, checked: bool)
    requires MessageOk(m) && |z| == 2 && (checked ==> z == Trailer)
    ensures ParseBody(HeaderOf(m), m.cmds + (OrEmpty(m.heads) + (OrEmpty(m.bodys) + (z + rest))), checked)
            == Ok((m, rest))
  {
    var hs, bd := OrEmpty(m.heads), OrEmpty(m.bodys);
    ReadPrefix(m.cmds, hs + (bd + (z + rest)));
    ReadPrefix(hs, bd + (z + rest));
    ReadPrefix(bd, z + rest);
    ReadPrefix(z, rest);
    assert Section(hs) == m.heads && Section(bd) == m.bodys;
  }

  /** The magic pair and the header taken off the front of a stream. */
  lemma ParseStages(s: seq<u8>, checked: bool, x0: u8, x1: u8, e: seq<u8>, tail: seq<u8>)
    requires s == [x0] + ([x1] + (e + tail)) && |e| == HeaderLen
    requires !Rejects([x0], Magic[..1], checked) && !Rejects([x1], Magic[1..], checked)
    ensures Parse(s, checked) == ParseBody(DecodeHeader(e), tail, checked)
  {
    ReadPrefix([x0], [x1] + (e + tail));
    ReadPrefix([x1], e + tail);
    ReadPrefix(e, tail);
  }

  lemma FrameNesting(a: seq<u8>, e: seq<u8>, c: seq<u8>, hs: seq<u8>, bd: seq<u8>, z: seq<u8>, rest: seq<u8>)
    requires |a| == 2
    ensures a + e + (c + hs + bd) + z + rest == [a[0]] + ([a[1]] + (e + (c + (hs + (bd + (z + rest))))))
  {
    assert a == [a[0]] + [a[1]];
  }

  /** A frame whose two magic bytes are `a` and whose trailer is `z` reads
      back as the message it carries. As written any `a` and `z` will do;
      checked, they must be the magic pair and the trailer. */
  lemma ParseFramed(s: seq<u8>, m: Message, a: seq<u8>, z: seq<u8>, rest: seq<u8>, checked: bool)
    requires MessageOk(m) && |a| == 2 && |z| == 2
    requires checked ==> a == Magic && z == Trailer
    requires s == a + EncodeHeader(HeaderOf(m)) + Payload(m) + z + rest
    ensures Parse(s, checked) == Ok((m, rest))
  {
    var e := EncodeHeader(HeaderOf(m));
    var hs, bd := OrEmpty(m.heads), OrEmpty(m.bodys);
    FrameNesting(a, e, m.cmds, hs, bd, z, rest);
    ParseStages(s, checked, a[0], a[1], e, m.cmds + (hs + (bd + (z + rest))));
    HeaderRoundTrip(HeaderOf(m));
    ParseBodyFramed(m, z, rest, checked);
  }

  /** Every message `parse_msg` can return survives being framed and parsed
      back, by either parser. */
  lemma ParseFrame(m: Message, rest: seq<u8>)
    requires MessageOk(m)
    ensures ParseMsg(FrameOf(m) + rest) == Ok((m, rest))
    ensures ParseMsgChecked(FrameOf(m) + rest) == Ok((m, rest))
  {
    var s := FrameOf(m) + rest;
    ParseFramed(s, m, Magic, Trailer, rest, false);
    ParseFramed(s, m, Magic, Trailer, rest, true);
  }

  /** The pieces a successful `ParseBody` read: the command, head and body
      the header announced, and the two trailer bytes. */
  lemma ParseBodyParts(h: Header, s: seq<u8>, checked: bool, m: Message, rest: seq<u8>)
    returns (c: seq<u8>, hs: seq<u8>, bd: seq<u8>, t: seq<u8>)
    requires ParseBody(h, s, checked) == Ok((m, rest))
    ensures s == c + (hs + (bd + (t + rest)))
    ensures m == Message(h.version, h.control, c, Section(hs), Section(bd))
    ensures |c| == h.lenCmd && |hs| == h.lenHead <= MaxHeads && |bd| == h.lenBody <= MaxBodys
    ensures Text.ValidUtf8(c)
    ensures |t| == 2 && (checked ==> t == Trailer)
  {
    var rc := ReadN(s, h.lenCmd).value;
    var rh := ReadN(rc.1, h.lenHead).value;
    var rb := ReadN(rh.1, h.lenBody).value;
    var rt := ReadN(rb.1, 2).value;
    c, hs, bd, t := rc.0, rh.0, rb.0, rt.0;
    assert h.lenCmd == 0 ==> c == [];
  }

  /** What `ParseBody` returns is a message the header describes. */
  lemma ParseBodyMessage(h: Header, s: seq<u8>, checked: bool, m: Message, rest: seq<u8>)
    requires HeaderOk(h) && ParseBody(h, s, checked) == Ok((m, rest))
    ensures MessageOk(m) && HeaderOf(m) == h
  {
    var c, hs, bd, t := ParseBodyParts(h, s, checked, m, rest);
  }

  /** What `ParseBody` consumes is the payload of the message it returns
      and a two-byte trailer, which is the right one when checked. */
  lemma ParseBodyLayout(h: Header, s: seq<u8>, checked: bool, m: Message, rest: seq<u8>)
    returns (z: seq<u8>)
    requires ParseBody(h, s, checked) == Ok((m, rest))
    ensures |z| == 2 && s == Payload(m) + z + rest && (checked ==> z == Trailer)
  {
    var c, hs, bd, t := ParseBodyParts(h, s, checked, m, rest);
    assert m.cmds == c && OrEmpty(m.heads) == hs && OrEmpty(m.bodys) == bd;
    Nest4(c, hs, bd, t, rest);
    z := t;
  }

  lemma Nest4(c: seq<u8>, hs: seq<u8>, bd: seq<u8>, t: seq<u8>, rest: seq<u8>)
    ensures c + (hs + (bd + (t + rest))) == c + hs + bd + t + rest
  {
  }

  /** Everything a parse consumes is a frame of the message it returns: the
      header and sections are those of the message, and, checked, so are
      the magic pair and the trailer. */
  lemma ParseInverse(s: seq<u8>, checked: bool, m: Message, rest: seq<u8>)
    requires Parse(s, checked) == Ok((m, rest))
    ensures MessageOk(m) && |s| == 20 + |Payload(m)| + |rest|
    ensures s == s[..2] + EncodeHeader(HeaderOf(m)) + Payload(m)
                 + s[18 + |Payload(m)|..20 + |Payload(m)|] + rest
    ensures checked ==> s == FrameOf(m) + rest
  {
    var a, e, tail := ParseHead(s, checked);
    var h := DecodeHeader(e);
    ParseBodyMessage(h, tail, checked, m, rest);
    var z := ParseBodyLayout(h, tail, checked, m, rest);
    HeaderBytesRoundTrip(e);
    Regroup(s, a, e, Payload(m), z, rest, tail);
    FramePartsAt(s, a, e, Payload(m), z, rest);
  }

  /** The magic pair and the header a successful parse read first. */
  lemma ParseHead(s: seq<u8>, checked: bool) returns (a: seq<u8>, e: seq<u8>, tail: seq<u8>)
    requires Parse(s, checked).Ok?
    ensures |a| == 2 && |e| == HeaderLen && s == a + (e + tail)
    ensures checked ==> a == Magic
    ensures Parse(s, checked) == ParseBody(DecodeHeader(e), tail, checked)
  {
    var m1 := ReadN(s, 1).value;
    var m2 := ReadN(m1.1, 1).value;
    var hd := ReadN(m2.1, HeaderLen).value;
    a, e, tail := m1.0 + m2.0, hd.0, hd.1;
  }

  lemma Regroup(s: seq<u8>, a: seq<u8>, e: seq<u8>, p: seq<u8>, z: seq<u8>, rest: seq<u8>, tail: seq<u8>)
    requires s == a + (e + tail) && tail == p + z + rest
    ensures s == a + e + p + z + rest
  {
  }

  lemma FramePartsAt(s: seq<u8>, a: seq<u8>, e: seq<u8>, p: seq<u8>, z: seq<u8>, rest: seq<u8>)
    requires s == a + e + p + z + rest && |a| == 2 && |e| == HeaderLen && |z| == 2
    ensures |s| == 20 + |p| + |rest|
    ensures s[..2] == a && s[18 + |p|..20 + |p|] == z
  {
    var q := a + e + p;
    assert s == q + (z + rest);
    assert s[|q|..|q| + 2] == (z + rest)[..2];
    assert s[..2] == q[..2];
  }

  /** The checked parse accepts exactly the streams the parse as written
      accepts whose magic pair and trailer are right, and then agrees with
      it. */
  lemma CheckedIff(s: seq<u8>)
    ensures ParseMsgChecked(s).Ok? <==>
            && ParseMsg(s).Ok?
            && s[..2] == Magic
            && var n := |Payload(ParseMsg(s).value.0)|;
               s[18 + n..20 + n] == Trailer
    ensures ParseMsgChecked(s).Ok? ==> ParseMsgChecked(s) == ParseMsg(s)
  {
    if ParseMsgChecked(s).Ok? {
      var (m, rest) := ParseMsgChecked(s).value;
      ParseInverse(s, true, m, rest);
      ParseFramed(s, m, Magic, Trailer, rest, false);
    }
    if ParseMsg(s).Ok? {
      var (m, rest) := ParseMsg(s).value;
      ParseInverse(s, false, m, rest);
      var n := |Payload(m)|;
      if s[..2] == Magic && s[18 + n..20 + n] == Trailer {
        ParseFramed(s, m, Magic, Trailer, rest, true);
      }
    }
  }

  /** Wrong magic bytes and a wrong trailer go unnoticed: eighteen zero
      bytes around an empty header of version 1 parse as a message. The
      checked parse refuses them. */
  lemma MagicIgnored()
    ensures var s := [0, 0] + EncodeHeader(Header(1, 0, 0, 0, 0)) + [0, 0];
            && ParseMsg(s) == Ok((Message(1, 0, [], None, None), []))
            && ParseMsgChecked(s).Err?
  {
    var m := Message(1, 0, [], None, None);
    var s := [0, 0] + EncodeHeader(Header(1, 0, 0, 0, 0)) + [0, 0];
    assert Payload(m) == [] && HeaderOf(m) == Header(1, 0, 0, 0, 0);
    assert s == [0, 0] + EncodeHeader(HeaderOf(m)) + Payload(m) + [0, 0] + [];
    ParseFramed(s, m, [0, 0], [0, 0], [], false);
    CheckedIff(s);
  }

  /** `parse_msg`'s errors: a stream shorter than the magic pair and header,
      then the head limit, then the body limit, whatever the magic bytes. */
  lemma ParseMsgErrors(s: seq<u8>)
    ensures |s| < 2 + HeaderLen ==> ParseMsg(s) == Err(IoError(Other, "read err!"))
    ensures |s| >= 2 + HeaderLen && DecodeHeader(s[2..18]).lenHead > MaxHeads
            ==> ParseMsg(s) == Err(IoError(Other, "bytes2 out limit!!"))
    ensures |s| >= 2 + HeaderLen && DecodeHeader(s[2..18]).lenHead <= MaxHeads
            && DecodeHeader(s[2..18]).lenBody > MaxBodys
            ==> ParseMsg(s) == Err(IoError(Other, "bytes3 out limit!!"))
  {
    if |s| >= 2 {
      assert s[1..][1..] == s[2..];
      if |s| >= 2 + HeaderLen {
        assert s[2..][..HeaderLen] == s[2..18];
      }
    }
  }

  /** The message a `send_msg` frame carries when its lengths fit their
      fields. */
  function SentMessage(ctrl: int, cmds: Option<seq<u8>>, hds: Option<seq<u8>>, bds: Option<seq<u8>>): Message
  {
    Message(1, ctrl, OrEmpty(cmds), Section(OrEmpty(hds)), Section(OrEmpty(bds)))
  }

  /** With every length within its field, `send_msg` writes the frame of
      the message it was given. */
  lemma SendIsFrame(ctrl: int, cmds: Option<seq<u8>>, hds: Option<seq<u8>>, bds: Option<seq<u8>>)
    requires IsI32(ctrl)
    requires |OrEmpty(cmds)| < TwoTo16 && |OrEmpty(hds)| < TwoTo32 && |OrEmpty(bds)| < TwoTo32
    ensures SendMsg(ctrl, cmds, hds, bds) == FrameOf(SentMessage(ctrl, cmds, hds, bds))
  {
    var m := SentMessage(ctrl, cmds, hds, bds);
    var c, hd, bd := OrEmpty(cmds), OrEmpty(hds), OrEmpty(bds);
    SendMsgLayout(ctrl, cmds, hds, bds);
    SentFields(ctrl, c, hd, bd);
    FrameIsLayout(m, SentHeader(ctrl, |c|, |hd|, |bd|), c + hd + bd);
  }

  lemma SentFields(ctrl: int, c: seq<u8>, hd: seq<u8>, bd: seq<u8>)
    requires |c| < TwoTo16 && |hd| < TwoTo32 && |bd| < TwoTo32
    ensures var m := Message(1, ctrl, c, Section(hd), Section(bd));
            HeaderOf(m) == SentHeader(ctrl, |c|, |hd|, |bd|) && Payload(m) == c + hd + bd
  {
  }

  lemma FrameIsLayout(m: Message, h: Header, p: seq<u8>)
    requires HeaderOf(m) == h && Payload(m) == p
    ensures FrameOf(m) == Layout(h, p)
  {
  }

  /** `send_msg` then `parse_msg`: a command below 64 KiB that is UTF-8 and
      sections within the limits come back as sent, with version 1 and an
      empty head or body read as absent. */
  lemma SendRoundTrip(ctrl: int, cmds: Option<seq<u8>>, hds: Option<seq<u8>>, bds: Option<seq<u8>>, rest: seq<u8>)
    requires IsI32(ctrl)
    requires |OrEmpty(cmds)| < TwoTo16 && Text.ValidUtf8(OrEmpty(cmds))
    requires |OrEmpty(hds)| <= MaxHeads && |OrEmpty(bds)| <= MaxBodys
    ensures var m := SentMessage(ctrl, cmds, hds, bds);
            && ParseMsg(SendMsg(ctrl, cmds, hds, bds) + rest) == Ok((m, rest))
            && ParseMsgChecked(SendMsg(ctrl, cmds, hds, bds) + rest) == Ok((m, rest))
  {
    var m := SentMessage(ctrl, cmds, hds, bds);
    SendIsFrame(ctrl, cmds, hds, bds);
    var s := SendMsg(ctrl, cmds, hds, bds) + rest;
    ParseFramed(s, m, Magic, Trailer, rest, false);
    ParseFramed(s, m, Magic, Trailer, rest, true);
  }

  /** The `as u16` cast loses a 64 KiB command: its length field reads 0, so
      the parser takes no command and reads the command's first two bytes
      as the trailer. */
  lemma TruncatedCmd(ctrl: int, c: seq<u8>, rest: seq<u8>)
    requires IsI32(ctrl) && |c| == TwoTo16
    ensures ParseMsg(SendMsg(ctrl, Some(c), None, None) + rest)
            == Ok((Message(1, ctrl, [], None, None), c[2..] + Trailer + rest))
  {
    var h := Header(1, ctrl, 0, 0, 0);
    assert SentHeader(ctrl, |c|, 0, 0) == h;
    assert OrEmpty(Some(c)) + OrEmpty(None) + OrEmpty(None) == c;
    SendMsgLayout(ctrl, Some(c), None, None);
    var m := Message(1, ctrl, [], None, None);
    assert HeaderOf(m) == h && Payload(m) == [];
    var tail := c[2..] + Trailer + rest;
    TruncatedLayout(h, c, rest);
    ParseFramed(Layout(h, c) + rest, m, Magic, c[..2], tail, false);
  }

  lemma TruncatedLayout(h: Header, c: seq<u8>, rest: seq<u8>)
    requires |c| >= 2
    ensures Layout(h, c) + rest == Magic + EncodeHeader(h) + [] + c[..2] + (c[2..] + Trailer + rest)
  {
    assert c == c[..2] + c[2..];
  }
}
