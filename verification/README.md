# rust-ruisutil, the sequential core, in Dafny

This project models the byte-level core of the `ruisutil` Rust crate and
proves properties of it. The crate is a grab-bag of networking utilities:
buffers, a cancellation context, timers, a configuration parser and a
framed message protocol. Every component is modelled as immutable
datatypes and pure functions, with methods where the source has a loop
worth checking. Rust panics become preconditions, and I/O errors become a
`Result`.

| file | module | component |
|---|---|---|
| `base.dfy` | `Base` | `u8`, `Option`, `Result` with the `io::ErrorKind`s the crate uses, `Min` |
| `text.dfy` | `Text` | which byte strings `str::from_utf8` accepts; `str::trim` |
| `codec.dfy` | `IntCodec` | `byte_2i` / `i2_byte`: big-endian `i64` codec (in `lib.rs` and again in `utils.rs`) |
| `utils.dfy` | `Utils` | `parse_noip_addr`, `sprint_hex`, `sprints_hex`, `envs`, `tms_since`, the clamp loop of `randtms_ang` |
| `context.dfy` | `Context` | `Context`: a tree of contexts with stop flags and deadlines |
| `circle.dfy` | `CircleBuf` | `CircleBuf`: a byte ring with a single-byte API and a borrow/commit API, plus `Read`/`Write` |
| `conf.dfy` | `KVConfig` | `KVConfig`: the `key=value` line parser, `get`, `set`, `to_string` |
| `bytebuf.dfy` | `ByteBoxBuf` | `ByteBoxBuf`: a queue of byte chunks with a running count |
| `list.dfy` | `DequeMax` | `VecDequeMax`: a FIFO bounded by `max` |
| `timer.dfy` | `Timers` | `Timer`: elapsed time since the last reset |
| `message.dfy` | `Frame` | `send_msg`, `send_msg_buf`, `parse_msg`: the message frame |

Conventions:

- **Time is a parameter.** `SystemTime::now()` and `Instant::now()` become an
  explicit integer `now`.
- **The environment and random seed are parameters.** The environment
  variable and the random seed are passed in.
- **A TCP stream is a byte sequence.** `parse_msg` reads it left to right.
  `send_msg` returns the bytes it would write.
- **Shared state is threaded through.** Shared, interior-mutable state
  (`Arc<Mutex<..>>`, `ArcMut`) becomes a value that each operation returns
  anew. For `Context`, a `Forest` of nodes addressed by index plays that
  role, so a `stop` is seen by every context that shares the node.

## Model

| member | source | states |
|---|---|---|
| Text.Trim | src/conf.rs:40-43 | the trimmed key or value is a slice of the input with only whitespace cut away before and after it, and it starts and ends with a non-whitespace byte |
| Text.TrimIdempotent | src/conf.rs:40-43 | trimming an already trimmed key or value changes nothing |
| IntCodec.Byte2i | src/lib.rs:19-31 | for at most 8 bytes, `byte_2i` is the big-endian value read as an `i64`; below 8 bytes that value is the plain unsigned one |
| IntCodec.I2Byte | src/lib.rs:33-45 | `i2_byte(v, n)` emits the low `n` bytes of `v`'s two's-complement form, most significant first |
| IntCodec.EncodeAt | src/lib.rs:36-43 | byte `j` of `i2_byte(v, n)` is `(v >> 8(n-1-j)) as u8` |
| IntCodec.DecodeEncode | src/utils.rs:15-41 | decoding an encoding keeps exactly the value modulo 256^n |
| IntCodec.EncodeDecode | src/utils.rs:15-41 | encoding the unsigned value of `n` bytes in `n` bytes gives the bytes back |
| IntCodec.RoundTrip | src/lib.rs:19-45 | `byte_2i(i2_byte(v, n)) == v` for `0 <= v < 2^(8n)` with `n < 8`, and for every `i64` when `n == 8` |
| IntCodec.BytesRoundTrip | src/utils.rs:15-41 | `i2_byte(byte_2i(bs), len(bs)) == bs` for every byte string of at most 8 bytes |
| IntCodec.NegativeRoundTrip | src/lib.rs:19-45 | eight bytes whose top bit is set decode to a negative `i64` that encodes back to them |
| IntCodec.SignBitNeedsEight | src/lib.rs:19-31 | a decoded value reaches the sign bit only from a full 8 bytes |
| Utils.LastColon | src/utils.rs:71 | `rfind(':')`: the index of a `:` with none after it, or none anywhere |
| Utils.ParseNoipAddr | src/utils.rs:70-83 | a last `:` past index 0 leaves the address unchanged; no `:` gives the input followed by `:0`; a last `:` at index 0 gives `0.0.0.0` followed by the input; the result always has a port `:` past index 0 unless the input is empty |
| Utils.NoipIdempotent | src/utils.rs:70-83 | normalising twice equals normalising once exactly for non-empty input |
| Utils.HexJoin | src/utils.rs:436-445 | empty input prints `""`; otherwise the text has `2n + (n-1)·len(splts)` characters |
| Utils.SprintHex | src/utils.rs:436-445 | the loop prints the first byte's two hex digits, then `splts` and two digits for every later byte |
| Utils.SprintsHex | src/utils.rs:446-458 | prints `sprint_hex` of the first `ln` bytes, where `ln == 0` or `ln > len` means all of them |
| Utils.HexRoundTrip | src/utils.rs:436-445 | the hex text determines the bytes: reading the pairs back with any separator length gives the input |
| Utils.Envs | src/utils.rs:405-416 | the value is returned exactly when the variable is set and non-empty, the default otherwise; a non-empty default never yields `""` |
| Utils.TmsSince | src/utils.rs:507-512 | the elapsed time is `new - old`, and zero exactly when `new` is not later than `old` |
| Utils.TmsSinceAdds | src/utils.rs:507-512 | on a forward-moving clock, elapsed times add up across a middle reading |
| Utils.ClampLoop | src/utils.rs:529-537 | whenever the loop stops, it yields 0 or a value in `[a, b]`; a start value already in range is returned unchanged |
| Utils.RandtmsAng | src/utils.rs:521-539 | an empty range (`b == 0` or `a > b`) gives 0; any other result is 0 or in `[a, b]` |
| Utils.ClampFuelMono | src/utils.rs:529-537 | an answer found within some number of iterations is the answer for every larger bound |
| Utils.ClampCycles | src/utils.rs:521-539 | `randtms_ang(5, 5)` with seed 3 never returns: the loop alternates 3 and 7 for every iteration bound |
| Context.Background | src/lib.rs:189-198 | adds a node after all existing ones and keeps the forest well-formed (parents before children) |
| Context.WithTimeout | src/lib.rs:200-206 | as `background`, with the deadline set |
| Context.Stop | src/lib.rs:224-232 | reports success, sets the stop flag of that one context and of no other, and the stopped context is done at every instant afterwards |
| Context.Done | src/lib.rs:208-222 | `done`: the parent is done, or the timeout has strictly elapsed since creation, or the flag is set; DoneAncestor, DoneLater, StopExact and DoneExtends state what that means |
| Context.DoneAncestor | src/lib.rs:208-222 | a context is done exactly when it or one of its ancestors was stopped or is past its own deadline |
| Context.DoneExtends | src/lib.rs:208-222 | creating more contexts never changes whether an existing one is done |
| Context.BackgroundFollowsParent | src/lib.rs:189-198 | a background context is done exactly when its parent is, and never without a parent until stopped |
| Context.WithTimeoutDeadline | src/lib.rs:200-222 | not done at its creation instant unless the parent is; done once more than the timeout has elapsed; for a clock reading before creation, only the parent counts |
| Context.StopMonotone | src/lib.rs:224-232 | stopping never makes a done context not done, and stopping twice is stopping once |
| Context.StopReachesDescendants | src/lib.rs:208-213 | stopping a context makes every descendant done, at any depth |
| Context.StopExact | src/lib.rs:208-232 | after `stop` on `a`, a context is done exactly when it was done before or descends from `a`: contexts outside `a`'s subtree keep their verdict |
| Context.DoneLater | src/lib.rs:208-222 | once done, a context stays done as the clock advances |
| CircleBuf.New | src/bytes/circle.rs:19-28 | a new ring holds no bytes, is not closed and has `ln` slots |
| CircleBuf.Close | src/bytes/circle.rs:30-35 | closing keeps the stored bytes and makes `closed()` true |
| CircleBuf.Len | src/bytes/circle.rs:36-44 | `len` is the number of stored bytes, zero exactly when `start == end`, and below `size` |
| CircleBuf.Avail | src/bytes/circle.rs:45-47 | `avail + len == size`; it is at least 1 for a non-empty array, so the "no available buf" branch is dead there |
| CircleBuf.Clear | src/bytes/circle.rs:48-51 | afterwards nothing is stored; the array and the closed flag are kept |
| CircleBuf.PutByte | src/bytes/circle.rs:53-70 | closed: error, no change; otherwise fails with OutOfMemory exactly when `len == size - 1`, and on success the byte is appended to the stored bytes |
| CircleBuf.PopByte | src/bytes/circle.rs:71-88 | closed: error, no change; otherwise fails with InvalidData exactly when empty, and on success returns the oldest byte and drops it |
| CircleBuf.GetByte | src/bytes/circle.rs:129-138 | succeeds exactly when `i < len`, returning the `i`-th stored byte |
| CircleBuf.BorrowReadBuf | src/bytes/circle.rs:139-160 | fails exactly when closed or empty; otherwise returns a prefix of the stored bytes of length `min(ln, window)`, where the window stops at `end` or at the wrap point |
| CircleBuf.BorrowReadOk | src/bytes/circle.rs:161-180 | `ln == 0` succeeds even when closed; otherwise fails exactly when closed, `ln > len` or `start + ln > size`, and on success drops the first `ln` stored bytes |
| CircleBuf.BorrowWriteBuf | src/bytes/circle.rs:181-202 | fails exactly when closed or the array is empty; otherwise the window is `min(ln, free run from end)` |
| CircleBuf.BorrowWriteOk | src/bytes/circle.rs:203-222 | `ln == 0` succeeds even when closed; otherwise fails exactly when closed, `ln > avail` or `end + ln > size`; below `avail` the window's bytes are appended, and at `ln == avail` the ring reads as empty |
| CircleBuf.Write | src/bytes/circle.rs:313-320 | reports `min(len(buf), write window)` bytes; they are appended unless the write fills the ring, in which case the ring reads as empty |
| CircleBuf.Read | src/bytes/circle.rs:304-310 | fails exactly when closed or empty; otherwise returns the oldest `min(n, read window)` stored bytes and removes them |
| CircleBuf.PutsThenPops | src/bytes/circle.rs:53-88 | bytes `put_byte` stores come back out of `pop_byte` after the ones already stored, in the order they went in |
| CircleBuf.WriteThenRead | src/bytes/circle.rs:304-320 | a write into an empty ring that stops short of filling it is read back unchanged |
| CircleBuf.WriteFillLosesData | src/bytes/circle.rs:203-222 | a 4-byte write into an empty 4-byte ring reports 4, after which the ring is empty and `read` fails |
| CircleBuf.WriteFixed | src/bytes/circle.rs:313-320 | with one slot kept free, every byte a write reports is appended, and a write makes progress whenever there is room |
| CircleBuf.WriteFixedThenRead | src/bytes/circle.rs:304-320 | with the corrected write, reading everything back gives the old bytes followed by the bytes written |
| KVConfig.New | src/conf.rs:12-14 | a new configuration has no entries |
| KVConfig.Parses | src/conf.rs:29-51 | parsing only adds or overwrites entries: every existing key stays |
| KVConfig.NoEqEmpty | src/conf.rs:33-38 | input without any `=` adds no entry |
| KVConfig.LeadingEq | src/conf.rs:31-38 | the `idx_dh > 0` test is on the absolute offset: `=` as the very first input byte is ignored, by the corrected parser too, but `=` opening a later line yields the empty key |
| KVConfig.SplitsAtLastEq | src/conf.rs:34-43 | a line splits at its last `=`: `a=b=c` gives key `a=b`, value `c` |
| KVConfig.AppendLine | src/conf.rs:29-51 | after whole lines, a line `k=v` commits exactly the entry `(k, v)` and nothing else |
| KVConfig.FinalByteDropped | src/conf.rs:37-42 | an unterminated last line loses its final byte: `a=bc` reads as `a = b` |
| KVConfig.ParsesFixed | src/conf.rs:29-51 | the corrected parser also only adds or overwrites entries; it differs from the source only in keeping the last byte of an unterminated line, and keeps the `idx_dh > 0` test (LeadingEq) |
| KVConfig.FixedUnterminated | src/conf.rs:37-42 | the corrected parser reads an unterminated last `k=v` as the entry `(k, v)`, overwriting an earlier one |
| KVConfig.Get | src/conf.rs:53-55 | returns a value exactly when the key is present, and then the stored one |
| KVConfig.Set | src/conf.rs:65-67 | the keys afterwards are the old keys plus `key` |
| KVConfig.SetGet | src/conf.rs:53-67 | `get(k)` after `set(k, v)` is `v`; other keys are untouched |
| KVConfig.ToString | src/conf.rs:71-77 | with no line feed in any key or value, the text has exactly one line per entry, in any iteration order |
| KVConfig.ToStringRoundTrip | src/conf.rs:23-77 | `from_bytes(to_string(c)) == c` for every iteration order, when no key or value holds `=`, a line feed or surrounding whitespace and no key is empty; the corrected parser agrees |
| ByteBoxBuf.New | src/bytes/bytes.rs:166-171 | empty, count 0 |
| ByteBoxBuf.Push | src/bytes/bytes.rs:179-185 | appends the bytes at the back and keeps `count` exact with no empty chunk; empty input changes nothing |
| ByteBoxBuf.PushFront | src/bytes/bytes.rs:172-178 | prepends the bytes and keeps the invariant; empty input changes nothing |
| ByteBoxBuf.PushAll | src/bytes/bytes.rs:186-190 | appends the other buffer's contents in order, and `count` grows by its length |
| ByteBoxBuf.Pushs | src/bytes/bytes.rs:191-195 | appends the first `min(n, len(dt))` bytes |
| ByteBoxBuf.Write | src/bytes/bytes.rs:401-410 | appends a copy of `buf` and reports `len(buf)` |
| ByteBoxBuf.Pull | src/bytes/bytes.rs:213-221 | on an empty buffer returns None and changes nothing; otherwise removes the non-empty front chunk, and `count` drops by its length |
| ByteBoxBuf.PullAll | src/bytes/bytes.rs:222-228 | moves every chunk, in order and with its count, and leaves the source empty |
| ByteBoxBuf.Clear | src/bytes/bytes.rs:229-232 | afterwards empty, count 0 |
| ByteBoxBuf.Len | src/bytes/bytes.rs:236-238 | the running `count` is the content length |
| ByteBoxBuf.Frtlen | src/bytes/bytes.rs:239-245 | the front chunk's length, zero exactly when the buffer is empty; that many bytes start the content |
| ByteBoxBuf.Lens | src/bytes/bytes.rs:246-253 | walking the chunks gives the content length, which is `count` |
| ByteBoxBuf.GetByte | src/bytes/bytes.rs:254-268 | succeeds exactly when `idx < len`, returning byte `idx` of the content |
| ByteBoxBuf.Gets | src/bytes/bytes.rs:269-310 | succeeds exactly when `len > 0`, `start < count` and `start + len <= count`, returning that slice of the content and `start + len` |
| ByteBoxBuf.SplitTo | src/bytes/bytes.rs:321 | `split_to(k)` needs `k <= len` and splits the chunk into its first `k` bytes and the rest |
| ByteBoxBuf.CutFront | src/bytes/bytes.rs:311-346 | as written, where it does not panic: fails exactly when `pos > len`, `pos == 0` takes nothing, and otherwise takes the first `pos` bytes and leaves the rest |
| ByteBoxBuf.CutFrontPanicsAcrossChunks | src/bytes/bytes.rs:319-326 | a cut of 2 from two one-byte chunks makes `split_to` panic, though it is within `len()` |
| ByteBoxBuf.CutFrontFixed | src/bytes/bytes.rs:311-346 | with the split clamped to the chunk: fails exactly when `pos > len`; otherwise the piece is the first `pos` bytes and the rest is what remains |
| ByteBoxBuf.CutFrontAgrees | src/bytes/bytes.rs:311-346 | where the as-written cut does not panic, it takes the same bytes as the clamped one |
| ByteBoxBuf.PushPushCut | src/bytes/bytes.rs:179-185 | two pushes then `to_bytes` give the concatenation, and a cut inside the first chunk splits it there |
| ByteBoxBuf.Read | src/bytes/bytes.rs:383-400 | as written: with `len(buf) <= frtlen()`, copies and removes the first `len(buf)` bytes, but always reports 0 |
| ByteBoxBuf.ReadReportsZero | src/bytes/bytes.rs:383-400 | reading two bytes of a two-byte buffer reports `Ok(0)`, the end-of-stream answer, while the corrected read reports the two bytes |
| ByteBoxBuf.ReadFixed | src/bytes/bytes.rs:383-400 | copies `min(n, frtlen())` bytes off the front, removes them, and makes progress on a non-empty buffer |
| ByteBoxBuf.ToBytes | src/bytes/bytes.rs:358-372 | the in-order concatenation of all chunks, of length `count` |
| DequeMax.New | src/list.rs:9-17 | empty; `max` as given, or 20 for 0 |
| DequeMax.Push | src/list.rs:21-27 | appends at the back and drops the front element once `len > max`, so `len <= max` is preserved |
| DequeMax.Pushf | src/list.rs:28-30 | prepends; the length grows by one whatever `max` is |
| DequeMax.Pop | src/list.rs:31-33 | None exactly when empty, with nothing changed; otherwise the front element and the rest |
| DequeMax.Front | src/list.rs:34-36 | the element `pop` would return, without removing it |
| DequeMax.PushWindow | src/list.rs:21-27 | a queue filled by `push` alone holds the last `max` elements pushed, oldest first |
| DequeMax.NewWindow | src/list.rs:9-27 | from `new`, pushes keep exactly the last `min(count, max)` elements |
| DequeMax.PushfExceeds | src/list.rs:21-30 | `pushf` on a full queue leaves `max + 1` elements, and a following `push` keeps it there |
| DequeMax.PopPushf | src/list.rs:28-36 | `pop` and `front` return what `pushf` prepended, and `pop` restores the queue |
| DequeMax.PushKeepsFront | src/list.rs:21-33 | below the bound, `push` does not change what `pop` returns (FIFO) |
| Timers.New | src/timer.rs:15-22 | never reset, with the given period |
| Timers.Reset | src/timer.rs:23-25 | remembers `now` and keeps the period |
| Timers.Reinit | src/timer.rs:26-28 | the timer is a new timer again |
| Timers.Tmdur | src/timer.rs:49-54 | zero if never reset; otherwise the time since the reset, saturating at zero |
| Timers.Tmout | src/timer.rs:37-47 | true exactly when never reset or at least a period has elapsed |
| Timers.Tick | src/timer.rs:29-35 | returns `tmout()`, and resets to `now` exactly when it is true |
| Timers.FreshTimerDue | src/timer.rs:15-54 | a new or re-initialised timer is due and has no elapsed time |
| Timers.ResetElapsed | src/timer.rs:23-54 | after a reset, the elapsed time is the clock's advance, and the timer is due when that reaches the period |
| Timers.TickPeriod | src/timer.rs:29-47 | after a tick fires, the next one fires exactly when a whole period has passed; with a non-zero period, a second tick at the same instant does not |
| Timers.TmoutLater | src/timer.rs:37-47 | once due, a timer stays due as the clock advances |
| Frame.DecodeHeader | src/message.rs:6-13 | every 16-byte header decodes to fields within their Rust types |
| Frame.HeaderRoundTrip | src/message.rs:6-13 | every in-range header survives encoding then decoding |
| Frame.HeaderBytesRoundTrip | src/message.rs:6-13 | every 16 bytes survive decoding then encoding |
| Frame.Section | src/message.rs:84-93 | a section is stored only when its length is non-zero, and then holds the bytes read |
| Frame.SendMsg | src/message.rs:102-137 | writes `8d 8f`, a header (version 1, the control, and lengths truncated to 16/32 bits), then cmd, head and body, then `8e 8f`; absent sections are empty |
| Frame.SendMsgBuf | src/message.rs:139-174 | writes exactly what `send_msg` writes for the buffer's contents as body |
| Frame.SendIsFrame | src/message.rs:102-137 | when every length fits its field, `send_msg` writes the frame of the message it was given |
| Frame.ReadN | src/lib.rs:74-98 | `tcp_read(n)` succeeds exactly when `n` bytes remain and splits off exactly `n` of them |
| Frame.Parse | src/message.rs:52-100 | `parse_msg` as written or with the intended magic and trailer checks; ParseFrame, ParseInverse, ParseMsgErrors and CheckedIff state what it accepts and returns |
| Frame.ParseBody | src/message.rs:62-99 | `parse_msg` after the header: the limits, the command, head and body sections and the trailer; ParseBodyMessage states what it returns |
| Frame.ParseMsg | src/message.rs:52-100 | `parse_msg` as written, with magic and trailer unchecked; MagicIgnored and CheckedIff relate it to the checked parser |
| Frame.ParseFrame | src/message.rs:52-100 | every message `parse_msg` can return is read back from its frame, leaving the rest of the stream |
| Frame.ParseInverse | src/message.rs:52-100 | whatever a parse consumes is 20 bytes plus the payload, carrying the returned message's header and sections; when checked, exactly its frame |
| Frame.ParseBodyMessage | src/message.rs:66-93 | a parsed message respects the limits, has a UTF-8 command and matches its header |
| Frame.ParseMsgErrors | src/message.rs:52-71 | a stream shorter than 18 bytes fails with `read err!`; otherwise a head length above the limit fails with `bytes2 out limit!!`, and then a body length above its limit fails with `bytes3 out limit!!` |
| Frame.MagicIgnored | src/message.rs:54-60 | zero magic and trailer bytes around a valid header still parse as a message; the checked parser rejects them |
| Frame.CheckedIff | src/message.rs:94-97 | the checked parse succeeds exactly when the as-written parse does and the magic pair and trailer are right; then both return the same |
| Frame.SendRoundTrip | src/message.rs:52-137 | parsing what `send_msg` wrote, with a UTF-8 command below 64 KiB and sections within the limits, returns the control, command, head and body sent, with version 1 and an empty head or body as None; either parser |
| Frame.TruncatedCmd | src/message.rs:114-116 | a 64 KiB command gets length field 0, so the parser returns no command and takes its first two bytes as the trailer |

## Left out

- I/O loops. `tcp_read`, `tcp_write`, `read_all*`, `write_all*`, `fut_tmout_*` and `src/bytes/stream.rs` move bytes between sockets. The frame codec sees a stream as a byte sequence instead, and `ReadN` is `tcp_read`'s contract. The `ctx end!` error, socket errors and partial writes are not modelled.
- Async variants. The async variants and adapters are not modelled: `parse_msg_async`, `send_msg_async*`, `tcp_*_async`, the `CircleBuf` poll adapters and the `ayc_*` sleep loops. They poll and sleep.
- `WaitGroup`, `src/sync/*`, `src/asyncs/*` and `src/contianer.rs` are not modelled. They are concurrency primitives, runtime wrappers and unsafe aliasing, and plain values replace them.
- `struct2byte` / `byte2struct` are not modelled. The header is written as explicit little-endian fields instead, which is the byte order of the crate's targets. The `byte2struct` length check cannot fail, because `tcp_read` returns exactly 16 bytes.
- `ByteBox` (`cut`, `cuts`, `clones`), `push_len`, `iter` and `ByteSteamBuf` are outside the buffer queue modelled here. The `ByteSteamBuf` source is not part of this model.
- `from_file`, `geti` and `iter` of `KVConfig` are not modelled. They read a file, parse an integer and expose the map.
- Other helpers. `envi`, `print_hex`, `times`, `randtms`, `random`, the md5/sha/chrono helpers, `conv_human_readable`, `src/filesplit.rs` and `src/log.rs` are not modelled. They use system I/O, the clock, foreign libraries or floating point.
- Text.Trim: trims only the ASCII whitespace characters. `str::trim` also removes Unicode whitespace above U+007F, such as U+00A0.
- CircleBuf.Close: the ring's own context is reduced to a flag. A ring whose parent context is stopped or expires is not modelled as closed.
- Context.Stop: always reports success. The `false` that a poisoned mutex would return needs a panicking thread, which the model does not have.
- Utils.RandtmsAng: takes a bound on the loop's iterations and returns None when the loop has not stopped within it, because the loop need not terminate (see `Utils.ClampCycles`). `rds * 2 + 1` wraps at 32 bits as in a release build. A debug build panics there instead.
- IntCodec.Byte2i: at most 8 bytes is a precondition. A longer input shifts by 64 or more, which panics in a debug build.
- Frame.SendMsg: the four `tcp_write` calls are modelled as one byte sequence. A failure between them, which leaves a partial frame on the wire, is not modelled.
- `DequeMax.Len` and `KVConfig.FromBytes` carry no contract of their own. The lemmas about `push` and `parses` state their properties.

## Findings

| source | as written | input that shows it | evidently intended | confidence | as-written member | corrected member |
|---|---|---|---|---|---|---|
| src/bytes/bytes.rs:319-326 | `cut_front` calls `split_to(pos_real)` on each chunk it pulls, which panics when the chunk is shorter | two one-byte chunks, `cut_front(2)` | take `min(pos_real, chunk length)` from each chunk until `pos` bytes are cut | not executed | ByteBoxBuf.CutFront, ByteBoxBuf.CutFrontPanicsAcrossChunks | ByteBoxBuf.CutFrontFixed |
| src/bytes/bytes.rs:383-400 | `Read::read` copies `buf.len()` bytes but returns `Ok(0)` | a buffer holding `[7, 8]`, read into a 2-byte destination | return the number of bytes copied | not executed | ByteBoxBuf.Read, ByteBoxBuf.ReadReportsZero | ByteBoxBuf.ReadFixed |
| src/bytes/circle.rs:210-220 | `borrow_write_ok` accepts `ln == avail()`, moving `end` onto `start` | `write([1, 2, 3, 4])` into an empty ring of 4 bytes: reports 4, then the ring is empty | keep one slot free, as `put_byte` does | not executed | CircleBuf.Write, CircleBuf.WriteFillLosesData | CircleBuf.WriteFixed, CircleBuf.WriteFixedThenRead |
| src/conf.rs:37-42 | an unterminated last line ends its value at index `ln - 1`, which excludes the final byte | `from_bytes("a=bc")` gives `a = "b"` | the value runs to the end of the input; nothing else changes, so the `idx_dh > 0` test stays | not executed | KVConfig.Parses, KVConfig.FinalByteDropped | KVConfig.ParsesFixed, KVConfig.FixedUnterminated |
| src/message.rs:54-60, 94-97 | the magic and trailer checks are `bts.len() < k && ...`, which is false after every successful read | zero bytes in place of `8d 8f` and `8e 8f` around a valid header | reject a short read or wrong magic or trailer bytes | not executed | Frame.MagicIgnored | Frame.CheckedIff |
