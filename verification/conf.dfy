/** `KVConfig`: a `key=value` map read from lines of bytes.

    Keys and values are kept as the bytes of their (UTF-8) strings. The
    `HashMap`'s iteration order, which `to_string` follows, is unspecified;
    `ToString` takes it as an explicit `order` of the keys. */
module KVConfig {
  import opened Base
  import opened Text

  const Eq: u8 := 0x3D       // '='
  const Newline: u8 := 0x0A  // '\n'

  datatype Config = Config(mp: map<seq<u8>, seq<u8>>)

  /** `KVConfig::new`: no entries. */
  function New(): (c: Config)
    ensures |c.mp| == 0
  {
    Config(map[])
  }

  // ---------------------------------------------------------------- parses

  /** The key bytes and value bytes of one line (`None` when the `=` ends the
      line: the empty value, which is not decoded). */
  datatype Pair = Pair(key: seq<u8>, value: Option<seq<u8>>)

  /** The loop state of `parses`: where the current line starts, the offset
      of the last `=` seen on it (`idx_dh`, where the source's `0` means "none
      yet") and the lines committed so far. The source inserts each committed
      line into the map as soon as the loop reaches its end; `Apply` performs
      the same insertions in the same order. */
  datatype Scan = Scan(start: nat, eq: Option<nat>, lines: seq<Pair>)

  /** Where a line's value ends. The source stops at the terminator index `i`
      even when `i` is the last byte of an unterminated line, so that byte is
      lost; the corrected parser (`fixed`) keeps it. */
  function ValueEnd(bts: seq<u8>, i: nat, fixed: bool): (e: nat)
    requires i < |bts|
    ensures i <= e <= i + 1 && e <= |bts|
  {
    if fixed && bts[i] != Newline then i + 1 else i
  }

  /** Inserts one committed line when its key (and its value, if any) decode
      as UTF-8, both trimmed. */
  function Record(mp: map<seq<u8>, seq<u8>>, p: Pair): (r: map<seq<u8>, seq<u8>>)
    ensures mp.Keys <= r.Keys
  {
    if !ValidUtf8(p.key) then mp
    else if p.value.None? then mp[Trim(p.key) := []]
    else if ValidUtf8(p.value.value) then mp[Trim(p.key) := Trim(p.value.value)]
    else mp
  }

  /** The committed lines inserted into `mp`, first to last. */
  function Apply(mp: map<seq<u8>, seq<u8>>, ps: seq<Pair>): (r: map<seq<u8>, seq<u8>>)
    ensures mp.Keys <= r.Keys
  {
    if |ps| == 0 then mp else Record(Apply(mp, ps[..|ps| - 1]), ps[|ps| - 1])
  }

  /** The end of a line: the line counts when it has a usable `=`. The `=`
      must sit at an absolute offset above 0 (`0` doubles as "no `=`"), so
      `=` as the very first byte of the input is ignored while an `=`
      starting any later line gives the empty key. Both parsers share this
      test: the correction changes only where a value ends. */
  function Commit(bts: seq<u8>, start: nat, eq: Option<nat>, e: nat): (r: seq<Pair>)
    requires e <= |bts| && (eq.Some? ==> start <= eq.value < |bts|)
    ensures |r| <= 1
  {
    if eq.Some? && eq.value > 0 && eq.value < e then
      [Pair(bts[start..eq.value], if eq.value + 1 >= e then None else Some(bts[eq.value + 1..e]))]
    else []
  }

  /** One iteration of the byte loop, at index `i`. */
  function Step(bts: seq<u8>, i: nat, s: Scan, fixed: bool): (r: Scan)
    requires i < |bts| && s.start <= i && (s.eq.Some? ==> s.start <= s.eq.value < i)
    ensures r.start <= i + 1 && (r.eq.Some? ==> r.start <= r.eq.value <= i)
  {
    var eq := if bts[i] == Eq then Some(i) else s.eq;
    if bts[i] == Newline || i == |bts| - 1 then
      Scan(i + 1, None, s.lines + Commit(bts, s.start, eq, ValueEnd(bts, i, fixed)))
    else
      Scan(s.start, eq, s.lines)
  }

  /** The state after the first `n` iterations. */
  function ScanTo(bts: seq<u8>, n: nat, fixed: bool): (s: Scan)
    requires n <= |bts|
    ensures s.start <= n && (s.eq.Some? ==> s.start <= s.eq.value < n)
  {
    if n == 0 then Scan(0, None, [])
    else Step(bts, n - 1, ScanTo(bts, n - 1, fixed), fixed)
  }

  /** `parses` run on the existing entries `c`, as written: it only adds or
      overwrites entries. */
  function Parses(c: Config, bts: seq<u8>): (r: Config)
    ensures c.mp.Keys <= r.mp.Keys
  {
    Config(Apply(c.mp, ScanTo(bts, |bts|, false).lines))
  }

  /** The corrected `parses`: the last byte of an unterminated final line
      belongs to the value. Nothing else changes; in particular an `=` as
      the first byte of the input is still ignored (`LeadingEq`). */
  function ParsesFixed(c: Config, bts: seq<u8>): (r: Config)
    ensures c.mp.Keys <= r.mp.Keys
  {
    Config(Apply(c.mp, ScanTo(bts, |bts|, true).lines))
  }

  /** `from_bytes`: `parses` on a new configuration. */
  function FromBytes(bts: seq<u8>): Config
  {
    Parses(New(), bts)
  }

  lemma {:induction false} NoEqNoLines(bts: seq<u8>, n: nat, fixed: bool)
    requires n <= |bts| && forall i | 0 <= i < |bts| :: bts[i] != Eq
    ensures ScanTo(bts, n, fixed).lines == [] && ScanTo(bts, n, fixed).eq == None
    decreases n
  {
    if n > 0 {
      NoEqNoLines(bts, n - 1, fixed);
    }
  }

  /** Lines without `=` contribute nothing. */
  lemma NoEqEmpty(c: Config, bts: seq<u8>)
    requires forall i | 0 <= i < |bts| :: bts[i] != Eq
    ensures Parses(c, bts) == c
    ensures |FromBytes(bts).mp| == 0
  {
    NoEqNoLines(bts, |bts|, false);
  }

  // ---------------------------------------------------------------- get / set / to_string

  /** `get`: the value stored under `key`. */
  function Get(c: Config, key: seq<u8>): (r: Option<seq<u8>>)
    ensures r.Some? <==> key in c.mp
    ensures r.Some? ==> r.value == c.mp[key]
  {
    if key in c.mp then Some(c.mp[key]) else None
  }

  /** `set`: insert or overwrite one entry. */
  function Set(c: Config, key: seq<u8>, val: seq<u8>): (r: Config)
    ensures r.mp.Keys == c.mp.Keys + {key}
  {
    Config(c.mp[key := val])
  }

  /** `set` then `get` returns the value set, and no other key changes. */
  lemma SetGet(c: Config, key: seq<u8>, val: seq<u8>, other: seq<u8>)
    ensures Get(Set(c, key, val), key) == Some(val)
    ensures other != key ==> Get(Set(c, key, val), other) == Get(c, other)
  {
  }

  /** One `"k=v\n"` line. */
  function Line(k: seq<u8>, v: seq<u8>): (l: seq<u8>)
    ensures |l| == |k| + |v| + 2 && l[|l| - 1] == Newline
  {
    k + [Eq] + v + [Newline]
  }

  /** `order` lists every key exactly once: one iteration order of the map. */
  predicate IsOrder(mp: map<seq<u8>, seq<u8>>, order: seq<seq<u8>>)
  {
    (forall i | 0 <= i < |order| :: order[i] in mp)
    && (forall k | k in mp :: k in order)
    && (forall i, j | 0 <= i < j < |order| :: order[i] != order[j])
  }

  function Lines(mp: map<seq<u8>, seq<u8>>, order: seq<seq<u8>>): (r: seq<u8>)
    requires forall i | 0 <= i < |order| :: order[i] in mp
    ensures |r| == 0 || r[|r| - 1] == Newline
  {
    if |order| == 0 then []
    else Lines(mp, order[..|order| - 1]) + Line(order[|order| - 1], mp[order[|order| - 1]])
  }

  /** `to_string`, visiting the entries in `order`. */
  function ToString(c: Config, order: seq<seq<u8>>): (r: seq<u8>)
    requires IsOrder(c.mp, order)
    ensures (forall k | k in c.mp :: NoNewline(k) && NoNewline(c.mp[k]))
            ==> Count(r, Newline) == |c.mp|
  {
    OrderSize(c.mp, order);
    LinesCount(c.mp, order);
    Lines(c.mp, order)
  }

  predicate NoNewline(s: seq<u8>)
  {
    forall i | 0 <= i < |s| :: s[i] != Newline
  }

  /** The number of `b` bytes in `s`. */
  function Count(s: seq<u8>, b: u8): nat
  {
    if |s| == 0 then 0 else Count(s[..|s| - 1], b) + (if s[|s| - 1] == b then 1 else 0)
  }

  lemma {:induction false} CountConcat(s: seq<u8>, t: seq<u8>, b: u8)
    ensures Count(s + t, b) == Count(s, b) + Count(t, b)
    decreases |t|
  {
    if |t| > 0 {
      assert (s + t)[..|s + t| - 1] == s + t[..|t| - 1];
      assert (s + t)[|s + t| - 1] == t[|t| - 1];
      CountConcat(s, t[..|t| - 1], b);
    } else {
      assert s + t == s;
    }
  }

  lemma {:induction false} CountNone(s: seq<u8>, b: u8)
    requires forall i | 0 <= i < |s| :: s[i] != b
    ensures Count(s, b) == 0
    decreases |s|
  {
    if |s| > 0 {
      CountNone(s[..|s| - 1], b);
    }
  }

  lemma {:induction false} LinesCount(mp: map<seq<u8>, seq<u8>>, order: seq<seq<u8>>)
    requires forall i | 0 <= i < |order| :: order[i] in mp
    ensures (forall k | k in mp :: NoNewline(k) && NoNewline(mp[k]))
            ==> Count(Lines(mp, order), Newline) == |order|
    decreases |order|
  {
    if |order| > 0 && forall k | k in mp :: NoNewline(k) && NoNewline(mp[k]) {
      var o := order[..|order| - 1];
      var k := order[|order| - 1];
      LinesCount(mp, o);
      CountNone(k + [Eq] + mp[k], Newline);
      CountConcat(k + [Eq] + mp[k], [Newline], Newline);
      CountConcat(Lines(mp, o), Line(k, mp[k]), Newline);
    }
  }

  /** An iteration order has one place per entry. */
  lemma OrderSize(mp: map<seq<u8>, seq<u8>>, order: seq<seq<u8>>)
    requires IsOrder(mp, order)
    ensures |order| == |mp|
  {
    DistinctCard(order);
    assert (set i | 0 <= i < |order| :: order[i]) == mp.Keys;
  }

  lemma {:induction false} DistinctCard(s: seq<seq<u8>>)
    requires forall i, j | 0 <= i < j < |s| :: s[i] != s[j]
    ensures |set i | 0 <= i < |s| :: s[i]| == |s|
    decreases |s|
  {
    if |s| > 0 {
      var t := s[..|s| - 1];
      DistinctCard(t);
      assert (set i | 0 <= i < |s| :: s[i]) == (set i | 0 <= i < |t| :: t[i]) + {s[|s| - 1]};
    }
  }

  // ---------------------------------------------------------------- round trip

  /** No `=` and no line feed inside. */
  predicate Plain(s: seq<u8>)
  {
    forall i | 0 <= i < |s| :: s[i] != Eq && s[i] != Newline
  }

  /** The entries `to_string` can write so that `parses` reads them back: a
      non-empty key, UTF-8 on both sides, no `=` or line feed inside, and no
      whitespace at either end (`parses` trims). */
  predicate Writable(k: seq<u8>, v: seq<u8>)
  {
    |k| > 0 && Plain(k) && Plain(v)
    && ValidUtf8(k) && ValidUtf8(v) && Trim(k) == k && Trim(v) == v
  }

  /** The committed line a written entry reads back as. */
  function Entry(k: seq<u8>, v: seq<u8>): Pair
  {
    Pair(k, if |v| == 0 then None else Some(v))
  }

  /** A line feed (or nothing) leaves the loop between lines. */
  lemma CleanAfterNewline(bts: seq<u8>, fixed: bool)
    requires |bts| == 0 || bts[|bts| - 1] == Newline
    ensures ScanTo(bts, |bts|, fixed).start == |bts|
    ensures ScanTo(bts, |bts|, fixed).eq == None
  {
  }

  lemma SlicePrefix(x: seq<u8>, y: seq<u8>, i: nat, j: nat)
    requires i <= j <= |x|
    ensures (x + y)[i..j] == x[i..j]
  {
  }

  /** Bytes appended after the line do not change what it commits. */
  lemma CommitPrefix(x: seq<u8>, y: seq<u8>, start: nat, eq: Option<nat>, e: nat)
    requires e <= |x| && (eq.Some? ==> start <= eq.value < |x|)
    ensures Commit(x + y, start, eq, e) == Commit(x, start, eq, e)
  {
    if eq.Some? && eq.value > 0 && eq.value < e {
      var q := eq.value;
      SlicePrefix(x, y, start, q);
      if q + 1 < e {
        SlicePrefix(x, y, q + 1, e);
      }
    }
  }

  /** One iteration inside `x` goes the same way when bytes follow `x`. */
  lemma StepPrefix(x: seq<u8>, y: seq<u8>, i: nat, s: Scan, fixed: bool)
    requires |x| > 0 && x[|x| - 1] == Newline
    requires i < |x| && s.start <= i && (s.eq.Some? ==> s.start <= s.eq.value < i)
    ensures Step(x + y, i, s, fixed) == Step(x, i, s, fixed)
  {
    assert (x + y)[i] == x[i];
    var eq := if x[i] == Eq then Some(i) else s.eq;
    CommitPrefix(x, y, s.start, eq, ValueEnd(x, i, fixed));
  }

  /** Bytes appended after a line feed do not change how the loop went
      before it. */
  lemma {:induction false} ScanPrefix(x: seq<u8>, y: seq<u8>, n: nat, fixed: bool)
    requires |x| == 0 || x[|x| - 1] == Newline
    requires n <= |x|
    ensures ScanTo(x + y, n, fixed) == ScanTo(x, n, fixed)
    decreases n
  {
    if n > 0 {
      ScanPrefix(x, y, n - 1, fixed);
      StepPrefix(x, y, n - 1, ScanTo(x, n - 1, fixed), fixed);
    }
  }

  /** `bts` starts with whole lines `x`, then a key, `=` and a value, neither
      holding `=` or a line feed. */
  predicate StartsWithEntry(bts: seq<u8>, x: seq<u8>, k: seq<u8>, v: seq<u8>)
  {
    (|x| == 0 || x[|x| - 1] == Newline) && |k| > 0 && Plain(k) && Plain(v)
    && |x| + |k| + 1 + |v| <= |bts| && bts[..|x| + |k| + 1 + |v|] == x + k + [Eq] + v
  }

  /** Through the key: nothing happens. */
  lemma {:induction false} ScanKey(bts: seq<u8>, x: seq<u8>, k: seq<u8>, v: seq<u8>, m: nat, fixed: bool)
    requires StartsWithEntry(bts, x, k, v) && m <= |k|
    ensures ScanTo(bts, |x| + m, fixed) == Scan(|x|, None, ScanTo(x, |x|, fixed).lines)
    decreases m
  {
    var n := |x| + |k| + 1 + |v|;
    assert bts[..n][..|x|] == x;
    if m == 0 {
      assert x + bts[|x|..] == bts;
      ScanPrefix(x, bts[|x|..], |x|, fixed);
      CleanAfterNewline(x, fixed);
    } else {
      ScanKey(bts, x, k, v, m - 1, fixed);
      assert bts[|x| + m - 1] == bts[..n][|x| + m - 1] == k[m - 1];
    }
  }

  /** Through `=` and the value: the `=`'s offset is remembered. */
  lemma {:induction false} ScanValue(bts: seq<u8>, x: seq<u8>, k: seq<u8>, v: seq<u8>, m: nat, fixed: bool)
    requires StartsWithEntry(bts, x, k, v) && m <= |v| && |x| + |k| + 1 + m < |bts|
    ensures ScanTo(bts, |x| + |k| + 1 + m, fixed) == Scan(|x|, Some(|x| + |k|), ScanTo(x, |x|, fixed).lines)
    decreases m
  {
    var n := |x| + |k| + 1 + |v|;
    if m == 0 {
      ScanKey(bts, x, k, v, |k|, fixed);
      assert bts[|x| + |k|] == bts[..n][|x| + |k|] == Eq;
    } else {
      ScanValue(bts, x, k, v, m - 1, fixed);
      assert bts[|x| + |k| + m] == bts[..n][|x| + |k| + m] == v[m - 1];
    }
  }

  lemma SliceOfPrefix(bts: seq<u8>, n: nat, i: nat, j: nat)
    requires i <= j <= n <= |bts|
    ensures bts[i..j] == bts[..n][i..j]
  {
  }

  lemma MiddleSlice(a: seq<u8>, b: seq<u8>, c: seq<u8>)
    ensures (a + b + c)[|a|..|a| + |b|] == b
  {
  }

  lemma LastSlice(a: seq<u8>, b: seq<u8>)
    ensures (a + b)[|a|..|a| + |b|] == b
  {
  }

  /** The key and value of the entry, read back out of `bts`. */
  lemma EntrySlices(bts: seq<u8>, x: seq<u8>, k: seq<u8>, v: seq<u8>)
    requires StartsWithEntry(bts, x, k, v)
    ensures bts[|x|..|x| + |k|] == k
    ensures bts[|x| + |k| + 1..|x| + |k| + 1 + |v|] == v
  {
    var n := |x| + |k| + 1 + |v|;
    SliceOfPrefix(bts, n, |x|, |x| + |k|);
    SliceOfPrefix(bts, n, |x| + |k| + 1, n);
    assert x + k + [Eq] + v == x + k + ([Eq] + v);
    MiddleSlice(x, k, [Eq] + v);
    LastSlice(x + k + [Eq], v);
  }

  /** The line end of the entry commits exactly that entry. */
  lemma CommitEntry(bts: seq<u8>, x: seq<u8>, k: seq<u8>, v: seq<u8>)
    requires StartsWithEntry(bts, x, k, v)
    ensures Commit(bts, |x|, Some(|x| + |k|), |x| + |k| + 1 + |v|) == [Entry(k, v)]
  {
    EntrySlices(bts, x, k, v);
  }

  /** The loop stands at the terminator `n`, the last byte, not an `=`, on
      a line from `start` whose last `=` is at `q`, with `ls` committed;
      committing that line with value end `e` gives `r`. */
  predicate Closing(bts: seq<u8>, n: nat, start: nat, q: nat, e: nat, ls: seq<Pair>, r: seq<Pair>, fixed: bool)
  {
    n + 1 == |bts| && bts[n] != Eq && start <= q < n
    && ScanTo(bts, n, fixed) == Scan(start, Some(q), ls)
    && e == ValueEnd(bts, n, fixed) && Commit(bts, start, Some(q), e) == r
  }

  /** The last iteration of the loop commits the line in progress. */
  lemma CloseLine(bts: seq<u8>, n: nat, start: nat, q: nat, e: nat, ls: seq<Pair>, r: seq<Pair>, fixed: bool)
    requires Closing(bts, n, start, q, e, ls, r, fixed)
    ensures ScanTo(bts, |bts|, fixed).lines == ls + r
  {
  }

  /** Up to the line feed of the entry, the loop is ready to commit it. */
  lemma EntryOpen(bts: seq<u8>, x: seq<u8>, k: seq<u8>, v: seq<u8>, fixed: bool)
    requires StartsWithEntry(bts, x, k, v)
    requires |bts| == |x| + |k| + |v| + 2 && bts[|x| + |k| + 1 + |v|] == Newline
    ensures Closing(bts, |x| + |k| + 1 + |v|, |x|, |x| + |k|, |x| + |k| + 1 + |v|,
                    ScanTo(x, |x|, fixed).lines, [Entry(k, v)], fixed)
  {
    ScanValue(bts, x, k, v, |v|, fixed);
    CommitEntry(bts, x, k, v);
  }

  lemma LineEntry(x: seq<u8>, k: seq<u8>, v: seq<u8>)
    requires |x| == 0 || x[|x| - 1] == Newline
    requires |k| > 0 && Plain(k) && Plain(v)
    ensures StartsWithEntry(x + Line(k, v), x, k, v)
    ensures |x + Line(k, v)| == |x| + |k| + |v| + 2
    ensures (x + Line(k, v))[|x| + |k| + 1 + |v|] == Newline
  {
    var bts := x + Line(k, v);
    assert bts[..|x| + |k| + 1 + |v|] == x + k + [Eq] + v;
  }

  /** A line `k=v` read after whole lines commits exactly the entry `k`,
      `v`, under either parser. */
  lemma AppendLine(x: seq<u8>, k: seq<u8>, v: seq<u8>, fixed: bool)
    requires |x| == 0 || x[|x| - 1] == Newline
    requires |k| > 0 && Plain(k) && Plain(v)
    ensures ScanTo(x + Line(k, v), |x + Line(k, v)|, fixed).lines
         == ScanTo(x, |x|, fixed).lines + [Entry(k, v)]
  {
    var bts := x + Line(k, v);
    LineEntry(x, k, v);
    EntryOpen(bts, x, k, v, fixed);
    CloseLine(bts, |x| + |k| + 1 + |v|, |x|, |x| + |k|, |x| + |k| + 1 + |v|,
              ScanTo(x, |x|, fixed).lines, [Entry(k, v)], fixed);
  }

  /** The corrected parser keeps a last byte that is not a line feed. */
  lemma KeepsLast(bts: seq<u8>, n: nat, e: nat, fixed: bool)
    requires fixed && n < |bts| && bts[n] != Newline && e == n + 1
    ensures ValueEnd(bts, n, fixed) == e
  {
  }

  /** Up to the last byte of an unterminated entry, the corrected loop is
      ready to commit it. */
  lemma UnterminatedOpen(bts: seq<u8>, x: seq<u8>, k: seq<u8>, v: seq<u8>, fixed: bool)
    requires fixed && StartsWithEntry(bts, x, k, v) && |v| > 0
    requires |bts| == |x| + |k| + 1 + |v|
    requires bts[|x| + |k| + 1 + (|v| - 1)] != Newline && bts[|x| + |k| + 1 + (|v| - 1)] != Eq
    ensures Closing(bts, |x| + |k| + 1 + (|v| - 1), |x|, |x| + |k|, |x| + |k| + 1 + |v|,
                    ScanTo(x, |x|, fixed).lines, [Entry(k, v)], fixed)
  {
    ScanValue(bts, x, k, v, |v| - 1, fixed);
    CommitEntry(bts, x, k, v);
    KeepsLast(bts, |x| + |k| + 1 + (|v| - 1), |x| + |k| + 1 + |v|, fixed);
  }

  /** The corrected parser reads an unterminated last line `k=v` like a
      terminated one. */
  lemma FixedUnterminatedLines(x: seq<u8>, k: seq<u8>, v: seq<u8>)
    requires |x| == 0 || x[|x| - 1] == Newline
    requires |k| > 0 && Plain(k) && Plain(v) && |v| > 0
    ensures ScanTo(x + k + [Eq] + v, |x + k + [Eq] + v|, true).lines == ScanTo(x, |x|, true).lines + [Entry(k, v)]
  {
    var bts := x + k + [Eq] + v;
    assert bts[..|bts|] == bts;
    assert bts[|x| + |k| + 1 + (|v| - 1)] == v[|v| - 1];
    UnterminatedOpen(bts, x, k, v, true);
    CloseLine(bts, |x| + |k| + 1 + (|v| - 1), |x|, |x| + |k|, |x| + |k| + 1 + |v|,
              ScanTo(x, |x|, true).lines, [Entry(k, v)], true);
  }

  lemma ApplySnoc(mp: map<seq<u8>, seq<u8>>, ps: seq<Pair>, p: Pair)
    ensures Apply(mp, ps + [p]) == Record(Apply(mp, ps), p)
  {
    assert (ps + [p])[..|ps|] == ps;
  }

  /** A writable entry is inserted as it is. */
  lemma ApplyEntry(mp: map<seq<u8>, seq<u8>>, ps: seq<Pair>, k: seq<u8>, v: seq<u8>)
    requires Writable(k, v)
    ensures Apply(mp, ps + [Entry(k, v)]) == Apply(mp, ps)[k := v]
  {
    ApplySnoc(mp, ps, Entry(k, v));
  }

  /** The corrected parser reads an unterminated last line like a
      terminated one: the entry is added (or overwritten). */
  lemma FixedUnterminated(c: Config, x: seq<u8>, k: seq<u8>, v: seq<u8>)
    requires |x| == 0 || x[|x| - 1] == Newline
    requires Writable(k, v) && |v| > 0
    ensures ParsesFixed(c, x + k + [Eq] + v).mp == ParsesFixed(c, x).mp[k := v]
  {
    FixedUnterminatedLines(x, k, v);
    ApplyEntry(c.mp, ScanTo(x, |x|, true).lines, k, v);
  }

  /** The entries of `mp` named in `order`. */
  function Collected(mp: map<seq<u8>, seq<u8>>, order: seq<seq<u8>>): map<seq<u8>, seq<u8>>
    requires forall i | 0 <= i < |order| :: order[i] in mp
  {
    if |order| == 0 then map[]
    else Collected(mp, order[..|order| - 1])[order[|order| - 1] := mp[order[|order| - 1]]]
  }

  lemma {:induction false} CollectedSub(mp: map<seq<u8>, seq<u8>>, order: seq<seq<u8>>)
    requires forall i | 0 <= i < |order| :: order[i] in mp
    ensures forall k | k in Collected(mp, order) :: k in mp && Collected(mp, order)[k] == mp[k]
    ensures forall i | 0 <= i < |order| :: order[i] in Collected(mp, order)
    decreases |order|
  {
    if |order| > 0 {
      var o := order[..|order| - 1];
      CollectedSub(mp, o);
      forall i | 0 <= i < |order| - 1
        ensures order[i] in Collected(mp, order)
      {
        assert order[i] == o[i];
      }
    }
  }

  lemma {:induction false} ParseLines(mp: map<seq<u8>, seq<u8>>, order: seq<seq<u8>>, fixed: bool)
    requires forall i | 0 <= i < |order| :: order[i] in mp
    requires forall k | k in mp :: Writable(k, mp[k])
    ensures Apply(map[], ScanTo(Lines(mp, order), |Lines(mp, order)|, fixed).lines) == Collected(mp, order)
    decreases |order|
  {
    if |order| > 0 {
      var o := order[..|order| - 1];
      var k := order[|order| - 1];
      var v := mp[k];
      assert Writable(k, v);
      var x := Lines(mp, o);
      assert Lines(mp, order) == x + Line(k, v);
      ParseLines(mp, o, fixed);
      ParseNextLine(x, k, v, Collected(mp, o), fixed);
      assert Collected(mp, order) == Collected(mp, o)[k := v];
    }
  }

  /** One more written line adds its entry to what the lines before it
      parse to. */
  lemma ParseNextLine(x: seq<u8>, k: seq<u8>, v: seq<u8>, c: map<seq<u8>, seq<u8>>, fixed: bool)
    requires |x| == 0 || x[|x| - 1] == Newline
    requires Writable(k, v)
    requires Apply(map[], ScanTo(x, |x|, fixed).lines) == c
    ensures Apply(map[], ScanTo(x + Line(k, v), |x + Line(k, v)|, fixed).lines) == c[k := v]
  {
    AppendLine(x, k, v, fixed);
    ApplyEntry(map[], ScanTo(x, |x|, fixed).lines, k, v);
  }

  /** `from_bytes(to_string(c))` gives `c` back, whatever the iteration
      order, when every entry is writable; the corrected parser agrees. */
  lemma ToStringRoundTrip(c: Config, order: seq<seq<u8>>)
    requires IsOrder(c.mp, order)
    requires forall k | k in c.mp :: Writable(k, c.mp[k])
    ensures FromBytes(ToString(c, order)) == c
    ensures ParsesFixed(New(), ToString(c, order)) == c
  {
    ParseLines(c.mp, order, false);
    ParseLines(c.mp, order, true);
    CollectedAll(c.mp, order);
  }

  lemma CollectedAll(mp: map<seq<u8>, seq<u8>>, order: seq<seq<u8>>)
    requires IsOrder(mp, order)
    ensures Collected(mp, order) == mp
  {
    CollectedSub(mp, order);
    var c := Collected(mp, order);
    forall k | k in mp
      ensures k in c
    {
      var i :| 0 <= i < |order| && order[i] == k;
    }
    assert c.Keys == mp.Keys;
  }

  // ---------------------------------------------------------------- the final byte

  /** As written, an unterminated last line loses its final byte:
      `"a=bc"` reads as `a = "b"`. */
  lemma FinalByteDropped()
    ensures FromBytes([0x61, Eq, 0x62, 0x63]) == Config(map[[0x61] := [0x62]])
  {
    var bts: seq<u8> := [0x61, Eq, 0x62, 0x63];
    assert ScanTo(bts, 1, false) == Scan(0, None, []);
    assert ScanTo(bts, 2, false) == Scan(0, Some(1), []);
    assert ScanTo(bts, 3, false) == Scan(0, Some(1), []);
    assert bts[0..1] == [0x61];
    assert bts[2..3] == [0x62];
    assert ScanTo(bts, 4, false).lines == [Pair([0x61], Some([0x62]))];
    AsciiIsUtf8([0x61]);
    AsciiIsUtf8([0x62]);
    TrimmedFixed([0x61]);
    TrimmedFixed([0x62]);
    ApplySnoc(map[], [], Pair([0x61], Some([0x62])));
  }

  // ---------------------------------------------------------------- where a line splits

  /** The `=` test is on the absolute offset, 0 standing for "none": an `=`
      opening the input is ignored, by both parsers, while one opening a
      later line gives the empty key. */
  lemma LeadingEq()
    ensures FromBytes([Eq, 0x61, Newline]) == New()
    ensures ParsesFixed(New(), [Eq, 0x61, Newline]) == New()
    ensures FromBytes([Newline, Eq, 0x61, Newline]) == Config(map[[] := [0x61]])
  {
    var x: seq<u8> := [Eq, 0x61, Newline];
    assert ScanTo(x, 1, false) == Scan(0, Some(0), []);
    assert ScanTo(x, 2, false) == Scan(0, Some(0), []);
    assert ScanTo(x, 3, false).lines == [];
    assert ScanTo(x, 1, true) == Scan(0, Some(0), []);
    assert ScanTo(x, 2, true) == Scan(0, Some(0), []);
    assert ScanTo(x, 3, true).lines == [];
    var y: seq<u8> := [Newline, Eq, 0x61, Newline];
    assert ScanTo(y, 1, false) == Scan(1, None, []);
    assert ScanTo(y, 2, false) == Scan(1, Some(1), []);
    assert ScanTo(y, 3, false) == Scan(1, Some(1), []);
    assert y[1..1] == [] && y[2..3] == [0x61];
    assert ScanTo(y, 4, false).lines == [Pair([], Some([0x61]))];
    AsciiIsUtf8([0x61]);
    TrimmedFixed([]);
    TrimmedFixed([0x61]);
    ApplySnoc(map[], [], Pair([], Some([0x61])));
  }

  /** A line splits at its last `=`: `"a=b=c\n"` reads as `a=b = "c"`. */
  lemma SplitsAtLastEq()
    ensures FromBytes([0x61, Eq, 0x62, Eq, 0x63, Newline]) == Config(map[[0x61, Eq, 0x62] := [0x63]])
  {
    var x: seq<u8> := [0x61, Eq, 0x62, Eq, 0x63, Newline];
    assert ScanTo(x, 1, false) == Scan(0, None, []);
    assert ScanTo(x, 2, false) == Scan(0, Some(1), []);
    assert ScanTo(x, 3, false) == Scan(0, Some(1), []);
    assert ScanTo(x, 4, false) == Scan(0, Some(3), []);
    assert ScanTo(x, 5, false) == Scan(0, Some(3), []);
    assert x[0..3] == [0x61, Eq, 0x62] && x[4..5] == [0x63];
    assert ScanTo(x, 6, false).lines == [Pair([0x61, Eq, 0x62], Some([0x63]))];
    AsciiIsUtf8([0x61, Eq, 0x62]);
    AsciiIsUtf8([0x63]);
    TrimmedFixed([0x61, Eq, 0x62]);
    TrimmedFixed([0x63]);
    ApplySnoc(map[], [], Pair([0x61, Eq, 0x62], Some([0x63])));
  }
}
