/** Small string, time and number helpers of `utils`. The environment, the
    clock and the random source are parameters here. */
module Utils {
  import opened Base

  // ---------------------------------------------------------------- parse_noip_addr

  /** The index of the last `:` in `s`, if any. */
  function LastColon(s: string): (r: Option<nat>)
    ensures r.Some? ==> r.value < |s| && s[r.value] == ':'
    ensures r.Some? ==> forall j | r.value < j < |s| :: s[j] != ':'
    ensures r.None? ==> forall j | 0 <= j < |s| :: s[j] != ':'
  {
    if |s| == 0 then None
    else if s[|s| - 1] == ':' then Some(|s| - 1)
    else LastColon(s[..|s| - 1])
  }

  /** The last `:` of a string is at `i` when `s[i]` is one and none follows. */
  lemma LastColonAt(s: string, i: nat)
    requires i < |s| && s[i] == ':'
    requires forall j | i < j < |s| :: s[j] != ':'
    ensures LastColon(s) == Some(i)
  {
  }

  /** `parse_noip_addr`: a bare host gets port `0`, a bare `:port` gets the
      unspecified address, anything else is left as it is. */
  function ParseNoipAddr(s: string): (r: string)
    ensures |r| >= |s|
    ensures LastColon(r).Some? && (s != "" ==> LastColon(r).value > 0)
    ensures LastColon(s).Some? && LastColon(s).value > 0 ==> r == s
    ensures LastColon(s).None? ==> r == s + ":0"
    ensures LastColon(s) == Some(0) ==> r == "0.0.0.0" + s
  {
    match LastColon(s)
    case Some(i) =>
      if i == 0 then
        var r := "0.0.0.0" + s;
        LastColonAt(r, 7 + i);
        r
      else s
    case None =>
      var r := s + ":0";
      LastColonAt(r, |s|);
      r
  }

  /** Normalising an address twice is the same as once, except for the empty
      string, which becomes `":0"` and then `"0.0.0.0:0"`. */
  lemma NoipIdempotent(s: string)
    ensures ParseNoipAddr(ParseNoipAddr(s)) == ParseNoipAddr(s) <==> s != ""
  {
    if s == "" {
      assert ParseNoipAddr(s) == ":0";
      LastColonAt(":0", 0);
      assert ParseNoipAddr(":0") == "0.0.0.0:0";
    }
  }

  // ---------------------------------------------------------------- hex printing

  /** One lower-case hex digit, `0`-`9` then `a`-`f`. */
  function HexDigit(d: nat): (c: char)
    requires d < 16
    ensures '0' <= c <= '9' || 'a' <= c <= 'f'
  {
    if d < 10 then ('0' as int + d) as char else ('a' as int + d - 10) as char
  }

  /** `{:02x}`: two lower-case hex digits. */
  function Hex2(b: u8): (h: string)
    ensures |h| == 2
  {
    [HexDigit(b / 16), HexDigit(b % 16)]
  }

  /** The bytes' hex pairs joined by `sep`. */
  function HexJoin(data: seq<u8>, sep: string): (r: string)
    ensures |data| == 0 ==> r == ""
    ensures |data| > 0 ==> |r| == 2 * |data| + (|data| - 1) * |sep|
  {
    if |data| == 0 then ""
    else if |data| == 1 then Hex2(data[0])
    else Hex2(data[0]) + sep + HexJoin(data[1..], sep)
  }

  lemma {:induction false} HexJoinSnoc(data: seq<u8>, sep: string, i: nat)
    requires 1 <= i < |data|
    ensures HexJoin(data[..i + 1], sep) == HexJoin(data[..i], sep) + sep + Hex2(data[i])
    decreases i
  {
    if i > 1 {
      HexJoinSnoc(data[1..], sep, i - 1);
      assert data[1..][..i] == data[..i + 1][1..];
      assert data[1..][..i - 1] == data[..i][1..];
    } else {
      assert data[..2][1..] == [data[1]];
    }
  }

  /** `sprint_hex`: the first byte alone, every later one preceded by `splts`. */
  method SprintHex(data: seq<u8>, splts: string) returns (rts: string)
    ensures rts == HexJoin(data, splts)
  {
    rts := "";
    if |data| > 0 {
      rts := rts + Hex2(data[0]);
      var i := 1;
      while i < |data|
        invariant 1 <= i <= |data|
        invariant rts == HexJoin(data[..i], splts)
      {
        HexJoinSnoc(data, splts, i);
        rts := rts + splts + Hex2(data[i]);
        i := i + 1;
      }
      assert data[..i] == data;
    }
  }

  /** The length `sprints_hex` prints: `ln`, or the whole input when `ln` is
      zero or too long. */
  function ClampLen(ln: nat, n: nat): (k: nat)
    ensures k <= n && (0 < ln <= n ==> k == ln)
  {
    if ln == 0 || ln > n then n else ln
  }

  /** `sprints_hex(data, ln, splts)` prints `sprint_hex` of the first
      `ClampLen(ln, |data|)` bytes. */
  method SprintsHex(data: seq<u8>, ln: nat, splts: string) returns (rts: string)
    ensures rts == HexJoin(data[..ClampLen(ln, |data|)], splts)
  {
    rts := "";
    if |data| > 0 {
      var n := ln;
      if n == 0 || n > |data| {
        n := |data|;
      }
      rts := rts + Hex2(data[0]);
      var i := 1;
      while i < n
        invariant 1 <= i <= n
        invariant rts == HexJoin(data[..i], splts)
      {
        HexJoinSnoc(data, splts, i);
        rts := rts + splts + Hex2(data[i]);
        i := i + 1;
      }
    }
  }

  /** The value of one lower-case hex digit. */
  function HexValue(c: char): (v: nat)
    ensures v < 16
  {
    if '0' <= c <= '9' then (c - '0') as nat
    else if 'a' <= c <= 'f' then (c - 'a') as nat + 10
    else 0
  }

  /** Reads back `HexJoin`'s output, skipping `k` separator characters
      between pairs. */
  function Unhex(s: string, k: nat): seq<u8>
    decreases |s|
  {
    if |s| < 2 then []
    else [HexValue(s[0]) * 16 + HexValue(s[1])]
         + (if |s| >= 2 + k then Unhex(s[2 + k..], k) else [])
  }

  lemma HexPair(b: u8)
    ensures HexValue(Hex2(b)[0]) * 16 + HexValue(Hex2(b)[1]) == b
  {
    assert HexValue(HexDigit(b / 16)) == b / 16;
    assert HexValue(HexDigit(b % 16)) == b % 16;
  }

  /** The printed form determines the bytes: for any separator, reading the
      pairs back gives the input. */
  lemma {:induction false} HexRoundTrip(data: seq<u8>, sep: string)
    ensures Unhex(HexJoin(data, sep), |sep|) == data
    decreases |data|
  {
    var s := HexJoin(data, sep);
    if |data| == 1 {
      HexPair(data[0]);
    } else if |data| > 1 {
      HexPair(data[0]);
      assert s[2 + |sep|..] == HexJoin(data[1..], sep);
      HexRoundTrip(data[1..], sep);
    }
  }

  // ---------------------------------------------------------------- envs

  /** `envs(key, defs)` given the variable's value (`None` when unset). */
  function Envs(value: Option<string>, defs: string): (r: string)
    ensures r == defs || (value.Some? && r == value.value)
    ensures (value.Some? && value.value != "") <==> (value.Some? && r == value.value && r != "")
    ensures defs != "" ==> r != ""
  {
    match value
    case None => defs
    case Some(vs) => if vs == "" then defs else vs
  }

  // ---------------------------------------------------------------- time

  /** `tms_since(new, old)`: the elapsed time, zero when `new` is earlier. */
  function TmsSince(tmNew: int, tmOld: int): (r: nat)
    ensures tmOld + r >= tmNew
    ensures r == 0 || tmOld + r == tmNew
    ensures r == 0 <==> tmNew <= tmOld
  {
    if tmNew >= tmOld then tmNew - tmOld else 0
  }

  /** The time elapsed between two readings adds up across a middle one
      when the clock moves forward. */
  lemma TmsSinceAdds(a: int, b: int, c: int)
    requires a <= b <= c
    ensures TmsSince(c, a) == TmsSince(c, b) + TmsSince(b, a)
  {
  }

  // ---------------------------------------------------------------- randtms_ang

  const U32Size: int := 0x1_0000_0000

  predicate IsU32(x: int)
  {
    0 <= x < U32Size
  }

  /** The clamp loop of `randtms_ang`, given at most `fuel` more iterations;
      `None` when it has not stopped by then. `rds * 2 + 1` wraps at 32 bits
      as in a release build. */
  function ClampLoop(a: nat, b: nat, rds: nat, fuel: nat): (r: Option<nat>)
    requires IsU32(a) && IsU32(b) && IsU32(rds)
    ensures r.Some? ==> r.value == 0 || a <= r.value <= b
    ensures a <= rds <= b ==> r == Some(rds)
    decreases fuel
  {
    if rds == 0 then Some(0)
    else if rds > b then (if fuel == 0 then None else ClampLoop(a, b, rds / 2, fuel - 1))
    else if rds < a then (if fuel == 0 then None else ClampLoop(a, b, (rds * 2 + 1) % U32Size, fuel - 1))
    else Some(rds)
  }

  /** `randtms_ang(a, b)` with the clock-derived `randtms()` value as `seed`:
      zero for an empty range, otherwise a value in `[a, b]` or zero, when
      the loop stops within `fuel` iterations. */
  function RandtmsAng(a: nat, b: nat, seed: nat, fuel: nat): (r: Option<nat>)
    requires IsU32(a) && IsU32(b) && IsU32(seed)
    ensures (b == 0 || a > b) ==> r == Some(0)
    ensures r.Some? ==> r.value == 0 || a <= r.value <= b
  {
    if b == 0 || a > b then Some(0)
    else
      var rds := if seed > b then seed % b else seed;
      ClampLoop(a, b, rds, fuel)
  }

  /** More fuel never changes an answer: the fuel only bounds the search. */
  lemma {:induction false} ClampFuelMono(a: nat, b: nat, rds: nat, fuel: nat, more: nat)
    requires IsU32(a) && IsU32(b) && IsU32(rds) && fuel <= more
    requires ClampLoop(a, b, rds, fuel).Some?
    ensures ClampLoop(a, b, rds, more) == ClampLoop(a, b, rds, fuel)
    decreases fuel
  {
    if rds != 0 && rds > b {
      ClampFuelMono(a, b, rds / 2, fuel - 1, more - 1);
    } else if rds != 0 && rds < a {
      ClampFuelMono(a, b, (rds * 2 + 1) % U32Size, fuel - 1, more - 1);
    }
  }

  /** With `a == b == 5` and seed 3 the loop cycles 3, 7, 3, ... forever. */
  lemma {:induction false} ClampCycles(fuel: nat)
    ensures ClampLoop(5, 5, 3, fuel) == None
    ensures RandtmsAng(5, 5, 3, fuel) == None
    decreases fuel
  {
    if fuel >= 2 {
      ClampCycles(fuel - 2);
      assert ClampLoop(5, 5, 7, fuel - 1) == ClampLoop(5, 5, 3, fuel - 2);
    }
  }
}
