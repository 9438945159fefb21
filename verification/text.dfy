/** Byte-level text: which byte strings `str::from_utf8` accepts, and
    `str::trim` on the ASCII whitespace characters. */
module Text {
  import opened Base

  predicate Cont(b: u8)
  {
    0x80 <= b <= 0xBF
  }

  /** The length of the well-formed UTF-8 sequence `s` starts with, or 0 when
      it starts with none (the table of well-formed byte sequences in section
      3.9 of the Unicode Standard: no overlong forms, no surrogates, nothing
      above U+10FFFF). */
  function FirstCharLen(s: seq<u8>): (k: nat)
    requires |s| > 0
    ensures k <= 4 && k <= |s|
  {
    var b := s[0];
    if b < 0x80 then 1
    else if 0xC2 <= b <= 0xDF then
      (if |s| >= 2 && Cont(s[1]) then 2 else 0)
    else if 0xE0 <= b <= 0xEF then
      var lo := if b == 0xE0 then 0xA0 else 0x80;
      var hi := if b == 0xED then 0x9F else 0xBF;
      (if |s| >= 3 && lo <= s[1] <= hi && Cont(s[2]) then 3 else 0)
    else if 0xF0 <= b <= 0xF4 then
      var lo := if b == 0xF0 then 0x90 else 0x80;
      var hi := if b == 0xF4 then 0x8F else 0xBF;
      (if |s| >= 4 && lo <= s[1] <= hi && Cont(s[2]) && Cont(s[3]) then 4 else 0)
    else 0
  }

  /** `str::from_utf8(s).is_ok()`. */
  predicate ValidUtf8(s: seq<u8>)
    decreases |s|
  {
    |s| == 0 || (FirstCharLen(s) > 0 && ValidUtf8(s[FirstCharLen(s)..]))
  }

  predicate Ascii(s: seq<u8>)
  {
    forall i | 0 <= i < |s| :: s[i] < 0x80
  }

  lemma {:induction false} AsciiIsUtf8(s: seq<u8>)
    requires Ascii(s)
    ensures ValidUtf8(s)
    decreases |s|
  {
    if |s| > 0 {
      assert FirstCharLen(s) == 1;
      AsciiIsUtf8(s[1..]);
    }
  }

  /** The characters `char::is_whitespace` accepts below U+0080: tab, line
      feed, vertical tab, form feed, carriage return and space. */
  predicate Space(b: u8)
  {
    0x09 <= b <= 0x0D || b == 0x20
  }

  function TrimStart(s: seq<u8>): (r: seq<u8>)
    ensures |r| <= |s| && r == s[|s| - |r|..]
    ensures |r| > 0 ==> !Space(r[0])
    ensures forall i | 0 <= i < |s| - |r| :: Space(s[i])
    decreases |s|
  {
    if |s| > 0 && Space(s[0]) then TrimStart(s[1..]) else s
  }

  function TrimEnd(s: seq<u8>): (r: seq<u8>)
    ensures |r| <= |s| && r == s[..|r|]
    ensures |r| > 0 ==> !Space(r[|r| - 1])
    ensures forall i | |r| <= i < |s| :: Space(s[i])
    decreases |s|
  {
    if |s| > 0 && Space(s[|s| - 1]) then TrimEnd(s[..|s| - 1]) else s
  }

  /** `s` is `r` at offset `i` with nothing but whitespace around it. */
  predicate Surrounds(s: seq<u8>, i: nat, r: seq<u8>)
  {
    i + |r| <= |s| && s[i..i + |r|] == r
    && (forall k | 0 <= k < i :: Space(s[k]))
    && (forall k | i + |r| <= k < |s| :: Space(s[k]))
  }

  /** `str::trim`: the longest slice without whitespace at either end. */
  function Trim(s: seq<u8>): (r: seq<u8>)
    ensures |r| <= |s|
    ensures |r| > 0 ==> !Space(r[0]) && !Space(r[|r| - 1])
    ensures exists i :: Surrounds(s, i, r)
  {
    TrimSurrounds(s);
    TrimEnd(TrimStart(s))
  }

  /** What both halves of the trim leave is a slice of `s` with only
      whitespace cut away around it. */
  lemma TrimSurrounds(s: seq<u8>)
    ensures Surrounds(s, |s| - |TrimStart(s)|, TrimEnd(TrimStart(s)))
  {
    SurroundsOf(s, TrimStart(s), TrimEnd(TrimStart(s)));
  }

  /** A whitespace-only prefix cut from `s` leaving `t`, then a
      whitespace-only suffix cut from `t` leaving `r`. */
  lemma SurroundsOf(s: seq<u8>, t: seq<u8>, r: seq<u8>)
    requires |t| <= |s| && t == s[|s| - |t|..]
    requires forall k | 0 <= k < |s| - |t| :: Space(s[k])
    requires |r| <= |t| && r == t[..|r|]
    requires forall k | |r| <= k < |t| :: Space(t[k])
    ensures Surrounds(s, |s| - |t|, r)
  {
    var i := |s| - |t|;
    assert s[i..i + |r|] == r;
    forall k | i + |r| <= k < |s|
      ensures Space(s[k])
    {
      assert s[k] == t[k - i];
    }
  }

  /** A string with no whitespace at either end is its own trim. */
  lemma TrimmedFixed(s: seq<u8>)
    requires |s| == 0 || (!Space(s[0]) && !Space(s[|s| - 1]))
    ensures Trim(s) == s
  {
    assert TrimStart(s) == s;
  }

  /** Trimming twice is trimming once. */
  lemma TrimIdempotent(s: seq<u8>)
    ensures Trim(Trim(s)) == Trim(s)
  {
    TrimmedFixed(Trim(s));
  }
}
