/** `byte_2i` / `i2_byte`: big-endian conversion between `i64` and up to
    eight bytes. The crate has two token-identical copies, one at the crate
    root and one in `utils`; both are this module.

    Integers are unbounded here. The source ORs each byte, shifted to its
    own 8-bit lane, into an `i64`; lanes never overlap, so the OR is a sum,
    and the final 64-bit pattern is read back as two's complement. */
module IntCodec {
  import opened Base

  const TwoTo63: int := 0x8000_0000_0000_0000
  const TwoTo64: int := 0x1_0000_0000_0000_0000

  /** Rust's `i64` range. */
  predicate IsI64(v: int)
  {
    -TwoTo63 <= v < TwoTo63
  }

  function Pow256(k: nat): (p: nat)
    ensures p > 0
  {
    if k == 0 then 1 else 256 * Pow256(k - 1)
  }

  /** The unsigned value of a big-endian byte string. */
  function BeValue(bs: seq<u8>): nat
  {
    if |bs| == 0 then 0 else BeValue(bs[..|bs| - 1]) * 256 + bs[|bs| - 1]
  }

  /** The low `n` bytes of `v`'s two's-complement form, most significant first. */
  function Encode(v: int, n: nat): (bs: seq<u8>)
    ensures |bs| == n
    decreases n
  {
    if n == 0 then [] else Encode(v / 256, n - 1) + [v % 256]
  }

  /** A 64-bit pattern read as an `i64`. */
  function ToI64(u: int): (v: int)
    requires 0 <= u < TwoTo64
    ensures IsI64(v) && (v == u || v == u - TwoTo64)
  {
    if u < TwoTo63 then u else u - TwoTo64
  }

  // ---------------------------------------------------------------- arithmetic

  lemma MulAtLeast(m: int, a: int)
    requires m > 0 && a >= 1
    ensures m * a >= m
  {
  }

  lemma MulAtMost(m: int, x: int, y: int)
    requires m > 0 && x <= y
    ensures m * x <= m * y
  {
  }

  /** Euclidean division is determined by quotient and remainder. */
  lemma DivModUnique(v: int, m: int, q: int, s: int)
    requires m > 0 && v == m * q + s && 0 <= s < m
    ensures v / m == q && v % m == s
  {
    var q', s' := v / m, v % m;
    assert m * (q - q') == s' - s;
    if q > q' {
      MulAtLeast(m, q - q');
    } else if q < q' {
      MulAtLeast(m, q' - q);
    }
  }

  lemma DivDiv(v: int, a: int, b: int)
    requires a > 0 && b > 0
    ensures a * b > 0 && (v / a) / b == v / (a * b)
  {
    var q1, r1 := v / a, v % a;
    var q2, r2 := q1 / b, q1 % b;
    assert v == a * (b * q2 + r2) + r1;
    assert v == (a * b) * q2 + (a * r2 + r1);
    MulAtMost(a, r2, b - 1);
    assert a * (b - 1) == a * b - a;
    DivModUnique(v, a * b, q2, a * r2 + r1);
  }

  /** Splitting off the lowest byte of a remainder modulo `256 * p`. */
  lemma ModSplit(v: int, p: nat)
    requires p > 0
    ensures ((v / 256) % p) * 256 + v % 256 == v % (256 * p)
  {
    var q, r := v / 256, v % 256;
    var a, b := q / p, q % p;
    assert v == 256 * q + r;
    assert v == (256 * p) * a + (256 * b + r);
    MulAtMost(256, b, p - 1);
    DivModUnique(v, 256 * p, a, 256 * b + r);
  }

  lemma {:induction false} BeValueBound(bs: seq<u8>)
    ensures BeValue(bs) < Pow256(|bs|)
    decreases |bs|
  {
    if |bs| > 0 {
      BeValueBound(bs[..|bs| - 1]);
      MulAtMost(256, BeValue(bs[..|bs| - 1]), Pow256(|bs| - 1) - 1);
    }
  }

  lemma PowEight()
    ensures Pow256(7) * 2 < TwoTo63 && Pow256(8) == TwoTo64
  {
  }

  lemma {:induction false} PowMono(i: nat, j: nat)
    requires i <= j
    ensures Pow256(i) <= Pow256(j)
    decreases j
  {
    if i < j {
      PowMono(i, j - 1);
    }
  }

  /** Byte `j` of `Encode(v, n)` is `v` shifted right by `8 * (n - 1 - j)`
      bits (an arithmetic shift: floor division) and truncated to `u8`. */
  lemma {:induction false} EncodeAt(v: int, n: nat, j: nat)
    requires j < n
    ensures Encode(v, n)[j] == (v / Pow256(n - 1 - j)) % 256
    decreases n
  {
    if j < n - 1 {
      EncodeAt(v / 256, n - 1, j);
      DivDiv(v, 256, Pow256(n - 2 - j));
    }
  }

  lemma BeValueSnoc(bs: seq<u8>, j: nat)
    requires j < |bs|
    ensures BeValue(bs[..j + 1]) == BeValue(bs[..j]) * 256 + bs[j]
  {
    assert bs[..j + 1][..j] == bs[..j];
  }

  /** One more byte shifted into a lane below the ones already placed. */
  lemma ShiftIn(a: int, b: int, p: int)
    ensures a * (256 * p) + b * p == (a * 256 + b) * p
  {
  }

  /** At most eight bytes fit in 64 bits; fewer than eight leave the sign
      bit clear. */
  lemma BeValueFits(bs: seq<u8>)
    requires |bs| <= 8
    ensures BeValue(bs) < TwoTo64
    ensures |bs| < 8 ==> BeValue(bs) < TwoTo63
  {
    BeValueBound(bs);
    PowFacts(|bs|);
  }

  /** Eight bytes with the top bit set encode the same as their value less
      `2^64`. */
  lemma EncodeWrap(bs: seq<u8>)
    requires |bs| == 8
    ensures Encode(BeValue(bs) - TwoTo64, 8) == bs
  {
    var u := BeValue(bs);
    EncodeDecode(bs);
    PowEight();
    var w := u - TwoTo64;
    EncodeShift(w, 1, 8);
    assert w + 1 * Pow256(8) == u;
  }

  // ---------------------------------------------------------------- the source

  /** `byte_2i`: each byte is shifted into place from the top down. The
      source's `else` arm (`rt |= v` unshifted) is never taken: `i` starts
      at the length and drops once per byte. */
  method Byte2i(bts: seq<u8>) returns (rt: int)
    requires |bts| <= 8  // a shift by `8 * i >= 64` panics
    ensures IsI64(rt) && BeValue(bts) < TwoTo64
    ensures rt == ToI64(BeValue(bts))
    ensures |bts| < 8 ==> rt == BeValue(bts)
  {
    var acc: int := 0;  // the 64-bit pattern built so far
    var i := |bts|;
    var j := 0;
    while j < |bts|
      invariant 0 <= j <= |bts| && i == |bts| - j
      invariant acc == BeValue(bts[..j]) * Pow256(i)
    {
      if i > 0 {
        i := i - 1;
        BeValueSnoc(bts, j);
        ShiftIn(BeValue(bts[..j]), bts[j], Pow256(i));
        acc := acc + bts[j] * Pow256(i);
      } else {
        assert false;
      }
      j := j + 1;
    }
    assert bts[..j] == bts;
    BeValueFits(bts);
    rt := ToI64(acc);
  }

  /** `i2_byte(v, n)`: `n` bytes, byte `j` being `(v >> 8 * (n - 1 - j)) as u8`. */
  method I2Byte(v: int, n: nat) returns (rt: seq<u8>)
    requires IsI64(v)
    requires n <= 8  // `v >> (8 * k)` with `k >= 8` panics
    ensures rt == Encode(v, n)
  {
    rt := [];
    var i := 0;
    while i < n
      invariant 0 <= i <= n
      invariant rt == Encode(v, n)[..i]
    {
      var k := n - i - 1;
      EncodeAt(v, n, i);
      if k > 0 {
        rt := rt + [(v / Pow256(k)) % 256];
      } else {
        rt := rt + [v % 256];
      }
      assert Encode(v, n)[..i + 1] == Encode(v, n)[..i] + [Encode(v, n)[i]];
      i := i + 1;
    }
  }

  // ---------------------------------------------------------------- properties

  /** Decoding an encoding keeps the low `n` bytes of the value. */
  lemma {:induction false} DecodeEncode(v: int, n: nat)
    ensures BeValue(Encode(v, n)) == v % Pow256(n)
    decreases n
  {
    if n > 0 {
      var e := Encode(v, n);
      assert e[..n - 1] == Encode(v / 256, n - 1);
      DecodeEncode(v / 256, n - 1);
      ModSplit(v, Pow256(n - 1));
    }
  }

  /** Encoding a decoded byte string gives the bytes back. */
  lemma {:induction false} EncodeDecode(bs: seq<u8>)
    ensures Encode(BeValue(bs), |bs|) == bs
    decreases |bs|
  {
    if |bs| > 0 {
      var n := |bs|;
      var u := BeValue(bs[..n - 1]);
      DivModUnique(BeValue(bs), 256, u, bs[n - 1]);
      EncodeDecode(bs[..n - 1]);
    }
  }

  /** Adding a multiple of `256^n` does not change the low `n` bytes. */
  lemma {:induction false} EncodeShift(v: int, k: int, n: nat)
    ensures Encode(v + k * Pow256(n), n) == Encode(v, n)
    decreases n
  {
    if n > 0 {
      var w := v + k * Pow256(n);
      assert w == 256 * (v / 256 + k * Pow256(n - 1)) + v % 256;
      DivModUnique(w, 256, v / 256 + k * Pow256(n - 1), v % 256);
      EncodeShift(v / 256, k, n - 1);
    }
  }

  /** The powers the two round trips need. */
  lemma PowFacts(n: nat)
    requires n <= 8
    ensures Pow256(n) <= TwoTo64
    ensures n < 8 ==> Pow256(n) <= TwoTo63
  {
    PowMono(n, 8);
    PowEight();
    if n < 8 {
      PowMono(n, 7);
    }
  }

  /** `byte_2i(i2_byte(v, n)) == v` for every value that fits in `n < 8`
      bytes unsigned, and for every `i64` when `n == 8`. */
  lemma RoundTrip(v: int, n: nat)
    requires n <= 8
    requires (n < 8 && 0 <= v < Pow256(n)) || (n == 8 && IsI64(v))
    ensures BeValue(Encode(v, n)) < TwoTo64
    ensures ToI64(BeValue(Encode(v, n))) == v
  {
    var u := BeValue(Encode(v, n));
    var p := Pow256(n);
    DecodeEncode(v, n);
    assert u == v % p;
    PowFacts(n);
    if 0 <= v < p {
      DivModUnique(v, p, 0, v);
      assert u == v;
    } else {
      PowEight();
      assert p == TwoTo64;
      DivModUnique(v, TwoTo64, -1, v + TwoTo64);
      assert u == v + TwoTo64;
    }
  }

  /** The sign bit can only be set in a full eight bytes. */
  lemma SignBitNeedsEight(bs: seq<u8>)
    requires |bs| <= 8 && BeValue(bs) >= TwoTo63
    ensures |bs| == 8
  {
    BeValueFits(bs);
  }

  lemma NegativeRoundTrip(bs: seq<u8>)
    requires |bs| <= 8 && TwoTo63 <= BeValue(bs) < TwoTo64
    ensures Encode(ToI64(BeValue(bs)), |bs|) == bs
  {
    SignBitNeedsEight(bs);
    EncodeWrap(bs);
  }

  /** `i2_byte(byte_2i(bs), |bs|) == bs` for up to eight bytes. */
  lemma BytesRoundTrip(bs: seq<u8>)
    requires |bs| <= 8
    ensures BeValue(bs) < TwoTo64
    ensures Encode(ToI64(BeValue(bs)), |bs|) == bs
  {
    BeValueFits(bs);
    if BeValue(bs) < TwoTo63 {
      EncodeDecode(bs);
    } else {
      NegativeRoundTrip(bs);
    }
  }
}
