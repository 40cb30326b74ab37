/**
 * Byte-level encodings used by the proof-of-work header and its check:
 * big-endian decoding of a byte string to a natural number (what
 * `big.Int.SetBytes` does), the fixed-width big-endian encoding of an
 * integer, and `IntToHex`, the 8-byte encoding of an `int64`.
 */
module Encoding {

  type Byte = b: int | 0 <= b < 256

  /** A signed 64-bit integer (Go's `int64`, and `int` on a 64-bit platform). */
  type Int64 = x: int | -0x8000_0000_0000_0000 <= x < 0x8000_0000_0000_0000

  const MaxInt64: Int64 := 0x7FFF_FFFF_FFFF_FFFF

  function Pow2(n: nat): (r: nat)
    ensures r >= 1
  {
    if n == 0 then 1 else 2 * Pow2(n - 1)
  }

  lemma {:induction false} Pow2Add(a: nat, b: nat)
    ensures Pow2(a + b) == Pow2(a) * Pow2(b)
  {
    if b > 0 {
      Pow2Add(a, b - 1);
      calc {
        Pow2(a + b);
        2 * Pow2(a + b - 1);
        2 * (Pow2(a) * Pow2(b - 1));
        Pow2(a) * (2 * Pow2(b - 1));
        Pow2(a) * Pow2(b);
      }
    }
  }

  /** One more byte of width multiplies the range of a big-endian number by 256. */
  lemma Pow2Byte(n: nat)
    ensures Pow2(8 * n + 8) == 256 * Pow2(8 * n)
  {
    Pow2Add(8 * n, 8);
  }

  /**
   * The natural number a byte string denotes when read most significant
   * byte first; the empty string denotes 0.
   */
  function BigEndian(s: seq<Byte>): (r: nat)
    ensures r < Pow2(8 * |s|)
  {
    if s == [] then 0
    else
      var prefix := s[..|s| - 1];
      Pow2Byte(|prefix|);
      BigEndian(prefix) * 256 + s[|s| - 1]
  }

  /** Reading a concatenation: the first part is shifted left by the width of the second. */
  lemma {:induction false} BigEndianAppend(a: seq<Byte>, b: seq<Byte>)
    ensures BigEndian(a + b) == BigEndian(a) * Pow2(8 * |b|) + BigEndian(b)
  {
    if b == [] {
      assert a + b == a;
    } else {
      var b' := b[..|b| - 1];
      var c := b[|b| - 1];
      BigEndianAppend(a, b');
      assert BigEndian(a + b) == BigEndian(a + b') * 256 + c by {
        var ab := a + b;
        assert ab[..|ab| - 1] == a + b';
      }
      assert Pow2(8 * |b|) == 256 * Pow2(8 * |b'|) by {
        Pow2Byte(|b'|);
      }
      ShiftStep(BigEndian(a + b), BigEndian(a + b'), BigEndian(a), Pow2(8 * |b'|),
        BigEndian(b'), c, BigEndian(b), Pow2(8 * |b|));
    }
  }

  /** The arithmetic of one step of BigEndianAppend, kept apart from the sequences. */
  lemma ShiftStep(ab: int, whole: int, x: int, p: int, y: int, c: int, bv: int, pb: int)
    requires ab == whole * 256 + c && whole == x * p + y
    requires bv == y * 256 + c && pb == 256 * p
    ensures ab == x * pb + bv
  {
  }

  /** A byte string denotes 0 exactly when every byte of it is 0. */
  lemma {:induction false} BigEndianZero(s: seq<Byte>)
    ensures BigEndian(s) == 0 <==> forall i :: 0 <= i < |s| ==> s[i] == 0
  {
    if s != [] {
      var prefix := s[..|s| - 1];
      BigEndianZero(prefix);
      if BigEndian(s) == 0 {
        forall i | 0 <= i < |s| ensures s[i] == 0 {
          if i < |s| - 1 {
            assert s[i] == prefix[i];
          }
        }
      }
      if forall i :: 0 <= i < |s| ==> s[i] == 0 {
        assert forall i :: 0 <= i < |prefix| ==> prefix[i] == s[i];
      }
    }
  }

  /**
   * A byte string is below 2^(8 * (|s| - k)) exactly when its first k bytes
   * are zero: comparing against a power of two that is a whole number of
   * bytes is a test for leading zero bytes.
   */
  lemma LeadingZeroBytes(s: seq<Byte>, k: nat)
    requires k <= |s|
    ensures BigEndian(s) < Pow2(8 * (|s| - k)) <==> forall i :: 0 <= i < k ==> s[i] == 0
  {
    var head, tail := s[..k], s[k..];
    assert s == head + tail;
    BigEndianAppend(head, tail);
    BigEndianZero(head);
    BelowShift(BigEndian(s), BigEndian(head), Pow2(8 * |tail|), BigEndian(tail));
    assert (forall i :: 0 <= i < k ==> s[i] == 0) <==> (forall i :: 0 <= i < |head| ==> head[i] == 0);
  }

  /** A number `h * p + t` with `t < p` is below `p` exactly when `h` is 0. */
  lemma BelowShift(v: int, h: int, p: int, t: int)
    requires v == h * p + t && h >= 0 && 0 <= t < p
    ensures v < p <==> h == 0
  {
    if h >= 1 {
      assert h * p >= p;
    }
  }

  /**
   * The `width`-byte big-endian encoding of `v`, most significant byte
   * first; bits above the `width` bytes are dropped.
   */
  function ToBigEndian(v: nat, width: nat): (r: seq<Byte>)
    ensures |r| == width
  {
    if width == 0 then [] else ToBigEndian(v / 256, width - 1) + [v % 256]
  }

  /** A value that fits in `width` bytes is read back from its encoding unchanged. */
  lemma {:induction false} ToBigEndianValue(v: nat, width: nat)
    requires v < Pow2(8 * width)
    ensures BigEndian(ToBigEndian(v, width)) == v
  {
    if width > 0 {
      Pow2Byte(width - 1);
      ToBigEndianValue(v / 256, width - 1);
      var r := ToBigEndian(v, width);
      assert r[..|r| - 1] == ToBigEndian(v / 256, width - 1);
    }
  }

  /** Byte strings of one length with the same value are equal. */
  lemma BigEndianInjective()
    ensures forall a: seq<Byte>, b: seq<Byte> :: |a| == |b| && BigEndian(a) == BigEndian(b) ==> a == b
  {
    forall a: seq<Byte>, b: seq<Byte> | |a| == |b| && BigEndian(a) == BigEndian(b) ensures a == b {
      BigEndianInjectiveAt(a, b);
    }
  }

  lemma {:induction false} BigEndianInjectiveAt(a: seq<Byte>, b: seq<Byte>)
    requires |a| == |b| && BigEndian(a) == BigEndian(b)
    ensures a == b
  {
    if a != [] {
      var a', b' := a[..|a| - 1], b[..|b| - 1];
      assert BigEndian(a) == BigEndian(a') * 256 + a[|a| - 1];
      assert BigEndian(b) == BigEndian(b') * 256 + b[|b| - 1];
      assert a[|a| - 1] == b[|b| - 1];
      BigEndianInjectiveAt(a', b');
      assert a == a' + [a[|a| - 1]];
      assert b == b' + [b[|b| - 1]];
    }
  }

  /** Powers of two with known values multiply by adding their exponents. */
  lemma Pow2Mul(a: nat, b: nat, p: nat, q: nat)
    requires Pow2(a) == p && Pow2(b) == q
    ensures Pow2(a + b) == p * q
  {
    Pow2Add(a, b);
  }

  lemma Pow2Of64()
    ensures Pow2(64) == 0x1_0000_0000_0000_0000
  {
    assert Pow2(8) == 0x100;
    Pow2Mul(8, 8, 0x100, 0x100);
    Pow2Mul(16, 16, 0x1_0000, 0x1_0000);
    Pow2Mul(32, 32, 0x1_0000_0000, 0x1_0000_0000);
  }

  /**
   * `IntToHex`: the 8-byte big-endian two's-complement encoding of an
   * `int64`, as `binary.Write` with `binary.BigEndian` writes it. It is
   * defined as the only 8-byte string whose big-endian value is `x` modulo
   * 2^64: `ToBigEndian` builds one, and `BigEndianInjective` shows there is
   * no other.
   */
  function IntToHex(x: Int64): (r: seq<Byte>)
    ensures |r| == 8
    ensures BigEndian(r) == if x < 0 then x + 0x1_0000_0000_0000_0000 else x
  {
    var u := if x < 0 then x + 0x1_0000_0000_0000_0000 else x;
    Pow2Of64();
    ToBigEndianValue(u, 8);
    BigEndianInjective();
    var r :| |r| == 8 && BigEndian(r) == u;
    r
  }

  /** Reads 8 big-endian bytes back as a two's-complement `int64`. */
  function HexToInt(s: seq<Byte>): (x: Int64)
    requires |s| == 8
  {
    var u := BigEndian(s);
    Pow2Of64();
    if u < 0x8000_0000_0000_0000 then u else u - 0x1_0000_0000_0000_0000
  }

  /** `IntToHex` loses nothing: decoding its 8 bytes gives the integer back. */
  lemma IntToHexRoundTrip(x: Int64)
    ensures HexToInt(IntToHex(x)) == x
  {
  }

  lemma IntToHexInjective(x: Int64, y: Int64)
    requires IntToHex(x) == IntToHex(y)
    ensures x == y
  {
  }
}
