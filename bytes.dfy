/**
 * Bytes, Java's fixed-width integers, and file images.
 *
 * A byte is stored unsigned (0..255); Java's signed view of a byte is
 * `Signed8`. Java `int`/`long` values are mathematical integers kept in
 * range explicitly: `Wrap32`/`Wrap64` are Java's two's-complement
 * wrap-around. Files are byte sequences: a read past the end yields the
 * zeros of the freshly allocated buffer, a write past the end extends the
 * file (with zeros in any gap), as FileChannel positional I/O does.
 */
module Bytes {
  import opened Wrappers

  type byte = x: int | 0 <= x < 256

  const TWO_15: int := 0x8000
  const TWO_16: int := 0x1_0000
  const TWO_31: int := 0x8000_0000
  const TWO_32: int := 0x1_0000_0000
  const TWO_63: int := 0x8000_0000_0000_0000
  const TWO_64: int := 0x1_0000_0000_0000_0000

  predicate IsInt16(x: int) { -TWO_15 <= x < TWO_15 }
  predicate IsInt32(x: int) { -TWO_31 <= x < TWO_31 }
  predicate IsInt64(x: int) { -TWO_63 <= x < TWO_63 }

  /** A Java `int`. */
  type Int32 = x: int | -TWO_31 <= x < TWO_31

  /** Two's-complement wrap of `x` into a signed range of `m` values. */
  function WrapMod(x: int, m: int): (r: int)
    requires m >= 2 && m % 2 == 0
    ensures -(m / 2) <= r < m / 2
  {
    if -(m / 2) <= x < m / 2 then x
    else
      var u := x % m;
      if u < m / 2 then u else u - m
  }

  /** Wrapping changes a number by a multiple of the modulus. */
  lemma {:induction false} WrapModCongr(x: int, m: int)
    requires m >= 2 && m % 2 == 0
    ensures (x - WrapMod(x, m)) % m == 0
  {
    WrapModOfMod(x, m);
    var u := x % m;
    ModUnique(x - u, m, x / m, 0);
    ModUnique(x - (u - m), m, x / m + 1, 0);
  }

  /** Java `(short)`, `int` and `long` wrap-around. */
  function Wrap16(x: int): (r: int)
    ensures IsInt16(r)
  {
    WrapMod(x, TWO_16)
  }

  function Wrap32(x: int): (r: int)
    ensures IsInt32(r)
  {
    WrapMod(x, TWO_32)
  }

  function Wrap64(x: int): (r: int)
    ensures IsInt64(r)
  {
    WrapMod(x, TWO_64)
  }

  /** An `int` is its own wrap. */
  lemma {:induction false} Wrap32Id(x: int)
    requires IsInt32(x)
    ensures Wrap32(x) == x
  {
    WrapModId(x, TWO_32);
  }

  lemma {:induction false} WrapModId(x: int, m: int)
    requires m >= 2 && m % 2 == 0
    requires -(m / 2) <= x < m / 2
    ensures WrapMod(x, m) == x
  {
    if x < 0 {
      ModUnique(x, m, -1, x + m);
    } else {
      ModUnique(x, m, 0, x);
    }
  }

  /** A `long` sum or difference that leaves the range by less than one turn wraps once. */
  lemma {:induction false} Wrap64Once(x: int)
    requires TWO_63 <= x < TWO_64 || -TWO_64 <= x < -TWO_63
    ensures Wrap64(x) == if x < 0 then x + TWO_64 else x - TWO_64
  {
    if x < 0 {
      ModUnique(x, TWO_64, -1, x + TWO_64);
    } else {
      ModUnique(x, TWO_64, 0, x);
    }
  }

  /** Java's integer division, which truncates toward zero. */
  function JavaDiv(a: int, b: int): int
    requires b > 0
  {
    if a >= 0 then a / b else -((-a) / b)
  }

  /** The quotient rounds toward zero: it never moves away from zero past `a`. */
  lemma {:induction false} JavaDivBounds(a: int, b: int)
    requires b > 0
    ensures var r := JavaDiv(a, b);
      && (a >= 0 ==> 0 <= r * b <= a < r * b + b)
      && (a < 0 ==> r * b - b < a <= r * b <= 0)
  {
    if a >= 0 {
      var q, m := a / b, a % b;
      assert a == q * b + m && 0 <= m < b;
      assert q >= 0 by {
        if q < 0 { MulAtLeast(-q, b); }
      }
    } else {
      var q, m := (-a) / b, (-a) % b;
      assert -a == q * b + m && 0 <= m < b;
      assert q >= 0 by {
        if q < 0 { MulAtLeast(-q, b); }
      }
      assert JavaDiv(a, b) * b == -(q * b);
    }
  }

  /** Java's signed reading of a stored byte. */
  function Signed8(b: byte): (r: int)
    ensures -128 <= r < 128
  {
    if b < 128 then b else b - 256
  }

  /** Java's `(byte)` cast. */
  function ToByte(x: int): (r: byte)
    ensures (x - r) % 256 == 0
  {
    x % 256
  }

  function Zeros(n: nat): (r: seq<byte>)
    ensures |r| == n && forall i :: 0 <= i < n ==> r[i] == 0
  {
    seq(n, _ => 0)
  }

  /** `n` bytes of file `f` from `pos`, zero beyond the end of the file. */
  function ReadAt(f: seq<byte>, pos: nat, n: nat): (r: seq<byte>)
    ensures |r| == n
  {
    if pos >= |f| then Zeros(n)
    else if pos + n <= |f| then f[pos..pos + n]
    else f[pos..] + Zeros(pos + n - |f|)
  }


  /** File `f` after writing `d` at `pos`; a gap before `pos` is zero-filled. */
  function WriteAt(f: seq<byte>, pos: nat, d: seq<byte>): (r: seq<byte>)
    ensures |r| == if pos + |d| > |f| then pos + |d| else |f|
    ensures forall i :: 0 <= i < |r| ==>
      r[i] == if pos <= i < pos + |d| then d[i - pos] else if i < |f| then f[i] else 0
  {
    var g := if pos > |f| then f + Zeros(pos - |f|) else f;
    g[..pos] + d + (if pos + |d| < |g| then g[pos + |d|..] else [])
  }

  lemma {:induction false} ReadAfterWrite(f: seq<byte>, pos: nat, d: seq<byte>)
    ensures ReadAt(WriteAt(f, pos, d), pos, |d|) == d
  {
  }

  /**
   * `Arrays.copyOfRange`: `from` past `to` is checked first
   * (IllegalArgumentException); then `from` outside the array fails with
   * IndexOutOfBounds; the copy is padded with zeros.
   */
  function CopyOfRange(s: seq<byte>, from: int, to: int): (r: Result<seq<byte>>)
    ensures r.Ok? <==> 0 <= from <= |s| && from <= to
    ensures r.Ok? ==> r.value == ReadAt(s, from, to - from)
    ensures from > to ==> r == Err(IllegalArgument)
    ensures from <= to && (from < 0 || from > |s|) ==> r == Err(IndexOutOfBounds)
  {
    if from > to then Err(IllegalArgument)
    else if from < 0 || from > |s| then Err(IndexOutOfBounds)
    else Ok(ReadAt(s, from, to - from))
  }

  // ---------------------------------------------------------------
  // Big-endian unsigned numbers

  function Pow256(k: nat): (r: nat)
    ensures r >= 1
  {
    if k == 0 then 1 else 256 * Pow256(k - 1)
  }

  lemma {:induction false} Pow256Values()
    ensures Pow256(2) == TWO_16 && Pow256(4) == TWO_32 && Pow256(8) == TWO_64
  {
  }

  /** The unsigned big-endian number a byte string spells. */
  function BeValue(s: seq<byte>): nat
  {
    if s == [] then 0 else BeValue(s[..|s| - 1]) * 256 + s[|s| - 1]
  }

  /** The `k` low-order base-256 digits of `n`, most significant first. */
  function BeBytes(n: nat, k: nat): (r: seq<byte>)
    ensures |r| == k
  {
    if k == 0 then [] else BeBytes(n / 256, k - 1) + [n % 256]
  }

  lemma {:induction false} BeValueBound(s: seq<byte>)
    ensures BeValue(s) < Pow256(|s|)
  {
    if s != [] {
      BeValueBound(s[..|s| - 1]);
      var p := Pow256(|s| - 1);
      var v := BeValue(s[..|s| - 1]);
      assert v <= p - 1;
      assert v * 256 <= (p - 1) * 256;
    }
  }

  lemma {:induction false} MulAtLeast(k: int, d: int)
    requires k >= 1 && d > 0
    ensures k * d >= d
  {
    assert k * d == d + (k - 1) * d;
  }

  /** Quotient and remainder are the unique ones. */
  lemma {:induction false} ModUnique(n: int, d: int, q: int, a: int)
    requires d > 0 && 0 <= a < d && n == q * d + a
    ensures n % d == a && n / d == q
  {
    var q', a' := n / d, n % d;
    assert n == q' * d + a';
    var k := q - q';
    assert k * d == a' - a;
    if k >= 1 {
      MulAtLeast(k, d);
    } else if k <= -1 {
      MulAtLeast(-k, d);
    }
  }

  lemma {:induction false} Pow256Even(k: nat)
    requires k >= 1
    ensures Pow256(k) >= 256 && Pow256(k) % 2 == 0
  {
    ModUnique(Pow256(k), 2, 128 * Pow256(k - 1), 0);
  }

  /** A difference that is a multiple of `m` stays one when both sides are scaled. */
  lemma {:induction false} MultipleScaled(x: int, y: int, k: int, m: int)
    requires m > 0 && (x - y) % m == 0
    ensures (x * k - y * k) % m == 0
  {
    var j := (x - y) / m;
    assert x - y == j * m;
    assert x * k - y * k == (j * k) * m;
    ModUnique(x * k - y * k, m, j * k, 0);
  }

  /** Numbers congruent modulo `m` wrap to the same value. */
  lemma {:induction false} WrapModCongruent(x: int, y: int, m: int)
    requires m >= 2 && m % 2 == 0 && (x - y) % m == 0
    ensures WrapMod(x, m) == WrapMod(y, m)
  {
    WrapModOfMod(x, m);
    WrapModOfMod(y, m);
    ModCongruent(x, y, m);
  }

  /** Wrapping depends on the remainder modulo `m` alone. */
  lemma {:induction false} WrapModOfMod(x: int, m: int)
    requires m >= 2 && m % 2 == 0
    ensures WrapMod(x, m) == if x % m < m / 2 then x % m else x % m - m
  {
    if -(m / 2) <= x < m / 2 {
      if x >= 0 {
        ModUnique(x, m, 0, x);
      } else {
        ModUnique(x, m, -1, x + m);
      }
    }
  }

  /** Numbers whose difference is a multiple of `m` leave the same remainder. */
  lemma {:induction false} ModCongruent(x: int, y: int, m: int)
    requires m > 0 && (x - y) % m == 0
    ensures x % m == y % m
  {
    var k, q := (x - y) / m, y / m;
    MultipleOf(x - y, m);
    assert y == q * m + y % m;
    assert x == (q + k) * m + y % m by {
      assert (q + k) * m == q * m + k * m;
    }
    ModUnique(x, m, q + k, y % m);
  }

  /** The only multiple of `m` strictly between `-m` and `m` is zero. */
  lemma {:induction false} SmallMultiple(d: int, k: int, m: int)
    requires m > 0 && -m < d < m && d == k * m
    ensures d == 0
  {
    if k >= 1 {
      MulAtLeast(k, m);
    } else if k <= -1 {
      MulAtLeast(-k, m);
    }
  }

  lemma {:induction false} MultipleOf(n: int, m: int)
    requires m > 0 && n % m == 0
    ensures n == (n / m) * m
  {
  }

  /** The remainder modulo `256 * m` in terms of the last digit and the remainder of the rest. */
  lemma {:induction false} MixedRadix(n: nat, m: nat)
    requires m >= 1
    ensures n % (256 * m) == ((n / 256) % m) * 256 + n % 256
  {
    var q, r := n / 256, n % 256;
    var a := (q % m) * 256 + r;
    assert q == (q / m) * m + q % m;
    assert n == q * 256 + r;
    assert n == (q / m) * (256 * m) + a;
    assert 0 <= a < 256 * m by {
      assert q % m <= m - 1;
      assert (q % m) * 256 <= (m - 1) * 256;
    }
    ModUnique(n, 256 * m, q / m, a);
  }

  /** Decoding the `k` digits gives `n` modulo 256^k. */
  lemma {:induction false} BeRoundTrip(n: nat, k: nat)
    ensures BeValue(BeBytes(n, k)) == n % Pow256(k)
  {
    if k > 0 {
      var q := n / 256;
      BeRoundTrip(q, k - 1);
      assert BeBytes(n, k)[..k - 1] == BeBytes(q, k - 1);
      MixedRadix(n, Pow256(k - 1));
    }
  }

  /** Encoding the value of a byte string with its own width gives it back. */
  lemma {:induction false} BeBytesOfValue(s: seq<byte>)
    ensures BeBytes(BeValue(s), |s|) == s
  {
    if s != [] {
      var pre, last := s[..|s| - 1], s[|s| - 1];
      BeBytesOfValue(pre);
      var v := BeValue(s);
      assert v == BeValue(pre) * 256 + last;
      ModUnique(v, 256, BeValue(pre), last);
      assert s == pre + [last];
    }
  }

  /** Signed reading of an unsigned number of a given modulus. */
  function ToSigned(u: int, m: int): (r: int)
    requires m >= 2 && m % 2 == 0 && 0 <= u < m
    ensures -(m / 2) <= r < m / 2 && (r == u || r == u - m)
  {
    if u < m / 2 then u else u - m
  }

  lemma {:induction false} SignedOfUnsigned(v: int, m: int)
    requires m >= 2 && m % 2 == 0 && -(m / 2) <= v < m / 2
    ensures 0 <= v % m < m && ToSigned(v % m, m) == v
  {
    if v < 0 {
      ModUnique(v, m, -1, v + m);
    } else {
      ModUnique(v, m, 0, v);
    }
  }
}
