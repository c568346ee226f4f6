/**
 * The byte codecs of the engine's utility parser: big-endian `long`, `int`
 * and `short` fields, length-prefixed strings, and the `str2Uid` hash.
 *
 * Java strings are sequences of Unicode scalar values here; `getBytes`
 * uses UTF-8 (the platform charset is taken to be UTF-8) and
 * `String.length()` counts UTF-16 code units, so a character outside the
 * Basic Multilingual Plane counts twice.
 */
module Codec {
  import opened Wrappers
  import opened Bytes

  // ---------------------------------------------------------------
  // Fixed-width two's-complement integers, big-endian

  /**
   * The `k`-byte big-endian encoding of a signed value (`ByteBuffer.putX`);
   * `m` is 256^k.
   */
  function EncodeFixed(v: int, k: nat, m: int): (r: seq<byte>)
    requires k >= 1 && m == Pow256(k)
  {
    BeBytes(v % m, k)
  }

  /** The signed value of the first `k` bytes of `buf` (`ByteBuffer.getX`). */
  function DecodeFixed(buf: seq<byte>, k: nat, m: int): (r: int)
    requires 1 <= k <= |buf| && m == Pow256(k)
    ensures -(m / 2) <= r < m / 2
  {
    BeValueBound(buf[..k]);
    Pow256Even(k);
    ToSigned(BeValue(buf[..k]), m)
  }

  /** Decoding reads the `k`-byte prefix only and gives back the encoded value. */
  lemma {:induction false} FixedRoundTrip(v: int, k: nat, m: int, rest: seq<byte>)
    requires k >= 1 && m == Pow256(k)
    requires -(m / 2) <= v < m / 2
    ensures |EncodeFixed(v, k, m)| == k
    ensures DecodeFixed(EncodeFixed(v, k, m) + rest, k, m) == v
  {
    Pow256Even(k);
    var u := v % m;
    var enc := EncodeFixed(v, k, m);
    assert (enc + rest)[..k] == enc;
    BeRoundTrip(u, k);
    ModUnique(u, m, 0, u);
    SignedOfUnsigned(v, m);
  }

  /** Every `k`-byte string is the encoding of the value it decodes to. */
  lemma {:induction false} FixedOfBytes(b: seq<byte>, k: nat, m: int)
    requires k >= 1 && |b| == k && m == Pow256(k)
    ensures EncodeFixed(DecodeFixed(b, k, m), k, m) == b
  {
    Pow256Even(k);
    BeValueBound(b);
    var u := BeValue(b);
    assert b[..k] == b;
    var v := DecodeFixed(b, k, m);
    if u < m / 2 {
      ModUnique(v, m, 0, u);
    } else {
      ModUnique(v, m, -1, u);
    }
    BeBytesOfValue(b);
  }

  function Long2Byte(v: int): (r: seq<byte>)
    requires IsInt64(v)
  {
    Pow256Values();
    EncodeFixed(v, 8, TWO_64)
  }

  function ParseLong(buf: seq<byte>): (r: int)
    requires |buf| >= 8
    ensures IsInt64(r)
  {
    Pow256Values();
    DecodeFixed(buf, 8, TWO_64)
  }

  function Int2Byte(v: int): (r: seq<byte>)
    requires IsInt32(v)
  {
    Pow256Values();
    EncodeFixed(v, 4, TWO_32)
  }

  function ParseInt(buf: seq<byte>): (r: int)
    requires |buf| >= 4
    ensures IsInt32(r)
  {
    Pow256Values();
    DecodeFixed(buf, 4, TWO_32)
  }

  function Short2Byte(v: int): (r: seq<byte>)
    requires IsInt16(v)
  {
    Pow256Values();
    EncodeFixed(v, 2, TWO_16)
  }

  function ParseShort(buf: seq<byte>): (r: int)
    requires |buf| >= 2
    ensures IsInt16(r)
  {
    Pow256Values();
    DecodeFixed(buf, 2, TWO_16)
  }

  lemma {:induction false} LongRoundTrip(v: int, rest: seq<byte>)
    requires IsInt64(v)
    ensures |Long2Byte(v)| == 8 && ParseLong(Long2Byte(v) + rest) == v
  {
    Pow256Values();
    FixedRoundTrip(v, 8, TWO_64, rest);
  }

  lemma {:induction false} LongOfBytes(b: seq<byte>)
    requires |b| == 8
    ensures Long2Byte(ParseLong(b)) == b
  {
    Pow256Values();
    FixedOfBytes(b, 8, TWO_64);
  }

  lemma {:induction false} IntRoundTrip(v: int, rest: seq<byte>)
    requires IsInt32(v)
    ensures |Int2Byte(v)| == 4 && ParseInt(Int2Byte(v) + rest) == v
  {
    Pow256Values();
    FixedRoundTrip(v, 4, TWO_32, rest);
  }

  lemma {:induction false} IntOfBytes(b: seq<byte>)
    requires |b| == 4
    ensures Int2Byte(ParseInt(b)) == b
  {
    Pow256Values();
    FixedOfBytes(b, 4, TWO_32);
  }

  lemma {:induction false} ShortRoundTrip(v: int, rest: seq<byte>)
    requires IsInt16(v)
    ensures |Short2Byte(v)| == 2 && ParseShort(Short2Byte(v) + rest) == v
  {
    Pow256Values();
    FixedRoundTrip(v, 2, TWO_16, rest);
  }

  lemma {:induction false} ShortOfBytes(b: seq<byte>)
    requires |b| == 2
    ensures Short2Byte(ParseShort(b)) == b
  {
    Pow256Values();
    FixedOfBytes(b, 2, TWO_16);
  }

  // ---------------------------------------------------------------
  // Strings: UTF-8 bytes and UTF-16 length

  const REPLACEMENT: char := '\U{FFFD}'

  /** The UTF-8 encoding of one scalar value. */
  function Utf8(c: char): (r: seq<byte>)
  {
    var n := c as int;
    if n < 0x80 then [n]
    else if n < 0x800 then [0xC0 + n / 64, 0x80 + n % 64]
    else if n < 0x1_0000 then [0xE0 + n / 4096, 0x80 + n / 64 % 64, 0x80 + n % 64]
    else [0xF0 + n / 0x4_0000, 0x80 + n / 4096 % 64, 0x80 + n / 64 % 64, 0x80 + n % 64]
  }

  /** `String.getBytes()`. */
  function GetBytes(s: string): (r: seq<byte>)
  {
    if s == [] then [] else Utf8(s[0]) + GetBytes(s[1..])
  }

  /** `String.length()`: UTF-16 code units. */
  function JavaLength(s: string): nat
  {
    if s == [] then 0 else (if s[0] as int >= 0x1_0000 then 2 else 1) + JavaLength(s[1..])
  }

  /** The UTF-16 length is built up from the end as well: the last character's one or two units. */
  lemma {:induction false} JavaLengthLast(s: string)
    requires s != []
    ensures JavaLength(s) == JavaLength(s[..|s| - 1]) + if s[|s| - 1] as int >= 0x1_0000 then 2 else 1
  {
    if |s| > 1 {
      JavaLengthLast(s[1..]);
      assert s[1..][..|s| - 2] == s[..|s| - 1][1..];
    } else {
      assert s[1..] == [] && s[..0] == [];
    }
  }

  predicate IsAscii(s: string)
  {
    forall i :: 0 <= i < |s| ==> s[i] as int < 0x80
  }

  predicate IsCont(b: byte)
  {
    0x80 <= b < 0xC0
  }

  /**
   * A three-byte lead `b0` whose second byte `b1` already makes the
   * sequence malformed: not a continuation byte, or an overlong form
   * (E0 followed by 80-9F).
   */
  predicate BadSecond3(b0: int, b1: byte)
  {
    (b0 == 0xE0 && b1 < 0xA0) || !IsCont(b1)
  }

  /**
   * A four-byte lead `b0` that cannot start a scalar value with second byte
   * `b1`: a lead above F4, an overlong form (F0 followed by anything but
   * 90-BF), a value above U+10FFFF (F4 followed by 90 or more), or a second
   * byte that is not a continuation byte.
   */
  predicate BadSecond4(b0: int, b1: byte)
  {
    b0 > 0xF4 || (b0 == 0xF0 && b1 < 0x90) || (b0 == 0xF4 && b1 >= 0x90) || !IsCont(b1)
  }

  /**
   * Decodes the character at the front of `b`, as the UTF-8 decoder behind
   * `new String(bytes)` does with its replacement action, and says how many
   * bytes it used. A well-formed sequence gives its scalar value. A
   * malformed one gives a single U+FFFD for its maximal subpart: the lead
   * byte alone when the byte after it cannot continue it, the lead and the
   * bytes that can when a later one cannot, all three bytes of an encoded
   * surrogate, and everything that is left when the input ends inside a
   * sequence that could still have been well formed.
   */
  function DecodeOne(b: seq<byte>): (r: (char, nat))
    requires |b| > 0
    ensures 1 <= r.1 <= |b|
    ensures r.0 as int >= 0x1_0000 ==> r.1 == 4
    ensures r.1 > 1 ==> 0xC2 <= b[0] < 0xF5 && forall i :: 1 <= i < r.1 ==> IsCont(b[i])
  {
    var b0: int := b[0];
    if b0 < 0x80 then (b0 as char, 1)
    else if 0xC2 <= b0 < 0xE0 then
      if |b| < 2 || !IsCont(b[1]) then (REPLACEMENT, 1)
      else (((b0 - 0xC0) * 64 + (b[1] as int - 0x80)) as char, 2)
    else if 0xE0 <= b0 < 0xF0 then
      if |b| >= 3 then
        if BadSecond3(b0, b[1]) then (REPLACEMENT, 1)
        else if !IsCont(b[2]) then (REPLACEMENT, 2)
        else
          var v3 := (b0 - 0xE0) * 4096 + (b[1] as int - 0x80) * 64 + (b[2] as int - 0x80);
          if 0xD800 <= v3 < 0xE000 then (REPLACEMENT, 3) else (v3 as char, 3)
      else if |b| == 2 && BadSecond3(b0, b[1]) then (REPLACEMENT, 1)
      else (REPLACEMENT, |b|)
    else if 0xF0 <= b0 < 0xF8 then
      if |b| >= 2 && BadSecond4(b0, b[1]) then (REPLACEMENT, 1)
      else if b0 > 0xF4 then (REPLACEMENT, 1)
      else if |b| >= 3 && !IsCont(b[2]) then (REPLACEMENT, 2)
      else if |b| >= 4 then
        if !IsCont(b[3]) then (REPLACEMENT, 3)
        else
          var v4 := (b0 - 0xF0) * 0x4_0000 + (b[1] as int - 0x80) * 4096 + (b[2] as int - 0x80) * 64 + (b[3] as int - 0x80);
          (v4 as char, 4)
      else (REPLACEMENT, |b|)
    else (REPLACEMENT, 1)
  }

  /** `new String(bytes)`. */
  function NewString(b: seq<byte>): (s: string)
    decreases |b|
  {
    if b == [] then [] else var d := DecodeOne(b); [d.0] + NewString(b[d.1..])
  }

  /** A decoded string never has more UTF-16 units than there were bytes. */
  lemma {:induction false} NewStringJavaLength(b: seq<byte>)
    ensures JavaLength(NewString(b)) <= |b|
    decreases |b|
  {
    if b != [] {
      var d := DecodeOne(b);
      NewStringJavaLength(b[d.1..]);
      var s := NewString(b);
      assert s == [d.0] + NewString(b[d.1..]);
      assert s[1..] == NewString(b[d.1..]);
    }
  }

  /** The digits of a three-byte scalar value put back together. */
  lemma {:induction false} Digits3(n: int)
    requires 0x800 <= n < 0x1_0000
    ensures n / 64 / 64 == n / 4096
    ensures (n / 4096) * 4096 + (n / 64 % 64) * 64 + n % 64 == n
  {
  }

  /** The digits of a four-byte scalar value put back together. */
  lemma {:induction false} Digits4(n: int)
    requires 0x1_0000 <= n < 0x11_0000
    ensures n / 4096 / 64 == n / 0x4_0000 && n / 64 / 64 == n / 4096
    ensures (n / 0x4_0000) * 0x4_0000 + (n / 4096 % 64) * 4096 + (n / 64 % 64) * 64 + n % 64 == n
  {
  }

  /** Decoding reads back the scalar value a UTF-8 encoding starts with. */
  lemma {:induction false} DecodeOneUtf8(c: char, rest: seq<byte>)
    ensures DecodeOne(Utf8(c) + rest) == (c, |Utf8(c)|)
  {
    var n := c as int;
    if n < 0x80 {
    } else if n < 0x800 {
      DecodeTwo(c, rest);
    } else if n < 0x1_0000 {
      DecodeThree(c, rest);
    } else {
      DecodeFour(c, rest);
    }
  }

  /** `DecodeOneUtf8` for a two-byte encoding. */
  lemma {:induction false} DecodeTwo(c: char, rest: seq<byte>)
    requires 0x80 <= c as int < 0x800
    ensures DecodeOne(Utf8(c) + rest) == (c, 2)
  {
    var n := c as int;
    var b := Utf8(c) + rest;
    assert b[0] == 0xC0 + n / 64 && b[1] == 0x80 + n % 64;
    assert 0xC2 <= b[0] < 0xE0 && IsCont(b[1]);
    assert (n / 64) * 64 + n % 64 == n;
  }

  /** `DecodeOneUtf8` for a three-byte encoding: never overlong, never a surrogate. */
  lemma {:induction false} DecodeThree(c: char, rest: seq<byte>)
    requires 0x800 <= c as int < 0x1_0000
    ensures DecodeOne(Utf8(c) + rest) == (c, 3)
  {
    var n := c as int;
    var b := Utf8(c) + rest;
    Digits3(n);
    var d0, d1, d2 := n / 4096, n / 64 % 64, n % 64;
    assert b[0] == 0xE0 + d0 && b[1] == 0x80 + d1 && b[2] == 0x80 + d2;
    assert d0 == 0 ==> d1 >= 32;
    assert !BadSecond3(b[0] as int, b[1]) && IsCont(b[2]);
    assert (b[0] as int - 0xE0) * 4096 + (b[1] as int - 0x80) * 64 + (b[2] as int - 0x80) == n;
  }

  /** `DecodeOneUtf8` for a four-byte encoding: never overlong, never past U+10FFFF. */
  lemma {:induction false} DecodeFour(c: char, rest: seq<byte>)
    requires 0x1_0000 <= c as int
    ensures DecodeOne(Utf8(c) + rest) == (c, 4)
  {
    var n := c as int;
    var b := Utf8(c) + rest;
    Digits4(n);
    var d0, d1, d2, d3 := n / 0x4_0000, n / 4096 % 64, n / 64 % 64, n % 64;
    assert b[0] == 0xF0 + d0 && b[1] == 0x80 + d1 && b[2] == 0x80 + d2 && b[3] == 0x80 + d3;
    assert d0 == 0 ==> d1 >= 16;
    assert d0 == 4 ==> d1 < 16;
    assert d0 <= 4;
    assert !BadSecond4(b[0] as int, b[1]) && IsCont(b[2]) && IsCont(b[3]);
    assert (b[0] as int - 0xF0) * 0x4_0000 + (b[1] as int - 0x80) * 4096 + (b[2] as int - 0x80) * 64 + (b[3] as int - 0x80) == n;
  }

  /** Decoding the bytes of a string gives the string back. */
  lemma {:induction false} NewStringOfGetBytes(s: string)
    ensures NewString(GetBytes(s)) == s
  {
    if s != [] {
      var e := Utf8(s[0]);
      var tail := GetBytes(s[1..]);
      DecodeOneUtf8(s[0], tail);
      assert GetBytes(s) == e + tail;
      assert (e + tail)[|e|..] == tail;
      NewStringOfGetBytes(s[1..]);
      assert s == [s[0]] + s[1..];
    }
  }

  /**
   * A string takes at least as many bytes as `length()` says, and exactly as
   * many iff it is ASCII.
   */
  lemma {:induction false} ByteLengthVsJavaLength(s: string)
    ensures |GetBytes(s)| >= JavaLength(s)
    ensures |GetBytes(s)| == JavaLength(s) <==> IsAscii(s)
  {
    if s != [] {
      ByteLengthVsJavaLength(s[1..]);
      if IsAscii(s) {
        assert IsAscii(s[1..]) by {
          forall i | 0 <= i < |s| - 1 ensures s[1..][i] as int < 0x80 {
            assert s[1..][i] == s[i + 1];
          }
        }
      } else if s[0] as int < 0x80 {
        assert !IsAscii(s[1..]) by {
          var j :| 0 <= j < |s| && s[j] as int >= 0x80;
          assert s[1..][j - 1] == s[j];
        }
      }
    }
  }

  lemma {:induction false} AsciiBytes(s: string)
    requires IsAscii(s)
    ensures |GetBytes(s)| == |s| == JavaLength(s)
    ensures forall i :: 0 <= i < |s| ==> GetBytes(s)[i] == s[i] as int
  {
    if s != [] {
      assert IsAscii(s[1..]) by {
        forall i | 0 <= i < |s| - 1 ensures s[1..][i] as int < 0x80 {
          assert s[1..][i] == s[i + 1];
        }
      }
      AsciiBytes(s[1..]);
      assert GetBytes(s) == [s[0] as int] + GetBytes(s[1..]);
    }
  }

  /** `string2Byte`: a 4-byte length (in UTF-16 units) followed by the UTF-8 bytes. */
  function String2Byte(s: string): (r: seq<byte>)
    requires IsInt32(JavaLength(s))
  {
    Int2Byte(JavaLength(s)) + GetBytes(s)
  }

  datatype ParseStringRes = ParseStringRes(str: string, next: int)

  /**
   * `parseString`: reads the length from the first 4 bytes (zero-padded
   * when shorter), then decodes that many bytes after them. Java's
   * `copyOfRange` faults with IllegalArgument when `4 + length` (an `int`
   * sum) is below 4, and otherwise with IndexOutOfBounds when `bytes` is
   * shorter than 4.
   */
  function ParseString(bytes: seq<byte>): (r: Result<ParseStringRes>)
    ensures var length := ParseInt(ReadAt(bytes, 0, 4));
      && (r.Ok? <==> |bytes| >= 4 && 0 <= length < TWO_31 - 4)
      && (r.Ok? ==> r.value.next == length + 4 && r.value.str == NewString(ReadAt(bytes, 4, length)))
      && (r.Err? ==> r.error == if !(0 <= length < TWO_31 - 4) then IllegalArgument else IndexOutOfBounds)
  {
    var length := ParseInt(ReadAt(bytes, 0, 4));
    var raw :- CopyOfRange(bytes, 4, Wrap32(4 + length));
    Ok(ParseStringRes(NewString(raw), Wrap32(length + 4)))
  }

  /** A length prefix `n` followed by at least `n` bytes is read as those `n` bytes. */
  lemma {:induction false} ParseStringFrame(n: int, body: seq<byte>)
    requires 0 <= n < TWO_31 - 4 && n <= |body|
    ensures ParseString(Int2Byte(n) + body) == Ok(ParseStringRes(NewString(body[..n]), n + 4))
  {
    var b := Int2Byte(n) + body;
    IntRoundTrip(n, body);
    IntRoundTrip(n, []);
    assert ReadAt(b, 0, 4) == Int2Byte(n) + [];
    assert ReadAt(b, 4, n) == body[..n];
  }

  /** An ASCII string is read back whole, with the cursor just past its bytes. */
  lemma {:induction false} ParseStringRoundTrip(s: string, rest: seq<byte>)
    requires IsAscii(s) && JavaLength(s) < TWO_31 - 4
    ensures ParseString(String2Byte(s) + rest) == Ok(ParseStringRes(s, |String2Byte(s)|))
  {
    AsciiBytes(s);
    var body := GetBytes(s) + rest;
    assert String2Byte(s) + rest == Int2Byte(|s|) + body;
    assert body[..|s|] == GetBytes(s);
    ParseStringFrame(|s|, body);
    NewStringOfGetBytes(s);
    IntRoundTrip(|s|, []);
  }

  /**
   * For a string that is not ASCII the length prefix counts fewer units than
   * there are bytes: `parseString` stops short of the end of the string's
   * bytes and reports a cursor that points inside them.
   */
  lemma {:induction false} ParseStringNonAscii(s: string, rest: seq<byte>)
    requires !IsAscii(s) && JavaLength(s) < TWO_31 - 4
    ensures ParseString(String2Byte(s) + rest).Ok?
    ensures ParseString(String2Byte(s) + rest).value.next < |String2Byte(s)|
  {
    ByteLengthVsJavaLength(s);
    var n := JavaLength(s);
    var body := GetBytes(s) + rest;
    assert String2Byte(s) + rest == Int2Byte(n) + body;
    ParseStringFrame(n, body);
    IntRoundTrip(n, []);
  }

  /**
   * The replacement rules on a malformed sequence: an encoded surrogate
   * (ED A0 80) is one U+FFFD for all three bytes, and a three-byte sequence
   * cut short by an ASCII byte (E2 82 41) is one U+FFFD for the two bytes
   * before it, then the ASCII character.
   */
  lemma {:induction false} NewStringMaximalSubparts()
    ensures NewString([0xED, 0xA0, 0x80]) == [REPLACEMENT]
    ensures NewString([0xE2, 0x82, 0x41]) == [REPLACEMENT, 'A']
  {
    var a: seq<byte> := [0xED, 0xA0, 0x80];
    assert DecodeOne(a) == (REPLACEMENT, 3) && a[3..] == [];
    var b: seq<byte> := [0xE2, 0x82, 0x41];
    assert DecodeOne(b) == (REPLACEMENT, 2) && b[2..] == [0x41];
    assert NewString(b[2..]) == ['A'] + NewString(b[2..][1..]);
  }

  /**
   * "你好" written by `string2Byte`: the prefix counts its 2 UTF-16 units,
   * so `parseString` reads only E4 BD, the start of 你 cut short, which
   * decodes to a single U+FFFD, and the cursor stops at byte 6, inside the
   * string's 10 bytes.
   */
  lemma {:induction false} ParseStringTruncated()
    ensures GetBytes("\U{4F60}\U{597D}") == [0xE4, 0xBD, 0xA0, 0xE5, 0xA5, 0xBD]
    ensures ParseString(String2Byte("\U{4F60}\U{597D}")) == Ok(ParseStringRes([REPLACEMENT], 6))
  {
    var s := "\U{4F60}\U{597D}";
    assert Utf8(s[0]) == [0xE4, 0xBD, 0xA0];
    assert Utf8(s[1]) == [0xE5, 0xA5, 0xBD];
    assert GetBytes(s[1..][1..]) == [];
    assert JavaLength(s[1..][1..]) == 0;
    var body := GetBytes(s);
    assert JavaLength(s) == 2;
    ParseStringFrame(2, body);
    var cut: seq<byte> := body[..2];
    assert cut == [0xE4, 0xBD];
    assert DecodeOne(cut) == (REPLACEMENT, 2) && cut[2..] == [];
    assert NewString(cut) == [REPLACEMENT] + NewString([]);
    assert String2Byte(s) == Int2Byte(2) + body;
    assert ParseString(Int2Byte(2) + body) == Ok(ParseStringRes(NewString(body[..2]), 6));
    assert NewString(body[..2]) == [REPLACEMENT];
  }

  // ---------------------------------------------------------------
  // The multiplicative hash

  const SEED: int := 13331

  /**
   * Adds each signed byte to the accumulator times 13331, wrapping to a
   * two's-complement range of `m` values after every step. The log checksum
   * uses 32 bits, `str2Uid` 64 bits.
   */
  function HashFold(acc: int, bs: seq<byte>, m: int): (r: int)
    requires m >= 2 && m % 2 == 0 && -(m / 2) <= acc < m / 2
    ensures -(m / 2) <= r < m / 2
  {
    if bs == [] then acc
    else WrapMod(HashFold(acc, bs[..|bs| - 1], m) * SEED + Signed8(bs[|bs| - 1]), m)
  }

  /** The same polynomial over unbounded integers. */
  ghost function HashPoly(acc: int, bs: seq<byte>): int
  {
    if bs == [] then acc else HashPoly(acc, bs[..|bs| - 1]) * SEED + Signed8(bs[|bs| - 1])
  }

  /** Wrapping at every step is the same as wrapping the exact polynomial once. */
  lemma {:induction false} HashFoldIsPoly(acc: int, bs: seq<byte>, m: int)
    requires m >= 2 && m % 2 == 0 && -(m / 2) <= acc < m / 2
    ensures HashFold(acc, bs, m) == WrapMod(HashPoly(acc, bs), m)
  {
    if bs == [] {
      WrapModId(acc, m);
    } else {
      var pre, s := bs[..|bs| - 1], Signed8(bs[|bs| - 1]);
      HashFoldIsPoly(acc, pre, m);
      var f, p := HashFold(acc, pre, m), HashPoly(acc, pre);
      WrapModCongr(p, m);
      MultipleScaled(p, f, SEED, m);
      assert (p * SEED + s) - (f * SEED + s) == p * SEED - f * SEED;
      WrapModCongruent(p * SEED + s, f * SEED + s, m);
    }
  }

  /** Folding a concatenation continues from the fold of its first part. */
  lemma {:induction false} HashFoldAppend(acc: int, a: seq<byte>, b: seq<byte>, m: int)
    requires m >= 2 && m % 2 == 0 && -(m / 2) <= acc < m / 2
    ensures HashFold(acc, a + b, m) == HashFold(HashFold(acc, a, m), b, m)
  {
    if b == [] {
      assert a + b == a;
    } else {
      var pre := b[..|b| - 1];
      assert (a + b)[..|a + b| - 1] == a + pre;
      assert (a + b)[|a + b| - 1] == b[|b| - 1];
      HashFoldAppend(acc, a, pre, m);
    }
  }

  /** The key `str2Uid` derives from a string. */
  function StrUid(key: string): (r: int)
    ensures IsInt64(r)
  {
    HashFold(0, GetBytes(key), TWO_64)
  }

  method Str2Uid(key: string) returns (res: int)
    ensures res == StrUid(key)
  {
    var bs := GetBytes(key);
    res := 0;
    var i := 0;
    while i < |bs|
      invariant 0 <= i <= |bs|
      invariant res == HashFold(0, bs[..i], TWO_64)
    {
      assert bs[..i + 1][..i] == bs[..i];
      res := Wrap64(res * SEED + Signed8(bs[i]));
      i := i + 1;
    }
    assert bs[..|bs|] == bs;
  }

  lemma {:induction false} StrUidEmpty()
    ensures StrUid("") == 0
  {
  }
}
