/**
 * Decimal text as Java's `Long.parseLong`, `Integer.parseInt` and
 * `String.valueOf` on integers read and write it. The parsers take every
 * Unicode decimal digit; `String.valueOf` writes ASCII digits.
 */
module Decimal {
  import opened Wrappers
  import opened Bytes

  /**
   * The first code point of each run of ten decimal digits (general
   * category Nd) in the Basic Multilingual Plane, ascending: ASCII, then
   * Arabic-Indic, Extended Arabic-Indic, NKo, the Indic scripts, Thai, Lao,
   * Tibetan, Myanmar, Khmer, Mongolian and the rest, up to the fullwidth
   * digits. Every Unicode version from 7.0 on has exactly these.
   */
  const DIGIT_ZEROS: seq<int> := [
    0x0030, 0x0660, 0x06F0, 0x07C0, 0x0966, 0x09E6, 0x0A66, 0x0AE6, 0x0B66, 0x0BE6,
    0x0C66, 0x0CE6, 0x0D66, 0x0DE6, 0x0E50, 0x0ED0, 0x0F20, 0x1040, 0x1090, 0x17E0,
    0x1810, 0x1946, 0x19D0, 0x1A80, 0x1A90, 0x1B50, 0x1BB0, 0x1C40, 0x1C50, 0xA620,
    0xA8D0, 0xA900, 0xA9D0, 0xA9F0, 0xAA50, 0xABF0, 0xFF10]

  /** `c` lies in the run of ten digits that starts at `zero`. */
  predicate InRun(c: int, zero: int)
  {
    zero <= c < zero + 10
  }

  /** Runs of ten starting at the values of `zs` follow one another without overlapping. */
  predicate Apart(zs: seq<int>)
  {
    forall i, j :: 0 <= i < j < |zs| ==> zs[i] + 10 <= zs[j]
  }

  /** Runs that each end before the next one starts are all apart. */
  lemma {:induction false} AdjacentApart(zs: seq<int>)
    requires forall k :: 0 <= k < |zs| - 1 ==> zs[k] + 10 <= zs[k + 1]
    ensures Apart(zs)
  {
    forall i, j | 0 <= i < j < |zs|
      ensures zs[i] + 10 <= zs[j]
    {
      var m := i + 1;
      while m < j
        invariant i < m <= j && zs[i] + 10 <= zs[m]
      {
        m := m + 1;
      }
    }
  }

  /** The table's runs follow one another without overlapping. */
  lemma {:induction false} ZerosApart()
    ensures Apart(DIGIT_ZEROS)
  {
    var z := DIGIT_ZEROS;
    assert forall k :: 0 <= k < |z| - 1 ==> z[k] + 10 <= z[k + 1];
    AdjacentApart(z);
  }

  /** The first run of `zs`, from the `k`-th on, holding `c`: `c`'s offset in it, or -1. */
  function DigitFrom(c: int, zs: seq<int>, k: nat): (r: int)
    requires k <= |zs|
    ensures -1 <= r < 10
    decreases |zs| - k
  {
    if k == |zs| then -1
    else if InRun(c, zs[k]) then c - zs[k]
    else DigitFrom(c, zs, k + 1)
  }

  /** The offset `DigitFrom` finds is taken in a run holding `c`, and -1 means no run from the `k`-th on holds it. */
  lemma {:induction false} DigitFromRun(c: int, zs: seq<int>, k: nat)
    requires k <= |zs|
    ensures var r := DigitFrom(c, zs, k);
      && (r >= 0 ==> exists j :: k <= j < |zs| && InRun(c, zs[j]) && r == c - zs[j])
      && (r < 0 ==> forall j :: k <= j < |zs| ==> !InRun(c, zs[j]))
    decreases |zs| - k
  {
    if k < |zs| && !InRun(c, zs[k]) {
      DigitFromRun(c, zs, k + 1);
    }
  }

  /** With runs apart, the offset found is `c`'s offset in any run that holds it. */
  lemma {:induction false} DigitFromUnique(c: int, zs: seq<int>)
    requires Apart(zs)
    ensures forall k :: 0 <= k < |zs| && InRun(c, zs[k]) ==> DigitFrom(c, zs, 0) == c - zs[k]
    ensures DigitFrom(c, zs, 0) < 0 <==> forall k :: 0 <= k < |zs| ==> !InRun(c, zs[k])
  {
    var r := DigitFrom(c, zs, 0);
    DigitFromRun(c, zs, 0);
    forall k | 0 <= k < |zs| && InRun(c, zs[k])
      ensures r == c - zs[k]
    {
      var j :| 0 <= j < |zs| && InRun(c, zs[j]) && r == c - zs[j];
    }
  }

  /**
   * `Character.digit(c, 10)` on one UTF-16 unit: the value of a decimal
   * digit, -1 for anything else. A character above U+FFFF reaches the
   * parsers as two surrogate units, neither of them a digit, so it is not
   * a digit here either.
   */
  function DigitValue(c: char): (r: int)
    ensures -1 <= r < 10
    ensures '0' <= c <= '9' ==> r == c as int - '0' as int
  {
    DigitFrom(c as int, DIGIT_ZEROS, 0)
  }

  /**
   * A character in one of the table's runs has its offset in that run as
   * its value; a character in none of them is not a digit.
   */
  lemma {:induction false} DigitValueRuns(c: char)
    ensures forall k :: 0 <= k < |DIGIT_ZEROS| && InRun(c as int, DIGIT_ZEROS[k]) ==> DigitValue(c) == c as int - DIGIT_ZEROS[k]
    ensures DigitValue(c) < 0 <==> forall k :: 0 <= k < |DIGIT_ZEROS| ==> !InRun(c as int, DIGIT_ZEROS[k])
  {
    ZerosApart();
    DigitFromUnique(c as int, DIGIT_ZEROS);
  }

  predicate IsDigit(c: char)
  {
    DigitValue(c) >= 0
  }

  predicate IsAsciiDigit(c: char)
  {
    '0' <= c <= '9'
  }

  predicate AllDigits(s: string)
  {
    forall i :: 0 <= i < |s| ==> IsDigit(s[i])
  }

  /** The number a run of digits spells, most significant digit first. */
  function DigitsValue(s: string): nat
    requires AllDigits(s)
  {
    if s == [] then 0 else DigitsValue(s[..|s| - 1]) * 10 + DigitValue(s[|s| - 1])
  }

  function DigitChar(d: nat): char
    requires d < 10
  {
    ('0' as int + d) as char
  }

  /** The digits of `n` without leading zeros; "0" for zero. */
  function NatDigits(n: nat): string
    decreases n
  {
    (if n < 10 then "" else NatDigits(n / 10)) + [DigitChar(n % 10)]
  }

  /** `String.valueOf` on an `int` or a `long`: a minus sign for negatives, then the digits. */
  function ShowInt(v: int): string
  {
    if v < 0 then "-" + NatDigits(-v) else NatDigits(v)
  }

  /** An optional sign followed by at least one digit, and the number it spells. */
  function SignedValue(s: string): (r: Option<int>)
  {
    if |s| == 0 then None
    else if s[0] == '-' || s[0] == '+' then
      if |s| == 1 || !AllDigits(s[1..]) then None
      else
        var d: int := DigitsValue(s[1..]);
        Some(if s[0] == '-' then -d else d)
    else if AllDigits(s) then Some(DigitsValue(s) as int)
    else None
  }

  /** `Long.parseLong`: NumberFormatException unless the text is a signed decimal within the `long` range. */
  function ParseLongText(s: string): (r: Result<int>)
    ensures r.Ok? ==> IsInt64(r.value)
    ensures r.Err? ==> r.error == NumberFormat
  {
    match SignedValue(s)
    case Some(v) => if IsInt64(v) then Ok(v) else Err(NumberFormat)
    case None => Err(NumberFormat)
  }

  /** `Integer.parseInt`: the same text, within the `int` range. */
  function ParseIntText(s: string): (r: Result<int>)
    ensures r.Ok? ==> IsInt32(r.value)
    ensures r.Err? ==> r.error == NumberFormat
  {
    match SignedValue(s)
    case Some(v) => if IsInt32(v) then Ok(v) else Err(NumberFormat)
    case None => Err(NumberFormat)
  }

  lemma {:induction false} NatDigitsValue(n: nat)
    ensures AllDigits(NatDigits(n)) && DigitsValue(NatDigits(n)) == n
    ensures forall i :: 0 <= i < |NatDigits(n)| ==> IsAsciiDigit(NatDigits(n)[i])
  {
    var s := NatDigits(n);
    var front := if n < 10 then "" else NatDigits(n / 10);
    var last := DigitChar(n % 10);
    if n >= 10 {
      NatDigitsValue(n / 10);
    }
    assert IsAsciiDigit(last) && DigitValue(last) == n % 10;
    assert s == front + [last];
    assert s[..|s| - 1] == front;
    forall i | 0 <= i < |s|
      ensures IsAsciiDigit(s[i]) && IsDigit(s[i])
    {
      if i < |front| {
        assert s[i] == front[i];
      }
    }
  }

  /** What `String.valueOf` writes, the parser reads back. */
  lemma {:induction false} ShowIntParses(v: int)
    ensures SignedValue(ShowInt(v)) == Some(v)
  {
    if v < 0 {
      NatDigitsValue(-v);
      assert ShowInt(v)[1..] == NatDigits(-v);
    } else {
      NatDigitsValue(v);
      var s := NatDigits(v);
      assert s[0] != '-' && s[0] != '+' by {
        assert IsAsciiDigit(s[0]);
      }
    }
  }

  lemma {:induction false} LongTextRoundTrip(v: int)
    requires IsInt64(v)
    ensures ParseLongText(ShowInt(v)) == Ok(v)
  {
    ShowIntParses(v);
  }

  lemma {:induction false} IntTextRoundTrip(v: int)
    requires IsInt32(v)
    ensures ParseIntText(ShowInt(v)) == Ok(v)
  {
    ShowIntParses(v);
  }

  /**
   * Empty text, a lone sign, and anything with a character that is not a
   * decimal digit of any script after the sign are refused.
   */
  lemma {:induction false} LongTextRejects(s: string, i: nat)
    requires (|s| == 0 || s == "-" || s == "+")
      || (0 < i < |s| && !IsDigit(s[i])) || (|s| > 0 && i == 0 && !IsDigit(s[0]) && s[0] != '-' && s[0] != '+')
    ensures ParseLongText(s) == Err(NumberFormat) && ParseIntText(s) == Err(NumberFormat)
  {
    if 0 < i < |s| && !IsDigit(s[i]) {
      assert s[1..][i - 1] == s[i];
      assert !AllDigits(s[1..]);
      assert !AllDigits(s);
    } else if |s| > 0 && i == 0 && !IsDigit(s[0]) && s[0] != '-' && s[0] != '+' {
      assert !AllDigits(s);
    }
  }

  /** A character in the run of the table's `k`-th zero has its offset in the run as its value. */
  lemma {:induction false} DigitOfRun(c: char, k: nat)
    requires k < |DIGIT_ZEROS| && InRun(c as int, DIGIT_ZEROS[k])
    ensures DigitValue(c) == c as int - DIGIT_ZEROS[k]
  {
    DigitValueRuns(c);
  }

  /** Two digits spell the number their values make, the first one the tens. */
  lemma {:induction false} TwoDigits(s: string)
    requires |s| == 2 && IsDigit(s[0]) && IsDigit(s[1])
    ensures AllDigits(s) && DigitsValue(s) == DigitValue(s[0]) * 10 + DigitValue(s[1])
  {
    assert s[..1][..0] == [] && s[..1] == [s[0]];
    assert DigitsValue(s[..1]) == DigitValue(s[0]);
  }

  /** Digits of other scripts count as their values: fullwidth "64" is read as 64. */
  lemma {:induction false} FullwidthDigits()
    ensures ParseLongText("\U{FF16}\U{FF14}") == Ok(64)
  {
    DigitOfRun('\U{FF16}', 36);
    DigitOfRun('\U{FF14}', 36);
    TwoDigits("\U{FF16}\U{FF14}");
  }

  /** After a sign as well: fullwidth "-12" is read as -12 by `Integer.parseInt`. */
  lemma {:induction false} FullwidthSigned()
    ensures ParseIntText("-\U{FF11}\U{FF12}") == Ok(-12)
  {
    DigitOfRun('\U{FF11}', 36);
    DigitOfRun('\U{FF12}', 36);
    var d := "-\U{FF11}\U{FF12}";
    assert d[1..] == "\U{FF11}\U{FF12}";
    TwoDigits(d[1..]);
  }

  function Pow10(k: nat): nat
  {
    if k == 0 then 1 else 10 * Pow10(k - 1)
  }

  /** A number below 10^k has at most k digits. */
  lemma {:induction false} NatDigitsLength(n: nat, k: nat)
    requires 1 <= k && n < Pow10(k)
    ensures |NatDigits(n)| <= k
  {
    if n >= 10 {
      assert k >= 2;
      assert n / 10 < Pow10(k - 1);
      NatDigitsLength(n / 10, k - 1);
    }
  }

  /** A `long` is written with at most 20 characters, each an ASCII digit or the leading minus sign. */
  lemma {:induction false} ShowIntShape(v: int)
    requires IsInt64(v)
    ensures |ShowInt(v)| <= 20
    ensures forall i :: 0 <= i < |ShowInt(v)| ==> IsAsciiDigit(ShowInt(v)[i]) || ShowInt(v)[i] == '-'
  {
    assert Pow10(19) == 10_000_000_000_000_000_000 by {
      assert Pow10(5) == 100_000;
      assert Pow10(10) == 10_000_000_000;
      assert Pow10(15) == 1_000_000_000_000_000;
    }
    var n := if v < 0 then -v else v;
    NatDigitsLength(n, 19);
    NatDigitsValue(n);
    if v < 0 {
      forall i | 1 <= i < |ShowInt(v)|
        ensures IsAsciiDigit(ShowInt(v)[i])
      {
        assert ShowInt(v)[i] == NatDigits(n)[i - 1];
      }
    }
  }
}
