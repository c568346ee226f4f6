/**
 * The launcher's memory option: a number followed by a two-letter unit.
 */
module Launcher {
  import opened Wrappers
  import opened Bytes
  import opened Decimal
  import opened Codec

  const KB: int := 0x400
  const MB: int := 0x10_0000
  const GB: int := 0x4000_0000
  /** 64 MiB. */
  const DEFAULT_MEM: int := 64 * MB

  /**
   * `parseMem`: no text or empty text gives the default; text shorter than
   * two UTF-16 units is refused; otherwise the text less its last two
   * units is parsed as a `long` before the unit is looked at, and the
   * product with the unit wraps like Java's `long`. When the last
   * character lies above U+FFFF its two surrogates are the unit, which is
   * never a known one; when the one before it does, the number part ends
   * in a lone high surrogate, which is not a digit. A panic ends the
   * process; here it is the error.
   */
  function ParseMem(memStr: Option<string>): (r: Result<int>)
    ensures r.Ok? ==> IsInt64(r.value)
    ensures r.Ok? && memStr.Some? && memStr.value != "" ==>
      var s := memStr.value; |s| >= 2 && s[|s| - 2..] in {"KB", "MB", "GB"}
    ensures r.Err? ==> r.error == InvalidMem || r.error == NumberFormat
  {
    if memStr.None? || memStr.value == "" then Ok(DEFAULT_MEM)
    else
      var s := memStr.value;
      if JavaLength(s) < 2 then Err(InvalidMem)
      else if s[|s| - 1] as int >= 0x1_0000 then
        var memNum :- ParseLongText(s[..|s| - 1]);
        Err(InvalidMem)
      else
        JavaLengthLast(s);
        JavaLengthLast([s[0]]);
        if s[|s| - 2] as int >= 0x1_0000 then Err(NumberFormat)
        else
          var unit := s[|s| - 2..];
          var memNum :- ParseLongText(s[..|s| - 2]);
          if unit == "KB" then Ok(Wrap64(memNum * KB))
          else if unit == "MB" then Ok(Wrap64(memNum * MB))
          else if unit == "GB" then Ok(Wrap64(memNum * GB))
          else Err(InvalidMem)
  }

  /** The unit's multiplier, for the three units the launcher knows. */
  function UnitSize(unit: string): int
    requires unit in {"KB", "MB", "GB"}
  {
    if unit == "KB" then KB else if unit == "MB" then MB else GB
  }

  /** Without the option, or with it empty, the cache gets 64 MiB. */
  lemma {:induction false} ParseMemDefault(memStr: Option<string>)
    requires memStr.None? || memStr == Some("")
    ensures ParseMem(memStr) == Ok(67108864)
  {
  }

  /**
   * A number written out by `String.valueOf` and followed by a known unit is
   * read as that many units; the product is exact while it stays within the
   * `long` range.
   */
  lemma {:induction false} ParseMemUnits(n: int, unit: string)
    requires IsInt64(n) && unit in {"KB", "MB", "GB"}
    ensures ParseMem(Some(ShowInt(n) + unit)) == Ok(Wrap64(n * UnitSize(unit)))
    ensures IsInt64(n * UnitSize(unit)) ==> ParseMem(Some(ShowInt(n) + unit)) == Ok(n * UnitSize(unit))
  {
    var s := ShowInt(n) + unit;
    assert s[..|s| - 2] == ShowInt(n);
    assert s[|s| - 2..] == unit;
    assert s[|s| - 1] == unit[1] && s[|s| - 2] == unit[0];
    JavaLengthLast(s);
    LongTextRoundTrip(n);
    if IsInt64(n * UnitSize(unit)) {
      WrapModId(n * UnitSize(unit), TWO_64);
    }
  }

  /** The number may be written in digits of another script: fullwidth "64MB" is 64 MiB. */
  lemma {:induction false} ParseMemFullwidth()
    ensures ParseMem(Some("\U{FF16}\U{FF14}MB")) == Ok(64 * MB)
  {
    var s := "\U{FF16}\U{FF14}MB";
    assert s[..|s| - 2] == "\U{FF16}\U{FF14}";
    assert s[|s| - 2..] == "MB";
    JavaLengthLast(s);
    FullwidthDigits();
    WrapModId(64 * MB, TWO_64);
  }

  /**
   * One character alone: refused with InvalidMem when it is one UTF-16
   * unit; a character above U+FFFF is two units, so it is taken as the
   * unit after an empty number, which fails with NumberFormat.
   */
  lemma {:induction false} ParseMemTooShort(c: char)
    ensures ParseMem(Some([c])) == if c as int < 0x1_0000 then Err(InvalidMem) else Err(NumberFormat)
  {
    JavaLengthLast([c]);
    assert [c][..0] == [];
  }

  /**
   * Text of two or more characters whose last two are single UTF-16 units
   * fails with NumberFormat when the part before the unit is not a `long`,
   * whatever the unit; with a number there, any unit other than KB, MB and
   * GB fails with InvalidMem. When the last character is above U+FFFF the
   * unit is its surrogate pair: the rest is parsed and the outcome is an
   * error in any case. When only the one before it is, the number part ends
   * in half of a surrogate pair and fails with NumberFormat.
   */
  lemma {:induction false} ParseMemErrors(s: string)
    requires |s| >= 2
    ensures s[|s| - 1] as int < 0x1_0000 && s[|s| - 2] as int < 0x1_0000 ==>
      && (ParseLongText(s[..|s| - 2]).Err? ==> ParseMem(Some(s)) == Err(NumberFormat))
      && (ParseLongText(s[..|s| - 2]).Ok? && s[|s| - 2..] !in {"KB", "MB", "GB"} ==>
            ParseMem(Some(s)) == Err(InvalidMem))
    ensures s[|s| - 1] as int >= 0x1_0000 ==>
      ParseMem(Some(s)) == if ParseLongText(s[..|s| - 1]).Err? then Err(NumberFormat) else Err(InvalidMem)
    ensures s[|s| - 1] as int < 0x1_0000 <= s[|s| - 2] as int ==> ParseMem(Some(s)) == Err(NumberFormat)
  {
    JavaLengthLast(s);
    JavaLengthLast(s[..|s| - 1]);
    assert s[..|s| - 1][..|s| - 2] == s[..|s| - 2];
  }
}
