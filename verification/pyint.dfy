/** Python's `int(text, base)` for bases 10 and 16, and its inverse for
    non-negative numbers in base 16 (`format(n, "x")`).

    The accepted grammar is that of Python's integer literals as `int()` reads
    them: surrounding white space, an optional sign, for base 16 an optional
    `0x`/`0X` prefix, then digits in which single underscores may separate
    digits (after the prefix, one underscore may also come first). Only ASCII
    digits are modelled. */
module PyInt {
  import opened Wrappers
  import Seqs

  /** The value of an ASCII digit or letter digit, if it is one. */
  function DigitValue(c: char): Option<nat> {
    if '0' <= c <= '9' then Some(c as int - '0' as int)
    else if 'a' <= c <= 'f' then Some(c as int - 'a' as int + 10)
    else if 'A' <= c <= 'F' then Some(c as int - 'A' as int + 10)
    else None
  }

  predicate IsDigit(c: char, base: nat) {
    DigitValue(c).Some? && DigitValue(c).value < base
  }

  /** Digits of `base` with single underscores between digits: the first and
      last characters are digits and no two underscores are adjacent. */
  predicate DigitRun(s: string, base: nat) {
    && |s| > 0
    && IsDigit(s[0], base) && IsDigit(s[|s| - 1], base)
    && (forall i :: 0 <= i < |s| ==> IsDigit(s[i], base) || s[i] == '_')
    && (forall i, j :: 0 <= i < |s| && 0 <= j < |s| && j == i + 1 && s[i] == '_' ==> s[j] != '_')
  }

  /** The number the digits of `s` spell in `base`, underscores skipped. */
  function RunValue(s: string, base: nat): nat {
    if |s| == 0 then 0
    else
      var d := DigitValue(s[|s| - 1]);
      if d.None? then RunValue(s[..|s| - 1], base)
      else RunValue(s[..|s| - 1], base) * base + d.value
  }

  predicate HasHexPrefix(u: string) {
    |u| >= 2 && u[0] == '0' && (u[1] == 'x' || u[1] == 'X')
  }

  /** `int(text, base)`; `None` stands for the `ValueError` it raises. */
  function ParseInt(text: string, base: nat): Option<int>
    requires base == 10 || base == 16
  {
    ParseStripped(Seqs.Strip(text), base)
  }

  /** Surrounding white space never changes what `int()` reads. */
  lemma ParseIntIgnoresPadding(text: string, base: nat)
    requires base == 10 || base == 16
    ensures ParseInt(Seqs.Strip(text), base) == ParseInt(text, base)
  {
    Seqs.StripIdempotent(text);
  }

  /** `int()` after the surrounding white space is removed. */
  function ParseStripped(t: string, base: nat): (r: Option<int>)
    requires base == 10 || base == 16
    ensures r.Some? && r.value < 0 ==> |t| > 0 && t[0] == '-'
  {
    var neg := |t| > 0 && t[0] == '-';
    var digits := Digits(Unsigned(t), base);
    if !DigitRun(digits, base) then None
    else
      var v: int := RunValue(digits, base);
      Some(if neg then -v else v)
  }

  /** The text after an optional sign. */
  function Unsigned(t: string): string {
    if |t| > 0 && (t[0] == '-' || t[0] == '+') then t[1..] else t
  }

  /** The digits after an optional base-16 prefix and the one underscore
      that may follow it. */
  function Digits(u: string, base: nat): string {
    if base == 16 && HasHexPrefix(u) then
      var b := u[2..];
      if |b| > 0 && b[0] == '_' then b[1..] else b
    else u
  }

  function HexChar(d: nat): (c: char)
    requires d < 16
    ensures DigitValue(c) == Some(d)
  {
    if d < 10 then ('0' as int + d) as char else ('a' as int + d - 10) as char
  }

  /** `format(n, "x")`: lower-case hexadecimal without prefix. */
  function ToHex(n: nat): (s: string)
    ensures |s| > 0
    ensures forall i :: 0 <= i < |s| ==> IsDigit(s[i], 16)
  {
    if n < 16 then [HexChar(n)] else ToHex(n / 16) + [HexChar(n % 16)]
  }

  lemma {:induction false} RunValueToHex(n: nat)
    ensures RunValue(ToHex(n), 16) == n
    decreases n
  {
    var s := ToHex(n);
    if n < 16 {
      assert s[..0] == [];
    } else {
      RunValueToHex(n / 16);
      assert s[..|s| - 1] == ToHex(n / 16);
    }
  }

  lemma DigitNotSpace(c: char)
    requires IsDigit(c, 16)
    ensures !Seqs.IsSpace(c)
  {
  }

  /** Text made of digits only (no sign, no `0x`, no white space) is read as
      the number it spells. */
  lemma ParseIntDigits(s: string)
    requires |s| > 0
    requires forall i :: 0 <= i < |s| ==> IsDigit(s[i], 16)
    ensures ParseInt(s, 16) == Some(RunValue(s, 16))
  {
    DigitNotSpace(s[0]);
    DigitNotSpace(s[|s| - 1]);
    ParseIntUnpadded(s, 16);
    assert |s| > 1 ==> IsDigit(s[1], 16);
    AllDigitsRun(s, 16);
    ParseStrippedPlain(s, 16);
  }

  /** Digits alone, with no underscore at all, form a run. */
  lemma AllDigitsRun(s: string, base: nat)
    requires |s| > 0
    requires forall i :: 0 <= i < |s| ==> IsDigit(s[i], base)
    ensures DigitRun(s, base)
  {
    forall i | 0 <= i < |s| ensures s[i] != '_' {
      assert IsDigit(s[i], base);
    }
  }

  /** Text without surrounding white space is parsed as it stands. */
  lemma ParseIntUnpadded(s: string, base: nat)
    requires base == 10 || base == 16
    requires |s| > 0 ==> !Seqs.IsSpace(s[0]) && !Seqs.IsSpace(s[|s| - 1])
    ensures ParseInt(s, base) == ParseStripped(s, base)
  {
    Seqs.StripNoSpace(s);
  }

  /** Digits without sign or prefix are read as the number they spell. */
  lemma ParseStrippedPlain(s: string, base: nat)
    requires base == 10 || base == 16
    requires DigitRun(s, base) && (|s| > 1 ==> IsDigit(s[1], base))
    ensures ParseStripped(s, base) == Some(RunValue(s, base))
  {
    assert Digits(Unsigned(s), base) == s;
  }

  /** Reading back what `ToHex` writes gives the number: `int(format(n, "x"), 16) == n`. */
  lemma ParseIntToHex(n: nat)
    ensures ParseInt(ToHex(n), 16) == Some(n)
  {
    ParseIntDigits(ToHex(n));
    RunValueToHex(n);
  }

  /** A minus sign in front of a digit run is read as the negated number. */
  lemma ParseIntNegativeDigits(u: string)
    requires DigitRun(u, 16) && (|u| > 1 ==> IsDigit(u[1], 16))
    ensures ParseInt("-" + u, 16) == Some(-(RunValue(u, 16) as int))
  {
    assert ParseStripped("-" + u, 16) == Some(-(RunValue(u, 16) as int)) by {
      ParseStrippedNegative(u, 16);
    }
    assert ParseInt("-" + u, 16) == ParseStripped("-" + u, 16) by {
      MinusUnpadded(u);
    }
  }

  lemma MinusUnpadded(u: string)
    requires |u| > 0 && IsDigit(u[|u| - 1], 16)
    ensures ParseInt("-" + u, 16) == ParseStripped("-" + u, 16)
  {
    var s := "-" + u;
    assert s[|s| - 1] == u[|u| - 1];
    DigitNotSpace(u[|u| - 1]);
    ParseIntUnpadded(s, 16);
  }

  /** A minus sign in front of plain digits negates their value. */
  lemma ParseStrippedNegative(u: string, base: nat)
    requires base == 10 || base == 16
    requires DigitRun(u, base) && (|u| > 1 ==> IsDigit(u[1], base))
    ensures ParseStripped("-" + u, base) == Some(-(RunValue(u, base) as int))
  {
    var t := "-" + u;
    UnsignedMinus(u);
    DigitsPlain(u, base);
    ParseStrippedSigned(t, base, u);
  }

  lemma UnsignedMinus(u: string)
    ensures Unsigned("-" + u) == u && ("-" + u)[0] == '-'
  {
    assert ("-" + u)[1..] == u;
  }

  /** A run that does not begin with `0x` is its own digits. */
  lemma DigitsPlain(u: string, base: nat)
    requires DigitRun(u, base) && (|u| > 1 ==> IsDigit(u[1], base))
    ensures Digits(u, base) == u
  {
    assert !HasHexPrefix(u);
  }

  lemma ParseStrippedSigned(t: string, base: nat, u: string)
    requires base == 10 || base == 16
    requires |t| > 0 && t[0] == '-' && Digits(Unsigned(t), base) == u && DigitRun(u, base)
    ensures ParseStripped(t, base) == Some(-(RunValue(u, base) as int))
  {
  }

  /** `int("-6", 16)` is -6: a minus sign is accepted in front of hex digits. */
  lemma ParseIntMinusSix()
    ensures ParseInt("-6", 16) == Some(-6)
  {
    assert RunValue("6", 16) == 6 by {
      assert "6"[..0] == [];
    }
    assert DigitRun("6", 16) by {
      AllDigitsRun("6", 16);
    }
    assert "-" + "6" == "-6";
    ParseIntNegativeDigits("6");
  }
}
