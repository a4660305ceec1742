/**
 * String helpers used across the scene model: the case-insensitive comparison
 * that QString::compare(..., Qt::CaseInsensitive) performs, the order that
 * stands for QString's operator<, and the decimal conversions QString::toUInt
 * and QString::number perform.  Case folding covers the ASCII letters only,
 * where Qt folds all of Unicode.  The order is lexicographic on Unicode scalar
 * values; QString compares UTF-16 code units, which orders the same strings
 * alike unless a character outside the Basic Multilingual Plane meets one from
 * U+E000 to U+FFFF.
 */
module Text {
  import opened Wrappers

  function FoldChar(c: char): char
  {
    if 'A' <= c <= 'Z' then (c as int + 32) as char else c
  }

  /** The string with every ASCII upper-case letter replaced by its lower-case form. */
  function Fold(s: string): (r: string)
    ensures |r| == |s|
    ensures forall i :: 0 <= i < |s| ==> r[i] == FoldChar(s[i])
  {
    if s == [] then [] else [FoldChar(s[0])] + Fold(s[1..])
  }

  /** Case-insensitive equality: compare(a, b, Qt::CaseInsensitive) == 0. */
  predicate IEquals(a: string, b: string)
  {
    Fold(a) == Fold(b)
  }

  /** Lexicographic order on character codes (QString's operator<). */
  predicate Less(a: string, b: string)
    decreases |a|
  {
    if |a| == 0 then |b| > 0
    else if |b| == 0 then false
    else if a[0] != b[0] then a[0] < b[0]
    else Less(a[1..], b[1..])
  }

  /** Case-insensitive order: compare(a, b, Qt::CaseInsensitive) < 0. */
  predicate ILess(a: string, b: string)
  {
    Less(Fold(a), Fold(b))
  }

  lemma {:induction false} LessIrreflexive(a: string)
    ensures !Less(a, a)
  {
    if |a| > 0 {
      LessIrreflexive(a[1..]);
    }
  }

  lemma {:induction false} LessTransitive(a: string, b: string, c: string)
    requires Less(a, b) && Less(b, c)
    ensures Less(a, c)
  {
    if |a| > 0 && |b| > 0 && |c| > 0 && a[0] == b[0] && b[0] == c[0] {
      LessTransitive(a[1..], b[1..], c[1..]);
    }
  }

  /** Less is total: two different strings are ordered one way or the other, never both. */
  lemma {:induction false} LessTotal(a: string, b: string)
    ensures a == b || Less(a, b) || Less(b, a)
    ensures !(Less(a, b) && Less(b, a))
  {
    if |a| > 0 && |b| > 0 && a[0] == b[0] {
      LessTotal(a[1..], b[1..]);
      if a[1..] == b[1..] {
        assert a == [a[0]] + a[1..] && b == [b[0]] + b[1..];
      }
    }
  }

  /** Exactly one of ILess(a, b), IEquals(a, b) and ILess(b, a) holds. */
  lemma ITrichotomy(a: string, b: string)
    ensures ILess(a, b) || IEquals(a, b) || ILess(b, a)
    ensures IEquals(a, b) ==> !ILess(a, b) && !ILess(b, a)
    ensures !(ILess(a, b) && ILess(b, a))
  {
    LessTotal(Fold(a), Fold(b));
    LessIrreflexive(Fold(a));
  }

  lemma ILessTransitive(a: string, b: string, c: string)
    requires ILess(a, b) && ILess(b, c)
    ensures ILess(a, c)
  {
    LessTransitive(Fold(a), Fold(b), Fold(c));
  }

  /** Case-insensitive equality is an equivalence compatible with ILess. */
  lemma IEqualsCompatible(a: string, b: string, c: string)
    requires IEquals(a, b)
    ensures ILess(a, c) <==> ILess(b, c)
    ensures ILess(c, a) <==> ILess(c, b)
    ensures IEquals(a, c) <==> IEquals(b, c)
  {
  }

  predicate IsDigit(c: char)
  {
    '0' <= c <= '9'
  }

  predicate AllDigits(s: string)
  {
    forall i :: 0 <= i < |s| ==> IsDigit(s[i])
  }

  function DigitsValue(s: string): nat
    requires AllDigits(s)
  {
    if s == [] then 0 else DigitsValue(s[..|s| - 1]) * 10 + (s[|s| - 1] as int - '0' as int)
  }

  const UINT_MAX: nat := 0xFFFF_FFFF

  /** QString::toUInt with base 10: None when the text is not a number that fits 32 bits. */
  function ParseUInt(s: string): Option<nat>
  {
    if s != [] && AllDigits(s) && DigitsValue(s) <= UINT_MAX then Some(DigitsValue(s)) else None
  }

  function DigitChar(d: nat): char
    requires d < 10
  {
    ('0' as int + d) as char
  }

  /** QString::number for an unsigned value: its decimal digits, most significant first. */
  function Decimal(n: nat): (r: string)
    decreases n
  {
    if n < 10 then [DigitChar(n)] else Decimal(n / 10) + [DigitChar(n % 10)]
  }

  lemma {:induction false} DecimalDigits(n: nat)
    ensures Decimal(n) != [] && AllDigits(Decimal(n)) && DigitsValue(Decimal(n)) == n
    decreases n
  {
    if n >= 10 {
      DecimalDigits(n / 10);
      var s := Decimal(n);
      assert s[..|s| - 1] == Decimal(n / 10);
    }
  }

  /** Printing a 32-bit value with QString::number and reading it back with toUInt gives the value. */
  lemma ParseDecimal(n: nat)
    requires n <= UINT_MAX
    ensures ParseUInt(Decimal(n)) == Some(n)
  {
    DecimalDigits(n);
  }
}
