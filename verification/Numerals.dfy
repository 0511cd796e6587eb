/**
  Decimal and hexadecimal numerals: Rust's `{}` and `{:x}` formatting of an unsigned integer, and
  reading a run of digits back.
 */
module Numerals {

  type byte = n: nat | n < 0x100
  type u16 = n: nat | n < 0x1_0000
  type u32 = n: nat | n < 0x1_0000_0000
  type u64 = n: nat | n < 0x1_0000_0000_0000_0000

  /** `as u32`: keep the low 32 bits. */
  function TruncateToU32(n: nat): u32 {
    n % 0x1_0000_0000
  }

  type Base = b: nat | b == 10 || b == 16 witness 10

  // Arithmetic on a base, spelled out for each so that it stays linear.

  function Times(n: nat, base: Base): nat {
    if base == 10 then 10 * n else 16 * n
  }

  function Quotient(n: nat, base: Base): nat {
    if base == 10 then n / 10 else n / 16
  }

  function Remainder(n: nat, base: Base): nat {
    if base == 10 then n % 10 else n % 16
  }

  function DigitChar(d: nat): char
    requires d < 16
  {
    if d < 10 then '0' + d as char else 'a' + (d - 10) as char
  }

  /** A digit's value in either letter case, or 16 for a character that is no digit. */
  function DigitValue(c: char): nat {
    if '0' <= c <= '9' then (c - '0') as nat
    else if 'a' <= c <= 'f' then (c - 'a') as nat + 10
    else if 'A' <= c <= 'F' then (c - 'A') as nat + 10
    else 16
  }

  predicate IsDigits(s: string, base: Base) {
    forall c :: c in s ==> DigitValue(c) < base
  }

  predicate IsNumeral(s: string, base: Base) {
    s != "" && IsDigits(s, base)
  }

  /** The spelling the formatter emits: no leading zero, no upper case. */
  predicate IsCanonical(s: string, base: Base) {
    && IsNumeral(s, base)
    && (s[0] == '0' ==> |s| == 1)
    && forall c :: c in s ==> !('A' <= c <= 'F')
  }

  function Value(s: string, base: Base): nat {
    if s == "" then 0 else Times(Value(s[..|s| - 1], base), base) + DigitValue(s[|s| - 1])
  }

  function Render(n: nat, base: Base): string {
    if n < base then [DigitChar(n)] else Render(Quotient(n, base), base) + [DigitChar(Remainder(n, base))]
  }

  function Pow(base: Base, k: nat): nat {
    if k == 0 then 1 else Times(Pow(base, k - 1), base)
  }

  lemma DigitOfChar(d: nat)
    requires d < 16
    ensures var c := DigitChar(d); DigitValue(c) == d && !('A' <= c <= 'F') && (c == '0' <==> d == 0)
  {
  }

  lemma CharOfDigit(c: char)
    requires DigitValue(c) < 16 && !('A' <= c <= 'F')
    ensures DigitChar(DigitValue(c)) == c && (c == '0' <==> DigitValue(c) == 0)
  {
  }

  lemma CanonicalSnoc(front: string, c: char, base: Base)
    requires DigitValue(c) < base <= 16 && !('A' <= c <= 'F')
    requires front == "" || (IsCanonical(front, base) && front[0] != '0')
    ensures IsCanonical(front + [c], base)
  {
  }

  lemma ValueSnoc(front: string, c: char, base: Base)
    ensures Value(front + [c], base) == Times(Value(front, base), base) + DigitValue(c)
  {
    assert (front + [c])[..|front|] == front;
  }

  lemma Divide(n: nat, base: Base)
    ensures n == Times(Quotient(n, base), base) + Remainder(n, base) && Remainder(n, base) < base
    ensures n >= base ==> 0 < Quotient(n, base) < n
  {
  }

  lemma DivideUnique(high: nat, low: nat, base: Base)
    requires low < base
    ensures Quotient(Times(high, base) + low, base) == high && Remainder(Times(high, base) + low, base) == low
  {
  }

  lemma {:induction false} ValueOfRender(n: nat, base: Base)
    ensures IsCanonical(Render(n, base), base) && Value(Render(n, base), base) == n
    ensures n > 0 ==> Render(n, base)[0] != '0'
  {
    Divide(n, base);
    if n >= base {
      var high, low := Quotient(n, base), Remainder(n, base);
      ValueOfRender(high, base);
      DigitOfChar(low);
      CanonicalSnoc(Render(high, base), DigitChar(low), base);
      ValueSnoc(Render(high, base), DigitChar(low), base);
    } else {
      DigitOfChar(n);
      CanonicalSnoc("", DigitChar(n), base);
      ValueSnoc("", DigitChar(n), base);
      assert "" + [DigitChar(n)] == [DigitChar(n)];
    }
  }

  lemma RenderSnoc(high: nat, low: nat, base: Base)
    requires high > 0 && low < base
    ensures Render(Times(high, base) + low, base) == Render(high, base) + [DigitChar(low)]
  {
    DivideUnique(high, low, base);
  }

  lemma CanonicalFront(s: string, base: Base)
    requires IsCanonical(s, base)
    ensures var front, last := s[..|s| - 1], s[|s| - 1];
            && s == front + [last]
            && DigitValue(last) < base && DigitChar(DigitValue(last)) == last
            && (last == '0' <==> DigitValue(last) == 0)
            && (front != "" ==> IsCanonical(front, base) && front[0] == s[0] != '0')
  {
    var front, last := s[..|s| - 1], s[|s| - 1];
    assert last in s && forall c :: c in front ==> c in s;
    CharOfDigit(last);
  }

  lemma {:induction false} RenderOfValue(s: string, base: Base)
    requires IsCanonical(s, base)
    ensures Render(Value(s, base), base) == s
    ensures s[0] != '0' ==> Value(s, base) > 0
  {
    var front, last := s[..|s| - 1], s[|s| - 1];
    CanonicalFront(s, base);
    ValueSnoc(front, last, base);
    if front != "" {
      RenderOfValue(front, base);
      RenderSnoc(Value(front, base), DigitValue(last), base);
    } else {
      assert Value(front, base) == 0 && s == [last];
    }
  }

  lemma DecimalChars(s: string)
    requires IsDigits(s, 10)
    ensures forall c :: c in s ==> '0' <= c <= '9'
  {
  }

  lemma RenderInjective(m: nat, n: nat, base: Base)
    requires Render(m, base) == Render(n, base)
    ensures m == n
  {
    ValueOfRender(m, base);
    ValueOfRender(n, base);
  }

  /** A numeral of `k` digits is exactly a number below `base` to the `k`. */
  lemma {:induction false} RenderLength(n: nat, base: Base, k: nat)
    requires k >= 1
    ensures |Render(n, base)| <= k <==> n < Pow(base, k)
  {
    Divide(n, base);
    if n < base {
      PowMonotone(base, k);
    } else if k == 1 {
      assert Pow(base, 0) == 1;
      ValueOfRender(Quotient(n, base), base);
    } else {
      RenderLength(Quotient(n, base), base, k - 1);
    }
  }

  lemma {:induction false} PowMonotone(base: Base, k: nat)
    requires k >= 1
    ensures base <= Pow(base, k)
  {
    if k == 1 {
      assert Pow(base, 0) == 1;
    } else {
      PowMonotone(base, k - 1);
    }
  }

  lemma PowersOfTen()
    ensures Pow(10, 9) == 1_000_000_000 && Pow(10, 10) == 10_000_000_000
    ensures Pow(10, 19) == 10_000_000_000_000_000_000 && Pow(10, 20) == 100_000_000_000_000_000_000
  {
  }

  lemma {:induction false} DigitsValueBound(s: string, base: Base)
    requires IsDigits(s, base)
    ensures Value(s, base) < Pow(base, |s|)
  {
    if s == "" {
    } else {
      assert s[|s| - 1] in s;
      DigitsValueBound(s[..|s| - 1], base);
    }
  }
}
