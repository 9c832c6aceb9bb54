/** Small vocabulary shared by the other modules. */
module Options {
  datatype Option<+T> = None | Some(value: T)
}

/** Decimal numerals, as JavaScript's `toString` writes a non-negative integer. */
module Numerals {
  function Digit(d: nat): char
    requires d < 10
  {
    "0123456789"[d]
  }

  function Decimal(n: nat): string {
    if n < 10 then [Digit(n)] else Decimal(n / 10) + [Digit(n % 10)]
  }

  predicate IsDigit(c: char) {
    '0' <= c <= '9'
  }

  predicate AllDigits(s: string) {
    forall i | 0 <= i < |s| :: IsDigit(s[i])
  }

  lemma {:induction false} DecimalIsDigits(n: nat)
    ensures Decimal(n) != [] && AllDigits(Decimal(n))
  {
    if n >= 10 {
      DecimalIsDigits(n / 10);
    }
  }

  lemma LastDigit(d: nat, e: nat)
    requires d < 10 && e < 10 && Digit(d) == Digit(e)
    ensures d == e
  {
  }

  lemma {:induction false} DecimalInjective(m: nat, n: nat)
    requires Decimal(m) == Decimal(n)
    ensures m == n
  {
    var a, b := Decimal(m), Decimal(n);
    assert a[|a| - 1] == b[|b| - 1] && a[..|a| - 1] == b[..|b| - 1];
    DecimalIsDigits(m / 10);
    DecimalIsDigits(n / 10);
    if m >= 10 && n >= 10 {
      assert a[..|a| - 1] == Decimal(m / 10) && b[..|b| - 1] == Decimal(n / 10);
      DecimalInjective(m / 10, n / 10);
      LastDigit(m % 10, n % 10);
    } else if m < 10 && n < 10 {
      LastDigit(m, n);
    }
  }

  function Power10(k: nat): (p: nat)
    ensures p > 0
  {
    if k == 0 then 1 else 10 * Power10(k - 1)
  }

  lemma QuotientUnique(n: int, d: int, q: int, r: int)
    requires n == d * q + r && 0 <= r < d
    ensures n / d == q
  {
    var gap := n / d - q;
    assert d * gap == r - n % d;
    assert gap >= 1 ==> d * gap >= d;
    assert gap <= -1 ==> d * gap <= -d;
  }

  lemma NestedQuotient(a: int, b: int, m: int, s: int, q: int, r: int)
    requires 0 <= s < a && 0 <= r < b && m == b * q + r
    ensures a * m + s == (a * b) * q + (a * r + s) && 0 <= a * r + s < a * b
  {
    assert a * m == a * (b * q) + a * r;
    assert a * (r + 1) <= a * b;
  }

  lemma DivideTwice(n: int, a: int, b: int)
    requires a > 0 && b > 0 && a * b > 0
    ensures n / (a * b) == n / a / b
  {
    var m := n / a;
    NestedQuotient(a, b, m, n % a, m / b, m % b);
    QuotientUnique(n, a * b, m / b, a * (m % b) + n % a);
  }

  lemma SmallQuotient(n: nat, d: nat)
    requires n < d
    ensures n / d == 0
  {
  }

  lemma LastOfDecimal(n: nat)
    ensures Decimal(n) != [] && Decimal(n)[|Decimal(n)| - 1] == Digit(n % 10)
    ensures n >= 10 ==> Decimal(n)[..|Decimal(n)| - 1] == Decimal(n / 10)
    ensures n < 10 ==> |Decimal(n)| == 1
  {
  }

  /** The digits of a numeral by position, counted from the last. */
  lemma {:induction false} DecimalAt(n: nat, j: nat)
    ensures j < |Decimal(n)| ==> Decimal(n)[|Decimal(n)| - 1 - j] == Digit(n / Power10(j) % 10)
    ensures j >= |Decimal(n)| ==> n / Power10(j) == 0
    decreases j, n
  {
    var s := Decimal(n);
    LastOfDecimal(n);
    if j > 0 {
      DivideTwice(n, 10, Power10(j - 1));
      if n >= 10 {
        DecimalAt(n / 10, j - 1);
        assert j < |s| ==> s[|s| - 1 - j] == s[..|s| - 1][|s| - 1 - j];
      } else {
        SmallQuotient(n / 10, Power10(j - 1));
      }
    }
  }

  /** A numeral below 10^width has at most `width` digits. */
  lemma {:induction false} DecimalWidth(n: nat, width: nat)
    requires 1 <= width && n < Power10(width)
    ensures |Decimal(n)| <= width
  {
    if n >= 10 {
      DecimalWidth(n / 10, width - 1);
    }
  }
}

/** Substrings, and lower-casing of ASCII letters. */
module Text {
  function LowerChar(c: char): char {
    if 'A' <= c <= 'Z' then (c as int + 32) as char else c
  }

  function Lower(s: string): string {
    seq(|s|, i requires 0 <= i < |s| => LowerChar(s[i]))
  }

  const UPPER_CASE := "ABCDEFGHIJKLMNOPQRSTUVWXYZ"
  const LOWER_CASE := "abcdefghijklmnopqrstuvwxyz"

  /** The two cases of one letter. */
  predicate CasesOf(i: nat, upper: char, lower: char) {
    i < 26 && upper == UPPER_CASE[i] && lower == LOWER_CASE[i]
  }

  predicate SameLetter(c: char, d: char) {
    c == d || exists i: nat | i < 26 :: CasesOf(i, c, d) || CasesOf(i, d, c)
  }

  predicate SameButCase(s: string, t: string) {
    |s| == |t| && forall i | 0 <= i < |s| :: SameLetter(s[i], t[i])
  }

  lemma LowerLetter(i: nat)
    requires i < 26
    ensures LowerChar(UPPER_CASE[i]) == LowerChar(LOWER_CASE[i]) == LOWER_CASE[i]
  {
  }

  /** Exactly the upper-case letters change, each to its lower-case letter. */
  lemma LowerCharMeans(c: char)
    ensures forall i | 0 <= i < 26 && c == UPPER_CASE[i] :: LowerChar(c) == LOWER_CASE[i]
    ensures c !in UPPER_CASE ==> LowerChar(c) == c
  {
    forall i | 0 <= i < 26 && c == UPPER_CASE[i] ensures LowerChar(c) == LOWER_CASE[i] {
      LowerLetter(i);
    }
    if 'A' <= c <= 'Z' {
      assert UPPER_CASE[c as int - 'A' as int] == c;
    }
  }

  lemma LoweredAlike(c: char, d: char)
    requires SameLetter(c, d)
    ensures LowerChar(c) == LowerChar(d)
  {
    if c != d {
      var i: nat :| i < 26 && (CasesOf(i, c, d) || CasesOf(i, d, c));
      LowerLetter(i);
    }
  }

  lemma UpperHasLower(c: char)
    requires 'A' <= c <= 'Z'
    ensures CasesOf(c as int - 'A' as int, c, LowerChar(c))
  {
    var i := c as int - 'A' as int;
    assert UPPER_CASE[i] == c;
    LowerLetter(i);
  }

  lemma LowerCharIff(c: char, d: char)
    ensures LowerChar(c) == LowerChar(d) <==> SameLetter(c, d)
  {
    if SameLetter(c, d) {
      LoweredAlike(c, d);
    }
    if LowerChar(c) == LowerChar(d) && c != d {
      if 'A' <= c <= 'Z' {
        UpperHasLower(c);
      } else {
        UpperHasLower(d);
      }
    }
  }

  /** Two texts are lowered alike exactly when they differ in the case of letters only. */
  lemma LowerIff(s: string, t: string)
    ensures Lower(s) == Lower(t) <==> SameButCase(s, t)
  {
    if SameButCase(s, t) {
      forall i | 0 <= i < |s| ensures Lower(s)[i] == Lower(t)[i] {
        LowerCharIff(s[i], t[i]);
      }
    }
    if Lower(s) == Lower(t) {
      assert |s| == |Lower(s)| == |Lower(t)| == |t|;
      forall i | 0 <= i < |s| ensures SameLetter(s[i], t[i]) {
        assert Lower(s)[i] == Lower(t)[i];
        LowerCharIff(s[i], t[i]);
      }
    }
  }

  predicate ContainsAt(s: string, w: string, i: nat) {
    i + |w| <= |s| && s[i..i + |w|] == w
  }

  predicate Contains(s: string, w: string) {
    exists i | 0 <= i <= |s| :: ContainsAt(s, w, i)
  }
}
