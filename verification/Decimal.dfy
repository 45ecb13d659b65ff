/**
 Decimal numbers as the filesystems print and parse them: `format!("{:06}", n)`, byte-wise
 string order, and `str::parse::<u64>()`.
 */
module Decimal {
  import opened Common

  function Digit(d: nat): char
    requires d < 10
  {
    (48 + d) as char
  }

  predicate IsDigit(c: char) { '0' <= c <= '9' }

  function DigitValue(c: char): nat
    requires IsDigit(c)
  {
    c as int - 48
  }

  function Digits(n: nat): string {
    if n < 10 then [Digit(n)] else Digits(n / 10) + [Digit(n % 10)]
  }

  function ZeroDigits(n: nat): string {
    if n == 0 then "" else ZeroDigits(n - 1) + "0"
  }

  /** `{:06}`: padded with zeros to at least six characters. */
  function Pad6(n: nat): string {
    if |Digits(n)| < 6 then ZeroDigits(6 - |Digits(n)|) + Digits(n) else Digits(n)
  }

  // ---------------------------------------------------------------------------
  // Fixed width
  // ---------------------------------------------------------------------------

  function Pow10(w: nat): nat {
    if w == 0 then 1 else 10 * Pow10(w - 1)
  }

  /** The last `w` digits of `n`. */
  function Fixed(n: nat, w: nat): (s: string)
    ensures |s| == w
  {
    if w == 0 then "" else Fixed(n / 10, w - 1) + [Digit(n % 10)]
  }

  lemma {:induction false} FixedZero(w: nat)
    ensures Fixed(0, w) == ZeroDigits(w)
  {
    if w > 0 {
      FixedZero(w - 1);
    }
  }

  lemma {:induction false} FixedIsPadded(n: nat, w: nat)
    requires w >= 1 && n < Pow10(w)
    ensures |Digits(n)| <= w && Fixed(n, w) == ZeroDigits(w - |Digits(n)|) + Digits(n)
  {
    if n < 10 {
      FixedZero(w - 1);
      assert n / 10 == 0 && n % 10 == n;
    } else {
      assert Pow10(w) == 10 * Pow10(w - 1);
      assert w - 1 >= 1 by { assert Pow10(1) == 10 * Pow10(0); }
      FixedIsPadded(n / 10, w - 1);
    }
  }

  lemma Pad6IsFixed(n: nat)
    requires n < 1_000_000
    ensures Pad6(n) == Fixed(n, 6)
  {
    MillionIsPow10();
    FixedIsPadded(n, 6);
    if |Digits(n)| == 6 {
      assert ZeroDigits(0) + Digits(n) == Digits(n);
    }
  }

  lemma MillionIsPow10()
    ensures Pow10(6) == 1_000_000
  {
    assert Pow10(1) == 10 && Pow10(2) == 100 && Pow10(3) == 1000 && Pow10(4) == 10_000 && Pow10(5) == 100_000;
  }

  // ---------------------------------------------------------------------------
  // String order
  // ---------------------------------------------------------------------------

  /** Strict lexicographic order, as `BTreeMap<String, _>` and sorted listings use it. */
  predicate Less(s: string, t: string) {
    t != "" && (s == "" || s[0] < t[0] || (s[0] == t[0] && Less(s[1..], t[1..])))
  }

  lemma {:induction false} LessIrreflexive(s: string)
    ensures !Less(s, s)
  {
    if s != "" {
      LessIrreflexive(s[1..]);
    }
  }

  lemma {:induction false} LessTransitive(s: string, t: string, u: string)
    requires Less(s, t) && Less(t, u)
    ensures Less(s, u)
  {
    if s != "" && s[0] == t[0] == u[0] {
      LessTransitive(s[1..], t[1..], u[1..]);
    }
  }

  lemma {:induction false} LessTotal(s: string, t: string)
    ensures Less(s, t) || s == t || Less(t, s)
  {
    if s != "" && t != "" && s[0] == t[0] {
      LessTotal(s[1..], t[1..]);
      assert s == [s[0]] + s[1..] && t == [t[0]] + t[1..];
    }
  }

  lemma {:induction false} LessAppend(p: string, q: string, x: string, y: string)
    requires |p| == |q|
    requires Less(p, q) || (p == q && Less(x, y))
    ensures Less(p + x, q + y)
  {
    if p == "" {
      assert p + x == x && q + y == y;
    } else {
      assert (p + x)[1..] == p[1..] + x && (q + y)[1..] == q[1..] + y;
      if p[0] == q[0] {
        LessAppend(p[1..], q[1..], x, y);
      }
    }
  }

  lemma {:induction false} FixedMonotone(a: nat, b: nat, w: nat)
    requires a < b < Pow10(w)
    ensures Less(Fixed(a, w), Fixed(b, w))
  {
    if w > 0 {
      assert Pow10(w) == 10 * Pow10(w - 1);
      if a / 10 < b / 10 {
        FixedMonotone(a / 10, b / 10, w - 1);
      }
      LessAppend(Fixed(a / 10, w - 1), Fixed(b / 10, w - 1), [Digit(a % 10)], [Digit(b % 10)]);
    }
  }

  /** Six-digit names are ordered like the numbers they print, below a million. */
  lemma Pad6Monotone(a: nat, b: nat)
    requires a < b < 1_000_000
    ensures Less(Pad6(a), Pad6(b))
  {
    Pad6IsFixed(a);
    Pad6IsFixed(b);
    MillionIsPow10();
    FixedMonotone(a, b, 6);
  }

  lemma Pad6Injective(a: nat, b: nat)
    requires a < 1_000_000 && b < 1_000_000 && Pad6(a) == Pad6(b)
    ensures a == b
  {
    LessIrreflexive(Pad6(a));
    if a < b {
      Pad6Monotone(a, b);
    } else if b < a {
      Pad6Monotone(b, a);
    }
  }

  lemma DigitsOfMillion()
    ensures Pad6(999_999) == "999999" && Pad6(1_000_000) == "1000000"
  {
    assert Digits(9) == "9" && Digits(99) == "99" && Digits(999) == "999";
    assert Digits(9999) == "9999" && Digits(99_999) == "99999";
    assert Digits(1) == "1" && Digits(10) == "10" && Digits(100) == "100";
    assert Digits(1000) == "1000" && Digits(10_000) == "10000" && Digits(100_000) == "100000";
  }

  lemma DigitsOfNext()
    ensures Pad6(100_001) == "100001"
  {
    assert Digits(1) == "1" && Digits(10) == "10" && Digits(100) == "100";
    assert Digits(1000) == "1000" && Digits(10_000) == "10000";
  }

  /** The bound is tight: the millionth name sorts before its predecessor. */
  lemma Pad6BreaksAtMillion()
    ensures Less(Pad6(1_000_000), Pad6(999_999))
  {
    DigitsOfMillion();
  }

  ghost predicate PrintedInOrder(a: nat, b: nat) {
    Less(Pad6(a), Pad6(b))
  }

  /** The names of all numbers below `n` sort like the numbers exactly up to a million. */
  lemma Pad6MonotoneIff(n: nat)
    ensures (forall a: nat, b: nat :: a < b < n ==> PrintedInOrder(a, b)) <==> n <= 1_000_000
  {
    if n <= 1_000_000 {
      forall a: nat, b: nat | a < b < n ensures PrintedInOrder(a, b) {
        Pad6Monotone(a, b);
      }
    } else {
      Pad6BreaksAtMillion();
      if Less(Pad6(999_999), Pad6(1_000_000)) {
        LessTransitive(Pad6(999_999), Pad6(1_000_000), Pad6(999_999));
      }
      LessIrreflexive(Pad6(999_999));
      assert !PrintedInOrder(999_999, 1_000_000);
    }
  }

  // ---------------------------------------------------------------------------
  // Parsing
  // ---------------------------------------------------------------------------

  predicate AllDigits(s: string) {
    forall i :: 0 <= i < |s| ==> IsDigit(s[i])
  }

  function Value(s: string): nat
    requires AllDigits(s)
  {
    if s == "" then 0 else 10 * Value(s[..|s|-1]) + DigitValue(s[|s|-1])
  }

  /** `str::parse::<u64>()`: an optional plus sign, then digits, within range. */
  function ParseU64(s: string): Option<nat> {
    var t := if s != "" && s[0] == '+' then s[1..] else s;
    if t != "" && AllDigits(t) && Value(t) <= U64_MAX then Some(Value(t)) else None
  }

  lemma {:induction false} DigitsValue(n: nat)
    ensures AllDigits(Digits(n)) && Digits(n) != "" && Value(Digits(n)) == n
  {
    if n < 10 {
      assert Digits(n)[..0] == "";
    } else {
      DigitsValue(n / 10);
      assert Digits(n)[..|Digits(n)|-1] == Digits(n / 10);
    }
  }

  lemma {:induction false} ZerosValue(z: nat, s: string)
    requires AllDigits(s)
    ensures AllDigits(ZeroDigits(z) + s) && Value(ZeroDigits(z) + s) == Value(s)
  {
    if z == 0 {
      assert ZeroDigits(0) + s == s;
    } else {
      ZerosValue(z - 1, "0" + s);
      assert ZeroDigits(z) + s == ZeroDigits(z - 1) + ("0" + s);
      LeadingZero(s);
    }
  }

  lemma {:induction false} LeadingZero(s: string)
    requires AllDigits(s)
    ensures AllDigits("0" + s) && Value("0" + s) == Value(s)
  {
    if s == "" {
      assert "0" + s == "0" && "0"[..0] == "";
    } else {
      LeadingZero(s[..|s|-1]);
      assert ("0" + s)[..|s|] == "0" + s[..|s|-1];
    }
  }

  /** Printing and parsing are inverse for every u64. */
  lemma ParsePad6(n: nat)
    requires n <= U64_MAX
    ensures ParseU64(Pad6(n)) == Some(n)
    ensures AllDigits(Pad6(n)) && Pad6(n) != ""
  {
    DigitsValue(n);
    if |Digits(n)| < 6 {
      ZerosValue(6 - |Digits(n)|, Digits(n));
    }
    assert IsDigit(Pad6(n)[0]);
  }

  /** Anything with a character that is no digit, but for one leading plus sign, is no number. */
  lemma ParseRejects(s: string, i: nat)
    requires i < |s| && !IsDigit(s[i]) && !(i == 0 && s[0] == '+')
    ensures ParseU64(s) == None
  {
    var t := if s[0] == '+' then s[1..] else s;
    assert t[if s[0] == '+' then i - 1 else i] == s[i];
  }

  /** A number beyond 64 bits is rejected, and so are the empty string and a lone sign. */
  lemma ParseRejectsLarge(n: nat)
    requires n > U64_MAX
    ensures ParseU64(Digits(n)) == None && ParseU64("") == None && ParseU64("+") == None
  {
    DigitsValue(n);
    assert IsDigit(Digits(n)[0]);
    assert "+"[1..] == "";
  }

  /** A leading plus sign is allowed. */
  lemma ParsePlus(n: nat)
    requires n <= U64_MAX
    ensures ParseU64("+" + Digits(n)) == Some(n)
  {
    DigitsValue(n);
    assert ("+" + Digits(n))[1..] == Digits(n);
  }
}
