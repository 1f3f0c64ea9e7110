/**
 * The Kotlin and JVM string functions that parseDuration relies on:
 * CharSequence.split with a one-character delimiter, String.toInt
 * (Integer.parseInt) and 32-bit two's-complement Int arithmetic.
 */
module Text {
  import opened Results

  /** Kotlin joinToString with a one-character separator. */
  function Join(parts: seq<string>, sep: char): string {
    if parts == [] then []
    else if |parts| == 1 then parts[0]
    else parts[0] + [sep] + Join(parts[1..], sep)
  }

  /**
   * Kotlin `s.split(sep)` with no limit: every occurrence of the separator
   * cuts, and empty pieces (leading, inner and trailing) are kept, so the
   * empty string splits into one empty piece.
   */
  function Split(s: string, sep: char): (parts: seq<string>)
    ensures |parts| >= 1
    ensures forall i :: 0 <= i < |parts| ==> sep !in parts[i]
    ensures Join(parts, sep) == s
  {
    if s == [] then [[]]
    else
      var rest := Split(s[1..], sep);
      if s[0] == sep then
        assert s == [sep] + Join(rest, sep);
        [[]] + rest
      else
        var parts := [[s[0]] + rest[0]] + rest[1..];
        assert Join(parts, sep) == [s[0]] + Join(rest, sep) by {
          if |rest| > 1 {
            assert parts[1..] == rest[1..];
          }
        }
        assert s == [s[0]] + s[1..];
        parts
  }

  lemma {:induction false} SplitWithoutSeparator(p: string, sep: char)
    requires sep !in p
    ensures Split(p, sep) == [p]
  {
    if p != [] {
      SplitWithoutSeparator(p[1..], sep);
      assert [p[0]] + p[1..] == p;
    }
  }

  lemma {:induction false} SplitAtFirstSeparator(p: string, sep: char, rest: string)
    requires sep !in p
    ensures Split(p + [sep] + rest, sep) == [p] + Split(rest, sep)
  {
    var s := p + [sep] + rest;
    if p == [] {
      assert s[1..] == rest;
    } else {
      assert s[1..] == p[1..] + [sep] + rest;
      SplitAtFirstSeparator(p[1..], sep, rest);
      assert [p[0]] + p[1..] == p;
    }
  }

  /** Splitting undoes joining when no piece contains the separator. */
  lemma {:induction false} SplitJoin(parts: seq<string>, sep: char)
    requires |parts| >= 1
    requires forall i :: 0 <= i < |parts| ==> sep !in parts[i]
    ensures Split(Join(parts, sep), sep) == parts
  {
    if |parts| == 1 {
      SplitWithoutSeparator(parts[0], sep);
    } else {
      SplitJoin(parts[1..], sep);
      SplitAtFirstSeparator(parts[0], sep, Join(parts[1..], sep));
      assert [parts[0]] + parts[1..] == parts;
    }
  }

  // ---------------------------------------------------------------------
  // 32-bit Int

  const MinInt: int := -0x8000_0000
  const MaxInt: int := 0x7fff_ffff
  const Modulus: int := 0x1_0000_0000

  predicate IsInt32(x: int) { MinInt <= x <= MaxInt }

  /** The 32-bit two's-complement Int that the mathematical integer wraps to. */
  function ToInt32(x: int): (r: int)
    ensures IsInt32(r)
    ensures (x - r) % Modulus == 0
    ensures IsInt32(x) ==> r == x
  {
    (x - MinInt) % Modulus + MinInt
  }

  /** Two integers that agree modulo 2^32 wrap to the same Int. */
  lemma ToInt32Congruent(x: int, y: int)
    requires (x - y) % Modulus == 0
    ensures ToInt32(x) == ToInt32(y)
  {
    var k := (x - y) / Modulus;
    assert x - MinInt == (y - MinInt) + k * Modulus;
  }

  /** x and y agree modulo 2^32, so they wrap to the same Int. */
  predicate Congruent(x: int, y: int) { (x - y) % Modulus == 0 }

  lemma MultipleOfModulus(x: int, y: int, q: int)
    requires x - y == q * Modulus
    ensures Congruent(x, y)
  {
  }

  lemma CongruentQuotient(x: int, y: int) returns (q: int)
    requires Congruent(x, y)
    ensures x - y == q * Modulus
  {
    q := (x - y) / Modulus;
  }

  lemma CongruentTransitive(x: int, y: int, z: int)
    requires Congruent(x, y) && Congruent(y, z)
    ensures Congruent(x, z)
  {
    var q1 := CongruentQuotient(x, y);
    var q2 := CongruentQuotient(y, z);
    MultipleOfModulus(x, z, q1 + q2);
  }

  lemma CongruentAdd(a: int, b: int, c: int, d: int)
    requires Congruent(a, b) && Congruent(c, d)
    ensures Congruent(a + c, b + d)
  {
    var q1 := CongruentQuotient(a, b);
    var q2 := CongruentQuotient(c, d);
    MultipleOfModulus(a + c, b + d, q1 + q2);
  }

  lemma CongruentScale(a: int, b: int, k: int)
    requires Congruent(a, b)
    ensures Congruent(a * k, b * k)
  {
    var q := CongruentQuotient(a, b);
    assert a * k - b * k == (a - b) * k;
    MultipleOfModulus(a * k, b * k, q * k);
  }

  /** Kotlin Int `+` and `*`: the exact result wrapped to 32 bits. */
  function AddInt32(x: int, y: int): int { ToInt32(x + y) }
  function MulInt32(x: int, y: int): int { ToInt32(x * y) }

  // ---------------------------------------------------------------------
  // Integer.parseInt

  predicate IsDigit(c: char) { '0' <= c <= '9' }

  function DigitValue(c: char): nat
    requires IsDigit(c)
  {
    (c as int) - ('0' as int)
  }

  /** The number a string of decimal digits spells, most significant first. */
  function DigitsValue(ds: string): nat
    requires forall i :: 0 <= i < |ds| ==> IsDigit(ds[i])
  {
    if ds == [] then 0
    else 10 * DigitsValue(ds[..|ds| - 1]) + DigitValue(ds[|ds| - 1])
  }

  /** The text after an optional leading '+' or '-'. */
  function Unsigned(s: string): string {
    if |s| > 0 && (s[0] == '-' || s[0] == '+') then s[1..] else s
  }

  predicate AllDigits(ds: string) {
    forall i :: 0 <= i < |ds| ==> IsDigit(ds[i])
  }

  /** The number a sign and decimal digits spell. */
  function SignedValue(s: string): int
    requires AllDigits(Unsigned(s))
  {
    if |s| > 0 && s[0] == '-' then -(DigitsValue(Unsigned(s)) as int) else DigitsValue(Unsigned(s))
  }

  /**
   * Kotlin String.toInt (java.lang.Integer.parseInt, radix 10): an optional
   * '+' or '-' followed by at least one digit, whose value must fit in a
   * 32-bit Int; anything else is a NumberFormatException.
   */
  function ParseInt(s: string): (r: Result<int>)
    ensures r.Ok? <==> Unsigned(s) != [] && AllDigits(Unsigned(s)) && IsInt32(SignedValue(s))
    ensures r.Ok? ==> r.value == SignedValue(s)
    ensures r.Err? ==> r.error == NumberFormat
  {
    var signed := |s| > 0 && (s[0] == '-' || s[0] == '+');
    var digits := if signed then s[1..] else s;
    if digits == [] || exists i :: 0 <= i < |digits| && !IsDigit(digits[i]) then Err(NumberFormat)
    else
      var magnitude := DigitsValue(digits);
      var value: int := if signed && s[0] == '-' then -(magnitude as int) else magnitude;
      if IsInt32(value) then Ok(value) else Err(NumberFormat)
  }

  /**
   * Any run of digits whose value fits in an Int parses to that value,
   * leading zeros included.
   */
  lemma ParseIntOfDigits(ds: string)
    requires ds != [] && AllDigits(ds) && DigitsValue(ds) <= MaxInt
    ensures ParseInt(ds) == Ok(DigitsValue(ds))
  {
    assert Unsigned(ds) == ds;
  }

  /** A leading '+' changes nothing; a '-' negates. */
  lemma ParseIntOfSigned(ds: string)
    requires ds != [] && AllDigits(ds)
    ensures ParseInt("+" + ds) == (if DigitsValue(ds) <= MaxInt then Ok(DigitsValue(ds)) else Err(NumberFormat))
    ensures ParseInt("-" + ds) == (if DigitsValue(ds) <= -MinInt then Ok(-(DigitsValue(ds) as int)) else Err(NumberFormat))
  {
    assert Unsigned("+" + ds) == ds;
    assert Unsigned("-" + ds) == ds;
  }

  /** A sign alone, or nothing at all, is not a number. */
  lemma ParseIntNeedsDigits()
    ensures ParseInt("+") == Err(NumberFormat)
    ensures ParseInt("-") == Err(NumberFormat)
    ensures ParseInt("") == Err(NumberFormat)
  {
    assert Unsigned("+") == [] && Unsigned("-") == [] && Unsigned("") == [];
  }

  /** Integer.toString for a non-negative number: its decimal digits. */
  function NatToString(n: nat): (s: string)
    ensures |s| > 0
    ensures forall i :: 0 <= i < |s| ==> IsDigit(s[i])
  {
    var d := ['0' + (n % 10) as char];
    if n < 10 then d else NatToString(n / 10) + d
  }

  lemma {:induction false} DigitsOfNatToString(n: nat)
    ensures DigitsValue(NatToString(n)) == n
  {
    var s := NatToString(n);
    if n >= 10 {
      DigitsOfNatToString(n / 10);
      assert s[..|s| - 1] == NatToString(n / 10);
    }
  }

  /** Integer.toString: a '-' before the digits of a negative number. */
  function IntToString(n: int): string {
    if n < 0 then "-" + NatToString(-n) else NatToString(n)
  }

  /** String.toInt reads back every Int that Integer.toString writes. */
  lemma IntToStringParses(n: int)
    requires IsInt32(n)
    ensures ParseInt(IntToString(n)) == Ok(n)
  {
    if n < 0 {
      DigitsOfNatToString(-n);
      assert IntToString(n)[1..] == NatToString(-n);
    } else {
      DigitsOfNatToString(n);
    }
  }

  /** A string of digits never contains the separator ':'. */
  lemma NatToStringHasNoColon(n: nat)
    ensures ':' !in NatToString(n)
  {
  }
}
