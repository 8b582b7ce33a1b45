/** Rendering and parsing of unsigned numerals: Rust's `Display`/`{:X}` formatting of
    integers, JavaScript's `Number.prototype.toString()` on integers, and Rust's
    `str::parse` for the unsigned integer types. */
module Numerals {

  import opened Options

  const U16Limit: nat := 0x1_0000
  const U32Limit: nat := 0x1_0000_0000

  /** The digit for `d`, using upper-case letters above nine (`{:X}`). */
  function DigitChar(d: nat): char
    requires d < 16
  {
    if d < 10 then (48 + d) as char else (55 + d) as char
  }

  /** The value of a digit character, or 16 for a character that is no digit at all. */
  function DigitValue(c: char): nat {
    if '0' <= c <= '9' then c as nat - 48
    else if 'A' <= c <= 'F' then c as nat - 55
    else 16
  }

  predicate IsDigitIn(c: char, base: nat) {
    DigitValue(c) < base
  }

  predicate AllDigitsIn(s: string, base: nat) {
    forall i :: 0 <= i < |s| ==> IsDigitIn(s[i], base)
  }

  lemma DigitRoundTrip(d: nat)
    requires d < 16
    ensures DigitValue(DigitChar(d)) == d
  {
  }

  /** The numeral of `n` in `base`, most significant digit first, without leading zeros. */
  function Render(n: nat, base: nat): string
    requires 2 <= base <= 16
    decreases n
  {
    if n < base then [DigitChar(n)] else Render(n / base, base) + [DigitChar(n % base)]
  }

  /** The number a string of digits denotes in `base`. */
  function Value(s: string, base: nat): nat
    requires 2 <= base <= 16
    requires AllDigitsIn(s, base)
    decreases |s|
  {
    if |s| == 0 then 0
    else Value(s[..|s| - 1], base) * base + DigitValue(s[|s| - 1])
  }

  lemma {:induction false} RenderDigits(n: nat, base: nat)
    requires 2 <= base <= 16
    ensures |Render(n, base)| >= 1
    ensures AllDigitsIn(Render(n, base), base)
    ensures Render(n, base)[0] == '0' <==> n == 0
    decreases n
  {
    if n >= base {
      var hi := Render(n / base, base);
      var r := Render(n, base);
      DivMod(n, base);
      RenderDigits(n / base, base);
      assert r == hi + [DigitChar(n % base)];
      forall i | 0 <= i < |r| ensures IsDigitIn(r[i], base) {
        if i < |hi| { assert r[i] == hi[i]; } else { DigitRoundTrip(n % base); }
      }
    } else {
      DigitRoundTrip(n);
    }
  }

  lemma DivMod(n: nat, base: nat)
    requires base >= 2
    ensures n == (n / base) * base + n % base
    ensures n >= base ==> 0 < n / base < n
  {
    var q := n / base;
    assert q * base == q * (base - 2) + 2 * q;
    assert q * (base - 2) >= 0;
  }

  /** Rendering is inverted by evaluation, yields only digits of the base, and has no
      leading zero unless the number is zero. */
  lemma {:induction false} RenderRoundTrip(n: nat, base: nat)
    requires 2 <= base <= 16
    ensures |Render(n, base)| >= 1
    ensures AllDigitsIn(Render(n, base), base)
    ensures Value(Render(n, base), base) == n
    ensures Render(n, base)[0] == '0' <==> n == 0
    decreases n
  {
    RenderDigits(n, base);
    if n < base {
      DigitRoundTrip(n);
    } else {
      var q, d := n / base, n % base;
      var hi := Render(q, base);
      var r := Render(n, base);
      DivMod(n, base);
      RenderRoundTrip(q, base);
      DigitRoundTrip(d);
      assert r[..|r| - 1] == hi;
      assert r[|r| - 1] == DigitChar(d);
      assert Value(r, base) == Value(hi, base) * base + d;
      assert Value(hi, base) == q;
      DivMod(n, base);
    }
  }

  /** Decimal numeral of a natural number (`n.to_string()`, `format!("{}", n)`). */
  function Decimal(n: nat): string {
    Render(n, 10)
  }

  /** Decimal numeral of an integer, with a leading `-` when negative. */
  function SignedDecimal(i: int): string {
    if i < 0 then "-" + Decimal(-i) else Decimal(i)
  }

  /** Upper-case hexadecimal numeral without prefix (`format!("{:X}", n)`). */
  function Hex(n: nat): string {
    Render(n, 16)
  }

  /** Rust's `str::parse` for an unsigned integer type whose values are below `limit`:
      an optional single leading `+`, then at least one decimal digit; no other sign,
      no whitespace, and no value at or beyond `limit`. */
  function ParseUnsigned(s: string, limit: nat): (r: Option<nat>)
    ensures r.Some? ==> r.value < limit
  {
    var digits := if |s| > 0 && s[0] == '+' then s[1..] else s;
    if |digits| == 0 || !AllDigitsIn(digits, 10) then None
    else
      var v := Value(digits, 10);
      if v < limit then Some(v) else None
  }

  /** Every number in range survives rendering and parsing, with or without a `+`. */
  lemma ParseDecimalRoundTrip(n: nat, limit: nat)
    requires n < limit
    ensures ParseUnsigned(Decimal(n), limit) == Some(n)
    ensures ParseUnsigned("+" + Decimal(n), limit) == Some(n)
  {
    RenderRoundTrip(n, 10);
    assert Decimal(n)[0] != '+';
    assert ("+" + Decimal(n))[1..] == Decimal(n);
  }

  /** Parsing never accepts out-of-range numerals. */
  lemma ParseRejectsOverflow(n: nat, limit: nat)
    requires n >= limit
    ensures ParseUnsigned(Decimal(n), limit) == None
  {
    RenderRoundTrip(n, 10);
  }

  /** A minus sign, even before zero, is rejected by an unsigned parse. */
  lemma ParseRejectsMinus(s: string, limit: nat)
    ensures ParseUnsigned("-" + s, limit) == None
  {
    assert ("-" + s)[0] == '-';
    assert DigitValue('-') == 16;
  }
}
