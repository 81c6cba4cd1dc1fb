/** Python's integer renderings used by the codepoint exports: `str(n)`,
    `format(n, 'X')` and `format(n, '04X')`, with their parse-back partners. */
module NumFormat {
  import opened Wrappers
  import opened PyText

  /** The digit character for `d`, upper-case for ten and above, as `'X'` formatting writes it. */
  function DigitChar(d: nat): char
    requires d < 16
  {
    if d < 10 then (48 + d) as char else (55 + d) as char
  }

  /** The value of one digit character in `base`, if it is one. */
  function DigitValue(c: char, base: nat): (v: Option<nat>)
    ensures v.Some? ==> v.value < base
  {
    var d :=
      if '0' <= c <= '9' then c as int - 48
      else if 'A' <= c <= 'F' then c as int - 55
      else 16;
    if d < base then Some(d) else None
  }

  /** The digits of `n` in `base`, most significant first, without leading zeros. */
  function Digits(n: nat, base: nat): (s: string)
    requires 2 <= base <= 16
    ensures s != []

  {
    if n < base then [DigitChar(n)] else Digits(n / base, base) + [DigitChar(n % base)]
  }

  /** `str(n)` for a non-negative `n`. */
  function Dec(n: nat): string { Digits(n, 10) }

  /** `format(n, 'X')` (equivalently `f"{n:0X}"`). */
  function Hex(n: nat): string { Digits(n, 16) }

  /** The number a string of digits in `base` denotes; None if some character is not such a digit. */
  function ValueOf(s: string, base: nat): Option<nat>
  {
    if s == [] then Some(0)
    else
      match ValueOf(s[..|s| - 1], base)
      case None => None
      case Some(high) =>
        match DigitValue(s[|s| - 1], base)
        case None => None
        case Some(d) => Some(high * base + d)
  }

  lemma DigitCharValue(d: nat, base: nat)
    requires d < base <= 16
    ensures DigitValue(DigitChar(d), base) == Some(d)
  {
  }

  lemma DivMod(n: nat, base: nat)
    requires base > 0
    ensures (n / base) * base + n % base == n
  {
  }

  lemma ValueOfSnoc(s: string, c: char, base: nat, high: nat, d: nat)
    requires ValueOf(s, base) == Some(high) && DigitValue(c, base) == Some(d)
    ensures ValueOf(s + [c], base) == Some(high * base + d)
  {
    assert (s + [c])[..|s + [c]| - 1] == s;
  }

  lemma DigitsUnfold(n: nat, base: nat)
    requires 2 <= base <= 16 && n >= base
    ensures Digits(n, base) == Digits(n / base, base) + [DigitChar(n % base)]
  {
  }

  lemma DigitsRoundTripStep(n: nat, base: nat)
    requires 2 <= base <= 16 && n >= base
    requires ValueOf(Digits(n / base, base), base) == Some(n / base)
    ensures ValueOf(Digits(n, base), base) == Some(n)
  {
    var q, r := n / base, n % base;
    var high, c := Digits(q, base), DigitChar(r);
    assert ValueOf(high + [c], base) == Some(q * base + r) by {
      DigitCharValue(r, base);
      ValueOfSnoc(high, c, base, q, r);
    }
    assert q * base + r == n by { DivMod(n, base); }
    DigitsUnfold(n, base);
  }

  /** Reading back the digits of `n` gives `n`. */
  lemma {:induction false} DigitsRoundTrip(n: nat, base: nat)
    requires 2 <= base <= 16
    ensures ValueOf(Digits(n, base), base) == Some(n)
  {
    if n < base {
      DigitCharValue(n, base);
      ValueOfSnoc([], DigitChar(n), base, 0, n);
      assert [] + [DigitChar(n)] == Digits(n, base);
    } else {
      DigitsRoundTrip(n / base, base);
      DigitsRoundTripStep(n, base);
    }
  }

  /** `n` has a single rendering in `base`: two numbers with the same digits are equal. */
  lemma DigitsInjective(m: nat, n: nat, base: nat)
    requires 2 <= base <= 16
    requires Digits(m, base) == Digits(n, base)
    ensures m == n
  {
    DigitsRoundTrip(m, base);
    DigitsRoundTrip(n, base);
  }

  /** `s` left-padded with '0' to at least `width` characters, as the `0<width>` format spec does. */
  function ZeroPad(s: string, width: nat): (r: string)
    ensures |r| == if |s| < width then width else |s|
    ensures r[|r| - |s|..] == s
    ensures forall i :: 0 <= i < |r| - |s| ==> r[i] == '0'
  {
    if |s| < width then seq(width - |s|, _ => '0') + s else s
  }

  lemma {:induction false} ValueOfZeros(z: string, base: nat)
    requires 2 <= base <= 16
    requires forall i :: 0 <= i < |z| ==> z[i] == '0'
    ensures ValueOf(z, base) == Some(0)
  {
    if z != [] {
      ValueOfZeros(z[..|z| - 1], base);
    }
  }

  /** Leading zeros do not change the value a digit string denotes. */
  lemma {:induction false} ValueOfLeadingZeros(z: string, s: string, base: nat)
    requires 2 <= base <= 16
    requires forall i :: 0 <= i < |z| ==> z[i] == '0'
    ensures ValueOf(z + s, base) == ValueOf(s, base)
  {
    if s == [] {
      assert z + s == z;
      ValueOfZeros(z, base);
    } else {
      var s', c := s[..|s| - 1], s[|s| - 1];
      ValueOfLeadingZeros(z, s', base);
      assert z + s == (z + s') + [c] && s == s' + [c];
      ValueOfSameSnoc(z + s', s', c, base);
    }
  }

  lemma ValueOfSameSnoc(a: string, b: string, c: char, base: nat)
    requires ValueOf(a, base) == ValueOf(b, base)
    ensures ValueOf(a + [c], base) == ValueOf(b + [c], base)
  {
    assert (a + [c])[..|a|] == a && (b + [c])[..|b|] == b;
  }

  /** `f"U+{n:04X}"`: Unicode notation. */
  function UnicodeNotation(n: nat): string { "U+" + ZeroPad(Hex(n), 4) }

  /** Reads a `U+XXXX` line back to the number it denotes. */
  function ParseUnicodeNotation(t: string): Option<nat>
  {
    if |t| >= 2 && t[..2] == "U+" then ValueOf(t[2..], 16) else None
  }

  /** The Unicode notation is at least six characters long and reads back to `n`. */
  lemma UnicodeNotationRoundTrip(n: nat)
    ensures |UnicodeNotation(n)| >= 6
    ensures ParseUnicodeNotation(UnicodeNotation(n)) == Some(n)
  {
    var h := Hex(n);
    var p := ZeroPad(h, 4);
    var t := UnicodeNotation(n);
    assert t[..2] == "U+" && t[2..] == p;
    assert p == p[..|p| - |h|] + h;
    ValueOfLeadingZeros(p[..|p| - |h|], h, 16);
    DigitsRoundTrip(n, 16);
  }

  /** Renderings of numbers are words of `str.split()`: never empty, never whitespace. */
  lemma {:induction false} DigitsAreWord(n: nat, base: nat)
    requires 2 <= base <= 16
    ensures IsWord(Digits(n, base))
  {
    if n < base {
      DigitCharNotSpace(n);
    } else {
      DigitsAreWord(n / base, base);
      DigitsUnfold(n, base);
      DigitCharNotSpace(n % base);
      var high := Digits(n / base, base);
      var s := high + [DigitChar(n % base)];
      forall i | 0 <= i < |s| ensures !IsSpace(s[i]) {
        if i < |high| { assert s[i] == high[i]; }
      }
    }
  }

  lemma DigitCharNotSpace(d: nat)
    requires d < 16
    ensures '0' <= DigitChar(d) <= '9' || 'A' <= DigitChar(d) <= 'F'
    ensures !IsSpace(DigitChar(d))
  {
  }

  lemma UnicodeNotationIsWord(n: nat)
    ensures IsWord(UnicodeNotation(n))
  {
    var h := Hex(n);
    DigitsAreWord(n, 16);
    var p := ZeroPad(h, 4);
    assert p == p[..|p| - |h|] + h;
    forall i | 0 <= i < |p| ensures !IsSpace(p[i]) {
      if i >= |p| - |h| { assert p[i] == h[i - (|p| - |h|)]; }
    }
  }
}
