/**
 * The `%08X` conversion the fault decoder hands to its printf-like sink:
 * an unsigned 32-bit word rendered as exactly eight upper-case hexadecimal
 * digits, most significant first, padded on the left with '0'.
 *
 * Only this one conversion of the sink's format language is modelled.
 * `HexValue` is the reader's side: it turns a string of upper-case hex
 * digits back into the number it denotes, and `Hex8RoundTrip` shows that
 * nothing is lost by the rendering.
 */
module HexFormat {

  /** A 32-bit register or memory word, as `uint32_t` in the source. */
  type Word = bv32

  /** Number of digits `%08X` produces for a 32-bit word. */
  const Hex8Width: nat := 8

  function Pow16(k: nat): (p: nat)
    ensures p > 0
  {
    if k == 0 then 1 else 16 * Pow16(k - 1)
  }

  /** The characters `%X` may print: decimal digits and upper-case A-F. */
  predicate IsUpperHexDigit(c: char) {
    ('0' <= c <= '9') || ('A' <= c <= 'F')
  }

  predicate IsUpperHex(s: string) {
    forall i :: 0 <= i < |s| ==> IsUpperHexDigit(s[i])
  }

  /** The digit that stands for `d` in base 16. */
  function HexDigit(d: nat): (c: char)
    requires d < 16
    ensures IsUpperHexDigit(c)
    ensures DigitValue(c) == d
  {
    if d < 10 then ('0' as int + d) as char else ('A' as int + (d - 10)) as char
  }

  /** The value a reader gives to one upper-case hex digit. */
  function DigitValue(c: char): (d: nat)
    requires IsUpperHexDigit(c)
    ensures d < 16
  {
    if '0' <= c <= '9' then c as int - '0' as int else c as int - 'A' as int + 10
  }

  /**
   * The low `width` base-16 digits of `n`, most significant first, with
   * leading zeros: what `%0<width>X` prints for a value that fits.
   */
  function HexDigits(n: nat, width: nat): (s: string)
    ensures |s| == width
    ensures IsUpperHex(s)
  {
    if width == 0 then "" else HexDigits(n / 16, width - 1) + [HexDigit(n % 16)]
  }

  /** `%08X` applied to a 32-bit word. */
  function Hex8(w: Word): (s: string)
    ensures |s| == Hex8Width
    ensures IsUpperHex(s)
  {
    HexDigits(w as int, Hex8Width)
  }

  /** The number a string of upper-case hex digits denotes, read most significant digit first. */
  function HexValue(s: string): (n: nat)
    requires IsUpperHex(s)
    ensures n < Pow16(|s|)
  {
    if s == [] then 0 else HexValue(s[..|s| - 1]) * 16 + DigitValue(s[|s| - 1])
  }

  /** Division and remainder are unique: the facts behind reading digits back. */
  lemma DivModUnique(n: int, d: int, q: int, r: int)
    requires d > 0 && n == d * q + r && 0 <= r < d
    ensures n / d == q && n % d == r
  {
    var k := q - n / d;
    assert d * k == n % d - r by {
      assert n == d * (n / d) + n % d;
      assert d * k == d * q - d * (n / d);
    }
    SmallMultipleIsZero(d, k);
  }

  /** The only multiple of `d` strictly between `-d` and `d` is zero. */
  lemma SmallMultipleIsZero(d: int, k: int)
    requires d > 0 && -d < d * k < d
    ensures k == 0
  {
  }

  /** Peeling the last base-16 digit off `n % 16^(k+1)`. */
  lemma ModPow16Step(n: nat, k: nat)
    ensures n % Pow16(k + 1) == (n / 16 % Pow16(k)) * 16 + n % 16
  {
    var p := Pow16(k);
    var q, r := n / 16, n % 16;
    var a, b := q / p, q % p;
    assert n == 16 * q + r;
    assert q == p * a + b;
    assert n == (16 * p) * a + (b * 16 + r) by {
      calc {
        n;
        16 * (p * a + b) + r;
        { assert 16 * (p * a + b) == (16 * p) * a + 16 * b; }
        (16 * p) * a + (b * 16 + r);
      }
    }
    assert 0 <= b * 16 + r < 16 * p by {
      assert b <= p - 1;
      assert b * 16 <= (p - 1) * 16;
    }
    DivModUnique(n, 16 * p, a, b * 16 + r);
  }

  /** Reading back `width` rendered digits yields `n` modulo `16^width`. */
  lemma {:induction false} HexDigitsValue(n: nat, width: nat)
    ensures HexValue(HexDigits(n, width)) == n % Pow16(width)
  {
    if width > 0 {
      var s := HexDigits(n, width);
      var front := HexDigits(n / 16, width - 1);
      assert s == front + [HexDigit(n % 16)];
      assert s[..|s| - 1] == front;
      HexDigitsValue(n / 16, width - 1);
      ModPow16Step(n, width - 1);
    }
  }

  /** Eight digits are enough for any value below `2^32`: it reads back unchanged. */
  lemma HexDigits8RoundTrip(n: nat)
    requires n < 0x1_0000_0000
    ensures HexValue(HexDigits(n, Hex8Width)) == n
  {
    HexDigitsValue(n, Hex8Width);
    assert Pow16(Hex8Width) == 0x1_0000_0000;
  }

  /**
   * `%08X` loses nothing: the eight digits printed for a 32-bit word read
   * back as that same word, so two different words never print alike.
   */
  lemma Hex8RoundTrip(w: Word)
    ensures HexValue(Hex8(w)) == w as int
  {
    HexDigits8RoundTrip(w as int);
  }

  /** Two different 32-bit words never print alike. */
  lemma Hex8Injective(v: Word, w: Word)
    requires Hex8(v) == Hex8(w)
    ensures v == w
  {
    Hex8RoundTrip(v);
    Hex8RoundTrip(w);
    WordAsIntInjective(v, w);
  }

  lemma WordAsIntInjective(v: Word, w: Word)
    requires v as int == w as int
    ensures v == w
  {
    assert v == (v as int) as Word;
  }

  /** The value 1 prints with seven leading zeros, as a reader of the report expects. */
  lemma Hex8OfOne()
    ensures Hex8(1) == "00000001"
  {
    assert HexDigits(1, Hex8Width) == "00000001";
  }
}
