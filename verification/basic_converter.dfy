/** Conversion between non-negative integers and their hexadecimal
    renderings. `Dec2Hex` renders a number with the sixteen lowercase digits
    of `Table`, most significant digit first and without leading zeros, and
    fails on a negative number, which indexes the table out of bounds;
    `Hex2Dec` reads a rendering back by adding up each digit times its
    power of sixteen. Integers are mathematical integers here. */
module BasicConverter {

  /** The sixteen digits, indexed by their values. */
  const Table: string := "0123456789abcdef"

  /** The entry of `Table` at `k`, spelled arithmetically (`DigitTable`
      proves the two agree): `'0'` to `'9'`, then `'a'` to `'f'`. */
  function DigitChar(k: int): char
    requires 0 <= k < 16
  {
    if k < 10 then ('0' as int + k) as char else ('a' as int + k - 10) as char
  }

  /** `ch` is one of the sixteen digits of `Table` (`TableDigits` proves
      that this is membership in `Table`). */
  predicate IsHexDigit(ch: char) {
    '0' <= ch <= '9' || 'a' <= ch <= 'f'
  }

  /** Every character of `s` is one of the sixteen digits. */
  predicate HexDigits(s: string) {
    forall i :: 0 <= i < |s| ==> IsHexDigit(s[i])
  }

  /** `s` does not start with a zero, unless it is the single digit zero. */
  predicate NoLeadingZero(s: string) {
    |s| >= 1 && (s[0] == '0' ==> |s| == 1)
  }

  /** What `dec2Hex` gives back: the rendering, or the exception of a table
      lookup at a negative index. */
  datatype Converted = Hex(digits: string) | IndexOutOfBounds

  /** The rendering of a non-negative `d`: the table entry of `d` below
      sixteen, otherwise the rendering of `d / 16` followed by the table
      entry of `d % 16`. */
  function Render(d: int): (s: string)
    requires d >= 0
    ensures HexDigits(s) && NoLeadingZero(s)
    ensures d < 16 ==> s == [DigitChar(d)]
    ensures d >= 16 ==> s[0] != '0'
  {
    if d < 16 then [DigitChar(d)]
    else Render(d / 16) + [DigitChar(d % 16)]
  }

  /** A negative number goes straight to the single-digit branch and indexes
      the table below 0; every other number is rendered. The rendering reads
      back as the number. */
  function Dec2Hex(d: int): (r: Converted)
    ensures r.IndexOutOfBounds? <==> d < 0
    ensures r.Hex? ==> HexDigits(r.digits) && NoLeadingZero(r.digits) && HexValue(r.digits) == d
  {
    if d < 0 then IndexOutOfBounds
    else
      RoundTrip(d);
      Hex(Render(d))
  }

  /** The numeric value of a character, as the Java library gives it for
      ASCII: the decimal digits are worth 0 to 9, the letters of either case
      10 to 35, and every other character -1. */
  function Digit(c: char): int {
    if '0' <= c <= '9' then c as int - '0' as int
    else if 'a' <= c <= 'z' then c as int - 'a' as int + 10
    else if 'A' <= c <= 'Z' then c as int - 'A' as int + 10
    else -1
  }

  /** `DigitChar` is the entry of `Table`, and `Digit` reads back exactly
      the position of a digit in `Table`. */
  lemma DigitTable()
    ensures forall k :: 0 <= k < 16 ==> Table[k] == DigitChar(k) && IsHexDigit(DigitChar(k)) && Digit(DigitChar(k)) == k
    ensures forall c :: IsHexDigit(c) ==> 0 <= Digit(c) < 16 && DigitChar(Digit(c)) == c
  {
    forall k | 0 <= k < 16
      ensures Table[k] == if k < 10 then ('0' as int + k) as char else ('a' as int + k - 10) as char
    {
    }
  }

  /** The sixteen digits are exactly the characters of `Table`. */
  lemma TableDigits()
    ensures forall c :: c in Table <==> IsHexDigit(c)
  {
    DigitTable();
    forall c | IsHexDigit(c)
      ensures c in Table
    {
      assert Table[Digit(c)] == c;
    }
  }

  /** `b` to the power `e`. */
  function Pow(b: nat, e: nat): (p: nat)
    ensures b >= 1 ==> p >= 1
  {
    if e == 0 then 1 else b * Pow(b, e - 1)
  }

  /** The value a string of digits denotes, read most significant digit
      first: the value of all but the last digit, times sixteen, plus the
      last digit. The empty string denotes 0. */
  function HexValue(s: string): int {
    if s == [] then 0 else HexValue(s[..|s| - 1]) * 16 + Digit(s[|s| - 1])
  }

  /** The sum the reading loop has built after its first `i` steps: each of
      the first `i` digits times sixteen to the power of the number of
      digits after it. */
  function WeightedSum(s: string, i: nat): int
    requires i <= |s|
  {
    if i == 0 then 0 else WeightedSum(s, i - 1) + Digit(s[i - 1]) * Pow(16, |s| - i)
  }

  /** Reads the digits of `hexadecimal` from first to last, adding each
      digit's value times sixteen to the power of its distance from the
      end. */
  method Hex2Dec(hexadecimal: string) returns (result: int)
    ensures result == HexValue(hexadecimal)
  {
    result := 0;
    var n := |hexadecimal|;
    for i := 0 to n
      invariant result == WeightedSum(hexadecimal, i)
    {
      var value := Digit(hexadecimal[i]);
      result := result + value * Pow(16, n - 1 - i);
    }
    WeightedSumValue(hexadecimal);
  }

  /** Appending a digit multiplies the weight of every earlier digit by
      sixteen. */
  lemma {:induction false} WeightedSumAppend(p: string, c: char, i: nat)
    requires i <= |p|
    ensures WeightedSum(p + [c], i) == 16 * WeightedSum(p, i)
  {
    if i > 0 {
      WeightedSumAppend(p, c, i - 1);
      assert (p + [c])[i - 1] == p[i - 1];
      assert Pow(16, |p| + 1 - i) == 16 * Pow(16, |p| - i);
    }
  }

  /** The sum of weighted digits is the value of the string. */
  lemma {:induction false} WeightedSumValue(s: string)
    ensures WeightedSum(s, |s|) == HexValue(s)
  {
    if s != [] {
      var p, c := s[..|s| - 1], s[|s| - 1];
      assert s == p + [c];
      WeightedSumValue(p);
      WeightedSumAppend(p, c, |p|);
    }
  }

  /** Reading a rendering back gives the number rendered. */
  lemma {:induction false} RoundTrip(d: int)
    requires d >= 0
    ensures HexValue(Render(d)) == d
  {
    DigitTable();
    if d >= 16 {
      var s := Render(d);
      RoundTrip(d / 16);
      assert s[..|s| - 1] == Render(d / 16);
    }
  }

  /** A string of digits denotes a non-negative value, and a positive one
      when its first digit is not zero. */
  lemma {:induction false} HexValueBounds(s: string)
    requires HexDigits(s)
    ensures HexValue(s) >= 0
    ensures |s| >= 1 && s[0] != '0' ==> HexValue(s) >= 1
  {
    DigitTable();
    if s != [] {
      var p := s[..|s| - 1];
      assert HexDigits(p) by {
        forall i | 0 <= i < |p| ensures IsHexDigit(p[i]) {
          assert p[i] == s[i];
        }
      }
      HexValueBounds(p);
      if |s| == 1 {
        assert IsHexDigit(s[0]);
      } else {
        assert p[0] == s[0];
      }
    }
  }

  /** One more low digit: rendering `16 * q + k` appends the digit for `k` to the rendering of `q`. */
  lemma RenderStep(q: int, k: int)
    requires q >= 1 && 0 <= k < 16
    ensures Render(16 * q + k) == Render(q) + [DigitChar(k)]
  {
    var d := 16 * q + k;
    assert d / 16 == q && d % 16 == k;
    assert Render(d) == Render(d / 16) + [DigitChar(d % 16)];
  }

  /** A non-negative number converts to its rendering. */
  lemma ConvertsToRendering(d: int)
    requires d >= 0
    ensures Dec2Hex(d) == Hex(Render(d))
  {
  }

  /** The rendering is the only string of digits without a leading zero
      that denotes `d`: it is the standard lowercase hexadecimal rendering. */
  lemma {:induction false} RenderingUnique(s: string, d: int)
    requires HexDigits(s) && NoLeadingZero(s) && HexValue(s) == d
    ensures d >= 0 && s == Render(d) && Dec2Hex(d) == Hex(s)
  {
    if |s| == 1 {
      RenderOneDigit(s);
    } else {
      var p := s[..|s| - 1];
      SplitLastDigit(s);
      assert p[0] == s[0];
      HexValueBounds(p);
      RenderingUnique(p, HexValue(p));
      RenderAppend(p, s[|s| - 1], HexValue(p));
    }
    ConvertsToRendering(d);
  }

  /** A single digit is the rendering of its value. */
  lemma RenderOneDigit(s: string)
    requires HexDigits(s) && |s| == 1
    ensures HexValue(s) >= 0 && s == Render(HexValue(s))
  {
    SplitLastDigit(s);
    var k := Digit(s[0]);
    assert s[..0] == [];
    assert s == [DigitChar(k)];
  }

  /** Appending a digit to the rendering of a positive `q` gives the
      rendering of sixteen times `q` plus the digit. */
  lemma RenderAppend(p: string, c: char, q: int)
    requires IsHexDigit(c) && q >= 1 && p == Render(q)
    ensures p + [c] == Render(16 * q + Digit(c))
  {
    DigitOf(c);
    RenderStep(q, Digit(c));
  }

  /** A string of digits is its prefix of digits followed by one digit,
      worth sixteen times the prefix plus that digit. */
  lemma SplitLastDigit(s: string)
    requires HexDigits(s) && s != []
    ensures HexDigits(s[..|s| - 1])
    ensures 0 <= Digit(s[|s| - 1]) < 16 && DigitChar(Digit(s[|s| - 1])) == s[|s| - 1]
    ensures HexValue(s) == 16 * HexValue(s[..|s| - 1]) + Digit(s[|s| - 1])
    ensures s == s[..|s| - 1] + [s[|s| - 1]]
  {
    LastSplit(s);
    var p, c := s[..|s| - 1], s[|s| - 1];
    assert HexDigits(p) by {
      forall i | 0 <= i < |p| ensures IsHexDigit(p[i]) {
        assert p[i] == s[i];
      }
    }
    assert IsHexDigit(c);
    DigitOf(c);
  }

  /** The value of a digit is its position in `Table`. */
  lemma DigitOf(c: char)
    requires IsHexDigit(c)
    ensures 0 <= Digit(c) < 16 && DigitChar(Digit(c)) == c
  {
    DigitTable();
  }

  /** A non-empty string is its prefix followed by its last character. */
  lemma LastSplit(s: string)
    requires s != []
    ensures s == s[..|s| - 1] + [s[|s| - 1]]
  {
  }
}
