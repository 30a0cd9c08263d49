/** `ascii_to_int`: a text line of '0' and '1' characters read as a 32-bit
    word, the first character being the most significant bit. */
module Ascii {
  import opened Wrappers
  import opened Bits

  /** The number of characters `ascii_to_int` reads. */
  const LineWidth := 32

  /** A line whose first character is '0' or '1': the lines the text
      readers take for words. */
  predicate IsWordLine(line: string)
  {
    |line| > 0 && (line[0] == '0' || line[0] == '1')
  }

  /** `0x080000000 >> i`: what the loop adds for a '1' at character `i`. */
  function Weight(i: nat): nat
  {
    ShiftRight(0x8000_0000, i)
  }

  /** The sum the loop has built after its first `n` turns. */
  function Weighted(line: string, n: nat): nat
    requires n <= |line|
  {
    if n == 0 then 0 else Weighted(line, n - 1) + (if line[n - 1] == '1' then Weight(n - 1) else 0)
  }

  /** What `ascii_to_int` returns; `None` for a line shorter than 32
      characters, on which its indexing raises. */
  function AsciiValue(line: string): Option<nat>
  {
    if |line| < LineWidth then None else Some(Weighted(line, LineWidth))
  }

  /** `ascii_to_int` */
  method AsciiToInt(line: string) returns (result: Option<nat>)
    ensures result == AsciiValue(line)
  {
    var sum := 0;
    var i := 0;
    while i < LineWidth
      invariant i <= LineWidth && i <= |line|
      invariant sum == Weighted(line, i)
    {
      if i >= |line| {
        // `line[i]` raises
        return None;
      }
      if line[i] == '1' {
        var val := ShiftRight(0x8000_0000, i);
        sum := sum + val;
      }
      i := i + 1;
    }
    return Some(sum);
  }

  // ---------------------------------------------------------------------
  // The value as a binary numeral

  /** The first `n` characters read as a binary numeral, most significant
      digit first, where '1' is a one and any other character a zero. */
  function Digits(line: string, n: nat): (v: nat)
    requires n <= |line|
    ensures v < Pow2(n)
  {
    if n == 0 then 0 else 2 * Digits(line, n - 1) + (if line[n - 1] == '1' then 1 else 0)
  }

  /** The low `n` bits of `w` written as '0' and '1', most significant
      first. */
  function Text(w: nat, n: nat): (s: string)
    ensures |s| == n
  {
    if n == 0 then [] else Text(w / 2, n - 1) + [if w % 2 == 1 then '1' else '0']
  }

  /** The weight of character `i` is bit `31 - i`. */
  lemma WeightIsBit(i: nat)
    requires i < LineWidth
    ensures Weight(i) == Pow2(31 - i)
  {
    Pow2Table();
    ShiftPow2(31, i);
  }

  /** After `n` turns the loop holds the first `n` digits, shifted up by
      the `32 - n` digits still to come. */
  lemma {:induction false} WeightedDigits(line: string, n: nat)
    requires n <= LineWidth && n <= |line|
    ensures Weighted(line, n) == Digits(line, n) * Pow2(LineWidth - n)
  {
    if n > 0 {
      WeightedDigits(line, n - 1);
      WeightIsBit(n - 1);
      var d, p := Digits(line, n - 1), Pow2(LineWidth - n);
      assert Pow2(LineWidth - (n - 1)) == 2 * p;
      var b := if line[n - 1] == '1' then 1 else 0;
      Distribute(d, b, p);
    }
  }

  lemma Distribute(d: nat, b: nat, p: nat)
    ensures d * (2 * p) + b * p == (2 * d + b) * p
  {
  }

  /** `ascii_to_int` reads the line as a 32-digit binary numeral, most
      significant digit first, so its value is below 2^32. */
  lemma AsciiIsBinary(line: string)
    requires |line| >= LineWidth
    ensures AsciiValue(line) == Some(Digits(line, LineWidth))
    ensures AsciiValue(line).value < Pow2(32)
  {
    WeightedDigits(line, LineWidth);
  }

  /** Bit `j` of the first `n` digits is set exactly when character
      `n - 1 - j` is '1'. */
  lemma {:induction false} DigitsBit(line: string, n: nat, j: nat)
    requires j < n <= |line|
    ensures Bit(Digits(line, n), j) == if line[n - 1 - j] == '1' then 1 else 0
  {
    var x := Digits(line, n);
    if j == 0 {
      assert Pow2(0) == 1;
    } else {
      DigitsBit(line, n - 1, j - 1);
      BitHalf(x, j - 1);
      assert x / 2 == Digits(line, n - 1);
    }
  }

  /** Bit `j` of the word of a line is character `31 - j`: bit 31, the
      most significant, comes from the first character. */
  lemma AsciiBit(line: string, j: nat)
    requires |line| >= LineWidth && j < LineWidth
    ensures Bit(AsciiValue(line).value, j) == if line[31 - j] == '1' then 1 else 0
  {
    AsciiIsBinary(line);
    DigitsBit(line, LineWidth, j);
  }

  /** The digits read depend only on the first `n` characters. */
  lemma {:induction false} DigitsPrefix(a: string, b: string, n: nat)
    requires n <= |a| && n <= |b| && a[..n] == b[..n]
    ensures Digits(a, n) == Digits(b, n)
  {
    if n > 0 {
      assert a[..n - 1] == a[..n][..n - 1] && b[..n - 1] == b[..n][..n - 1];
      assert a[n - 1] == a[..n][n - 1] && b[n - 1] == b[..n][n - 1];
      DigitsPrefix(a, b, n - 1);
    }
  }

  /** Writing `w` out and reading it back gives its low `n` bits. */
  lemma {:induction false} DigitsText(w: nat, n: nat)
    ensures Digits(Text(w, n), n) == w % Pow2(n)
  {
    if n > 0 {
      var s := Text(w, n);
      DigitsText(w / 2, n - 1);
      assert s[..n - 1] == Text(w / 2, n - 1)[..n - 1];
      DigitsPrefix(s, Text(w / 2, n - 1), n - 1);
      HalfSplit(w, Pow2(n - 1));
    }
  }

  /** A line of '0' and '1' is the numeral of the value read from it. */
  lemma {:induction false} TextDigits(line: string, n: nat)
    requires n <= |line| && forall k :: 0 <= k < n ==> line[k] == '0' || line[k] == '1'
    ensures Text(Digits(line, n), n) == line[..n]
  {
    if n > 0 {
      TextDigits(line, n - 1);
      var d := Digits(line, n - 1);
      var b := if line[n - 1] == '1' then 1 else 0;
      assert (2 * d + b) / 2 == d && (2 * d + b) % 2 == b;
      assert line[..n] == line[..n - 1] + [line[n - 1]];
    }
  }

  /** Round trip from words: every 32-bit word written out as a line is
      read back by `ascii_to_int`. */
  lemma WordRoundTrip(w: nat)
    requires w < Pow2(32)
    ensures AsciiValue(Text(w, LineWidth)) == Some(w)
  {
    AsciiIsBinary(Text(w, LineWidth));
    TextBack(w, LineWidth);
  }

  lemma TextBack(w: nat, n: nat)
    requires w < Pow2(n)
    ensures Digits(Text(w, n), n) == w
  {
    DigitsText(w, n);
    DivUnique(w, Pow2(n), 0, w);
  }

  /** Round trip from lines: a line of 32 '0' and '1' characters is the
      text of the word read from it. */
  lemma LineRoundTrip(line: string)
    requires |line| == LineWidth && forall k :: 0 <= k < |line| ==> line[k] == '0' || line[k] == '1'
    ensures AsciiValue(line).Some? && Text(AsciiValue(line).value, LineWidth) == line
  {
    AsciiIsBinary(line);
    TextDigits(line, LineWidth);
    assert line[..LineWidth] == line;
  }
}
