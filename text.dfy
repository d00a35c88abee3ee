/**
 * Decimal rendering of counts and the gallery counter label. JavaScript's
 * template literal `${count}` prints a non-negative integer in plain decimal,
 * which is what DecimalString models.
 */
module Text {
  predicate IsDigit(c: char) {
    '0' <= c <= '9'
  }

  predicate AllDigits(s: string) {
    forall i :: 0 <= i < |s| ==> IsDigit(s[i])
  }

  function DigitChar(d: nat): (c: char)
    requires d < 10
    ensures IsDigit(c) && c as int - '0' as int == d
  {
    ('0' as int + d) as char
  }

  /** The decimal digits of `n`, most significant first, without leading zeros. */
  function DecimalString(n: nat): (s: string)
    ensures |s| >= 1 && AllDigits(s)
    ensures s[0] == '0' ==> n == 0
    decreases n
  {
    if n < 10 then [DigitChar(n)] else DecimalString(n / 10) + [DigitChar(n % 10)]
  }

  /** Reads a string of decimal digits back as a number: the inverse of DecimalString. */
  function ParseDecimal(s: string): nat
    requires AllDigits(s)
  {
    if s == [] then 0
    else 10 * ParseDecimal(s[..|s| - 1]) + (s[|s| - 1] as int - '0' as int)
  }

  lemma {:induction false} ParseDecimalString(n: nat)
    ensures ParseDecimal(DecimalString(n)) == n
    decreases n
  {
    var s := DecimalString(n);
    if n >= 10 {
      assert s[..|s| - 1] == DecimalString(n / 10);
      ParseDecimalString(n / 10);
    }
  }

  lemma DecimalStringInjective(a: nat, b: nat)
    ensures DecimalString(a) == DecimalString(b) ==> a == b
  {
    ParseDecimalString(a);
    ParseDecimalString(b);
  }

  /**
   * The gallery counter label: "1 изображение" for one image, otherwise the
   * count followed by " изображений" (also for 0, 2, 3 and 4, where Russian
   * grammar would want another ending; the label is reproduced as it is).
   * Whatever the count, the label opens with the count in decimal and a space.
   */
  function CounterText(count: nat): (t: string)
    ensures |DecimalString(count)| < |t|
    ensures t[..|DecimalString(count)|] == DecimalString(count)
    ensures t[|DecimalString(count)|] == ' '
  {
    if count == 1 then "1 изображение" else DecimalString(count) + " изображений"
  }

  /** Different counts never produce the same label, so the label always tells the count. */
  lemma CounterTextInjective(a: nat, b: nat)
    ensures CounterText(a) == CounterText(b) ==> a == b
  {
    var t, da, db := CounterText(a), DecimalString(a), DecimalString(b);
    if CounterText(b) == t {
      assert da == t[..|da|] == db;
      DecimalStringInjective(a, b);
    }
  }

  lemma SixImagesLabel()
    ensures CounterText(6) == "6 изображений"
  {
  }

  /** The dimensions text of an uploaded record, e.g. "3000 × 1500". */
  function DimensionsText(width: nat, height: nat): string {
    DecimalString(width) + " × " + DecimalString(height)
  }

  /** The text opens with the width in decimal and a space, and ends with the height in decimal. */
  lemma DimensionsTextShape(width: nat, height: nat)
    ensures var t, a, b := DimensionsText(width, height), DecimalString(width), DecimalString(height);
      |a| + |b| < |t| && t[..|a|] == a && t[|a|] == ' ' && t[|t| - |b|..] == b
  {
  }

  /** Different dimensions never produce the same text: the text tells width and height. */
  lemma DimensionsTextInjective(w1: nat, h1: nat, w2: nat, h2: nat)
    ensures DimensionsText(w1, h1) == DimensionsText(w2, h2) ==> w1 == w2 && h1 == h2
  {
    var t := DimensionsText(w1, h1);
    DimensionsTextShape(w1, h1);
    DimensionsTextShape(w2, h2);
    if DimensionsText(w2, h2) == t {
      var a1, a2 := DecimalString(w1), DecimalString(w2);
      assert a1 == t[..|a1|] == a2;
      DecimalStringInjective(w1, w2);
      var b1, b2 := DecimalString(h1), DecimalString(h2);
      assert |b1| == |t| - |a1| - 3 == |b2|;
      assert b1 == t[|t| - |b1|..] == b2;
      DecimalStringInjective(h1, h2);
    }
  }
}
