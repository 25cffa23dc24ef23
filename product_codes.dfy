/** The product code of `MemStorage.generateProductCode`: the prefix `RY-`
    followed by the decimal rendering of the id, left-padded with '0' to at
    least four characters. Longer renderings are kept whole. */
module ProductCodes {
  import opened Wrappers

  const Prefix: string := "RY-"
  const Width: nat := 4

  predicate IsDigit(c: char) {
    '0' <= c <= '9'
  }

  predicate AllDigits(s: string) {
    forall i :: 0 <= i < |s| ==> IsDigit(s[i])
  }

  function DigitChar(d: nat): (c: char)
    requires d < 10
    ensures IsDigit(c) && DigitValue(c) == d
  {
    "0123456789"[d]
  }

  function DigitValue(c: char): nat
    requires IsDigit(c)
  {
    c as int - '0' as int
  }

  /** `String(n)` for a non-negative integer: its decimal digits, most
      significant first (see DecimalDigits). */
  function Decimal(n: nat): string {
    if n < 10 then [DigitChar(n)] else Decimal(n / 10) + [DigitChar(n % 10)]
  }

  /** The value of a string of decimal digits; leading zeros add nothing. */
  function DecimalValue(s: string): nat
    requires AllDigits(s)
  {
    if s == [] then 0 else DecimalValue(s[..|s| - 1]) * 10 + DigitValue(s[|s| - 1])
  }

  function Repeat(c: char, k: nat): string {
    if k == 0 then [] else [c] + Repeat(c, k - 1)
  }

  /** `s.padStart(width, c)` with a one-character pad string (see PadStartShape). */
  function PadStart(s: string, width: nat, c: char): string {
    if |s| >= width then s else Repeat(c, width - |s|) + s
  }

  /** `generateProductCode(id)` */
  function ProductCode(id: nat): string {
    Prefix + PadStart(Decimal(id), Width, '0')
  }

  /** Reads an id back from a product code: the inverse of ProductCode. */
  function ParseProductCode(code: string): Option<nat> {
    if |code| > |Prefix| && code[..|Prefix|] == Prefix && AllDigits(code[|Prefix|..])
    then Some(DecimalValue(code[|Prefix|..]))
    else None
  }

  function Pow10(k: nat): (p: nat)
    ensures p >= 1
  {
    if k == 0 then 1 else 10 * Pow10(k - 1)
  }

  /** `String(n)` is a non-empty string of decimal digits with no leading
      zero unless `n` is 0. */
  lemma {:induction false} DecimalDigits(n: nat)
    ensures 1 <= |Decimal(n)| && AllDigits(Decimal(n))
    ensures n >= 10 ==> Decimal(n)[0] != '0'
  {
    if n >= 10 {
      DecimalDigits(n / 10);
    }
  }

  lemma {:induction false} RepeatShape(c: char, k: nat)
    ensures |Repeat(c, k)| == k && forall i :: 0 <= i < k ==> Repeat(c, k)[i] == c
  {
    if k > 0 {
      RepeatShape(c, k - 1);
    }
  }

  /** `padStart` yields max(width, |s|) characters: the pad character
      repeated, then `s` itself. */
  lemma PadStartShape(s: string, width: nat, c: char)
    ensures var r := PadStart(s, width, c);
      && |r| == (if |s| >= width then |s| else width)
      && r[|r| - |s|..] == s
      && forall i :: 0 <= i < |r| - |s| ==> r[i] == c
  {
    if |s| < width {
      RepeatShape(c, width - |s|);
    }
  }

  /** Reading back the digits of `String(n)` gives `n`. */
  lemma {:induction false} DecimalRoundTrip(n: nat)
    ensures AllDigits(Decimal(n)) && DecimalValue(Decimal(n)) == n
  {
    DecimalDigits(n);
    var s := Decimal(n);
    if n >= 10 {
      DecimalRoundTrip(n / 10);
      assert s[..|s| - 1] == Decimal(n / 10);
    }
  }

  lemma {:induction false} ZerosValue(k: nat)
    ensures AllDigits(Repeat('0', k)) && DecimalValue(Repeat('0', k)) == 0
  {
    RepeatShape('0', k);
    if k > 0 {
      var z := Repeat('0', k);
      ZerosValue(k - 1);
      RepeatShape('0', k - 1);
      assert z[..k - 1] == Repeat('0', k - 1);
    }
  }

  lemma {:induction false} LeadingZerosIgnored(k: nat, s: string)
    requires AllDigits(s)
    ensures AllDigits(Repeat('0', k) + s)
    ensures DecimalValue(Repeat('0', k) + s) == DecimalValue(s)
  {
    RepeatShape('0', k);
    var z := Repeat('0', k);
    if s == [] {
      ZerosValue(k);
      assert z + s == z;
    } else {
      LeadingZerosIgnored(k, s[..|s| - 1]);
      assert (z + s)[..|z + s| - 1] == z + s[..|s| - 1];
    }
  }

  /** Decoding a product code gives back the id it was generated from. */
  lemma ProductCodeRoundTrip(id: nat)
    ensures ParseProductCode(ProductCode(id)) == Some(id)
  {
    var d := Decimal(id);
    var padded := PadStart(d, Width, '0');
    var code := ProductCode(id);
    DecimalRoundTrip(id);
    assert code[..|Prefix|] == Prefix;
    assert code[|Prefix|..] == padded;
    if |d| < Width {
      LeadingZerosIgnored(Width - |d|, d);
    }
  }

  /** Distinct ids never share a product code. */
  lemma ProductCodeInjective(a: nat, b: nat)
    requires ProductCode(a) == ProductCode(b)
    ensures a == b
  {
    ProductCodeRoundTrip(a);
    ProductCodeRoundTrip(b);
  }

  /** `String(n)` has at most `k` digits exactly when `n < 10^k`. */
  lemma {:induction false} DecimalLength(n: nat, k: nat)
    requires k >= 1
    ensures |Decimal(n)| <= k <==> n < Pow10(k)
  {
    if n >= 10 && k > 1 {
      DecimalLength(n / 10, k - 1);
    } else if n >= 10 {
      assert |Decimal(n)| == |Decimal(n / 10)| + 1;
    }
  }

  /** Ids below 10000 are padded to exactly four digits; larger ids are
      rendered in full, never truncated. */
  lemma ProductCodeLayout(id: nat)
    ensures ProductCode(id)[..|Prefix|] == Prefix
    ensures id < 10000 ==> |ProductCode(id)| == |Prefix| + Width
    ensures id >= 10000 ==> ProductCode(id) == Prefix + Decimal(id)
    ensures ProductCode(id)[|ProductCode(id)| - |Decimal(id)|..] == Decimal(id)
  {
    DecimalLength(id, Width);
    DecimalDigits(id);
    PadStartShape(Decimal(id), Width, '0');
    assert Pow10(Width) == 10000;
  }

  /** The codes of the five seeded products. */
  lemma SeedCodes()
    ensures ProductCode(1) == "RY-0001"
    ensures ProductCode(2) == "RY-0002"
    ensures ProductCode(3) == "RY-0003"
    ensures ProductCode(4) == "RY-0004"
    ensures ProductCode(5) == "RY-0005"
  {
    RepeatShape('0', 3);
    assert Repeat('0', 3) == "000";
  }
}
