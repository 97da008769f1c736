// Helpers of trees/binarytrees/utils.go: `intMax`, the two layout constants of
// the sideways renderer, the indentation prefix it builds, and the decimal
// rendering of a key that `fmt.Fprintf("%d")` produces.
module Utils {

  /** `intMax`: the larger of two integers. */
  function IntMax(x: int, y: int): (m: int)
    ensures m >= x && m >= y
    ensures m == x || m == y
  {
    if x > y then x else y
  }

  /** `PrintLevelSeparator`: seven spaces, written once per level of depth. */
  const PrintLevelSeparator: string := "       "

  /** `PrintNode`: the marker written between the indentation and the key. */
  const PrintNode: string := "-["

  /** The prefix `printTree` builds in its loop: the separator `level` times. */
  function Indent(level: nat): (s: string)
    ensures |s| == level * |PrintLevelSeparator|
    ensures forall i :: 0 <= i < |s| ==> s[i] == ' '
  {
    if level == 0 then "" else Indent(level - 1) + PrintLevelSeparator
  }

  /** The smaller of two integers. */
  function IntMin(x: int, y: int): (m: int)
    ensures m <= x && m <= y
    ensures m == x || m == y
  {
    if x < y then x else y
  }

  function DigitChar(d: nat): (c: char)
    requires d < 10
    ensures '0' <= c <= '9'
  {
    (48 + d) as char
  }

  /** Decimal digits of a natural number, most significant first. */
  function NatToDecimal(n: nat): (s: string)
    ensures |s| >= 1 && IsDigits(s)
    ensures (s[0] == '0') == (n == 0)
    decreases n
  {
    if n < 10 then [DigitChar(n)] else NatToDecimal(n / 10) + [DigitChar(n % 10)]
  }

  predicate IsDigits(s: string) {
    forall i :: 0 <= i < |s| ==> '0' <= s[i] <= '9'
  }

  /** The value a string of decimal digits denotes. */
  function DecimalValue(s: string): nat
    requires IsDigits(s)
  {
    if s == [] then 0 else DecimalValue(s[..|s| - 1]) * 10 + (s[|s| - 1] as int - 48)
  }

  /** Reading the digits back gives the number: the rendering loses nothing. */
  lemma {:induction false} DecimalRoundTrip(n: nat)
    ensures DecimalValue(NatToDecimal(n)) == n
    decreases n
  {
    if n >= 10 {
      var s := NatToDecimal(n);
      DecimalRoundTrip(n / 10);
      assert s[..|s| - 1] == NatToDecimal(n / 10);
    }
  }

  /** `%d` of a Go int: a minus sign for negative numbers, then the digits. */
  function IntToDecimal(n: int): (s: string)
    ensures |s| >= 1 && '\n' !in s
  {
    if n < 0 then "-" + NatToDecimal(-n) else NatToDecimal(n)
  }

  /** The rendering of a key carries its sign and, read back, its value;
      its first digit is '0' only for the key 0, so it is the shortest one. */
  lemma IntToDecimalRoundTrip(n: int)
    ensures (IntToDecimal(n)[0] == '-') == (n < 0)
    ensures n >= 0 ==> IsDigits(IntToDecimal(n)) && DecimalValue(IntToDecimal(n)) == n
    ensures n < 0 ==> IsDigits(IntToDecimal(n)[1..]) && DecimalValue(IntToDecimal(n)[1..]) == -n
    ensures n >= 0 ==> (IntToDecimal(n)[0] == '0') == (n == 0)
    ensures n < 0 ==> |IntToDecimal(n)| >= 2 && IntToDecimal(n)[1] != '0'
  {
    DecimalRoundTrip(if n < 0 then -n else n);
    if n < 0 {
      assert IntToDecimal(n)[1..] == NatToDecimal(-n);
    }
  }
}
