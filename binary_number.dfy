/** `generate_binary`: four random bits as a string, and that string read in base 2. */
module BinaryNumber {
  import opened Wrappers

  function Pow2(n: nat): nat
  {
    if n == 0 then 1 else 2 * Pow2(n - 1)
  }

  predicate IsBinaryDigit(c: char)
  {
    c == '0' || c == '1'
  }

  /** A non-empty string of binary digits. */
  predicate IsBinaryDigits(s: string)
  {
    |s| > 0 && forall i :: 0 <= i < |s| ==> IsBinaryDigit(s[i])
  }

  /** The value of a string of binary digits, most significant digit first. */
  function DigitsValue(s: string): (v: nat)
    requires forall i :: 0 <= i < |s| ==> IsBinaryDigit(s[i])
    ensures v < Pow2(|s|)
  {
    if s == [] then 0
    else 2 * DigitsValue(s[..|s| - 1]) + (if s[|s| - 1] == '1' then 1 else 0)
  }

  /**
   * `int(s, 2)` restricted to plain digit strings: `Some` exactly on non-empty
   * strings of ASCII `0` and `1`, `None` on everything else, including some
   * forms `int` accepts (surrounding whitespace, a sign, underscores, a `0b`
   * prefix, non-ASCII decimal digits).
   */
  function ParseBase2(s: string): (r: Option<nat>)
    ensures r.Some? <==> IsBinaryDigits(s)
    ensures r.Some? ==> r.value < Pow2(|s|)
  {
    if IsBinaryDigits(s) then Some(DigitsValue(s)) else None
  }

  /** The `width` lowest binary digits of `v`, most significant first. */
  function ToBase2(v: nat, width: nat): (s: string)
    ensures |s| == width
    ensures forall i :: 0 <= i < |s| ==> IsBinaryDigit(s[i])
  {
    if width == 0 then []
    else ToBase2(v / 2, width - 1) + [if v % 2 == 1 then '1' else '0']
  }

  lemma {:induction false} ParseToBase2(v: nat, width: nat)
    requires 0 < width && v < Pow2(width)
    ensures ParseBase2(ToBase2(v, width)) == Some(v)
  {
    ToBase2Value(v, width);
  }

  lemma {:induction false} ToBase2Value(v: nat, width: nat)
    requires v < Pow2(width)
    ensures DigitsValue(ToBase2(v, width)) == v
  {
    if width > 0 {
      var s := ToBase2(v, width);
      ToBase2Value(v / 2, width - 1);
      assert s[..|s| - 1] == ToBase2(v / 2, width - 1);
    }
  }

  lemma {:induction false} ToBase2Parse(s: string)
    requires IsBinaryDigits(s)
    ensures ToBase2(ParseBase2(s).value, |s|) == s
  {
    DigitsToBase2(s);
  }

  lemma {:induction false} DigitsToBase2(s: string)
    requires forall i :: 0 <= i < |s| ==> IsBinaryDigit(s[i])
    ensures ToBase2(DigitsValue(s), |s|) == s
  {
    if s != [] {
      var p := s[..|s| - 1];
      DigitsToBase2(p);
      var v := DigitsValue(s);
      assert v / 2 == DigitsValue(p);
      assert s == p + [s[|s| - 1]];
    }
  }

  /** `str(bit)` for a draw of `random.randint(0, 1)`. */
  function DigitOf(bit: nat): (c: char)
    requires bit <= 1
    ensures IsBinaryDigit(c) && (c == '1' <==> bit == 1)
  {
    if bit == 1 then '1' else '0'
  }

  /**
   * `generate_binary` with its four draws of `random.randint(0, 1)` given:
   * the drawn digits joined into a string, and that string's base-2 value,
   * the first draw being the most significant bit.
   */
  function GenerateBinary(draws: seq<nat>): (r: (string, nat))
    requires |draws| == 4 && forall i :: 0 <= i < 4 ==> draws[i] <= 1
    ensures |r.0| == 4 && ParseBase2(r.0) == Some(r.1)
    ensures r.1 < 16
    ensures r.1 == 8 * draws[0] + 4 * draws[1] + 2 * draws[2] + draws[3]
  {
    var bits := seq(4, i requires 0 <= i < 4 => DigitOf(draws[i]));
    assert bits[..1][..0] == [] && bits[..2][..1] == bits[..1] && bits[..3][..2] == bits[..2] && bits[..3] == bits[..|bits| - 1];
    assert DigitsValue(bits[..1]) == draws[0];
    assert DigitsValue(bits[..2]) == 2 * draws[0] + draws[1];
    assert DigitsValue(bits[..3]) == 4 * draws[0] + 2 * draws[1] + draws[2];
    (bits, DigitsValue(bits))
  }
}
