/** JavaScript value semantics that the account rules depend on: numeric
    slots that may be missing or `null`, the `||` operator, the
    `toFixed(2)` rounding and the decimal rendering of counts inside
    template strings. */
module JsValues {

  datatype Option<T> = None | Some(value: T)

  /** The value held in a numeric property of a record: the property is
      missing (`undefined`), `null`, or a number. NaN is not modelled. */
  datatype Num = Undefined | Null | Val(x: real)

  /** JavaScript truthiness of such a value: `undefined`, `null` and `0`
      are falsy, every other number (negatives included) is truthy. */
  predicate Truthy(n: Num) {
    n.Val? && n.x != 0.0
  }

  /** `a || b`: the first operand when it is truthy, else the second. */
  function Or(a: Num, b: Num): (r: Num)
    ensures Truthy(a) ==> r == a
    ensures !Truthy(a) ==> r == b
    ensures Truthy(r) <==> Truthy(a) || Truthy(b)
  {
    if Truthy(a) then a else b
  }

  /** `n || 0` read as a number. */
  function OrZero(n: Num): (r: real)
    ensures Or(n, Val(0.0)) == Val(r)
  {
    if Truthy(n) then n.x else 0.0
  }

  /** `x === 0 || x === null`: strict comparisons, so this is falsiness
      except for `undefined`. */
  predicate ZeroOrNull(n: Num): (b: bool)
    ensures b <==> !Truthy(n) && n != Undefined
  {
    n == Val(0.0) || n == Null
  }

  /** Whether `x` is a whole number of cents. */
  predicate IsCents(x: real) {
    (x * 100.0).Floor as real == x * 100.0
  }

  /** `parseFloat(x.toFixed(2))` on exact values: ECMAScript's toFixed
      strips the sign, picks the nearest multiple of 0.01 and on a tie the
      larger one, so halves round away from zero. The result is the unique
      whole number of cents in a half-open interval of width 0.01 around
      `x`, open on the side of zero. */
  function Round2(x: real): (r: real)
    ensures IsCents(r)
    ensures x >= 0.0 ==> x - 0.005 < r <= x + 0.005
    ensures x < 0.0 ==> x - 0.005 <= r < x + 0.005
  {
    if x < 0.0 then
      var n := CentsHalfUp(-x);
      CentsBounds(n, -x);
      -(n as real / 100.0)
    else
      var n := CentsHalfUp(x);
      CentsBounds(n, x);
      n as real / 100.0
  }

  lemma CentsBounds(n: int, y: real)
    requires n as real <= y * 100.0 + 0.5 < n as real + 1.0
    ensures IsCents(n as real / 100.0) && IsCents(-(n as real / 100.0))
    ensures y - 0.005 < n as real / 100.0 <= y + 0.005
  {
    var c := n as real / 100.0;
    assert c * 100.0 == n as real;
    assert -c * 100.0 == -n as real;
    assert (n as real).Floor == n;
    assert (-n as real).Floor == -n;
  }

  /** The nearest whole number of cents to a non-negative amount, ties
      upwards. */
  function CentsHalfUp(y: real): (n: int)
    requires y >= 0.0
    ensures n as real <= y * 100.0 + 0.5 < n as real + 1.0
  {
    (y * 100.0 + 0.5).Floor
  }

  /** Rounding an amount that is already a whole number of cents gives it
      back. */
  lemma Round2OfCents(n: int)
    ensures Round2(n as real / 100.0) == n as real / 100.0
  {
    var x := n as real / 100.0;
    assert x * 100.0 == n as real;
    if n < 0 {
      assert -x * 100.0 + 0.5 == -n as real + 0.5;
      assert CentsHalfUp(-x) == -n;
    } else {
      assert x * 100.0 + 0.5 == n as real + 0.5;
      assert CentsHalfUp(x) == n;
    }
  }

  /** Round2's contract pins it down: any whole number of cents in the
      same half-open interval around `x` is `Round2(x)`. */
  lemma Round2Unique(x: real, r: real)
    requires IsCents(r)
    requires x >= 0.0 ==> x - 0.005 < r <= x + 0.005
    requires x < 0.0 ==> x - 0.005 <= r < x + 0.005
    ensures r == Round2(x)
  {
    var q := Round2(x);
    var a, b := (r * 100.0).Floor, (q * 100.0).Floor;
    assert a as real == r * 100.0 && b as real == q * 100.0;
    assert -1.0 < (a - b) as real < 1.0;
    assert a == b;
  }

  /** The decimal digits of a natural number, as a template literal
      renders it (`${n}`). */
  function NatToString(n: nat): (s: string)
    ensures |s| >= 1 && IsDigits(s)
    ensures n > 0 ==> s[0] != '0'
    decreases n
  {
    if n < 10 then [DigitChar(n)]
    else NatToString(n / 10) + [DigitChar(n % 10)]
  }

  function DigitChar(d: nat): (c: char)
    requires d < 10
    ensures '0' <= c <= '9' && (c as int) - ('0' as int) == d
  {
    (('0' as int) + d) as char
  }

  predicate IsDigits(s: string) {
    forall i :: 0 <= i < |s| ==> '0' <= s[i] <= '9'
  }

  /** The number a string of decimal digits denotes. */
  function DigitsValue(s: string): nat
    requires IsDigits(s)
  {
    if s == [] then 0
    else DigitsValue(s[..|s| - 1]) * 10 + ((s[|s| - 1] as int) - ('0' as int))
  }

  /** Reading back the rendered digits gives the number: the count inside a
      message determines the count. */
  lemma {:induction false} NatToStringRoundTrip(n: nat)
    ensures DigitsValue(NatToString(n)) == n
    decreases n
  {
    if n >= 10 {
      NatToStringRoundTrip(n / 10);
      var s := NatToString(n);
      assert s[..|s| - 1] == NatToString(n / 10);
    }
  }
}
