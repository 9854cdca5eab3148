/** The values a panel-state attribute holds: `nil`, a Boolean, an Integer,
    a Float or a String, with Ruby's `==` and `to_s` on them. */
module RubyValues {
  import opened Decimal

  /** `Float(h)` is the Ruby Float equal to h/100: the only Floats the panel
      produces are throttle settings in hundredths. */
  datatype Value =
    | Nil
    | Bool(b: bool)
    | Int(i: int)
    | Float(hundredths: int)
    | Str(s: string)

  /** Ruby's `==`: Integer and Float compare numerically (`1 == 1.0`), values
      of other different classes are never equal, `nil == nil`. */
  predicate Eq(x: Value, y: Value)
  {
    match (x, y)
    case (Nil, Nil) => true
    case (Bool(a), Bool(b)) => a == b
    case (Int(a), Int(b)) => a == b
    case (Int(a), Float(h)) => 100 * a == h
    case (Float(h), Int(a)) => h == 100 * a
    case (Float(h), Float(k)) => h == k
    case (Str(a), Str(b)) => a == b
    case _ => false
  }

  /** Ruby's `==` on these values is an equivalence relation that never
      equates `nil` with anything else. */
  lemma EqIsEquivalence(x: Value, y: Value, z: Value)
    ensures Eq(x, x)
    ensures Eq(x, y) ==> Eq(y, x)
    ensures Eq(x, y) && Eq(y, z) ==> Eq(x, z)
    ensures Eq(x, y) ==> (x.Nil? <==> y.Nil?)
  {
  }

  /** `Float#to_s` for h/100: the integer part, a point, and the fraction
      without trailing zeros but with at least one digit. */
  function FloatToS(h: int): string
  {
    var m := if h < 0 then -h else h;
    var r := m % 100;
    var fraction :=
      if r == 0 then "0"
      else if r % 10 == 0 then [DigitChar(r / 10)]
      else [DigitChar(r / 10), DigitChar(r % 10)];
    (if h < 0 then "-" else "") + NatToS(m / 100) + "." + fraction
  }

  /** `to_s`. */
  function ToS(v: Value): string
  {
    match v
    case Nil => ""
    case Bool(b) => if b then "true" else "false"
    case Int(i) => IntToS(i)
    case Float(h) => FloatToS(h)
    case Str(s) => s
  }

  /** A whole Float prints as its integer followed by ".0". */
  lemma FloatToSWhole(h: nat)
    requires h % 100 == 0
    ensures FloatToS(h) == NatToS(h / 100) + ".0"
  {
  }

  /** A fractional Float below 1 prints as "0." followed by one digit when
      the hundredths digit is 0 and two digits otherwise. */
  lemma FloatToSBelowOne(h: nat)
    requires 0 < h < 100
    ensures FloatToS(h) == if h % 10 == 0 then ['0', '.', DigitChar(h / 10)]
                           else ['0', '.', DigitChar(h / 10), DigitChar(h % 10)]
  {
  }

  function Pow2(i: nat): (p: nat)
    ensures p >= 1
  {
    if i == 0 then 1 else 2 * Pow2(i - 1)
  }

  /** `(n & (1 << i)) != 0`: bit i of n in two's complement. Dafny's `/` and
      `%` by 2 round toward negative infinity, so halving is Ruby's
      arithmetic shift `n >> 1` for negative n as well. */
  predicate Bit(n: int, i: nat)
    decreases i
  {
    if i == 0 then n % 2 == 1 else Bit(n / 2, i - 1)
  }

  /** Every one of the low k bits of 2^k - 1 is set. */
  lemma {:induction false} AllOnes(k: nat, i: nat)
    requires i < k
    ensures Bit(Pow2(k) - 1, i)
  {
    if i > 0 {
      AllOnes(k - 1, i - 1);
      assert (Pow2(k) - 1) / 2 == Pow2(k - 1) - 1;
    }
  }

  /** No bit of 0 is set. */
  lemma {:induction false} NoBitsOfZero(i: nat)
    ensures !Bit(0, i)
  {
    if i > 0 {
      NoBitsOfZero(i - 1);
    }
  }
}
