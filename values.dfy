/**
 Runtime values and how `Display for ValueKind` writes them. A number is
 first normalised and split by an external helper into an integer part, the
 decimal digits and a power-of-ten exponent; the number here is that split.
 Which of four renderings is chosen, and with how many fractional digits,
 depends only on the exponent and the count of decimal digits. The digits a
 fixed-point rendering prints come from the decimal library and are not part
 of this model: a fixed-point result records only its precision.
 */
module Values {
  import opened Names
  import opened Numerals
  import opened Units

  /** A number as the scientific-notation helper splits it: intDigits.decDigits x 10^exp. */
  datatype Decomposition = Decomposition(intDigits: string, decDigits: string, exp: int)

  datatype ValueKind =
    | FunctionRef(name: Name)
    | Number(num: Decomposition)
    | Bool(b: bool)

  /** A fully evaluated result: what it is, and in which unit. */
  datatype Value = Value(kind: ValueKind, unit: Unit)

  /** What is written: a text, or the number in fixed point with the given count of fractional digits. */
  datatype Rendering =
    | Text(text: string)
    | FixedPoint(precision: nat)

  function Min(a: int, b: int): int
  {
    if a <= b then a else b
  }

  function Max(a: int, b: int): int
  {
    if a <= b then b else a
  }

  /** Subtraction of two `usize` values; it would underflow when b > a, so callers must show b <= a. */
  function UsizeSub(a: nat, b: nat): (r: nat)
    requires b <= a
    ensures r + b == a
  {
    a - b
  }

  /** The `x10^exp` suffix, empty when the exponent is 0. */
  function ExpSuffix(exp: int): (s: string)
    ensures s == "" <==> exp == 0
  {
    if exp == 0 then "" else "x10^" + IntToString(exp)
  }

  /** How many digits follow the decimal point when the number is written out in full. */
  function FractionDigits(d: Decomposition): nat
  {
    Max(0, |d.decDigits| - d.exp)
  }

  /**
   `Display for ValueKind`. `maxPrecision` stands for the external helper
   that shortens a digit string to at most the given length.

   For an exponent in [-3, 4) the number is written in fixed point, showing
   all of its fractional digits but at most 4 - max(exp, 0) of them: at most
   four fractional digits, and at most four digits after the leading one.
   Otherwise it is written with a `x10^exp` suffix, which is then never
   empty, and with the decimal digits as `maxPrecision(decDigits, 3)`
   returns them; that helper is meant to keep at most three, but its result
   is used as given.
   */
  function Display(k: ValueKind, maxPrecision: (string, nat) -> string): (r: Rendering)
    ensures k.FunctionRef? ==> r == Text("<function " + k.name + ">")
    ensures k.Bool? ==> r == Text(if k.b then "true" else "false")
    ensures k.Number? ==> (r.FixedPoint? <==> -3 <= k.num.exp < 4)
    ensures k.Number? && r.FixedPoint? ==>
      r.precision == Min(FractionDigits(k.num), 4 - Max(k.num.exp, 0)) && r.precision <= 4
    ensures k.Number? && r.Text? ==>
      r.text == k.num.intDigits
                + (if k.num.decDigits == [] then "" else "." + maxPrecision(k.num.decDigits, 3))
                + "x10^" + IntToString(k.num.exp)
  {
    match k
    case FunctionRef(name) => Text("<function " + name + ">")
    case Bool(b) => Text(if b then "true" else "false")
    case Number(d) =>
      var expStr := ExpSuffix(d.exp);
      if 0 <= d.exp < 4 then
        if |d.decDigits| < d.exp then FixedPoint(0)
        else FixedPoint(UsizeSub(Min(|d.decDigits|, 4), d.exp))
      else if -3 <= d.exp < 0 then
        FixedPoint(Min(|d.decDigits| + (-d.exp), 4))
      else if d.decDigits == [] then
        Text(d.intDigits + expStr)
      else
        Text(d.intDigits + "." + maxPrecision(d.decDigits, 3) + expStr)
  }

  // ---------------------------------------------------------------------
  // Examples

  /** Exponent 0 with four decimal digits: all four are shown. */
  lemma FourDigitsAtExponentZero(intDigits: string, decDigits: string, maxPrecision: (string, nat) -> string)
    requires |decDigits| == 4
    ensures Display(Number(Decomposition(intDigits, decDigits, 0)), maxPrecision) == FixedPoint(4)
  {
  }

  /** Exponent -2 with one decimal digit: three fractional digits. */
  lemma OneDigitAtExponentMinusTwo(intDigits: string, decDigits: string, maxPrecision: (string, nat) -> string)
    requires |decDigits| == 1
    ensures Display(Number(Decomposition(intDigits, decDigits, -2)), maxPrecision) == FixedPoint(3)
  {
  }

  /** A whole number at exponent 6 is written with the suffix alone. */
  lemma WholeNumberAtExponentSix(intDigits: string, maxPrecision: (string, nat) -> string)
    ensures Display(Number(Decomposition(intDigits, "", 6)), maxPrecision) == Text(intDigits + "x10^6")
  {
    assert IntToString(6) == "6";
  }

  lemma BoolAndFunctionExamples(maxPrecision: (string, nat) -> string)
    ensures Display(Bool(true), maxPrecision) == Text("true")
    ensures Display(FunctionRef("foo"), maxPrecision) == Text("<function foo>")
  {
  }
}
