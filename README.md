# Units and value display of natpl, in Dafny

This project models the runtime value layer of natpl, a small calculator
language that keeps track of physical units. It covers two parts of
`src/value_unit.rs`.

The first part is the unit algebra. A `Unit` is an ordered map from a
dimension name to an integer exponent. Absent means exponent 0, and no
stored exponent is 0; this is the canonical form. The model includes the
constructors `new` and `new_named`, the `singleton` query, `multiply`,
`divide` and `pow`, and the `Display` of a unit: its entries in key order,
separated by spaces, with `^p` after a name whose exponent is not 1.

The second part is the choice that `Display for ValueKind` makes for a
number. The model computes which of the four renderings is used and how
many fractional digits a fixed-point rendering has. Booleans and function
references are covered too.

Files:

- `names.dfy` (module `Names`): names as strings, with the order the ordered
  map uses. It is proved to be a strict total order, so the first key of a
  set of names exists and is unique.
- `numerals.dfy` (module `Numerals`): decimal text of integers, as Rust's
  `{}` writes an `isize`.
- `units.dfy` (module `Units`): the unit type and its operations. `multiply`
  and `divide` are methods with loops; each is proved equal to a
  specification function, `Product` or `Quotient`. The laws of the algebra
  are lemmas about these functions and about `Pow`.
- `unit_display.dfy` (module `UnitDisplay`): the text of a unit, and the
  proof that this text determines the unit.
- `values.dfy` (module `Values`): value kinds, the number decomposition, and
  `Display`.

Most laws need the canonical form of their operands. Every `Unit` the
program builds is canonical, because the map is private and every operation
keeps the form. `InverseLawNeedsCanonical` shows what goes wrong otherwise:
a stored 0 exponent is lost by multiplying and then dividing. For the same
reason the model proves commutativity only for canonical operands.
Associativity and `divide` = `multiply` by `pow(-1)` need only one operand
to be canonical.

## Model

| member | source | states |
|---|---|---|
| `Units.Extensionality` | src/value_unit.rs:62-65 | Two canonical units are equal exactly when every dimension has the same exponent in both, so the derived equality means dimensional equality. |
| `Units.New` | src/value_unit.rs:68-70 | `new` is canonical, and every dimension has exponent 0 in it. |
| `Units.NewNamed` | src/value_unit.rs:72-76 | `new_named(n)` is canonical, gives `n` exponent 1 and every other dimension exponent 0. |
| `Units.FirstEntry` | src/value_unit.rs:82 | The first entry the iterator yields: absent exactly for an empty map, otherwise an entry of the map whose key is below every other key. |
| `Names.LeastName` | src/value_unit.rs:64 | The first key of a non-empty set of names in map order: a member of the set, below every other member. |
| `Units.Singleton` | src/value_unit.rs:78-89 | `singleton` returns a name exactly when the unit is that name at power 1 and nothing else; otherwise it returns none. |
| `Units.SingletonOfNamed` | src/value_unit.rs:72-89 | `new_named(n).singleton()` is `n`. |
| `Units.SingletonExamples` | src/value_unit.rs:78-89 | `singleton` is none for the empty unit, for `{m: 2}` and for `{m: 1, s: 1}`. |
| `Units.Product` | src/value_unit.rs:91-106 | The result of `multiply`: each exponent is the sum of the operands' exponents, absent meaning 0, and the result is canonical when the left operand is. |
| `Units.Multiply` | src/value_unit.rs:91-106 | The loop over the right operand's entries, in key order, adding or inserting each exponent and removing a zero total, returns exactly `Product`. |
| `Units.Quotient` | src/value_unit.rs:108-123 | The result of `divide`: each exponent is the difference of the operands' exponents, and the result is canonical when the left operand is. |
| `Units.Divide` | src/value_unit.rs:108-123 | The loop that subtracts each exponent of the right operand, or inserts it negated, and removes a zero total, returns exactly `Quotient`. |
| `Units.Pow` | src/value_unit.rs:125-145 | Each exponent of `pow(n)` is the operand's exponent times `n`, computed as scaling by `abs(n)` and then negating when `n < 0`; the result is always canonical. |
| `Units.InverseLaw` | src/value_unit.rs:91-123 | Multiplying a canonical unit by any unit and then dividing by that unit gives back the first unit. |
| `Units.InverseLawNeedsCanonical` | src/value_unit.rs:91-123 | For the non-canonical `{m: 0}`, multiplying by `m` and dividing by `m` does not give it back. |
| `Units.NamedCancel` | src/value_unit.rs:72-123 | `new_named(n)` divided by itself is the dimensionless unit. |
| `Units.NamedSquare` | src/value_unit.rs:72-106 | `new_named(n)` multiplied by itself is exactly `{n: 2}`. |
| `Units.ProductCommutes` | src/value_unit.rs:91-106 | `multiply` is commutative on canonical units. |
| `Units.ProductAssociates` | src/value_unit.rs:91-106 | `multiply` is associative when the leftmost unit is canonical. |
| `Units.PowZero` | src/value_unit.rs:125-145 | `pow(0)` is the dimensionless unit for every unit. |
| `Units.PowOne` | src/value_unit.rs:125-145 | `pow(1)` leaves a canonical unit unchanged. |
| `Units.PowInverseInvolution` | src/value_unit.rs:125-145 | `pow(-1)` applied twice gives back a canonical unit. |
| `Units.PowPow` | src/value_unit.rs:125-145 | `pow(p)` followed by `pow(q)` is `pow(p * q)`, for every unit. |
| `Units.PowDistributes` | src/value_unit.rs:91-145 | `pow(n)` of a product is the product of the `pow(n)`s, for every pair of units. |
| `Units.DivideIsMultiplyByInverse` | src/value_unit.rs:108-145 | Dividing by a canonical unit is the same as multiplying by its `pow(-1)`. |
| `Units.EvalCanonical` | src/value_unit.rs:91-145 | Any finite combination of `multiply`, `divide` and `pow` over canonical units is canonical. |
| `Numerals.NatToString` | src/value_unit.rs:158 | The decimal text of a natural number is a non-empty string of digits without a leading zero (unless it is `0` itself), and its value read back is that number. |
| `Numerals.IntToString` | src/value_unit.rs:158 | The text of an integer is non-empty and consists of digits, with a leading `-` exactly when the integer is negative; the digits after the sign read back as the integer's absolute value and have no leading zero. |
| `Numerals.IntToStringInjective` | src/value_unit.rs:158 | Different integers are written as different texts. |
| `UnitDisplay.SortedEntries` | src/value_unit.rs:150 | The entries a unit's `Display` visits are exactly the entries of the map, each once, in strictly ascending key order. |
| `UnitDisplay.EntryText` | src/value_unit.rs:155-159 | One entry is written as its name, followed by `^` and the decimal exponent exactly when the exponent is not 1; it is the bare name exactly when the exponent is 1. |
| `UnitDisplay.RenderFrom` | src/value_unit.rs:150-160 | The entries from position i on are written as nothing when none are left; otherwise the text of every entry after the first starts with the single space the loop writes before it. |
| `UnitDisplay.RenderFromSpaces` | src/value_unit.rs:150-160 | When no name holds a space, the text of n entries holds exactly n - 1 spaces: one between each pair of neighbours, none inside an entry. |
| `UnitDisplay.Render` | src/value_unit.rs:148-164 | The dimensionless unit is written as the empty string, and a unit with n entries whose names hold no space is written with exactly n - 1 spaces. |
| `UnitDisplay.RenderNew` | src/value_unit.rs:148-164 | The dimensionless unit is written as the empty string. |
| `UnitDisplay.RenderSquare` | src/value_unit.rs:148-164 | `{n: 2}` is written `n^2`. |
| `UnitDisplay.RenderNamedProducts` | src/value_unit.rs:148-164 | `n / n` is written as the empty string and `n * n` as `n^2`. |
| `UnitDisplay.RenderInjective` | src/value_unit.rs:148-164 | When names are non-empty and contain neither a space nor `^`, two units written the same are the same unit: the spaces, the optional `^p` and key order lose nothing. |
| `Values.UsizeSub` | src/value_unit.rs:41 | The `usize` subtraction of the precision is only used where it cannot underflow. |
| `Values.ExpSuffix` | src/value_unit.rs:28-32 | The `x10^exp` suffix is empty exactly when the exponent is 0. |
| `Values.Display` | src/value_unit.rs:21-60 | A function reference is written `<function name>` and a boolean `true` or `false`. A number is written in fixed point exactly when its exponent is in [-3, 4). Its precision is then the number's count of fractional digits, capped at 4 - max(exp, 0), so at most 4 and never negative. Otherwise it is written as the integer digits, then, when there are decimal digits, `.` and the digits as `max_precision(dec, 3)` returns them, then a `x10^exp` suffix that is never empty. |
| `Values.FourDigitsAtExponentZero` | src/value_unit.rs:34-43 | Exponent 0 with four decimal digits gives precision 4. |
| `Values.OneDigitAtExponentMinusTwo` | src/value_unit.rs:44-49 | Exponent -2 with one decimal digit gives precision 3. |
| `Values.WholeNumberAtExponentSix` | src/value_unit.rs:50-51 | A number with no decimal digits at exponent 6 is written `{int}x10^6`. |
| `Values.BoolAndFunctionExamples` | src/value_unit.rs:23-57 | `Bool(true)` is written `true` and `FunctionRef(foo)` `<function foo>`. |

## Left out

- The arbitrary-precision decimal and its normalisation are left out, and so is the fixed-point text the decimal library writes for a given precision. A fixed-point rendering is modelled by its precision alone.
- The scientific-notation decomposition helper is left out. A number is represented by the `(int, dec, exp)` triple that helper returns, so two kinds compare equal when their decompositions do, not their decimal values.
- The digit-limiting helper `max_precision` is not part of this model. It is a function parameter of `Display`, and its result is used as given, so the model does not promise that at most three decimal digits are written.
- `isize` overflow is not modelled. Exponents are unbounded integers, while the source panics or wraps at the `isize` limits in `+=`, `-=`, `*` and `abs`.
- `Units.Multiply` and `Units.Divide` work on an immutable copy: the copy is a `map` value that the loop reassigns, as the source's cloned map is changed in place.
- The name type is a string ordered character by character. Only its order, equality and text matter here.
- Errors from the formatter are left out. Display is a pure function that returns a string or a rendering.
- `Value` has no logic beyond a derived clone, so it is only declared as a datatype.
