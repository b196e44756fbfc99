/**
 The unit algebra of `src/value_unit.rs`: a unit is a product of named base
 dimensions raised to integer powers, stored as a map from dimension name to
 exponent. A name that is absent has exponent 0. The canonical form keeps no
 entry whose exponent is 0, so that two canonical units are equal exactly
 when every dimension has the same exponent in both.
 */
module Units {
  import opened Names

  datatype Option<T> = None | Some(value: T)

  datatype Unit = Unit(parts: map<Name, int>)

  /** No stored exponent is 0. */
  predicate Canonical(u: Unit)
  {
    forall k :: k in u.parts ==> u.parts[k] != 0
  }

  /** The exponent of dimension k in u; an absent dimension has exponent 0. */
  function Exponent(u: Unit, k: Name): int
  {
    if k in u.parts then u.parts[k] else 0
  }

  /** Canonical units are equal exactly when they agree on every exponent. */
  lemma Extensionality(u: Unit, v: Unit)
    requires Canonical(u) && Canonical(v)
    ensures u == v <==> forall k :: Exponent(u, k) == Exponent(v, k)
  {
    if forall k :: Exponent(u, k) == Exponent(v, k) {
      assert u.parts.Keys == v.parts.Keys by {
        forall k ensures k in u.parts <==> k in v.parts {
          assert Exponent(u, k) == Exponent(v, k);
        }
      }
      forall k | k in u.parts ensures u.parts[k] == v.parts[k] {
        assert Exponent(u, k) == Exponent(v, k);
      }
      assert u.parts == v.parts;
    }
  }

  // ---------------------------------------------------------------------
  // Constructors and singleton

  /** `Unit::new`: the dimensionless unit. */
  function New(): (u: Unit)
    ensures Canonical(u)
    ensures forall k :: Exponent(u, k) == 0
  {
    Unit(map[])
  }

  /** `Unit::new_named`: one base dimension at power 1. */
  function NewNamed(name: Name): (u: Unit)
    ensures Canonical(u)
    ensures Exponent(u, name) == 1
    ensures forall k :: k != name ==> Exponent(u, k) == 0
  {
    Unit(New().parts[name := 1])
  }

  /** The first entry in key order, as the ordered map's iterator yields it. */
  function FirstEntry(m: map<Name, int>): (e: Option<(Name, int)>)
    ensures e.None? <==> m == map[]
    ensures e.Some? ==> e.value.0 in m && e.value.1 == m[e.value.0]
    ensures e.Some? ==> forall k :: k in m && k != e.value.0 ==> NameLess(e.value.0, k)
  {
    if m == map[] then None
    else
      assert m.Keys != {} by { var k :| k in m; }
      var k := LeastName(m.Keys);
      Some((k, m[k]))
  }

  /**
   `Unit::singleton`: the name of the only dimension when the unit is exactly
   one dimension at power 1, and nothing otherwise.
   */
  function Singleton(u: Unit): (r: Option<Name>)
    ensures r.Some? ==> u.parts == map[r.value := 1]
    ensures r.None? ==> forall n :: u.parts != map[n := 1]
  {
    if |u.parts| != 1 then None
    else
      match FirstEntry(u.parts)
      case None => None
      case Some((name, p)) =>
        if p != 1 then None
        else
          assert u.parts.Keys == {name} by {
            assert |u.parts.Keys - {name}| == 0;
          }
          Some(name)
  }

  // ---------------------------------------------------------------------
  // Multiply and divide

  /**
   The unit `multiply` returns: every exponent is the sum of the operands'
   exponents; an entry of `b` whose sum is 0 is dropped, the entries of `a`
   that `b` does not mention are kept as they are.
   */
  function Product(a: Unit, b: Unit): (r: Unit)
    ensures forall k :: Exponent(r, k) == Exponent(a, k) + Exponent(b, k)
    ensures Canonical(a) ==> Canonical(r)
  {
    Unit(map k | k in a.parts.Keys + b.parts.Keys && (k in b.parts ==> Exponent(a, k) + b.parts[k] != 0)
               :: Exponent(a, k) + Exponent(b, k))
  }

  /** The unit `divide` returns: as Product, with the exponents of `b` subtracted. */
  function Quotient(a: Unit, b: Unit): (r: Unit)
    ensures forall k :: Exponent(r, k) == Exponent(a, k) - Exponent(b, k)
    ensures Canonical(a) ==> Canonical(r)
  {
    Unit(map k | k in a.parts.Keys + b.parts.Keys && (k in b.parts ==> Exponent(a, k) - b.parts[k] != 0)
               :: Exponent(a, k) - Exponent(b, k))
  }

  /**
   `Unit::multiply`: copies the entries of `a`, then for each entry of `b`,
   in ascending key order, adds its exponent into the copy (inserting it when absent) and removes the
   entry when the total is 0.
   */
  method Multiply(a: Unit, b: Unit) returns (r: Unit)
    ensures r == Product(a, b)
  {
    var parts := a.parts;
    var todo := b.parts.Keys;
    while todo != {}
      invariant todo <= b.parts.Keys
      invariant forall k :: k in parts <==>
        (k in a.parts && (k !in b.parts || k in todo)) ||
        (k in b.parts && k !in todo && Exponent(a, k) + b.parts[k] != 0)
      invariant forall k :: k in parts ==>
        parts[k] == Exponent(a, k) + (if k in b.parts && k !in todo then b.parts[k] else 0)
      decreases todo
    {
      var name := LeastName(todo);
      var val := b.parts[name];
      var total := if name in parts then parts[name] + val else val;
      parts := parts[name := total];
      if total == 0 {
        parts := parts - {name};
      }
      todo := todo - {name};
    }
    r := Unit(parts);
  }

  /**
   `Unit::divide`: as Multiply, subtracting each exponent of `b` (an absent
   entry is inserted as the negated exponent).
   */
  method Divide(a: Unit, b: Unit) returns (r: Unit)
    ensures r == Quotient(a, b)
  {
    var parts := a.parts;
    var todo := b.parts.Keys;
    while todo != {}
      invariant todo <= b.parts.Keys
      invariant forall k :: k in parts <==>
        (k in a.parts && (k !in b.parts || k in todo)) ||
        (k in b.parts && k !in todo && Exponent(a, k) - b.parts[k] != 0)
      invariant forall k :: k in parts ==>
        parts[k] == Exponent(a, k) - (if k in b.parts && k !in todo then b.parts[k] else 0)
      decreases todo
    {
      var name := LeastName(todo);
      var val := b.parts[name];
      var total := if name in parts then parts[name] - val else -val;
      parts := parts[name := total];
      if total == 0 {
        parts := parts - {name};
      }
      todo := todo - {name};
    }
    r := Unit(parts);
  }

  // ---------------------------------------------------------------------
  // Power

  /**
   `Unit::pow`: every exponent is scaled by |n| and negated when n < 0; an
   entry whose scaled exponent is 0 is dropped.
   */
  function Pow(u: Unit, n: int): (r: Unit)
    ensures forall k :: Exponent(r, k) == Exponent(u, k) * n
    ensures Canonical(r)
  {
    var isNeg := n < 0;
    var nAbs := if isNeg then -n else n;
    Unit(map k | k in u.parts && u.parts[k] * nAbs != 0
               :: if isNeg then -(u.parts[k] * nAbs) else u.parts[k] * nAbs)
  }

  // ---------------------------------------------------------------------
  // Laws of the algebra

  /** Multiplying by a unit and dividing by it again gives back a canonical unit. */
  lemma InverseLaw(a: Unit, b: Unit)
    requires Canonical(a)
    ensures Quotient(Product(a, b), b) == a
  {
    Extensionality(Quotient(Product(a, b), b), a);
  }

  /** Without the canonical form the inverse law fails: a stored 0 is lost. */
  lemma InverseLawNeedsCanonical()
    ensures Quotient(Product(Unit(map["m" := 0]), NewNamed("m")), NewNamed("m")) != Unit(map["m" := 0])
  {
    var a := Unit(map["m" := 0]);
    var q := Quotient(Product(a, NewNamed("m")), NewNamed("m"));
    assert Exponent(q, "m") == 0;
    assert "m" !in q.parts;
  }

  /** A dimension divided by itself cancels to the dimensionless unit. */
  lemma NamedCancel(name: Name)
    ensures Quotient(NewNamed(name), NewNamed(name)) == New()
  {
    Extensionality(Quotient(NewNamed(name), NewNamed(name)), New());
  }

  /** A dimension times itself is that dimension squared, and nothing else. */
  lemma NamedSquare(name: Name)
    ensures Product(NewNamed(name), NewNamed(name)) == Unit(map[name := 2])
  {
    Extensionality(Product(NewNamed(name), NewNamed(name)), Unit(map[name := 2]));
  }

  lemma ProductCommutes(a: Unit, b: Unit)
    requires Canonical(a) && Canonical(b)
    ensures Product(a, b) == Product(b, a)
  {
    Extensionality(Product(a, b), Product(b, a));
  }

  lemma ProductAssociates(a: Unit, b: Unit, c: Unit)
    requires Canonical(a)
    ensures Product(Product(a, b), c) == Product(a, Product(b, c))
  {
    var l, r := Product(Product(a, b), c), Product(a, Product(b, c));
    forall k ensures Exponent(l, k) == Exponent(r, k) {
      assert Exponent(l, k) == Exponent(a, k) + Exponent(b, k) + Exponent(c, k);
    }
    Extensionality(l, r);
  }

  /** Any unit to the power 0 is the dimensionless unit. */
  lemma PowZero(u: Unit)
    ensures Pow(u, 0) == New()
  {
    Extensionality(Pow(u, 0), New());
  }

  /** The power 1 leaves a canonical unit unchanged. */
  lemma PowOne(u: Unit)
    requires Canonical(u)
    ensures Pow(u, 1) == u
  {
    Extensionality(Pow(u, 1), u);
  }

  /** Inverting twice gives back a canonical unit. */
  lemma PowInverseInvolution(u: Unit)
    requires Canonical(u)
    ensures Pow(Pow(u, -1), -1) == u
  {
    Extensionality(Pow(Pow(u, -1), -1), u);
  }

  /** Powers compose by multiplying the exponents. */
  lemma PowPow(u: Unit, p: int, q: int)
    ensures Pow(Pow(u, p), q) == Pow(u, p * q)
  {
    var l, r := Pow(Pow(u, p), q), Pow(u, p * q);
    forall k ensures Exponent(l, k) == Exponent(r, k) {
      MulAssociates(Exponent(u, k), p, q);
    }
    Extensionality(l, r);
  }

  lemma MulAssociates(x: int, y: int, z: int)
    ensures (x * y) * z == x * (y * z)
  {
  }

  lemma MulDistributes(x: int, y: int, z: int)
    ensures (x + y) * z == x * z + y * z
  {
  }

  /** A power distributes over a product. */
  lemma PowDistributes(a: Unit, b: Unit, n: int)
    ensures Pow(Product(a, b), n) == Product(Pow(a, n), Pow(b, n))
  {
    var l, r := Pow(Product(a, b), n), Product(Pow(a, n), Pow(b, n));
    forall k ensures Exponent(l, k) == Exponent(r, k) {
      MulDistributes(Exponent(a, k), Exponent(b, k), n);
    }
    Extensionality(l, r);
  }

  /** Dividing by a canonical unit is multiplying by its inverse. */
  lemma DivideIsMultiplyByInverse(a: Unit, b: Unit)
    requires Canonical(b)
    ensures Quotient(a, b) == Product(a, Pow(b, -1))
  {
    var l, r := Quotient(a, b), Product(a, Pow(b, -1));
    assert Pow(b, -1).parts.Keys == b.parts.Keys by {
      forall k ensures k in Pow(b, -1).parts <==> k in b.parts {
        assert Exponent(Pow(b, -1), k) == -Exponent(b, k);
      }
    }
    assert l.parts.Keys == r.parts.Keys;
    forall k | k in l.parts ensures l.parts[k] == r.parts[k] {
      assert Exponent(l, k) == Exponent(r, k);
    }
    assert l.parts == r.parts;
  }

  lemma SingletonOfNamed(name: Name)
    ensures Singleton(NewNamed(name)) == Some(name)
  {
    assert NewNamed(name).parts == map[name := 1];
  }

  lemma SingletonExamples()
    ensures Singleton(New()) == None
    ensures Singleton(Unit(map["m" := 2])) == None
    ensures Singleton(Unit(map["m" := 1, "s" := 1])) == None
  {
    var two := Unit(map["m" := 1, "s" := 1]);
    assert "m" in two.parts && "s" in two.parts;
    assert forall n :: two.parts != map[n := 1];
  }

  // ---------------------------------------------------------------------
  // Canonical form across any sequence of operations

  /** A unit computed from given units by multiply, divide and pow. */
  datatype UnitExpr =
    | Given(u: Unit)
    | Times(left: UnitExpr, right: UnitExpr)
    | Over(left: UnitExpr, right: UnitExpr)
    | Power(base: UnitExpr, n: int)

  function Eval(e: UnitExpr): Unit
  {
    match e
    case Given(u) => u
    case Times(l, r) => Product(Eval(l), Eval(r))
    case Over(l, r) => Quotient(Eval(l), Eval(r))
    case Power(b, n) => Pow(Eval(b), n)
  }

  predicate AllGivenCanonical(e: UnitExpr)
  {
    match e
    case Given(u) => Canonical(u)
    case Times(l, r) => AllGivenCanonical(l) && AllGivenCanonical(r)
    case Over(l, r) => AllGivenCanonical(l) && AllGivenCanonical(r)
    case Power(b, _) => AllGivenCanonical(b)
  }

  /** Starting from canonical units, no sequence of operations produces a 0 exponent. */
  lemma {:induction false} EvalCanonical(e: UnitExpr)
    requires AllGivenCanonical(e)
    ensures Canonical(Eval(e))
  {
    match e
    case Given(_) =>
    case Times(l, _) => EvalCanonical(l);
    case Over(l, _) => EvalCanonical(l);
    case Power(_, _) =>
  }
}
