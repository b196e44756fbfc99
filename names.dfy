/**
 Dimension and function names, and the order in which a unit's entries are
 kept. A name is a string; the ordered map behind a unit compares names the
 way Rust compares strings: lexicographically, a proper prefix coming first.
 Comparing UTF-8 bytes and comparing code points give the same order, so the
 model compares characters.
 */
module Names {

  type Name = string

  /** Strict lexicographic order on names. */
  predicate NameLess(a: Name, b: Name)
    decreases |a|
  {
    if a == [] then b != []
    else if b == [] then false
    else a[0] < b[0] || (a[0] == b[0] && NameLess(a[1..], b[1..]))
  }

  lemma {:induction false} NameLessIrreflexive(a: Name)
    ensures !NameLess(a, a)
    decreases |a|
  {
    if a != [] {
      NameLessIrreflexive(a[1..]);
    }
  }

  lemma {:induction false} NameLessAsymmetric(a: Name, b: Name)
    ensures NameLess(a, b) ==> !NameLess(b, a)
    decreases |a|
  {
    if a != [] && b != [] && a[0] == b[0] {
      NameLessAsymmetric(a[1..], b[1..]);
    }
  }

  lemma {:induction false} NameLessTransitive(a: Name, b: Name, c: Name)
    requires NameLess(a, b) && NameLess(b, c)
    ensures NameLess(a, c)
    decreases |a|
  {
    if a != [] && a[0] == b[0] && b[0] == c[0] {
      NameLessTransitive(a[1..], b[1..], c[1..]);
    }
  }

  /** Any two distinct names are ordered one way or the other. */
  lemma {:induction false} NameLessTotal(a: Name, b: Name)
    requires a != b
    ensures NameLess(a, b) || NameLess(b, a)
    decreases |a|
  {
    if a != [] && b != [] && a[0] == b[0] {
      assert a == [a[0]] + a[1..] && b == [b[0]] + b[1..];
      NameLessTotal(a[1..], b[1..]);
    }
  }

  /** k is the least name of s. */
  predicate IsLeast(k: Name, s: set<Name>)
  {
    k in s && forall x :: x in s && x != k ==> NameLess(k, x)
  }

  lemma {:induction false} LeastExists(s: set<Name>)
    requires s != {}
    ensures exists k :: IsLeast(k, s)
    decreases |s|
  {
    var x :| x in s;
    if s == {x} {
      assert IsLeast(x, s);
    } else {
      LeastExists(s - {x});
      var m :| IsLeast(m, s - {x});
      NameLessTotal(x, m);
      if NameLess(x, m) {
        forall y | y in s && y != x
          ensures NameLess(x, y)
        {
          if y != m { NameLessTransitive(x, m, y); }
        }
        assert IsLeast(x, s);
      } else {
        assert IsLeast(m, s);
      }
    }
  }

  lemma LeastUnique(s: set<Name>)
    ensures forall k, k' :: IsLeast(k, s) && IsLeast(k', s) ==> k == k'
  {
    forall k, k' | IsLeast(k, s) && IsLeast(k', s)
      ensures k == k'
    {
      NameLessAsymmetric(k, k');
    }
  }

  /** The first name of s in iteration order of an ordered map. */
  function LeastName(s: set<Name>): (k: Name)
    requires s != {}
    ensures k in s
    ensures forall x :: x in s && x != k ==> NameLess(k, x)
  {
    LeastExists(s);
    LeastUnique(s);
    var k :| IsLeast(k, s);
    k
  }
}
