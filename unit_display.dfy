/**
 How a unit is written (`impl Display for Unit`): its entries in ascending
 key order, separated by single spaces, each written as the dimension name
 followed by `^p` when the exponent p is not 1.
 */
module UnitDisplay {
  import opened Names
  import opened Numerals
  import opened Units

  predicate StrictlySorted(es: seq<(Name, int)>)
  {
    forall i, j :: 0 <= i < j < |es| ==> NameLess(es[i].0, es[j].0)
  }

  /** The entries of m in the order the ordered map iterates them. */
  function SortedEntries(m: map<Name, int>): (es: seq<(Name, int)>)
    ensures forall k, v :: (k, v) in es <==> k in m && m[k] == v
    ensures StrictlySorted(es)
    ensures |es| == |m|
    decreases |m|
  {
    match FirstEntry(m)
    case None => []
    case Some((k, v)) =>
      var rest := m - {k};
      assert |rest| < |m| by {
        assert rest.Keys == m.Keys - {k};
      }
      [(k, v)] + SortedEntries(rest)
  }

  /**
   One entry: the name, then `^p` unless p is 1. The text starts with the
   name and is the name alone exactly when p is 1.
   */
  function EntryText(e: (Name, int)): (t: string)
    ensures |t| >= |e.0| && t[..|e.0|] == e.0
    ensures t == e.0 <==> e.1 == 1
    ensures e.1 != 1 ==> t[|e.0|] == '^' && t[|e.0| + 1..] == IntToString(e.1)
  {
    if e.1 != 1 then
      var t := e.0 + ("^" + IntToString(e.1));
      assert t[..|e.0|] == e.0 && t[|e.0| + 1..] == IntToString(e.1);
      t
    else
      e.0
  }

  /**
   The text written for the entries from position i on: nothing when there
   are none, otherwise a space before every entry but the first.
   */
  function RenderFrom(es: seq<(Name, int)>, i: nat): (r: string)
    requires i <= |es|
    ensures i == |es| ==> r == []
    ensures 0 < i < |es| ==> r != [] && r[0] == ' '
    decreases |es| - i
  {
    if i == |es| then ""
    else (if i > 0 then " " else "") + EntryText(es[i]) + RenderFrom(es, i + 1)
  }

  /** An entry adds no space to its name. */
  lemma EntryTextSpaces(e: (Name, int))
    ensures multiset(EntryText(e))[' '] == multiset(e.0)[' ']
  {
    if e.1 != 1 {
      var x := IntToString(e.1);
      assert ' ' !in x by {
        assert forall k :: 0 <= k < |x| ==> x[k] != ' ';
      }
      assert multiset(EntryText(e)) == multiset(e.0) + multiset("^") + multiset(x);
    }
  }

  /** The names of es from position i on hold no space. */
  predicate SpaceFreeFrom(es: seq<(Name, int)>, i: nat)
  {
    forall k :: i <= k < |es| ==> ' ' !in es[k].0
  }

  lemma SpacesOfConcat(sep: string, t: string, rest: string, n: nat)
    requires multiset(t)[' '] == 0 && multiset(rest)[' '] == n
    ensures multiset(sep + t + rest)[' '] == multiset(sep)[' '] + n
  {
    assert multiset(sep + t + rest) == multiset(sep) + multiset(t) + multiset(rest);
  }

  /** When the names hold no space, there is exactly one space between each two neighbouring entries. */
  lemma {:induction false} RenderFromSpaces(es: seq<(Name, int)>, i: nat)
    requires i <= |es|
    ensures SpaceFreeFrom(es, i) ==>
      multiset(RenderFrom(es, i))[' '] + (if i == 0 && i < |es| then 1 else 0) == |es| - i
    decreases |es| - i
  {
    if i < |es| && SpaceFreeFrom(es, i) {
      assert SpaceFreeFrom(es, i + 1);
      RenderFromSpaces(es, i + 1);
      EntryTextSpaces(es[i]);
      assert ' ' !in es[i].0;
      SpacesOfConcat(if i > 0 then " " else "", EntryText(es[i]), RenderFrom(es, i + 1), |es| - i - 1);
    }
  }

  /**
   The text `Display` writes for u: empty for the dimensionless unit and,
   when the names hold no space, one space fewer than the unit has entries.
   */
  function Render(u: Unit): (r: string)
    ensures u.parts == map[] ==> r == ""
    ensures (forall k :: k in u.parts ==> ' ' !in k) && u.parts != map[] ==>
      multiset(r)[' '] == |u.parts| - 1
  {
    var es := SortedEntries(u.parts);
    assert forall k :: 0 <= k < |es| ==> es[k].0 in u.parts by {
      forall k | 0 <= k < |es| ensures es[k].0 in u.parts {
        assert es[k] in es;
      }
    }
    RenderFromSpaces(es, 0);
    RenderFrom(es, 0)
  }

  // ---------------------------------------------------------------------
  // Examples

  lemma RenderNew()
    ensures Render(New()) == ""
  {
  }

  /** A dimension squared is written `name^2`. */
  lemma RenderSquare(name: Name)
    ensures Render(Unit(map[name := 2])) == name + "^2"
  {
    var m := map[name := 2];
    assert m - {name} == map[];
    assert FirstEntry(m) == Some((name, 2));
    assert SortedEntries(map[]) == [];
    var es := SortedEntries(m);
    assert es == [(name, 2)];
    assert IntToString(2) == "2";
    assert EntryText(es[0]) == name + "^2";
    assert RenderFrom(es, 1) == "";
  }

  /** `m / m` is written as nothing and `m * m` as `m^2`. */
  lemma RenderNamedProducts(name: Name)
    ensures Render(Quotient(NewNamed(name), NewNamed(name))) == ""
    ensures Render(Product(NewNamed(name), NewNamed(name))) == name + "^2"
  {
    NamedCancel(name);
    NamedSquare(name);
    RenderSquare(name);
  }

  // ---------------------------------------------------------------------
  // The text determines the unit

  /** A name as the language's identifiers are: non-empty, no space and no `^`. */
  predicate IsIdentifier(n: Name)
  {
    n != [] && forall i :: 0 <= i < |n| ==> n[i] != ' ' && n[i] != '^'
  }

  predicate HasIdentifierNames(u: Unit)
  {
    forall k :: k in u.parts ==> IsIdentifier(k)
  }

  /** The characters of s before its first occurrence of sep. */
  function Head(sep: char, s: string): string
  {
    if s == [] || s[0] == sep then [] else [s[0]] + Head(sep, s[1..])
  }

  /** A separator-free text followed by nothing or by the separator is the head of the whole. */
  lemma {:induction false} HeadOfJoin(sep: char, a: string, b: string)
    requires sep !in a
    requires b == [] || b[0] == sep
    ensures Head(sep, a + b) == a
  {
    if a != [] {
      assert (a + b)[0] == a[0];
      assert (a + b)[1..] == a[1..] + b;
      HeadOfJoin(sep, a[1..], b);
    }
  }

  /** Two such texts that are equal split the same way. */
  lemma SplitAtSeparator(sep: char, a: string, b: string, c: string, d: string)
    requires sep !in a && sep !in c
    requires b == [] || b[0] == sep
    requires d == [] || d[0] == sep
    requires a + b == c + d
    ensures a == c && b == d
  {
    HeadOfJoin(sep, a, b);
    HeadOfJoin(sep, c, d);
    assert b == (a + b)[|a|..];
    assert d == (c + d)[|c|..];
  }

  lemma EntryTextInjective(e1: (Name, int), e2: (Name, int))
    requires IsIdentifier(e1.0) && IsIdentifier(e2.0)
    requires EntryText(e1) == EntryText(e2)
    ensures e1 == e2
  {
    var x1 := if e1.1 != 1 then "^" + IntToString(e1.1) else "";
    var x2 := if e2.1 != 1 then "^" + IntToString(e2.1) else "";
    SplitAtSeparator('^', e1.0, x1, e2.0, x2);
    if e1.1 != 1 && e2.1 != 1 {
      assert IntToString(e1.1) == x1[1..];
      IntToStringInjective(e1.1, e2.1);
    }
  }

  lemma EntryTextHasNoSpace(e: (Name, int))
    requires IsIdentifier(e.0)
    ensures EntryText(e) != [] && ' ' !in EntryText(e)
  {
    if e.1 != 1 {
      var t := IntToString(e.1);
      assert forall k :: 0 <= k < |t| ==> t[k] != ' ';
    }
  }

  lemma DropCommonPrefix(p: string, x: string, y: string)
    requires p + x == p + y
    ensures x == y
  {
    assert x == (p + x)[|p|..];
    assert y == (p + y)[|p|..];
  }

  /** Equal texts from i and j on, both preceded by a space or both not, agree after it. */
  lemma DropSeparator(es1: seq<(Name, int)>, i: nat, es2: seq<(Name, int)>, j: nat)
    requires i < |es1| && j < |es2|
    requires (i > 0) == (j > 0)
    requires RenderFrom(es1, i) == RenderFrom(es2, j)
    ensures EntryText(es1[i]) + RenderFrom(es1, i + 1) == EntryText(es2[j]) + RenderFrom(es2, j + 1)
  {
    var sep := if i > 0 then " " else "";
    RenderFromUnfold(es1, i);
    RenderFromUnfold(es2, j);
    DropCommonPrefix(sep, EntryText(es1[i]) + RenderFrom(es1, i + 1), EntryText(es2[j]) + RenderFrom(es2, j + 1));
  }

  lemma RenderFromUnfold(es: seq<(Name, int)>, i: nat)
    requires i < |es|
    ensures RenderFrom(es, i) == (if i > 0 then " " else "") + (EntryText(es[i]) + RenderFrom(es, i + 1))
  {
    ConcatAssociates(if i > 0 then " " else "", EntryText(es[i]), RenderFrom(es, i + 1));
  }

  lemma ConcatAssociates(a: string, b: string, c: string)
    ensures a + b + c == a + (b + c)
  {
  }

  lemma RestStartsWithSpace(es: seq<(Name, int)>, i: nat)
    requires 0 < i <= |es|
    ensures RenderFrom(es, i) == [] || RenderFrom(es, i)[0] == ' '
  {
  }

  /** An entry followed by the text of further entries: both are read back from the whole. */
  lemma FirstEntryDetermined(e1: (Name, int), r1: string, e2: (Name, int), r2: string)
    requires IsIdentifier(e1.0) && IsIdentifier(e2.0)
    requires r1 == [] || r1[0] == ' '
    requires r2 == [] || r2[0] == ' '
    requires EntryText(e1) + r1 == EntryText(e2) + r2
    ensures e1 == e2 && r1 == r2
  {
    EntryTextHasNoSpace(e1);
    EntryTextHasNoSpace(e2);
    SplitAtSeparator(' ', EntryText(e1), r1, EntryText(e2), r2);
    EntryTextInjective(e1, e2);
  }

  /** The text of the entries from i on is empty exactly when there are none. */
  lemma RenderFromEmpty(es: seq<(Name, int)>, i: nat)
    requires i <= |es|
    requires i < |es| ==> IsIdentifier(es[i].0)
    ensures RenderFrom(es, i) == [] <==> i == |es|
  {
    if i < |es| {
      EntryTextHasNoSpace(es[i]);
    }
  }

  lemma SameSuffixes<T>(s1: seq<T>, i: nat, s2: seq<T>, j: nat)
    requires i < |s1| && j < |s2|
    requires s1[i] == s2[j] && s1[i + 1..] == s2[j + 1..]
    ensures s1[i..] == s2[j..]
  {
    assert s1[i..] == [s1[i]] + s1[i + 1..];
    assert s2[j..] == [s2[j]] + s2[j + 1..];
  }

  lemma {:induction false} RenderFromInjective(es1: seq<(Name, int)>, i: nat, es2: seq<(Name, int)>, j: nat)
    requires i <= |es1| && j <= |es2|
    requires (i > 0) == (j > 0)
    requires forall k :: i <= k < |es1| ==> IsIdentifier(es1[k].0)
    requires forall k :: j <= k < |es2| ==> IsIdentifier(es2[k].0)
    requires RenderFrom(es1, i) == RenderFrom(es2, j)
    ensures es1[i..] == es2[j..]
    decreases |es1| - i
  {
    RenderFromEmpty(es1, i);
    RenderFromEmpty(es2, j);
    if i < |es1| {
      var r1, r2 := RenderFrom(es1, i + 1), RenderFrom(es2, j + 1);
      DropSeparator(es1, i, es2, j);
      RestStartsWithSpace(es1, i + 1);
      RestStartsWithSpace(es2, j + 1);
      FirstEntryDetermined(es1[i], r1, es2[j], r2);
      RenderFromInjective(es1, i + 1, es2, j + 1);
      SameSuffixes(es1, i, es2, j);
    }
  }

  /** Units whose names are identifiers are written differently when they differ. */
  lemma RenderInjective(u: Unit, v: Unit)
    requires HasIdentifierNames(u) && HasIdentifierNames(v)
    requires Render(u) == Render(v)
    ensures u == v
  {
    var es1, es2 := SortedEntries(u.parts), SortedEntries(v.parts);
    forall k | 0 <= k < |es1| ensures IsIdentifier(es1[k].0) {
      assert es1[k] in es1;
    }
    forall k | 0 <= k < |es2| ensures IsIdentifier(es2[k].0) {
      assert es2[k] in es2;
    }
    RenderFromInjective(es1, 0, es2, 0);
    assert es1 == es1[0..] && es2 == es2[0..];
    EntriesDetermineUnit(u, v);
  }

  /** Two units whose sorted entries agree are the same unit. */
  lemma EntriesDetermineUnit(u: Unit, v: Unit)
    requires SortedEntries(u.parts) == SortedEntries(v.parts)
    ensures u == v
  {
    var es := SortedEntries(u.parts);
    assert u.parts.Keys == v.parts.Keys by {
      forall k ensures k in u.parts <==> k in v.parts {
        if k in u.parts { assert (k, u.parts[k]) in es; }
        if k in v.parts { assert (k, v.parts[k]) in es; }
      }
    }
    forall k | k in u.parts ensures u.parts[k] == v.parts[k] {
      assert (k, u.parts[k]) in es;
    }
    assert u.parts == v.parts;
  }
}
