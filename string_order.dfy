/**
 * The lexicographic order on strings and the least element of a finite
 * non-empty set of strings. Used to pick one directory entry
 * deterministically when several watched entries share a route id.
 */
module StringOrder {

  /** `a` is lexicographically at most `b`. */
  predicate Le(a: string, b: string)
    decreases |a|
  {
    a == [] || (b != [] && (a[0] < b[0] || (a[0] == b[0] && Le(a[1..], b[1..]))))
  }

  lemma {:induction false} LeTotal(a: string, b: string)
    ensures Le(a, b) || Le(b, a)
    decreases |a|
  {
    if a != [] && b != [] && a[0] == b[0] {
      LeTotal(a[1..], b[1..]);
    }
  }

  lemma {:induction false} LeAntisymmetric(a: string, b: string)
    requires Le(a, b) && Le(b, a)
    ensures a == b
    decreases |a|
  {
    if a != [] {
      LeAntisymmetric(a[1..], b[1..]);
      assert a == [a[0]] + a[1..];
      assert b == [b[0]] + b[1..];
    }
  }

  lemma {:induction false} LeTransitive(a: string, b: string, c: string)
    requires Le(a, b) && Le(b, c)
    ensures Le(a, c)
    decreases |a|
  {
    if a != [] && a[0] == b[0] && b[0] == c[0] {
      LeTransitive(a[1..], b[1..], c[1..]);
    }
  }

  lemma LeAntisymmetricAll()
    ensures forall a, b :: Le(a, b) && Le(b, a) ==> a == b
  {
    forall a, b | Le(a, b) && Le(b, a)
      ensures a == b
    {
      LeAntisymmetric(a, b);
    }
  }

  predicate IsLeast(s: set<string>, m: string)
  {
    m in s && forall y :: y in s ==> Le(m, y)
  }

  /** Every finite non-empty set of strings has a least element. */
  lemma {:induction false} LeastExists(s: set<string>)
    requires s != {}
    ensures exists m :: IsLeast(s, m)
    decreases |s|
  {
    var x :| x in s;
    var r := s - {x};
    if r == {} {
      LeTotal(x, x);
      assert s == r + {x};
      assert IsLeast(s, x);
    } else {
      LeastExists(r);
      var m :| IsLeast(r, m);
      LeTotal(m, x);
      if Le(m, x) {
        assert IsLeast(s, m);
      } else {
        forall y | y in s
          ensures Le(x, y)
        {
          if y == x {
            LeTotal(x, x);
          } else {
            LeTransitive(x, m, y);
          }
        }
        assert IsLeast(s, x);
      }
    }
  }

  /** The least element of `s`. */
  function Least(s: set<string>): (m: string)
    requires s != {}
    ensures m in s
    ensures forall y :: y in s ==> Le(m, y)
  {
    LeastExists(s);
    LeAntisymmetricAll();
    var m :| IsLeast(s, m);
    m
  }
}
