/** Dictionary order on strings, in which a std::map with string keys is walked. */
module NameOrder {

  predicate Before(a: string, b: string)
  {
    b != "" && (a == "" || a[0] < b[0] || (a[0] == b[0] && Before(a[1..], b[1..])))
  }

  lemma {:induction false} BeforeIrreflexive(a: string)
    ensures !Before(a, a)
  {
    if a != "" {
      BeforeIrreflexive(a[1..]);
    }
  }

  lemma {:induction false} BeforeTransitive(a: string, b: string, c: string)
    requires Before(a, b) && Before(b, c)
    ensures Before(a, c)
  {
    if a != "" && a[0] == b[0] && b[0] == c[0] {
      BeforeTransitive(a[1..], b[1..], c[1..]);
    }
  }

  lemma {:induction false} BeforeTotal(a: string, b: string)
    ensures a == b || Before(a, b) || Before(b, a)
  {
    if a != "" && b != "" && a[0] == b[0] {
      BeforeTotal(a[1..], b[1..]);
      assert a == [a[0]] + a[1..] && b == [b[0]] + b[1..];
    }
  }

  predicate IsFirst(n: string, names: set<string>)
  {
    n in names && forall m :: m in names ==> m == n || Before(n, m)
  }

  lemma {:induction false} SomeIsFirst(names: set<string>)
    requires names != {}
    ensures exists n :: IsFirst(n, names)
    decreases names
  {
    var n :| n in names;
    if names == {n} {
      assert IsFirst(n, names);
    } else {
      var rest := names - {n};
      SomeIsFirst(rest);
      var f :| IsFirst(f, rest);
      BeforeTotal(n, f);
      if Before(n, f) {
        forall m | m in names ensures m == n || Before(n, m) {
          if m != n && m != f {
            BeforeTransitive(n, f, m);
          }
        }
        assert IsFirst(n, names);
      } else {
        assert IsFirst(f, names);
      }
    }
  }

  // The names from n on, once the first names have been taken off one by one.
  lemma FromFirst(all: set<string>, names: set<string>, n: string)
    requires names <= all && IsFirst(n, names)
    requires forall m, k :: m in all - names && k in names ==> Before(m, k)
    ensures names == set m | m in all && !Before(m, n)
  {
    forall m | m in names ensures !Before(m, n) {
      BeforeIrreflexive(n);
      if m != n && Before(m, n) {
        BeforeTransitive(n, m, n);
      }
    }
  }
}
