/** Facts about sequences that several components share. */
module Sequences {

  lemma AppendAssociates<T>(a: seq<T>, b: seq<T>, c: seq<T>)
    ensures a + (b + c) == a + b + c
  {
  }

  lemma FirstThenRest<T>(s: seq<T>, t: seq<T>)
    requires s != []
    ensures [s[0]] + (s[1..] + t) == s + t
  {
  }

  // The elements that satisfy p, in order.
  function KeepIf<T>(s: seq<T>, p: T -> bool): seq<T>
  {
    if s == [] then [] else (if p(s[0]) then [s[0]] else []) + KeepIf(s[1..], p)
  }

  lemma {:induction false} KeepIfMember<T>(s: seq<T>, p: T -> bool, x: T)
    ensures x in KeepIf(s, p) <==> x in s && p(x)
  {
    if s != [] {
      KeepIfMember(s[1..], p, x);
      assert x in s <==> x == s[0] || x in s[1..];
    }
  }

  // Only what p says of the elements matters.
  lemma {:induction false} KeepIfSame<T>(s: seq<T>, p: T -> bool, q: T -> bool)
    requires forall x :: x in s ==> p(x) == q(x)
    ensures KeepIf(s, p) == KeepIf(s, q)
  {
    if s != [] {
      KeepIfSame(s[1..], p, q);
    }
  }

  lemma {:induction false} KeepIfTwice<T>(s: seq<T>, p: T -> bool, q: T -> bool)
    ensures KeepIf(KeepIf(s, p), q) == KeepIf(s, x => p(x) && q(x))
  {
    if s != [] {
      KeepIfTwice(s[1..], p, q);
      var rest := KeepIf(s[1..], p);
      if p(s[0]) {
        assert ([s[0]] + rest)[1..] == rest;
      } else {
        assert KeepIf(s, p) == rest;
      }
    }
  }

  lemma {:induction false} KeepIfAll<T>(s: seq<T>, p: T -> bool)
    requires forall x :: x in s ==> p(x)
    ensures KeepIf(s, p) == s
  {
    if s != [] {
      KeepIfAll(s[1..], p);
    }
  }

  // The elements that do not satisfy p, in order.
  function Without<T>(s: seq<T>, p: T -> bool): seq<T>
  {
    KeepIf(s, x => !p(x))
  }

  lemma WithoutMember<T>(s: seq<T>, p: T -> bool, x: T)
    ensures x in Without(s, p) <==> x in s && !p(x)
  {
    KeepIfMember(s, y => !p(y), x);
  }

  lemma WithoutMembers<T>(s: seq<T>, p: T -> bool)
    ensures forall x :: x in Without(s, p) <==> x in s && !p(x)
  {
    forall x ensures x in Without(s, p) <==> x in s && !p(x) {
      WithoutMember(s, p, x);
    }
  }

  lemma WithoutAsKeepIf<T>(s: seq<T>, p: T -> bool, keep: T -> bool)
    requires forall x :: x in s ==> keep(x) == !p(x)
    ensures Without(s, p) == KeepIf(s, keep)
  {
    KeepIfSame(s, x => !p(x), keep);
  }

  lemma WithoutSame<T>(s: seq<T>, p: T -> bool, q: T -> bool)
    requires forall x :: x in s ==> p(x) == q(x)
    ensures Without(s, p) == Without(s, q)
  {
    KeepIfSame(s, x => !p(x), x => !q(x));
  }

  // Removing twice removes what either condition selects.
  lemma WithoutTwice<T>(s: seq<T>, p: T -> bool, q: T -> bool, both: T -> bool)
    requires forall x :: x in s ==> both(x) == (p(x) || q(x))
    ensures Without(Without(s, p), q) == Without(s, both)
  {
    var notP, notQ := (x: T) => !p(x), (x: T) => !q(x);
    KeepIfTwice(s, notP, notQ);
    KeepIfSame(s, x => notP(x) && notQ(x), x => !both(x));
  }

  lemma WithoutNone<T>(s: seq<T>, p: T -> bool)
    requires forall x :: x in s ==> !p(x)
    ensures Without(s, p) == s
  {
    KeepIfAll(s, x => !p(x));
  }
}
