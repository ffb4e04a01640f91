/**
 * Rust's derived `Ord` on `String`: lexicographic comparison, a proper prefix
 * first. Rust compares the UTF-8 bytes, which orders strings exactly as
 * comparing their characters does.
 */
module Ordering {

  predicate StrLess(a: string, b: string)
    decreases |a|
  {
    if |a| == 0 then |b| != 0
    else if |b| == 0 then false
    else if a[0] != b[0] then a[0] < b[0]
    else StrLess(a[1..], b[1..])
  }

  lemma {:induction false} StrLessIrreflexive(a: string)
    ensures !StrLess(a, a)
    decreases |a|
  {
    if |a| != 0 {
      StrLessIrreflexive(a[1..]);
    }
  }

  lemma {:induction false} StrLessTransitive(a: string, b: string, c: string)
    requires StrLess(a, b) && StrLess(b, c)
    ensures StrLess(a, c)
    decreases |a|
  {
    if |a| != 0 && a[0] == b[0] && b[0] == c[0] {
      StrLessTransitive(a[1..], b[1..], c[1..]);
    }
  }

  /** Any two different strings are ordered one way or the other. */
  lemma {:induction false} StrLessTotal(a: string, b: string)
    ensures a == b || StrLess(a, b) || StrLess(b, a)
    decreases |a|
  {
    if |a| != 0 && |b| != 0 && a[0] == b[0] {
      StrLessTotal(a[1..], b[1..]);
      if a[1..] == b[1..] {
        assert a == [a[0]] + a[1..] && b == [b[0]] + b[1..];
      }
    }
  }

  lemma {:induction false} StrLessAsymmetric(a: string, b: string)
    requires StrLess(a, b)
    ensures !StrLess(b, a)
    decreases |a|
  {
    if |a| != 0 && a[0] == b[0] {
      StrLessAsymmetric(a[1..], b[1..]);
    }
  }

  /** A set of strings that is not empty has an element. */
  lemma NonEmptyNames(s: set<string>)
    requires s != {}
    ensures exists x :: x in s
  {
    if forall x :: x !in s {
      assert false;
    }
  }

  /**
   * A finite set of strings has a least element: the one a `BTreeMap` keyed
   * by those strings visits first.
   */
  lemma {:induction false} StrMinExists(s: set<string>)
    requires s != {}
    ensures exists m :: m in s && forall t :: t in s && t != m ==> StrLess(m, t)
    decreases s
  {
    NonEmptyNames(s);
    var x :| x in s;
    var rest := s - {x};
    if rest == {} {
      forall t | t in s ensures t == x {
        assert t !in rest;
      }
    } else {
      StrMinExists(rest);
      var m :| m in rest && forall t :: t in rest && t != m ==> StrLess(m, t);
      StrLessTotal(x, m);
      if StrLess(x, m) {
        forall t | t in s && t != x ensures StrLess(x, t) {
          if t != m {
            assert t in rest;
            StrLessTransitive(x, m, t);
          }
        }
      } else {
        forall t | t in s && t != m ensures StrLess(m, t) {
          if t != x {
            assert t in rest;
          }
        }
      }
    }
  }
}
