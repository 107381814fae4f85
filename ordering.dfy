/**
 * The lexicographic order on strings used by Rust's `Ord for String` (Dafny's `<` on
 * sequences is the proper-prefix relation, not this order).
 */
module Ordering {

  /** `a < b` lexicographically. */
  predicate StrLt(a: string, b: string)
  {
    if |a| == 0 then |b| > 0
    else if |b| == 0 then false
    else if a[0] != b[0] then a[0] < b[0]
    else StrLt(a[1..], b[1..])
  }

  /** `a <= b` lexicographically. */
  predicate StrLe(a: string, b: string)
  {
    !StrLt(b, a)
  }

  lemma {:induction false} StrLtIrreflexive(a: string)
    ensures !StrLt(a, a)
  {
    if |a| > 0 {
      StrLtIrreflexive(a[1..]);
    }
  }

  lemma {:induction false} StrLtTransitive(a: string, b: string, c: string)
    requires StrLt(a, b) && StrLt(b, c)
    ensures StrLt(a, c)
  {
    if |a| > 0 && |b| > 0 && |c| > 0 && a[0] == b[0] && b[0] == c[0] {
      StrLtTransitive(a[1..], b[1..], c[1..]);
    }
  }

  /** Two distinct strings are ordered one way or the other. */
  lemma {:induction false} StrLtTotal(a: string, b: string)
    ensures a == b || StrLt(a, b) || StrLt(b, a)
  {
    if |a| > 0 && |b| > 0 && a[0] == b[0] {
      StrLtTotal(a[1..], b[1..]);
      if a[1..] == b[1..] {
        assert a == [a[0]] + a[1..] && b == [b[0]] + b[1..];
      }
    }
  }

  lemma StrLtAsymmetric(a: string, b: string)
    requires StrLt(a, b)
    ensures !StrLt(b, a)
  {
    if StrLt(b, a) {
      StrLtTransitive(a, b, a);
      StrLtIrreflexive(a);
    }
  }

  /** `StrLe` is a total order: reflexive, antisymmetric, transitive and total. */
  lemma StrLeTotalOrder(a: string, b: string, c: string)
    ensures StrLe(a, a)
    ensures StrLe(a, b) && StrLe(b, a) ==> a == b
    ensures StrLe(a, b) && StrLe(b, c) ==> StrLe(a, c)
    ensures StrLe(a, b) || StrLe(b, a)
  {
    StrLtIrreflexive(a);
    StrLtTotal(a, b);
    StrLtTotal(b, c);
    StrLtTotal(a, c);
    if StrLe(a, b) && StrLe(b, c) && StrLt(c, a) {
      if a != b {
        StrLtTransitive(a, b, c);
        StrLtAsymmetric(a, c);
      } else {
        StrLtAsymmetric(c, a);
      }
    }
    if StrLt(a, b) && StrLt(b, a) {
      StrLtAsymmetric(a, b);
    }
  }

  lemma HeadIsMember(s: seq<string>)
    requires s != []
    ensures s[0] in s
  {
  }

  /** The members of a strictly ascending sequence of strings determine it. */
  lemma {:induction false} AscendingUnique(x: seq<string>, y: seq<string>)
    requires forall a, b :: 0 <= a < b < |x| ==> StrLt(x[a], x[b])
    requires forall a, b :: 0 <= a < b < |y| ==> StrLt(y[a], y[b])
    requires forall q :: q in x <==> q in y
    ensures x == y
  {
    if x == [] || y == [] {
      if x != [] {
        HeadIsMember(x);
        assert false;
      } else if y != [] {
        HeadIsMember(y);
        assert false;
      }
    } else {
      assert x[0] in y && y[0] in x;
      var i :| 0 <= i < |x| && x[i] == y[0];
      var j :| 0 <= j < |y| && y[j] == x[0];
      if i > 0 && j > 0 {
        assert StrLt(x[0], y[0]) && StrLt(y[0], x[0]);
        StrLtAsymmetric(x[0], y[0]);
      }
      assert x[0] == y[0];
      forall q
        ensures q in x[1..] <==> q in y[1..]
      {
        if q in x[1..] {
          var k :| 1 <= k < |x| && x[k] == q;
          assert StrLt(x[0], q) && q in y;
          StrLtIrreflexive(q);
          var m :| 0 <= m < |y| && y[m] == q;
          assert m != 0 && y[1..][m - 1] == q;
        }
        if q in y[1..] {
          var k :| 1 <= k < |y| && y[k] == q;
          assert StrLt(y[0], q) && q in x;
          StrLtIrreflexive(q);
          var m :| 0 <= m < |x| && x[m] == q;
          assert m != 0 && x[1..][m - 1] == q;
        }
      }
      AscendingUnique(x[1..], y[1..]);
      assert x == [x[0]] + x[1..] && y == [y[0]] + y[1..];
    }
  }
}
