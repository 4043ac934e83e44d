/** The ordering `sets.String.List()` returns names in: ascending byte-wise
    lexicographic order. For UTF-8 text, byte order and code-point order
    agree, so the order is stated here on characters. */
module Order {

  /** `a` sorts strictly before `b`. */
  predicate Below(a: string, b: string)
    decreases |a|
  {
    if |b| == 0 then false
    else if |a| == 0 then true
    else if a[0] != b[0] then a[0] < b[0]
    else Below(a[1..], b[1..])
  }

  lemma {:induction false} BelowIrreflexive(a: string)
    ensures !Below(a, a)
    decreases |a|
  {
    if |a| > 0 {
      BelowIrreflexive(a[1..]);
    }
  }

  lemma {:induction false} BelowAsymmetric(a: string, b: string)
    ensures Below(a, b) ==> !Below(b, a)
    decreases |a|
  {
    if |a| > 0 && |b| > 0 && a[0] == b[0] {
      BelowAsymmetric(a[1..], b[1..]);
    }
  }

  lemma {:induction false} BelowTransitive(a: string, b: string, c: string)
    requires Below(a, b) && Below(b, c)
    ensures Below(a, c)
    decreases |a|
  {
    if |a| > 0 && a[0] == b[0] && b[0] == c[0] {
      BelowTransitive(a[1..], b[1..], c[1..]);
    }
  }

  lemma {:induction false} BelowTotal(a: string, b: string)
    ensures a == b || Below(a, b) || Below(b, a)
    decreases |a|
  {
    if |a| > 0 && |b| > 0 && a[0] == b[0] {
      BelowTotal(a[1..], b[1..]);
      if a[1..] == b[1..] {
        assert a == [a[0]] + a[1..] && b == [b[0]] + b[1..];
      }
    }
  }

  /** `m` is the smallest element of `s`. */
  predicate IsLeast(m: string, s: set<string>) {
    m in s && forall y | y in s :: y == m || Below(m, y)
  }

  lemma {:induction false} LeastExists(s: set<string>)
    requires s != {}
    ensures exists m :: IsLeast(m, s)
    decreases s
  {
    var x :| x in s;
    if s != {x} {
      LeastExists(s - {x});
      var m :| IsLeast(m, s - {x});
      BelowTotal(x, m);
      if Below(x, m) {
        forall y | y in s
          ensures y == x || Below(x, y)
        {
          if y != x && y != m {
            BelowTransitive(x, m, y);
          }
        }
        assert IsLeast(x, s);
      } else {
        assert IsLeast(m, s);
      }
    } else {
      assert IsLeast(x, s);
    }
  }

  lemma LeastUnique(m1: string, m2: string, s: set<string>)
    requires IsLeast(m1, s) && IsLeast(m2, s)
    ensures m1 == m2
  {
    BelowAsymmetric(m1, m2);
  }

  /** The smallest element of a non-empty set of names. */
  function Least(s: set<string>): (m: string)
    requires s != {}
    ensures m in s
    ensures forall y | y in s && y != m :: Below(m, y)
  {
    LeastExists(s);
    forall m1, m2 | IsLeast(m1, s) && IsLeast(m2, s)
      ensures m1 == m2
    {
      LeastUnique(m1, m2, s);
    }
    var m :| IsLeast(m, s);
    m
  }

  /** Every earlier element sorts strictly before every later one, hence
      no element occurs twice. */
  predicate StrictlyAscending(xs: seq<string>) {
    forall i, j | 0 <= i < j < |xs| :: Below(xs[i], xs[j])
  }

  lemma AscendingDistinct(xs: seq<string>, i: int, j: int)
    requires StrictlyAscending(xs)
    requires 0 <= i < |xs| && 0 <= j < |xs| && i != j
    ensures xs[i] != xs[j]
  {
    if i < j {
      BelowIrreflexive(xs[i]);
    } else {
      BelowIrreflexive(xs[j]);
    }
  }

  /** The elements of a set of names in ascending order, the counterpart of
      `sets.String.List()`. */
  function SortedList(s: set<string>): (r: seq<string>)
    ensures StrictlyAscending(r)
    ensures forall x :: x in r <==> x in s
    ensures |r| == |s|
    decreases s
  {
    if s == {} then []
    else
      var m := Least(s);
      var rest := SortedList(s - {m});
      [m] + rest
  }

  lemma HeadIsElement<T>(xs: seq<T>)
    ensures xs != [] ==> xs[0] in xs
  {
  }

  /** A strictly ascending list is determined by its elements: two of them
      holding the same names are the same list. */
  lemma {:induction false} AscendingUnique(xs: seq<string>, ys: seq<string>)
    requires StrictlyAscending(xs) && StrictlyAscending(ys)
    requires forall x :: x in xs <==> x in ys
    ensures xs == ys
    decreases |xs|
  {
    if xs != [] && ys != [] {
      var elems := set x | x in xs;
      assert IsLeast(xs[0], elems);
      assert IsLeast(ys[0], elems) by {
        assert ys[0] in xs;
        forall y | y in elems
          ensures y == ys[0] || Below(ys[0], y)
        {
          assert y in ys;
        }
      }
      LeastUnique(xs[0], ys[0], elems);
      forall x
        ensures x in xs[1..] <==> x in ys[1..]
      {
        if x in xs[1..] {
          var k :| 1 <= k < |xs| && xs[k] == x;
          AscendingDistinct(xs, 0, k);
          assert x in ys && x != ys[0];
        }
        if x in ys[1..] {
          var k :| 1 <= k < |ys| && ys[k] == x;
          AscendingDistinct(ys, 0, k);
          assert x in xs && x != xs[0];
        }
      }
      AscendingUnique(xs[1..], ys[1..]);
      assert xs == [xs[0]] + xs[1..] && ys == [ys[0]] + ys[1..];
    } else {
      HeadIsElement(xs);
      HeadIsElement(ys);
    }
  }
}
