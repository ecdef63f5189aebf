/** Strict total orders, and the ordered traversal of a finite set that every
    ordered map, ordered scan and in-place sort in the node comes down to. */
module Orders {

  ghost predicate StrictTotal<T(!new)>(less: (T, T) -> bool) {
    && (forall a :: !less(a, a))
    && (forall a, b :: a == b || less(a, b) || less(b, a))
    && (forall a, b, c :: less(a, b) && less(b, c) ==> less(a, c))
  }

  predicate Ascending<T>(s: seq<T>, less: (T, T) -> bool) {
    forall i, j :: 0 <= i < j < |s| ==> less(s[i], s[j])
  }

  predicate IsLeast<T(==)>(x: T, s: set<T>, less: (T, T) -> bool) {
    x in s && forall y :: y in s ==> y == x || less(x, y)
  }

  function Elements<T>(s: seq<T>): set<T> {
    set x | x in s
  }

  lemma LeastExists<T(!new)>(s: set<T>, less: (T, T) -> bool)
    requires StrictTotal(less) && s != {}
    ensures exists x :: IsLeast(x, s, less)
  {
    var a :| a in s;
    var rest := s - {a};
    assert forall y :: y in s <==> y == a || y in rest;
    if rest == {} {
      assert IsLeast(a, s, less);
    } else {
      LeastExists(rest, less);
      var m :| IsLeast(m, rest, less);
      var least := if less(a, m) then a else m;
      assert IsLeast(least, s, less);
    }
  }

  /** The entry `pop_first` of an ordered map takes. */
  method Least<T(!new, ==)>(s: set<T>, less: (T, T) -> bool) returns (x: T)
    requires StrictTotal(less) && s != {}
    ensures IsLeast(x, s, less)
  {
    LeastExists(s, less);
    x :| x in s && IsLeast(x, s, less);
  }

  /** The elements of a set in ascending order: what iterating a `BTreeMap`, scanning
      the store or sorting distinct values yields. */
  function Sorted<T(!new)>(s: set<T>, less: (T, T) -> bool): (r: seq<T>)
    requires StrictTotal(less)
    ensures Ascending(r, less)
    ensures Elements(r) == s
    ensures |r| == |s|
  {
    if s == {} then [] else
      LeastExists(s, less);
      var m :| IsLeast(m, s, less);
      var rest := Sorted(s - {m}, less);
      Prepended(m, rest, s, less);
      [m] + rest
  }

  lemma Prepended<T>(m: T, rest: seq<T>, s: set<T>, less: (T, T) -> bool)
    requires IsLeast(m, s, less) && Ascending(rest, less) && Elements(rest) == s - {m}
    ensures Ascending([m] + rest, less) && Elements([m] + rest) == s
  {
    assert forall x :: x in [m] + rest <==> x == m || x in Elements(rest);
    assert forall i :: 0 <= i < |rest| ==> rest[i] in Elements(rest);
  }

  /** A finite set has only one ascending listing. */
  lemma {:induction false} AscendingUnique<T(!new)>(a: seq<T>, b: seq<T>, less: (T, T) -> bool)
    requires StrictTotal(less) && Ascending(a, less) && Ascending(b, less)
    requires forall x :: x in a <==> x in b
    ensures a == b
  {
    if b == [] {
      assert forall i :: 0 <= i < |a| ==> a[i] in b;
    } else {
      assert b[0] in a;
      assert a[0] in a && a[0] in b && b != [] && b[0] in b && b[0] in a;
      assert a[0] == b[0];
      forall x ensures x in a[1..] <==> x in b[1..] {
        AscendingTail(a, less, x);
        AscendingTail(b, less, x);
      }
      AscendingUnique(a[1..], b[1..], less);
      assert a == [a[0]] + a[1..] && b == [b[0]] + b[1..];
    }
  }

  lemma AscendingTail<T(!new)>(a: seq<T>, less: (T, T) -> bool, x: T)
    requires StrictTotal(less) && Ascending(a, less) && a != []
    ensures x in a[1..] <==> x in a && x != a[0]
  {
    if x in a && x != a[0] {
      var i :| 0 <= i < |a| && a[i] == x;
      assert a[1..][i - 1] == x;
    }
  }

  /** Ascending sequences hold no element twice. */
  lemma {:induction false} AscendingDistinct<T(!new)>(a: seq<T>, less: (T, T) -> bool)
    requires StrictTotal(less) && Ascending(a, less)
    ensures |Elements(a)| == |a|
  {
    if a == [] {
    } else {
      AscendingDistinct(a[1..], less);
      forall x ensures x in Elements(a) <==> x in Elements(a[1..]) + {a[0]} {
        AscendingTail(a, less, x);
      }
      assert Elements(a) == Elements(a[1..]) + {a[0]};
      AscendingTail(a, less, a[0]);
    }
  }
}
