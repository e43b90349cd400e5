/**
 * The orders the repositories sort by: integers, strings compared
 * character by character (ordinal, no locale collation), and optional
 * values with absent values first.
 */
module Orders {
  import opened Wrappers
  import opened Sorting

  predicate IntLe(a: int, b: int) { a <= b }

  predicate RealLe(a: real, b: real) { a <= b }

  /** Lexicographic order on strings: a proper prefix comes first. */
  predicate StrLe(a: string, b: string)
  {
    if a == [] then true
    else if b == [] then false
    else if a[0] != b[0] then a[0] < b[0]
    else StrLe(a[1..], b[1..])
  }

  /** Absent values come before every present value; present ones follow `le`. */
  function NoneFirst<K>(le: (K, K) -> bool): (Option<K>, Option<K>) -> bool
  {
    (a: Option<K>, b: Option<K>) => a.None? || (b.Some? && le(a.value, b.value))
  }

  lemma {:induction false} StrLeTotal(a: string, b: string)
    ensures StrLe(a, b) || StrLe(b, a)
  {
    if a != [] && b != [] && a[0] == b[0] {
      StrLeTotal(a[1..], b[1..]);
    }
  }

  lemma {:induction false} StrLeTransitive(a: string, b: string, c: string)
    requires StrLe(a, b) && StrLe(b, c)
    ensures StrLe(a, c)
  {
    if a != [] && b != [] && c != [] && a[0] == b[0] && b[0] == c[0] {
      StrLeTransitive(a[1..], b[1..], c[1..]);
    }
  }

  lemma {:induction false} StrLeAntisymmetric(a: string, b: string)
    requires StrLe(a, b) && StrLe(b, a)
    ensures a == b
  {
    if a != [] && b != [] {
      StrLeAntisymmetric(a[1..], b[1..]);
      assert a == [a[0]] + a[1..] && b == [b[0]] + b[1..];
    }
  }

  /** Descending string order is antisymmetric as well. */
  lemma StrLeDescendingAntisymmetric()
    ensures Antisymmetric(Direction(StrLe, false))
  {
    forall x, y | Direction(StrLe, false)(x, y) && Direction(StrLe, false)(y, x) ensures x == y {
      StrLeAntisymmetric(x, y);
    }
  }

  lemma StrLePreorder()
    ensures TotalPreorder(StrLe)
  {
    forall a, b ensures StrLe(a, b) || StrLe(b, a) {
      StrLeTotal(a, b);
    }
    forall a, b, c | StrLe(a, b) && StrLe(b, c) ensures StrLe(a, c) {
      StrLeTransitive(a, b, c);
    }
  }

  lemma NoneFirstPreorder<K(!new)>(le: (K, K) -> bool)
    requires TotalPreorder(le)
    ensures TotalPreorder(NoneFirst(le))
  {
  }

  lemma NumericPreorders()
    ensures TotalPreorder(IntLe) && TotalPreorder(RealLe)
    ensures TotalPreorder(NoneFirst(IntLe)) && TotalPreorder(NoneFirst(RealLe))
  {
    NoneFirstPreorder(IntLe);
    NoneFirstPreorder(RealLe);
  }
}
