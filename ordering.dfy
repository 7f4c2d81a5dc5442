/**
 The three-way comparison that Rust's derived `PartialOrd`/`Ord` produce:
 an `Ordering`, the field-by-field combination `Then`, and the
 lexicographic order on sequences used for fixed-size byte arrays and
 for `Vec`. The lemmas state when such a comparison is a total order
 that agrees with structural equality (what the derived `Eq` checks).
 */
module Ordering {

  datatype Ordering = Less | Equal | Greater {

    /** The comparison seen from the other side. */
    function Reverse(): Ordering {
      match this
      case Less => Greater
      case Equal => Equal
      case Greater => Less
    }

    /** Rust's `Ordering::then`: this result unless it is `Equal`, else `next`. */
    function Then(next: Ordering): Ordering {
      if this == Equal then next else this
    }
  }

  /** Comparison of natural numbers (the integer fields' derived order). */
  function CompareNat(a: nat, b: nat): (r: Ordering)
    ensures r == Less <==> a < b
    ensures r == Equal <==> a == b
    ensures r == Greater <==> a > b
  {
    if a < b then Less else if a == b then Equal else Greater
  }

  /**
   Lexicographic comparison of two sequences (Rust's slice and `Vec`
   order): the first differing element decides, and when the common
   prefix compares equal the shorter sequence is the smaller.
   */
  function Lex<T>(a: seq<T>, b: seq<T>, cmp: (T, T) -> Ordering): (r: Ordering)
    ensures r == Equal ==> |a| == |b| && forall i :: 0 <= i < |a| ==> cmp(a[i], b[i]) == Equal
    ensures (forall i :: 0 <= i < |a| && i < |b| ==> cmp(a[i], b[i]) == Equal) ==> r == CompareNat(|a|, |b|)
    decreases |a|
  {
    if |a| == 0 then
      (if |b| == 0 then Equal else Less)
    else if |b| == 0 then
      Greater
    else
      cmp(a[0], b[0]).Then(Lex(a[1..], b[1..], cmp))
  }

  /**
   The first position where the elements differ decides the comparison:
   when `a` and `b` agree before `k` and differ at `k`, the order of
   `a[k]` and `b[k]` is the order of `a` and `b`.
   */
  lemma {:induction false} LexFirstDifference<T>(a: seq<T>, b: seq<T>, cmp: (T, T) -> Ordering, k: nat)
    requires k < |a| && k < |b|
    requires forall i :: 0 <= i < k ==> cmp(a[i], b[i]) == Equal
    requires cmp(a[k], b[k]) != Equal
    ensures Lex(a, b, cmp) == cmp(a[k], b[k])
    decreases k
  {
    if k > 0 {
      LexFirstDifference(a[1..], b[1..], cmp, k - 1);
    }
  }

  /** `Equal` exactly for structurally equal arguments. */
  ghost predicate EqualMeansSame<T(!new)>(cmp: (T, T) -> Ordering) {
    forall x, y :: cmp(x, y) == Equal <==> x == y
  }

  /** Swapping the arguments reverses the answer. */
  ghost predicate Antisymmetric<T(!new)>(cmp: (T, T) -> Ordering) {
    forall x, y :: cmp(y, x) == cmp(x, y).Reverse()
  }

  ghost predicate LessTransitive<T(!new)>(cmp: (T, T) -> Ordering) {
    forall x, y, z :: cmp(x, y) == Less && cmp(y, z) == Less ==> cmp(x, z) == Less
  }

  /** A strict total order whose equality is structural equality. */
  ghost predicate TotalOrder<T(!new)>(cmp: (T, T) -> Ordering) {
    EqualMeansSame(cmp) && Antisymmetric(cmp) && LessTransitive(cmp)
  }

  lemma {:induction false} LexEqualMeansSame<T>(a: seq<T>, b: seq<T>, cmp: (T, T) -> Ordering)
    requires forall x, y :: cmp(x, y) == Equal <==> x == y
    ensures Lex(a, b, cmp) == Equal <==> a == b
    decreases |a|
  {
    if |a| > 0 && |b| > 0 {
      LexEqualMeansSame(a[1..], b[1..], cmp);
      if a[0] == b[0] && a[1..] == b[1..] {
        assert a == [a[0]] + a[1..] && b == [b[0]] + b[1..];
      }
    }
  }

  lemma {:induction false} LexAntisymmetric<T>(a: seq<T>, b: seq<T>, cmp: (T, T) -> Ordering)
    requires forall x, y :: cmp(y, x) == cmp(x, y).Reverse()
    ensures Lex(b, a, cmp) == Lex(a, b, cmp).Reverse()
    decreases |a|
  {
    if |a| > 0 && |b| > 0 {
      LexAntisymmetric(a[1..], b[1..], cmp);
    }
  }

  lemma {:induction false} LexLessTransitive<T>(a: seq<T>, b: seq<T>, c: seq<T>, cmp: (T, T) -> Ordering)
    requires forall x, y :: cmp(x, y) == Equal <==> x == y
    requires forall x, y, z :: cmp(x, y) == Less && cmp(y, z) == Less ==> cmp(x, z) == Less
    requires Lex(a, b, cmp) == Less && Lex(b, c, cmp) == Less
    ensures Lex(a, c, cmp) == Less
    decreases |a|
  {
    if |a| > 0 {
      var x, y := cmp(a[0], b[0]), cmp(b[0], c[0]);
      if x == Equal && y == Equal {
        LexLessTransitive(a[1..], b[1..], c[1..], cmp);
      } else if x == Equal {
        assert a[0] == b[0];
      } else if y == Equal {
        assert b[0] == c[0];
      }
    }
  }

  /** The lexicographic order inherits a total order from its elements. */
  lemma LexIsTotalOrder<T(!new)>(cmp: (T, T) -> Ordering)
    requires TotalOrder(cmp)
    ensures forall a: seq<T>, b: seq<T> :: Lex(a, b, cmp) == Equal <==> a == b
    ensures forall a: seq<T>, b: seq<T> :: Lex(b, a, cmp) == Lex(a, b, cmp).Reverse()
    ensures forall a: seq<T>, b: seq<T>, c: seq<T> ::
              Lex(a, b, cmp) == Less && Lex(b, c, cmp) == Less ==> Lex(a, c, cmp) == Less
  {
    forall a: seq<T>, b: seq<T> ensures Lex(a, b, cmp) == Equal <==> a == b {
      LexEqualMeansSame(a, b, cmp);
    }
    forall a: seq<T>, b: seq<T> ensures Lex(b, a, cmp) == Lex(a, b, cmp).Reverse() {
      LexAntisymmetric(a, b, cmp);
    }
    forall a: seq<T>, b: seq<T>, c: seq<T> | Lex(a, b, cmp) == Less && Lex(b, c, cmp) == Less
      ensures Lex(a, c, cmp) == Less
    {
      LexLessTransitive(a, b, c, cmp);
    }
  }

  /** A sequence of the least element is below every sequence of its length. */
  lemma {:induction false} LexLeastElementsFirst<T>(z: seq<T>, a: seq<T>, least: T, cmp: (T, T) -> Ordering)
    requires |z| == |a|
    requires forall i :: 0 <= i < |z| ==> z[i] == least
    requires forall x :: cmp(least, x) != Greater
    ensures Lex(z, a, cmp) != Greater
    decreases |z|
  {
    if |z| > 0 {
      LexLeastElementsFirst(z[1..], a[1..], least, cmp);
    }
  }
}
