/**
 * The numeric split decision of a tree node (NumericalDecision.decision): a
 * feature value goes to the true (left) side when it compares at most equal to
 * the threshold. The comparison is Comparable.compareTo, passed as a function.
 */
module NumericalDecision {

  function Sign(x: int): int {
    if x < 0 then -1 else if x == 0 then 0 else 1
  }

  /** The contract of Comparable.compareTo, as java.lang.Comparable states it. */
  ghost predicate IsComparable<T(!new)>(compareTo: (T, T) -> int): (r: bool)
    ensures r ==> forall x :: compareTo(x, x) == 0
  {
    && (forall x, y :: Sign(compareTo(x, y)) == -Sign(compareTo(y, x)))
    && (forall x, y, z :: compareTo(x, y) > 0 && compareTo(y, z) > 0 ==> compareTo(x, z) > 0)
    && (forall x, y, z :: compareTo(x, y) == 0 ==> Sign(compareTo(x, z)) == Sign(compareTo(y, z)))
  }

  /**
   * decision(fval, threshold): under the Comparable contract, the value goes
   * to the true side exactly when the threshold compares at least equal to it.
   */
  function Decision<T(!new)>(fval: T, threshold: T, compareTo: (T, T) -> int): (r: bool)
    ensures IsComparable(compareTo) ==> (r <==> compareTo(threshold, fval) >= 0)
  {
    compareTo(fval, threshold) <= 0
  }

  /** Integer.compare, the compareTo of boxed ints. */
  function IntCompare(x: int, y: int): int {
    if x < y then -1 else if x == y then 0 else 1
  }

  lemma IntCompareIsComparable()
    ensures IsComparable(IntCompare)
  {
  }

  /** On ints the decision is fval <= threshold. */
  lemma DecisionOnInts(fval: int, threshold: int)
    ensures Decision(fval, threshold, IntCompare) <==> fval <= threshold
  {
  }

  /** "At most" under a Comparable contract is transitive. */
  lemma AtMostTransitive<T(!new)>(compareTo: (T, T) -> int, a: T, b: T, c: T)
    requires IsComparable(compareTo)
    requires compareTo(a, b) <= 0 && compareTo(b, c) <= 0
    ensures compareTo(a, c) <= 0
  {
    if compareTo(a, b) == 0 {
      assert Sign(compareTo(a, c)) == Sign(compareTo(b, c));
    } else if compareTo(b, c) == 0 {
      assert Sign(compareTo(b, a)) == -Sign(compareTo(a, b));
      assert Sign(compareTo(b, a)) == Sign(compareTo(c, a));
      assert Sign(compareTo(a, c)) == -Sign(compareTo(c, a));
    } else {
      assert Sign(compareTo(b, a)) == -Sign(compareTo(a, b));
      assert Sign(compareTo(c, b)) == -Sign(compareTo(b, c));
      assert compareTo(c, a) > 0;
      assert Sign(compareTo(a, c)) == -Sign(compareTo(c, a));
    }
  }

  /** A value equal to the threshold goes to the true side. */
  lemma ThresholdGoesLeft<T(!new)>(compareTo: (T, T) -> int, threshold: T)
    requires IsComparable(compareTo)
    ensures Decision(threshold, threshold, compareTo)
  {
    assert Sign(compareTo(threshold, threshold)) == -Sign(compareTo(threshold, threshold));
  }

  /** A value above the threshold goes to the false side, and only such a value. */
  lemma AboveThresholdGoesRight<T(!new)>(compareTo: (T, T) -> int, fval: T, threshold: T)
    ensures !Decision(fval, threshold, compareTo) <==> compareTo(fval, threshold) > 0
    ensures IsComparable(compareTo) ==>
              (!Decision(fval, threshold, compareTo) <==> compareTo(threshold, fval) < 0)
  {
  }

  /** Lowering the value keeps it on the true side. */
  lemma MonotoneInValue<T(!new)>(compareTo: (T, T) -> int, a: T, b: T, threshold: T)
    requires IsComparable(compareTo)
    requires Decision(a, threshold, compareTo) && compareTo(b, a) <= 0
    ensures Decision(b, threshold, compareTo)
  {
    AtMostTransitive(compareTo, b, a, threshold);
  }

  /** Raising the threshold keeps a value on the true side. */
  lemma MonotoneInThreshold<T(!new)>(compareTo: (T, T) -> int, fval: T, t1: T, t2: T)
    requires IsComparable(compareTo)
    requires Decision(fval, t1, compareTo) && compareTo(t1, t2) <= 0
    ensures Decision(fval, t2, compareTo)
  {
    AtMostTransitive(compareTo, fval, t1, t2);
  }
}
