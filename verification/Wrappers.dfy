/** An optional value, duplicate-free sequences, induction over steps and the size of a subset, as the components
    use them. */
module Wrappers {

  datatype Option<+T> = None | Some(value: T)

  /** No element twice. */
  ghost predicate Distinct<T>(s: seq<T>) {
    forall i, j :: 0 <= i < j < |s| ==> s[i] != s[j]
  }

  /** What holds at first and is kept by each step holds after n. */
  lemma {:induction false} AfterSteps(holds: nat -> bool, n: nat)
    requires holds(0) && forall h: nat :: h < n && holds(h) ==> holds(h + 1)
    ensures holds(n)
  {
    if n > 0 {
      AfterSteps(holds, n - 1);
    }
  }

  /** A subset has no more elements. */
  lemma Fewer<T>(a: set<T>, b: set<T>)
    requires a <= b
    ensures |a| <= |b|
  {
    assert a + (b - a) == b;
  }
}
