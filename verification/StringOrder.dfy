/** Sorting strings in lexicographic order. */
module StringOrder {
  import opened Wrappers

  predicate Leq(a: string, b: string) {
    |a| == 0 || (|b| > 0 && (a[0] < b[0] || (a[0] == b[0] && Leq(a[1..], b[1..]))))
  }

  /** The text behind the common beginning decides: a has none, or its first character there is
      the smaller one. */
  lemma {:induction false} LeqIsLexicographic(a: string, b: string, n: nat)
    requires n <= |a| && n <= |b| && a[..n] == b[..n] && (n < |a| && n < |b| ==> a[n] != b[n])
    ensures Leq(a, b) <==> n == |a| || (n < |b| && a[n] < b[n])
  {
    if n > 0 {
      assert a[..n][0] == b[..n][0];
      assert a[1..][..n - 1] == a[..n][1..] && b[1..][..n - 1] == b[..n][1..];
      LeqIsLexicographic(a[1..], b[1..], n - 1);
    }
  }

  lemma {:induction false} LeqTotal(a: string, b: string)
    ensures Leq(a, b) || Leq(b, a)
  {
    if |a| > 0 && |b| > 0 && a[0] == b[0] {
      LeqTotal(a[1..], b[1..]);
    }
  }

  lemma {:induction false} LeqTransitive(a: string, b: string, c: string)
    requires Leq(a, b) && Leq(b, c)
    ensures Leq(a, c)
  {
    if |a| > 0 && a[0] == b[0] == c[0] {
      LeqTransitive(a[1..], b[1..], c[1..]);
    }
  }

  ghost predicate Ascending(s: seq<string>) {
    forall i, j :: 0 <= i < j < |s| ==> Leq(s[i], s[j])
  }

  /** Puts a string behind every one that is not greater. */
  function Insert(sorted: seq<string>, x: string): seq<string> {
    if |sorted| == 0 || Leq(sorted[|sorted| - 1], x) then sorted + [x]
    else Insert(sorted[..|sorted| - 1], x) + [sorted[|sorted| - 1]]
  }

  function Sort(s: seq<string>): seq<string> {
    if |s| == 0 then [] else Insert(Sort(s[..|s| - 1]), s[|s| - 1])
  }

  lemma {:induction false} InsertKeepsElements(sorted: seq<string>, x: string)
    ensures forall y :: y in Insert(sorted, x) <==> y in sorted || y == x
    ensures Distinct(sorted) && x !in sorted ==> Distinct(Insert(sorted, x))
  {
    if |sorted| > 0 && !Leq(sorted[|sorted| - 1], x) {
      var init, last := sorted[..|sorted| - 1], sorted[|sorted| - 1];
      InsertKeepsElements(init, x);
      assert forall y :: y in sorted <==> y in init || y == last;
      assert Distinct(sorted) ==> last !in init;
    }
  }

  lemma {:induction false} InsertAscends(sorted: seq<string>, x: string)
    requires Ascending(sorted)
    ensures Ascending(Insert(sorted, x))
  {
    if |sorted| == 0 {
    } else if Leq(sorted[|sorted| - 1], x) {
      forall i | 0 <= i < |sorted|
        ensures Leq(sorted[i], x)
      {
        if i < |sorted| - 1 {
          LeqTransitive(sorted[i], sorted[|sorted| - 1], x);
        }
      }
    } else {
      var init, last := sorted[..|sorted| - 1], sorted[|sorted| - 1];
      InsertAscends(init, x);
      InsertKeepsElements(init, x);
      LeqTotal(x, last);
      forall y | y in Insert(init, x)
        ensures Leq(y, last)
      {
        if y != x {
          var i :| 0 <= i < |init| && init[i] == y;
          assert sorted[i] == y;
        }
      }
    }
  }

  /** The result ascends and holds the same strings, each as often as a duplicate-free input
      does. */
  lemma {:induction false} SortSorts(s: seq<string>)
    ensures Ascending(Sort(s)) && forall y :: y in Sort(s) <==> y in s
    ensures Distinct(s) ==> Distinct(Sort(s))
  {
    if |s| > 0 {
      var init, last := s[..|s| - 1], s[|s| - 1];
      SortSorts(init);
      InsertAscends(Sort(init), last);
      InsertKeepsElements(Sort(init), last);
      assert forall y :: y in s <==> y in init || y == last;
    }
  }
}
