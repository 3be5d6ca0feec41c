/** The sidebar's custom session order and hidden set. */
module SessionOrder {
  import opened Wrappers

  type Names = seq<string>

  ghost predicate SameNames(a: Names, b: Names) {
    forall n :: n in a <==> n in b
  }

  // ----- what the operations compute -----

  function Keep(s: Names, wanted: set<string>): Names {
    if |s| == 0 then []
    else
      var last := s[|s| - 1];
      Keep(s[..|s| - 1], wanted) + if last in wanted then [last] else []
  }

  function AddMissing(order: Names, names: Names): Names {
    if |names| == 0 then order
    else
      var before := AddMissing(order, names[..|names| - 1]);
      var last := names[|names| - 1];
      if last in before then before else before + [last]
  }

  function Elements(names: Names): set<string> {
    set n | n in names
  }

  /** Stale names drop, new names append at the end. */
  function Synced(order: Names, names: Names): Names {
    AddMissing(Keep(order, Elements(names)), names)
  }

  lemma {:induction false} KeepKeeps(s: Names, wanted: set<string>)
    ensures forall n :: n in Keep(s, wanted) <==> n in s && n in wanted
    ensures Distinct(s) ==> Distinct(Keep(s, wanted))
  {
    if |s| > 0 {
      var init, last := s[..|s| - 1], s[|s| - 1];
      KeepKeeps(init, wanted);
      assert forall n :: n in s <==> n in init || n == last;
      if Distinct(s) {
        assert last !in init;
      }
    }
  }

  lemma {:induction false} AddMissingAdds(order: Names, names: Names)
    ensures forall n :: n in AddMissing(order, names) <==> n in order || n in names
    ensures Distinct(order) ==> Distinct(AddMissing(order, names))
    ensures order <= AddMissing(order, names)
  {
    if |names| > 0 {
      AddMissingAdds(order, names[..|names| - 1]);
      assert forall n :: n in names <==> n in names[..|names| - 1] || n == names[|names| - 1];
    }
  }

  /** After a sync the order lists exactly the live names, each once. */
  lemma SyncedIsLive(order: Names, names: Names)
    ensures SameNames(Synced(order, names), names)
    ensures Distinct(order) ==> Distinct(Synced(order, names))
  {
    KeepKeeps(order, Elements(names));
    AddMissingAdds(Keep(order, Elements(names)), names);
  }

  /** A sync keeps the live names of the order in their places and puts the names it does not
      have behind them, as they come. */
  lemma {:induction false} SyncAppends(order: Names, names: Names, live: set<string>)
    requires Distinct(names) && forall n :: n in names ==> n in live
    ensures AddMissing(Keep(order, live), names) == Keep(order, live) + Keep(names, live - Elements(order))
  {
    if |names| > 0 {
      var init, last := names[..|names| - 1], names[|names| - 1];
      SyncAppends(order, init, live);
      KeepKeeps(order, live);
      KeepKeeps(init, live - Elements(order));
      assert last !in init;
    }
  }

  /** Names that a filter keeps stay in the sequence they came in. */
  lemma {:induction false} KeepInSequence(s: Names, wanted: set<string>, i: nat, j: nat) returns (p: nat, q: nat)
    requires i < j < |s| && s[i] in wanted && s[j] in wanted
    ensures p < q < |Keep(s, wanted)| && Keep(s, wanted)[p] == s[i] && Keep(s, wanted)[q] == s[j]
  {
    var init := s[..|s| - 1];
    if j < |s| - 1 {
      p, q := KeepInSequence(init, wanted, i, j);
    } else {
      KeepKeeps(init, wanted);
      assert init[i] == s[i];
      p :| 0 <= p < |Keep(init, wanted)| && Keep(init, wanted)[p] == s[i];
      q := |Keep(init, wanted)|;
    }
  }

  // ----- sorting by rank -----

  /** A name's position in the order, the last one if it has several; unknown names come
      after every position. */
  function Rank(order: Names, name: string): nat {
    if |order| == 0 then 0
    else if order[|order| - 1] == name then |order| - 1
    else
      var r := Rank(order[..|order| - 1], name);
      if r == |order| - 1 then |order| else r
  }

  lemma {:induction false} RankIsPosition(order: Names, name: string)
    ensures name !in order ==> Rank(order, name) == |order|
    ensures name in order ==> Rank(order, name) < |order| && order[Rank(order, name)] == name
    ensures Distinct(order) ==> forall i :: 0 <= i < |order| && order[i] == name ==> Rank(order, name) == i
  {
    if |order| > 0 {
      var init, last := order[..|order| - 1], order[|order| - 1];
      RankIsPosition(init, name);
      assert forall n :: n in order <==> n in init || n == last;
    }
  }

  /** Puts a name behind every name of its rank or a lower one. */
  function InsertByRank(order: Names, sorted: Names, name: string): Names {
    if |sorted| == 0 || Rank(order, sorted[|sorted| - 1]) <= Rank(order, name) then sorted + [name]
    else InsertByRank(order, sorted[..|sorted| - 1], name) + [sorted[|sorted| - 1]]
  }

  /** The stable sort by rank. */
  function SortByRank(order: Names, names: Names): Names {
    if |names| == 0 then [] else InsertByRank(order, SortByRank(order, names[..|names| - 1]), names[|names| - 1])
  }

  function Applied(order: Names, hidden: set<string>, names: Names): Names {
    SortByRank(order, Keep(names, Elements(names) - hidden))
  }

  ghost predicate SortedByRank(order: Names, s: Names) {
    forall i, j :: 0 <= i < j < |s| ==> Rank(order, s[i]) <= Rank(order, s[j])
  }

  lemma {:induction false} InsertAdds(order: Names, sorted: Names, name: string)
    ensures multiset(InsertByRank(order, sorted, name)) == multiset(sorted) + multiset{name}
  {
    if |sorted| > 0 && Rank(order, sorted[|sorted| - 1]) > Rank(order, name) {
      var init, last := sorted[..|sorted| - 1], sorted[|sorted| - 1];
      assert sorted == init + [last];
      InsertAdds(order, init, name);
    }
  }

  lemma {:induction false} InsertSorts(order: Names, sorted: Names, name: string)
    requires SortedByRank(order, sorted)
    ensures SortedByRank(order, InsertByRank(order, sorted, name))
  {
    if |sorted| > 0 && Rank(order, sorted[|sorted| - 1]) > Rank(order, name) {
      var init, last := sorted[..|sorted| - 1], sorted[|sorted| - 1];
      InsertSorts(order, init, name);
      InsertAdds(order, init, name);
      var inserted := InsertByRank(order, init, name);
      forall i | 0 <= i < |inserted|
        ensures Rank(order, inserted[i]) <= Rank(order, last)
      {
        assert inserted[i] in multiset(inserted);
        if inserted[i] != name {
          assert inserted[i] in init;
        }
      }
    }
  }

  /** The sort only moves names, into rank order. */
  lemma {:induction false} SortSorts(order: Names, names: Names)
    ensures SortedByRank(order, SortByRank(order, names))
    ensures multiset(SortByRank(order, names)) == multiset(names)
  {
    if |names| > 0 {
      var init, last := names[..|names| - 1], names[|names| - 1];
      SortSorts(order, init);
      assert names == init + [last];
      InsertSorts(order, SortByRank(order, init), last);
      InsertAdds(order, SortByRank(order, init), last);
    }
  }

  /** Names that are not in the order keep the sequence they came in, behind the others. */
  lemma {:induction false} SortIsStable(order: Names, names: Names, unknown: set<string>)
    requires forall n :: n in unknown ==> n !in order
    ensures Keep(SortByRank(order, names), unknown) == Keep(names, unknown)
  {
    if |names| > 0 {
      var init, last := names[..|names| - 1], names[|names| - 1];
      SortIsStable(order, init, unknown);
      InsertIsStable(order, SortByRank(order, init), last, unknown);
    }
  }

  lemma {:induction false} InsertIsStable(order: Names, sorted: Names, name: string, unknown: set<string>)
    requires forall n :: n in unknown ==> n !in order
    ensures Keep(InsertByRank(order, sorted, name), unknown) ==
            Keep(sorted, unknown) + if name in unknown then [name] else []
  {
    if |sorted| == 0 || Rank(order, sorted[|sorted| - 1]) <= Rank(order, name) {
      assert (sorted + [name])[..|sorted|] == sorted;
    } else {
      var init, last := sorted[..|sorted| - 1], sorted[|sorted| - 1];
      InsertIsStable(order, init, name, unknown);
      RankIsPosition(order, name);
      RankIsPosition(order, last);
      var inserted := InsertByRank(order, init, name);
      assert (inserted + [last])[..|inserted|] == inserted;
    }
  }

  lemma NonEmptyTwin(a: Names, b: Names)
    requires |b| > 0 && SameNames(a, b)
    ensures |a| > 0
  {
    assert b[0] in a;
  }

  /** Two duplicate-free lists of the same names, both in rank order, are one list. */
  lemma {:induction false} SortedIsUnique(order: Names, a: Names, b: Names)
    requires SortedByRank(order, a) && SortedByRank(order, b) && Distinct(a) && Distinct(b) && SameNames(a, b)
    requires Distinct(order) && forall n :: n in a ==> n in order
    ensures a == b
  {
    if |b| > 0 {
      NonEmptyTwin(a, b);
    }
    if |a| > 0 {
      SameLast(order, a, b);
      var x, y := a[|a| - 1], b[|b| - 1];
      var a', b' := a[..|a| - 1], b[..|b| - 1];
      forall n
        ensures n in a' <==> n in a && n != x
        ensures n in b' <==> n in b && n != y
      {
        assert n in a ==> exists i :: 0 <= i < |a| && a[i] == n;
      }
      SortedIsUnique(order, a', b');
      assert a == a' + [x] && b == b' + [y];
    }
  }

  lemma SameLast(order: Names, a: Names, b: Names)
    requires SortedByRank(order, a) && SortedByRank(order, b) && SameNames(a, b) && |a| > 0
    requires Distinct(order) && forall n :: n in a ==> n in order
    ensures |b| > 0 && a[|a| - 1] == b[|b| - 1]
  {
    var x := a[|a| - 1];
    assert x in b;
    var y := b[|b| - 1];
    assert y in b && y in a;
    var i :| 0 <= i < |a| && a[i] == y;
    var j :| 0 <= j < |b| && b[j] == x;
    assert Rank(order, x) == Rank(order, y);
    RankIsPosition(order, x);
    RankIsPosition(order, y);
  }

  lemma {:induction false} KeepIsSorted(order: Names, wanted: set<string>, n: nat)
    requires Distinct(order) && n <= |order|
    ensures SortedByRank(order, Keep(order[..n], wanted))
  {
    if n > 0 {
      var init := order[..n - 1];
      assert order[..n][..n - 1] == init;
      KeepIsSorted(order, wanted, n - 1);
      KeepKeeps(init, wanted);
      RankIsPosition(order, order[n - 1]);
      forall m | m in init
        ensures Rank(order, m) < n
      {
        RankIsPosition(order, m);
      }
    }
  }

  lemma DistinctByMultiset(a: Names, b: Names)
    requires Distinct(a) && multiset(a) == multiset(b)
    ensures Distinct(b) && SameNames(a, b)
  {
    forall n
      ensures n in a <==> n in b
    {
      assert n in a <==> n in multiset(a);
      assert n in b <==> n in multiset(b);
    }
    DistinctMeansOne(a);
    forall i, j | 0 <= i < j < |b|
      ensures b[i] != b[j]
    {
      TwiceCountsTwo(b, i, j);
    }
  }

  lemma TwiceCountsTwo(b: Names, i: nat, j: nat)
    requires i < j < |b|
    ensures b[i] == b[j] ==> multiset(b)[b[i]] >= 2
  {
    assert b == b[..j] + [b[j]] + b[j + 1..];
    assert b[..j][i] == b[i];
  }

  lemma {:induction false} DistinctMeansOne(a: Names)
    requires Distinct(a)
    ensures forall n :: multiset(a)[n] <= 1
  {
    if |a| > 0 {
      var init, last := a[..|a| - 1], a[|a| - 1];
      DistinctMeansOne(init);
      assert a == init + [last];
      assert last !in init;
    }
  }

  /** After a sync, applying the order to the live names gives the order itself with the
      hidden names left out. */
  lemma AppliedIsOrder(order: Names, hidden: set<string>, names: Names)
    requires Distinct(order) && Distinct(names) && SameNames(order, names)
    ensures Applied(order, hidden, names) == Keep(order, Elements(order) - hidden)
  {
    var visible := Keep(names, Elements(names) - hidden);
    var applied, kept := Applied(order, hidden, names), Keep(order, Elements(order) - hidden);
    KeepKeeps(names, Elements(names) - hidden);
    KeepKeeps(order, Elements(order) - hidden);
    SortSorts(order, visible);
    DistinctByMultiset(visible, applied);
    assert order[..|order|] == order;
    KeepIsSorted(order, Elements(order) - hidden, |order|);
    SortedIsUnique(order, applied, kept);
  }

  // ----- the object -----

  datatype State = State(order: Names, hidden: set<string>)

  datatype Op = OpSync(names: Names) | OpReorder(name: string, delta: int) | OpHide(name: string) |
      OpShow(name: string) | OpShowAll

  function IndexOf(s: Names, name: string): (r: int)
    ensures r < 0 ==> name !in s
    ensures r >= 0 ==> r < |s| && s[r] == name && forall i :: 0 <= i < r ==> s[i] != name
  {
    if |s| == 0 then -1
    else if s[0] == name then 0
    else
      var r := IndexOf(s[1..], name);
      assert s == [s[0]] + s[1..];
      if r < 0 then -1 else r + 1
  }

  function Next(s: State, op: Op): State {
    match op
    case OpSync(names) => State(Synced(s.order, names), s.hidden * Elements(names))
    case OpReorder(name, delta) =>
      var i := IndexOf(s.order, name);
      var to := i + delta;
      if i < 0 || to < 0 || to >= |s.order| then s else s.(order := s.order[i := s.order[to]][to := name])
    case OpHide(name) => if name in s.order then s.(hidden := s.hidden + {name}) else s
    case OpShow(name) =>
      if name !in s.hidden then s
      else State(if name in s.order then s.order else s.order + [name], s.hidden - {name})
    case OpShowAll => s.(hidden := {})
  }

  /** The name's first position. */
  predicate IsFirst(s: Names, name: string, i: int) {
    0 <= i < |s| && s[i] == name && forall j :: 0 <= j < i ==> s[j] != name
  }

  class Order {
    var order: Names
    var hidden: set<string>

    function Now(): State
      reads this
    {
      State(order, hidden)
    }

    /** The order as it was persisted. */
    constructor (order: Names, hidden: set<string>)
      ensures Now() == State(order, hidden)
    {
      this.order, this.hidden := order, hidden;
    }

    method Sync(names: Names)
      modifies this
      ensures Now() == Next(old(Now()), OpSync(names)) && hidden == set n | n in old(hidden) && n in names
    {
      var live: set<string> := {};
      for i := 0 to |names|
        invariant live == Elements(names[..i])
        invariant Now() == old(Now())
      {
        live := live + {names[i]};
      }
      assert names[..|names|] == names;
      order := Keep(order, live);
      hidden := set n | n in hidden && n in live;
      assert hidden == old(hidden) * live;
      ghost var kept := order;
      for i := 0 to |names|
        invariant order == AddMissing(kept, names[..i]) && hidden == old(hidden) * live
      {
        assert names[..i + 1][..i] == names[..i];
        if names[i] !in order {
          order := order + [names[i]];
        }
      }
    }

    method Apply(names: Names) returns (visible: Names)
      ensures visible == Applied(order, hidden, names)
    {
      visible := [];
      for i := 0 to |names|
        invariant visible == Keep(names[..i], Elements(names) - hidden)
      {
        assert names[..i + 1][..i] == names[..i];
        if names[i] !in hidden {
          visible := visible + [names[i]];
        }
      }
      assert names[..|names|] == names;
      visible := SortByRank(order, visible);
    }

    method Reorder(name: string, delta: int)
      modifies this
      ensures Now() == Next(old(Now()), OpReorder(name, delta)) && hidden == old(hidden)
      ensures name !in old(order) ==> order == old(order)
      ensures forall i :: IsFirst(old(order), name, i) ==>
                order == if 0 <= i + delta < |old(order)|
                         then old(order)[i := old(order)[i + delta]][i + delta := name] else old(order)
    {
      var i := IndexOf(order, name);
      if i < 0 {
        return;
      }
      var to := i + delta;
      if to < 0 || to >= |order| {
        return;
      }
      order := order[i := order[to]][to := order[i]];
    }

    method Hide(name: string)
      modifies this
      ensures Now() == Next(old(Now()), OpHide(name)) && order == old(order)
      ensures hidden == if name in old(order) then old(hidden) + {name} else old(hidden)
    {
      if name !in order || name in hidden {
        return;
      }
      hidden := hidden + {name};
    }

    method Show(name: string)
      modifies this
      ensures Now() == Next(old(Now()), OpShow(name)) && hidden == old(hidden) - {name}
      ensures order == if name in old(hidden) && name !in old(order) then old(order) + [name] else old(order)
    {
      if name !in hidden {
        return;
      }
      hidden := hidden - {name};
      if name !in order {
        order := order + [name];
      }
    }

    method ShowAll()
      modifies this
      ensures Now() == Next(old(Now()), OpShowAll) && order == old(order) && hidden == {}
    {
      if |hidden| == 0 {
        return;
      }
      hidden := {};
    }
  }

  // ----- any sequence of operations -----

  function Run(s: State, ops: seq<Op>): State {
    if |ops| == 0 then s else Next(Run(s, ops[..|ops| - 1]), ops[|ops| - 1])
  }

  /** The order lists exactly the live names, each once, and only listed names are hidden. */
  ghost predicate Listed(s: State, live: Names) {
    Distinct(s.order) && SameNames(s.order, live) && forall n :: n in s.hidden ==> n in s.order
  }

  lemma SwapKeepsNames(s: Names, i: nat, j: nat)
    requires i < |s| && j < |s|
    ensures
      var t := s[i := s[j]][j := s[i]];
      SameNames(t, s) && (Distinct(s) ==> Distinct(t))
  {
    var t := s[i := s[j]][j := s[i]];
    forall n
      ensures n in t <==> n in s
    {
      assert t[i] == s[j] && t[j] == s[i];
      if n in s {
        var k :| 0 <= k < |s| && s[k] == n;
        assert t[if k == i then j else if k == j then i else k] == n;
      }
    }
  }

  /** Every operation keeps the order free of duplicates. */
  lemma StepKeepsDistinct(s: State, op: Op)
    requires Distinct(s.order)
    ensures Distinct(Next(s, op).order)
  {
    match op
    case OpSync(names) => SyncedIsLive(s.order, names);
    case OpReorder(name, delta) =>
      var i := IndexOf(s.order, name);
      if i >= 0 && 0 <= i + delta < |s.order| {
        SwapKeepsNames(s.order, i, i + delta);
      }
    case _ =>
  }

  lemma StepKeepsListed(s: State, op: Op, live: Names)
    requires Listed(s, live)
    ensures Listed(Next(s, op), if op.OpSync? then op.names else live)
  {
    StepKeepsDistinct(s, op);
    match op
    case OpSync(names) => SyncedIsLive(s.order, names);
    case OpReorder(name, delta) =>
      var i := IndexOf(s.order, name);
      if i >= 0 && 0 <= i + delta < |s.order| {
        SwapKeepsNames(s.order, i, i + delta);
      }
    case _ =>
  }

  lemma {:induction false} RunIsDistinct(s: State, ops: seq<Op>)
    requires Distinct(s.order)
    ensures Distinct(Run(s, ops).order)
  {
    if |ops| > 0 {
      RunIsDistinct(s, ops[..|ops| - 1]);
      StepKeepsDistinct(Run(s, ops[..|ops| - 1]), ops[|ops| - 1]);
    }
  }

  /** From a persisted order without duplicates, and whatever hidden names came with it: at
      every moment since the last sync, the order is a permutation of the names that sync
      gave, and only those are hidden. */
  lemma {:induction false} OrderListsTheLive(s: State, before: seq<Op>, names: Names, since: seq<Op>)
    requires Distinct(s.order) && forall op :: op in since ==> !op.OpSync?
    ensures Listed(Run(s, before + [OpSync(names)] + since), names)
  {
    var ops := before + [OpSync(names)] + since;
    if |since| == 0 {
      assert ops[..|ops| - 1] == before && ops[|ops| - 1] == OpSync(names);
      RunIsDistinct(s, before);
      SyncedIsLive(Run(s, before).order, names);
    } else {
      var init := since[..|since| - 1];
      assert ops[..|ops| - 1] == before + [OpSync(names)] + init && ops[|ops| - 1] == since[|since| - 1];
      OrderListsTheLive(s, before, names, init);
      StepKeepsListed(Run(s, before + [OpSync(names)] + init), since[|since| - 1], names);
    }
  }

  /** A name the persisted order lists twice survives a sync twice exactly when it is live. */
  lemma DuplicatesSurviveIff(order: Names, names: Names)
    ensures Distinct(Synced(order, names)) <==> Distinct(Keep(order, Elements(names)))
  {
    var kept := Keep(order, Elements(names));
    AddMissingAdds(kept, names);
    if !Distinct(kept) {
      var i, j :| 0 <= i < j < |kept| && kept[i] == kept[j];
      assert Synced(order, names)[i] == kept[i] && Synced(order, names)[j] == kept[j];
    }
  }
}
