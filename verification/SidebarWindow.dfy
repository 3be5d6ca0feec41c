/** The sidebar's session window: a greedy walk outward from the focused card, and why what
    it shows fits the pane and cannot be extended. */
module SidebarWindow {

  const CARD_CHROME_ROWS := 3
  const BRANCH_ROWS := 1
  const HIDDEN_AGENTS_ROWS := 1
  const OVERFLOW_INDICATOR_ROWS := 1

  /** One session's card: how many agents it has, and whether it shows a branch. */
  datatype Card = Card(agents: nat, branch: bool)

  datatype Window = Window(start: nat, end: nat, above: nat, below: nat)

  function Max(a: int, b: int): int {
    if a < b then b else a
  }

  function Min(a: int, b: int): int {
    if b < a then b else a
  }

  function Chrome(card: Card): nat {
    CARD_CHROME_ROWS + if card.branch then BRANCH_ROWS else 0
  }

  /** The agents one card shows: all of them, unless the card alone would not fit beside the
      scroll indicators. */
  function VisibleAgents(card: Card, sessions: nat, budget: nat): nat {
    var allowance := if sessions > 1 then 2 * OVERFLOW_INDICATOR_ROWS else 0;
    Min(card.agents, Max(1, budget - Chrome(card) - HIDDEN_AGENTS_ROWS - allowance))
  }

  function CardHeight(card: Card, sessions: nat, budget: nat): nat {
    var visible := VisibleAgents(card, sessions, budget);
    Chrome(card) + visible + if visible < card.agents then HIDDEN_AGENTS_ROWS else 0
  }

  /** A card shows as many agents as fit beside the two scroll indicators, which a single card
      does not need, with a row kept for saying that more are hidden; at least one, if it has
      any. It is three rows, one for its branch, its agents, and that row when some are
      hidden. */
  lemma CardShowsMost(card: Card, sessions: nat, budget: nat)
    ensures
      var chrome, spare := 3 + if card.branch then 1 else 0, if sessions > 1 then 2 else 0;
      var shown := VisibleAgents(card, sessions, budget);
      if shown == card.agents then
        && CardHeight(card, sessions, budget) == chrome + shown
        && (shown <= 1 || chrome + shown + 1 + spare <= budget)
      else
        && 1 <= shown < card.agents && CardHeight(card, sessions, budget) == chrome + shown + 1
        && (shown == 1 || chrome + shown + 1 + spare <= budget) && chrome + shown + 2 + spare > budget
  {
  }

  function Heights(cards: seq<Card>, budget: nat): (r: seq<nat>)
    ensures |r| == |cards| && forall i :: 0 <= i < |cards| ==> r[i] == CardHeight(cards[i], |cards|, budget)
  {
    seq(|cards|, i requires 0 <= i < |cards| => CardHeight(cards[i], |cards|, budget))
  }

  function Sum(heights: seq<nat>): nat {
    if |heights| == 0 then 0 else heights[0] + Sum(heights[1..])
  }

  function Indicators(start: int, end: int, len: int): nat {
    (if start > 0 then OVERFLOW_INDICATOR_ROWS else 0) + if end < len then OVERFLOW_INDICATOR_ROWS else 0
  }

  /** The rows the window takes: its cards and its overflow indicators. */
  function Rows(heights: seq<nat>, start: nat, end: nat): nat
    requires start <= end <= |heights|
  {
    Sum(heights[start..end]) + Indicators(start, end, |heights|)
  }

  lemma {:induction false} SumConcat(a: seq<nat>, b: seq<nat>)
    ensures Sum(a + b) == Sum(a) + Sum(b)
  {
    if |a| == 0 {
      assert a + b == b;
    } else {
      assert (a + b)[1..] == a[1..] + b;
      SumConcat(a[1..], b);
    }
  }

  lemma SumBelow(heights: seq<nat>, start: nat, end: nat)
    requires start <= end < |heights|
    ensures Sum(heights[start..end + 1]) == Sum(heights[start..end]) + heights[end]
  {
    assert heights[start..end + 1] == heights[start..end] + [heights[end]];
    SumConcat(heights[start..end], [heights[end]]);
  }

  lemma SumAbove(heights: seq<nat>, start: nat, end: nat)
    requires 0 < start <= end <= |heights|
    ensures Sum(heights[start - 1..end]) == heights[start - 1] + Sum(heights[start..end])
  {
    assert heights[start - 1..end][1..] == heights[start..end];
  }

  lemma SumOne(heights: seq<nat>, i: nat)
    requires i < |heights|
    ensures Sum(heights[i..i + 1]) == heights[i]
  {
    assert heights[i..i + 1] == [heights[i]];
  }

  lemma RowsBelow(heights: seq<nat>, start: nat, end: nat)
    requires start <= end < |heights|
    ensures Rows(heights, start, end + 1) ==
            Sum(heights[start..end]) + heights[end] + Indicators(start, end + 1, |heights|)
  {
    SumBelow(heights, start, end);
  }

  lemma RowsAbove(heights: seq<nat>, start: nat, end: nat)
    requires 0 < start <= end <= |heights|
    ensures Rows(heights, start - 1, end) ==
            Sum(heights[start..end]) + heights[start - 1] + Indicators(start - 1, end, |heights|)
  {
    SumAbove(heights, start, end);
  }

  /** The focused card's index, or the first card without one. */
  function Anchor(focused: int, len: nat): nat
    requires len > 0
  {
    Min(Max(0, focused), len - 1)
  }

  /** The focused card is the anchor; a focus outside the list stands for the nearer end. */
  predicate IsAnchor(anchor: nat, focused: int, len: nat) {
    && anchor < len
    && (0 <= focused < len ==> anchor == focused)
    && (focused < 0 ==> anchor == 0) && (focused >= len ==> anchor == len - 1)
  }

  /** A neighbour that would still fit. */
  predicate CanGrow(heights: seq<nat>, start: nat, end: nat, budget: nat)
    requires start <= end <= |heights|
  {
    || (end < |heights| && Rows(heights, start, end + 1) <= budget)
    || (start > 0 && Rows(heights, start - 1, end) <= budget)
  }

  ghost predicate IsWindow(w: Window, heights: seq<nat>, anchor: nat, budget: nat)
    requires anchor < |heights|
  {
    && w.start <= anchor < w.end <= |heights| && w.above == w.start && w.below == |heights| - w.end
    && !CanGrow(heights, w.start, w.end, budget)
    && (Rows(heights, w.start, w.end) <= budget <==> Rows(heights, anchor, anchor + 1) <= budget)
  }

  /** One turn: the card below if it fits, then the card above if it fits. */
  function Turn(heights: seq<nat>, start: nat, end: nat, budget: nat): (r: (nat, nat))
    requires start <= end <= |heights|
    ensures r.0 <= start && end <= r.1 <= |heights|
  {
    var end' := if end < |heights| && Rows(heights, start, end + 1) <= budget then end + 1 else end;
    (if start > 0 && Rows(heights, start - 1, end') <= budget then start - 1 else start, end')
  }

  /** Turn by turn until neither neighbour fits. */
  function Outward(heights: seq<nat>, start: nat, end: nat, budget: nat): (r: (nat, nat))
    requires start <= end <= |heights|
    ensures r.0 <= start && end <= r.1 <= |heights|
    decreases start + |heights| - end
  {
    var (start', end') := Turn(heights, start, end, budget);
    if start' == start && end' == end then (start, end) else Outward(heights, start', end', budget)
  }

  lemma {:induction false} SumAlike(heights: seq<nat>, h: nat)
    requires forall i :: 0 <= i < |heights| ==> heights[i] == h
    ensures Sum(heights) == |heights| * h
  {
    if |heights| > 0 {
      SumAlike(heights[1..], h);
    }
  }

  lemma RowsAlike(heights: seq<nat>, h: nat, start: nat, end: nat)
    requires start <= end <= |heights| && forall i :: 0 <= i < |heights| ==> heights[i] == h
    ensures Rows(heights, start, end) ==
            (end - start) * h + (if start > 0 then 1 else 0) + if end < |heights| then 1 else 0
  {
    SumAlike(heights[start..end], h);
  }

  /** Once the card above does not fit, the window stays or grows below to the end. */
  lemma StaysOrEnds(heights: seq<nat>, h: nat, start: nat, end: nat, budget: nat)
    requires forall i :: 0 <= i < |heights| ==> heights[i] == h
    requires 0 < start <= end < |heights| && Rows(heights, start - 1, end) > budget
    ensures
      var (first, last) := Outward(heights, start, end, budget);
      (first == start && last == end) || last == |heights|
  {
    RowsAlike(heights, h, start - 1, end);
    RowsAlike(heights, h, start, end + 1);
  }

  /** The focused card stays in the middle: among cards of one height as many are shown below
      it as above, or one more, unless the window reaches an end of the list. */
  lemma {:induction false} FocusStaysCentred(heights: seq<nat>, h: nat, anchor: nat, start: nat, end: nat, budget: nat)
    requires forall i :: 0 <= i < |heights| ==> heights[i] == h
    requires h > 1 && start <= anchor < end <= |heights|
    requires start == 0 || end == |heights| || end - 1 - anchor == anchor - start
    ensures
      var (first, last) := Outward(heights, start, end, budget);
      first == 0 || last == |heights| || anchor - first <= last - 1 - anchor <= anchor - first + 1
    decreases start + |heights| - end
  {
    var (start', end') := Turn(heights, start, end, budget);
    if start > 0 && end < |heights| {
      RowsAlike(heights, h, start, end + 1);
      RowsAlike(heights, h, start - 1, end');
    }
    if start' != start || end' != end {
      if start' == 0 || end' == |heights| || end' - 1 - anchor == anchor - start' {
        FocusStaysCentred(heights, h, anchor, start', end', budget);
      } else {
        StaysOrEnds(heights, h, start', end', budget);
      }
    }
  }

  /** Nothing is shown yet but the anchor, or the window fits, and so does the anchor alone. */
  predicate Fitting(heights: seq<nat>, anchor: nat, start: nat, end: nat, budget: nat)
    requires start <= anchor < end <= |heights|
  {
    || (start == anchor && end == anchor + 1)
    || (Rows(heights, start, end) <= budget && Rows(heights, anchor, anchor + 1) <= budget)
  }

  lemma TurnFits(heights: seq<nat>, anchor: nat, start: nat, end: nat, budget: nat)
    requires start <= anchor < end <= |heights|
    requires forall i :: 0 <= i < |heights| ==> heights[i] > OVERFLOW_INDICATOR_ROWS
    requires Fitting(heights, anchor, start, end, budget)
    ensures
      var (start', end') := Turn(heights, start, end, budget);
      Fitting(heights, anchor, start', end', budget)
  {
    if end < |heights| {
      SumBelow(heights, start, end);
    }
    var (start', end') := Turn(heights, start, end, budget);
    if start > 0 {
      SumAbove(heights, start, end');
    }
  }

  lemma {:induction false} OutwardIsWindow(heights: seq<nat>, anchor: nat, start: nat, end: nat, budget: nat)
    requires start <= anchor < end <= |heights|
    requires forall i :: 0 <= i < |heights| ==> heights[i] > OVERFLOW_INDICATOR_ROWS
    requires Fitting(heights, anchor, start, end, budget)
    ensures
      var (first, last) := Outward(heights, start, end, budget);
      IsWindow(Window(first, last, first, |heights| - last), heights, anchor, budget)
    decreases start + |heights| - end
  {
    var (start', end') := Turn(heights, start, end, budget);
    TurnFits(heights, anchor, start, end, budget);
    if start' != start || end' != end {
      OutwardIsWindow(heights, anchor, start', end', budget);
    }
  }

  ghost predicate LeadsTo(heights: seq<nat>, start: nat, end: nat, budget: nat, goal: (nat, nat))
    requires start <= end <= |heights|
  {
    Outward(heights, start, end, budget) == goal
  }

  lemma TurnLeads(heights: seq<nat>, start: nat, end: nat, budget: nat, goal: (nat, nat))
    requires start <= end <= |heights| && LeadsTo(heights, start, end, budget, goal)
    ensures
      var turn := Turn(heights, start, end, budget);
      LeadsTo(heights, turn.0, turn.1, budget, goal) && (turn == (start, end) ==> goal == (start, end))
  {
  }

  /** Grows around the anchor, below and above in turn, while a neighbour fits. The window
      holds the anchor, cannot be extended, and fits the budget exactly when the anchor's
      card alone does. */
  method Grow(heights: seq<nat>, anchor: nat, budget: nat) returns (w: Window)
    requires anchor < |heights| && forall i :: 0 <= i < |heights| ==> heights[i] > OVERFLOW_INDICATOR_ROWS
    ensures IsWindow(w, heights, anchor, budget)
    ensures (w.start, w.end) == Outward(heights, anchor, anchor + 1, budget)
  {
    var len := |heights|;
    var start, end, used, grew := anchor, anchor + 1, heights[anchor], true;
    SumOne(heights, anchor);
    ghost var goal := Outward(heights, anchor, anchor + 1, budget);
    while grew
      invariant 0 <= start <= anchor < end <= len
      invariant used == Sum(heights[start..end])
      invariant LeadsTo(heights, start, end, budget, goal)
      invariant !grew ==> (start, end) == goal
      decreases start + len - end, grew
    {
      grew := false;
      ghost var turn := Turn(heights, start, end, budget);
      TurnLeads(heights, start, end, budget, goal);
      if end < len {
        RowsBelow(heights, start, end);
        if used + heights[end] + Indicators(start, end + 1, len) <= budget {
          used := used + heights[end];
          end := end + 1;
          grew := true;
        }
      }
      assert end == turn.1 && used == Sum(heights[start..end]);
      if start > 0 {
        RowsAbove(heights, start, end);
        if used + heights[start - 1] + Indicators(start - 1, end, len) <= budget {
          start := start - 1;
          used := used + heights[start];
          grew := true;
        }
      }
      assert (start, end) == turn;
    }
    OutwardIsWindow(heights, anchor, anchor, anchor + 1, budget);
    w := Window(start, end, start, len - end);
  }

  /** The cards to show around the focused one. */
  method SessionWindow(cards: seq<Card>, budget: nat, focused: int) returns (w: Window)
    ensures w.start <= w.end <= |cards| && w.above + (w.end - w.start) + w.below == |cards|
    ensures Sum(Heights(cards, budget)) <= budget ==> w == Window(0, |cards|, 0, 0)
    ensures Sum(Heights(cards, budget)) > budget ==>
        |cards| > 0 && exists anchor: nat ::
          && IsAnchor(anchor, focused, |cards|)
          && IsWindow(w, Heights(cards, budget), anchor, budget)
          && (w.start, w.end) == Outward(Heights(cards, budget), anchor, anchor + 1, budget)
  {
    var heights := Heights(cards, budget);
    var total := 0;
    for i := 0 to |heights|
      invariant total == Sum(heights[..i])
    {
      assert heights[..i] == heights[0..i] && heights[..i + 1] == heights[0..i + 1];
      SumBelow(heights, 0, i);
      total := total + heights[i];
    }
    assert heights[..|heights|] == heights;
    if total <= budget {
      return Window(0, |cards|, 0, 0);
    }
    var anchor := Anchor(focused, |cards|);
    assert IsAnchor(anchor, focused, |cards|);
    w := Grow(heights, anchor, budget);
  }

  /** From eight rows on, any card fits beside both indicators. */
  lemma EveryCardFits(cards: seq<Card>, budget: nat, i: nat)
    requires i < |cards| && budget >= 8 && Sum(Heights(cards, budget)) > budget
    ensures Rows(Heights(cards, budget), i, i + 1) <= budget
  {
    var heights := Heights(cards, budget);
    assert heights[i..i + 1] == [heights[i]];
    assert Sum([heights[i]]) == heights[i];
  }

  /** So the window always fits a pane of at least eight rows. */
  lemma WindowFits(cards: seq<Card>, budget: nat, focused: int, anchor: nat, w: Window)
    requires |cards| > 0 && budget >= 8 && Sum(Heights(cards, budget)) > budget
    requires IsAnchor(anchor, focused, |cards|) && IsWindow(w, Heights(cards, budget), anchor, budget)
    ensures Rows(Heights(cards, budget), w.start, w.end) <= budget
  {
    EveryCardFits(cards, budget, anchor);
  }

  /** Eight is exact: for every smaller pane some window does not fit. */
  lemma SevenRowsAreTooFew(budget: nat, w: Window)
    requires budget < 8
    requires IsWindow(w, Heights([Card(2, true), Card(2, true), Card(2, true)], budget), 1, budget)
    ensures Rows(Heights([Card(2, true), Card(2, true), Card(2, true)], budget), w.start, w.end) > budget
  {
    var cards := [Card(2, true), Card(2, true), Card(2, true)];
    var heights := Heights(cards, budget);
    assert heights[1] == 6;
    assert heights[1..2] == [heights[1]];
    assert Sum([heights[1]]) == 6;
  }
}
