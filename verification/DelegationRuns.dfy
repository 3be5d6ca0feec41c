/** Safety of the talkback protocol over whole runs: any interleaving of the critical
    sections that change one delegation's log. */
module DelegationRuns {
  import opened Wrappers
  import opened DelegationLog

  // ----- what every reachable log satisfies -----

  ghost predicate UniqueIds(log: Log) {
    forall i, j :: 0 <= i < j < |log| ==> log[i].id != log[j].id
  }

  ghost predicate AllValid(log: Log) {
    forall i :: 0 <= i < |log| ==>
      log[i].id != "" && Validate(log[i]).None? && (log[i].deliveredAt.Some? ==> FromDelegate(log[i]))
  }

  /** Each answer replies to a delegate ask earlier in the log. */
  ghost predicate AnswersFollowAsks(log: Log) {
    forall j :: 0 <= j < |log| && IsAnswer(log[j]) ==>
      exists i :: 0 <= i < j && IsAsk(log[i]) && log[i].id == log[j].replyTo
  }

  /** No ask has two answers. */
  ghost predicate OneAnswerPerAsk(log: Log) {
    forall i, j :: 0 <= i < j < |log| && IsAnswer(log[i]) && IsAnswer(log[j]) ==> log[i].replyTo != log[j].replyTo
  }

  /** Delivered messages come before undelivered ones. */
  ghost predicate DeliveredFirst(log: Log) {
    forall i, j :: 0 <= i < j < |log| && FromDelegate(log[i]) && IsDelivered(log[j]) ==> IsDelivered(log[i])
  }

  ghost predicate LogInv(log: Log) {
    UniqueIds(log) && AllValid(log) && AnswersFollowAsks(log) && OneAnswerPerAsk(log) && DeliveredFirst(log)
  }

  // ----- steps -----

  datatype Step =
    | PostMessage(from: string, kind: string, text: string, replyTo: string, id: string, at: int)
    | RouteFollowup(waited: set<string>, text: string, id: string, at: int)
    | TakeMessages(at: int)

  /** The log and every batch handed out so far. */
  datatype State = State(log: Log, batches: seq<Log>)

  function Next(s: State, step: Step): State {
    match step
    case PostMessage(from, kind, text, replyTo, id, at) => s.(log := Post(s.log, from, kind, text, replyTo, id, at).0)
    case RouteFollowup(waited, text, id, at) => s.(log := Route(s.log, waited, text, id, at).0)
    case TakeMessages(at) => State(Take(s.log, at).0, s.batches + [Take(s.log, at).1])
  }

  /** The identifiers a store mints are new. */
  ghost predicate Mints(log: Log, step: Step) {
    step.TakeMessages? || (step.id != "" && forall i :: 0 <= i < |log| ==> log[i].id != step.id)
  }

  ghost predicate IsRun(states: seq<State>, steps: seq<Step>) {
    && |states| == |steps| + 1 && states[0] == State([], [])
    && forall n :: 0 <= n < |steps| ==> Mints(states[n].log, steps[n]) && states[n + 1] == Next(states[n], steps[n])
  }

  // ----- answers -----

  lemma AppendKeepsCauses(log: Log, m: Message)
    requires AnswersFollowAsks(log) && (IsAnswer(m) ==> ContainsAsk(log, m.replyTo))
    ensures AnswersFollowAsks(log + [m])
  {
    var log' := log + [m];
    forall j | 0 <= j < |log'| && IsAnswer(log'[j])
      ensures exists i :: 0 <= i < j && IsAsk(log'[i]) && log'[i].id == log'[j].replyTo
    {
      if j < |log| {
        var i :| 0 <= i < j && IsAsk(log[i]) && log[i].id == log[j].replyTo;
        assert IsAsk(log'[i]);
      } else {
        var i :| 0 <= i < |log| && log[i].id == m.replyTo && IsAsk(log[i]);
        assert IsAsk(log'[i]);
      }
    }
  }

  lemma AppendKeepsInv(log: Log, m: Message)
    requires LogInv(log)
    requires m.id != "" && Validate(m).None? && m.deliveredAt.None?
    requires forall i :: 0 <= i < |log| ==> log[i].id != m.id
    requires IsAnswer(m) ==> ContainsAsk(log, m.replyTo) && !HasAnswer(log, m.replyTo)
    ensures LogInv(log + [m])
  {
    AppendKeepsCauses(log, m);
    AppendKeepsEntries(log, m);
    AppendKeepsPairs(log, m);
  }

  lemma AppendKeepsEntries(log: Log, m: Message)
    requires UniqueIds(log) && AllValid(log)
    requires m.id != "" && Validate(m).None? && m.deliveredAt.None?
    requires forall i :: 0 <= i < |log| ==> log[i].id != m.id
    ensures UniqueIds(log + [m]) && AllValid(log + [m])
  {
  }

  lemma AppendKeepsPairs(log: Log, m: Message)
    requires OneAnswerPerAsk(log) && DeliveredFirst(log)
    requires m.deliveredAt.None? && (IsAnswer(m) ==> !HasAnswer(log, m.replyTo))
    ensures OneAnswerPerAsk(log + [m]) && DeliveredFirst(log + [m])
  {
  }

  lemma AnswerKeepsInv(log: Log, askId: string, text: string, id: string, now: int)
    requires LogInv(log) && id != "" && forall i :: 0 <= i < |log| ==> log[i].id != id
    ensures LogInv(Answer(log, askId, text, id, now).0)
  {
    var m := Message("", 0, "orchestrator", "answer", text, askId, None);
    if askId != "" && ContainsAsk(log, askId) && !HasAnswer(log, askId) && Validate(m).None? {
      AppendKeepsInv(log, m.(id := id, ts := now));
    }
  }

  lemma PostKeepsInv(log: Log, from: string, kind: string, text: string, replyTo: string, id: string, now: int)
    requires LogInv(log) && id != "" && forall i :: 0 <= i < |log| ==> log[i].id != id
    ensures LogInv(Post(log, from, kind, text, replyTo, id, now).0)
  {
    if from == "orchestrator" && kind == "answer" {
      AnswerKeepsInv(log, replyTo, text, id, now);
    } else {
      var m := Message("", 0, from, kind, text, replyTo, None);
      if Validate(m).None? {
        AppendKeepsInv(log, m.(id := id, ts := now));
      }
    }
  }

  /** Delivery keeps everything about a message but its mark. */
  lemma DeliverAllKeepsAnswers(log: Log, now: int)
    requires AnswersFollowAsks(log) && OneAnswerPerAsk(log)
    ensures AnswersFollowAsks(DeliverAll(log, now)) && OneAnswerPerAsk(DeliverAll(log, now))
  {
    var log' := DeliverAll(log, now);
    forall j | 0 <= j < |log'| && IsAnswer(log'[j])
      ensures exists i :: 0 <= i < j && IsAsk(log'[i]) && log'[i].id == log'[j].replyTo
    {
      assert IsAnswer(log[j]);
      var i :| 0 <= i < j && IsAsk(log[i]) && log[i].id == log[j].replyTo;
      assert IsAsk(log'[i]);
    }
    assert forall j :: 0 <= j < |log| ==> IsAnswer(log'[j]) == IsAnswer(log[j]) && log'[j].replyTo == log[j].replyTo;
  }

  lemma DeliverAllKeepsEntries(log: Log, now: int)
    requires UniqueIds(log) && AllValid(log)
    ensures UniqueIds(DeliverAll(log, now)) && AllValid(DeliverAll(log, now))
  {
    var log' := DeliverAll(log, now);
    assert forall j :: 0 <= j < |log| ==> log'[j].id == log[j].id;
  }

  lemma DeliverAllDelivers(log: Log, now: int)
    ensures DeliveredFirst(DeliverAll(log, now))
  {
  }

  lemma DeliverAllKeepsInv(log: Log, now: int)
    requires LogInv(log)
    ensures LogInv(DeliverAll(log, now))
  {
    DeliverAllKeepsAnswers(log, now);
    DeliverAllKeepsEntries(log, now);
    DeliverAllDelivers(log, now);
  }

  lemma NextKeepsInv(s: State, step: Step)
    requires LogInv(s.log) && Mints(s.log, step)
    ensures LogInv(Next(s, step).log)
  {
    match step
    case PostMessage(from, kind, text, replyTo, id, at) => PostKeepsInv(s.log, from, kind, text, replyTo, id, at);
    case RouteFollowup(waited, text, id, at) =>
      var asks := Answerable(s.log, waited);
      if |asks| == 1 {
        AnswerKeepsInv(s.log, asks[0].id, text, id, at);
      }
    case TakeMessages(at) => DeliverAllKeepsInv(s.log, at);
  }

  /** In every reachable log each answer follows the ask it names, no ask has two answers
      although two endpoints append answers, and the delivered delegate messages are a
      prefix of the delegate messages. */
  lemma {:induction false} AnswersAreUniqueAndCausal(states: seq<State>, steps: seq<Step>, n: nat)
    requires IsRun(states, steps) && n < |states|
    ensures LogInv(states[n].log)
  {
    if n > 0 {
      AnswersAreUniqueAndCausal(states, steps, n - 1);
      NextKeepsInv(states[n - 1], steps[n - 1]);
    }
  }

  // ----- delivery -----

  function Concat(batches: seq<Log>): Log {
    if |batches| == 0 then [] else Concat(batches[..|batches| - 1]) + batches[|batches| - 1]
  }

  lemma NothingToTake(log: Log, last: Message)
    requires DeliveredFirst(log + [last]) && IsDelivered(last)
    ensures Filter(log, IsUndelivered) == []
  {
    forall m | m in log
      ensures !IsUndelivered(m)
    {
      var i :| 0 <= i < |log| && log[i] == m;
      assert (log + [last])[i] == m && (log + [last])[|log|] == last;
    }
    FilterNone(log, IsUndelivered);
  }

  /** The delivered messages after a take, and those before it followed by the batch. */
  ghost function DeliveredAfter(log: Log, now: int): Log {
    Filter(DeliverAll(log, now), IsDelivered)
  }

  ghost function Batch(log: Log, now: int): Log {
    DeliverAll(Filter(log, IsUndelivered), now)
  }

  lemma DeliveredAfterSnoc(init: Log, last: Message, now: int)
    ensures DeliveredAfter(init + [last], now) ==
            DeliveredAfter(init, now) + if FromDelegate(last) then [Deliver(last, now)] else []
  {
    DeliverSnoc(init, last, now);
    FilterSnoc(DeliverAll(init, now), Deliver(last, now), IsDelivered);
  }

  lemma BatchSnoc(init: Log, last: Message, now: int)
    ensures Batch(init + [last], now) == Batch(init, now) + if IsUndelivered(last) then [Deliver(last, now)] else []
  {
    FilterSnoc(init, last, IsUndelivered);
    if IsUndelivered(last) {
      DeliverSnoc(Filter(init, IsUndelivered), last, now);
    }
  }

  /** One more message behind a log whose delivered messages are two parts in a row. */
  lemma Weave(whole: Log, front: Log, back: Log, ours: bool, done: bool, last: Message, marked: Message,
              whole': Log, front': Log, back': Log)
    requires whole == front + back
    requires whole' == whole + if ours then [marked] else []
    requires front' == front + if done then [last] else []
    requires back' == back + if ours && !done then [marked] else []
    requires done ==> ours && marked == last && back == []
    ensures whole' == front' + back'
  {
  }

  lemma TakeSnoc(init: Log, last: Message, now: int)
    requires DeliveredFirst(init + [last])
    requires DeliveredAfter(init, now) == Filter(init, IsDelivered) + Batch(init, now)
    ensures DeliveredAfter(init + [last], now) == Filter(init + [last], IsDelivered) + Batch(init + [last], now)
  {
    DeliveredAfterSnoc(init, last, now);
    BatchSnoc(init, last, now);
    FilterSnoc(init, last, IsDelivered);
    if IsDelivered(last) {
      NothingToTake(init, last);
    }
    Weave(DeliveredAfter(init, now), Filter(init, IsDelivered), Batch(init, now), FromDelegate(last),
          IsDelivered(last), last, Deliver(last, now), DeliveredAfter(init + [last], now),
          Filter(init + [last], IsDelivered), Batch(init + [last], now));
  }

  /** Marking what was undelivered keeps the delivered ones in place and adds the batch
      behind them. */
  lemma {:induction false} TakeExtendsDelivered(log: Log, now: int)
    requires DeliveredFirst(log)
    ensures DeliveredAfter(log, now) == Filter(log, IsDelivered) + Batch(log, now)
  {
    if |log| > 0 {
      var init, last := log[..|log| - 1], log[|log| - 1];
      TakeExtendsDelivered(init, now);
      assert log == init + [last];
      TakeSnoc(init, last, now);
    }
  }

  lemma AppendedIsUndelivered(log: Log, m: Message)
    requires m.deliveredAt.None?
    ensures Filter(log + [m], IsDelivered) == Filter(log, IsDelivered)
  {
    FilterSnoc(log, m, IsDelivered);
  }

  /** A step that is no take leaves the log or appends one undelivered message. */
  lemma NonTakeAppends(s: State, step: Step)
    requires !step.TakeMessages?
    ensures
      var s' := Next(s, step);
      && s'.batches == s.batches
      && (s'.log == s.log || exists m: Message :: s'.log == s.log + [m] && m.deliveredAt.None?)
  {
  }

  lemma NextKeepsBatches(s: State, step: Step)
    requires LogInv(s.log) && Concat(s.batches) == Filter(s.log, IsDelivered)
    ensures
      var s' := Next(s, step);
      Concat(s'.batches) == Filter(s'.log, IsDelivered)
  {
    var s' := Next(s, step);
    if step.TakeMessages? {
      TakeExtendsDelivered(s.log, step.at);
      assert s'.batches[..|s.batches|] == s.batches;
    } else {
      NonTakeAppends(s, step);
      if s'.log != s.log {
        var m: Message :| s'.log == s.log + [m] && m.deliveredAt.None?;
        AppendedIsUndelivered(s.log, m);
      }
    }
  }

  /** The delivered messages are a prefix of the delegate messages. */
  lemma {:induction false} DeliveredIsPrefix(log: Log)
    requires DeliveredFirst(log)
    ensures Filter(log, IsDelivered) <= Filter(log, FromDelegate)
  {
    if |log| > 0 {
      var init, last := log[..|log| - 1], log[|log| - 1];
      DeliveredIsPrefix(init);
      if IsDelivered(last) {
        forall m | m in Filter(init, FromDelegate)
          ensures IsDelivered(m)
        {
          FilterMembers(init, FromDelegate, m);
          var i :| 0 <= i < |init| && init[i] == m;
          assert FromDelegate(log[i]) && IsDelivered(log[|log| - 1]);
        }
        FilterTwice(init);
      }
    }
  }

  lemma {:induction false} FilterTwice(log: Log)
    requires forall m :: m in Filter(log, FromDelegate) ==> IsDelivered(m)
    ensures Filter(log, IsDelivered) == Filter(log, FromDelegate)
  {
    if |log| > 0 {
      var init, last := log[..|log| - 1], log[|log| - 1];
      assert forall m :: m in Filter(init, FromDelegate) ==> m in Filter(log, FromDelegate);
      FilterTwice(init);
      FilterMembers(log, FromDelegate, last);
    }
  }

  /** At every moment of every run, the batches handed out so far, one after the other, are
      exactly the delivered delegate messages in log order. */
  lemma {:induction false} BatchesAreTheDelivered(states: seq<State>, steps: seq<Step>, n: nat)
    requires IsRun(states, steps) && n < |states|
    ensures Concat(states[n].batches) == Filter(states[n].log, IsDelivered)
  {
    if n > 0 {
      BatchesAreTheDelivered(states, steps, n - 1);
      AnswersAreUniqueAndCausal(states, steps, n - 1);
      NextKeepsBatches(states[n - 1], steps[n - 1]);
    }
  }

  lemma {:induction false} AfterTakeAllDelivered(log: Log, now: int)
    ensures Filter(DeliverAll(log, now), IsDelivered) == Filter(DeliverAll(log, now), FromDelegate)
  {
    if |log| > 0 {
      AfterTakeAllDelivered(log[..|log| - 1], now);
      assert DeliverAll(log, now)[..|log| - 1] == DeliverAll(log[..|log| - 1], now);
    }
  }

  /** Right after any take, the batches together are all delegate messages of the log, in
      order. */
  lemma OrderedDelivery(states: seq<State>, steps: seq<Step>, n: nat)
    requires IsRun(states, steps) && n < |steps| && steps[n].TakeMessages?
    ensures Concat(states[n + 1].batches) == Filter(states[n + 1].log, FromDelegate)
  {
    BatchesAreTheDelivered(states, steps, n + 1);
    AfterTakeAllDelivered(states[n].log, steps[n].at);
  }

  lemma {:induction false} FilterKeepsUniqueIds(log: Log, test: Message -> bool)
    requires UniqueIds(log)
    ensures UniqueIds(Filter(log, test))
  {
    if |log| > 0 {
      var init, last := log[..|log| - 1], log[|log| - 1];
      FilterKeepsUniqueIds(init, test);
      forall m | m in Filter(init, test)
        ensures m.id != last.id
      {
        FilterMembers(init, test, m);
      }
    }
  }

  lemma {:induction false} InConcat(batches: seq<Log>, b: nat, i: nat) returns (at: nat)
    requires b < |batches| && i < |batches[b]|
    ensures at < |Concat(batches)| && Concat(batches)[at] == batches[b][i]
    ensures at >= |Concat(batches[..b])| && at - |Concat(batches[..b])| == i
    decreases |batches|
  {
    var init := batches[..|batches| - 1];
    if b == |batches| - 1 {
      at := |Concat(init)| + i;
    } else {
      at := InConcat(init, b, i);
      assert init[..b] == batches[..b];
    }
  }

  lemma {:induction false} ConcatGrows(batches: seq<Log>, a: nat, b: nat)
    requires a <= b <= |batches|
    ensures |Concat(batches[..a])| <= |Concat(batches[..b])|
    decreases b
  {
    if a < b {
      ConcatGrows(batches, a, b - 1);
      assert batches[..b][..b - 1] == batches[..b - 1];
    }
  }

  /** No message is handed out twice, neither in two batches nor twice in one. */
  lemma HandedOutOnce(states: seq<State>, steps: seq<Step>, n: nat, b: nat, i: nat, c: nat, j: nat)
    requires IsRun(states, steps) && n < |states|
    requires b < |states[n].batches| && i < |states[n].batches[b]|
    requires c < |states[n].batches| && j < |states[n].batches[c]|
    requires states[n].batches[b][i].id == states[n].batches[c][j].id
    ensures b == c && i == j
  {
    var batches := states[n].batches;
    BatchesAreTheDelivered(states, steps, n);
    AnswersAreUniqueAndCausal(states, steps, n);
    FilterKeepsUniqueIds(states[n].log, IsDelivered);
    var p := InConcat(batches, b, i);
    var q := InConcat(batches, c, j);
    if b < c {
      BatchesApart(batches, b, i, c);
    } else if c < b {
      BatchesApart(batches, c, j, b);
    }
  }

  /** A later batch starts behind every message of an earlier one. */
  lemma BatchesApart(batches: seq<Log>, b: nat, i: nat, c: nat)
    requires b < c <= |batches| && i < |batches[b]|
    ensures |Concat(batches[..b])| + i < |Concat(batches[..c])|
  {
    ConcatGrows(batches, b + 1, c);
    assert batches[..b + 1][..b] == batches[..b];
  }

  // ----- the log only grows -----

  /** log' extends log; an entry can only go from undelivered to delivered. */
  ghost predicate Extends(log: Log, log': Log) {
    && |log| <= |log'|
    && forall i :: 0 <= i < |log| ==>
         && log'[i] == log[i].(deliveredAt := log'[i].deliveredAt)
         && (log[i].deliveredAt.Some? ==> log'[i].deliveredAt == log[i].deliveredAt)
  }

  lemma NextExtends(s: State, step: Step)
    ensures Extends(s.log, Next(s, step).log)
  {
  }

  lemma RunExtends(states: seq<State>, steps: seq<Step>, n: nat)
    requires IsRun(states, steps) && n < |steps|
    ensures Extends(states[n].log, states[n + 1].log)
  {
    var s, step := states[n], steps[n];
    NextExtends(s, step);
  }

  ghost predicate Growing(states: seq<State>) {
    forall n :: 0 <= n < |states| - 1 ==> Extends(states[n].log, states[n + 1].log)
  }

  lemma {:induction false} GrowsThroughout(states: seq<State>, m: nat, n: nat)
    requires Growing(states) && m <= n < |states|
    ensures Extends(states[m].log, states[n].log)
    decreases n
  {
    if m < n {
      GrowsThroughout(states, m, n - 1);
      ExtendsIsTransitive(states[m].log, states[n - 1].log, states[n - 1 + 1].log);
    }
  }

  /** Between any two moments of a run, entries never change except that an undelivered one
      may become delivered, once. */
  lemma EntriesNeverChange(states: seq<State>, steps: seq<Step>, m: nat, n: nat)
    requires IsRun(states, steps) && m <= n < |states|
    ensures Extends(states[m].log, states[n].log)
  {
    forall k | 0 <= k < |states| - 1
      ensures Extends(states[k].log, states[k + 1].log)
    {
      RunExtends(states, steps, k);
    }
    GrowsThroughout(states, m, n);
  }

  lemma ExtendsIsTransitive(a: Log, b: Log, c: Log)
    requires Extends(a, b) && Extends(b, c)
    ensures Extends(a, c)
  {
  }

  // ----- follow-up routing -----

  /** The listing of unanswered asks agrees with the two checks an answer has to pass. */
  lemma UnansweredAgrees(log: Log, m: Message)
    requires m in log
    ensures m in UnansweredAsks(log) ==> ContainsAsk(log, m.id) && !HasAnswer(log, m.id)
    ensures IsAsk(m) && !HasAnswer(log, m.id) ==> m in UnansweredAsks(log)
  {
    FilterMembers(log, UnansweredTest(log), m);
  }

  /** The asks a follow-up may answer are the delegate's delivered ones that somebody waits on
      and that no answer of the orchestrator names. */
  lemma AnswerableMember(log: Log, waited: set<string>, m: Message)
    ensures m in Answerable(log, waited) <==>
            && m in log && m.from == "delegate" && m.kind == "ask" && m.deliveredAt != None && m.id in waited
            && forall i :: 0 <= i < |log| && log[i].from == "orchestrator" && log[i].kind == "answer" ==>
                 log[i].replyTo != m.id
  {
    FilterMembers(log, UnansweredTest(log), m);
    FilterMembers(UnansweredAsks(log), WaitedTest(waited), m);
  }

  /** Follow-up routing appends one answer exactly when a single ask is unanswered,
      delivered and waited for and the text fits; it changes nothing otherwise, says whether
      there was no such ask or more than one, and can fail only on the text. */
  lemma RoutingAnswersTheOnlyAsk(log: Log, waited: set<string>, text: string, id: string, now: int)
    requires AllValid(log)
    ensures
      var (log', routing) := Route(log, waited, text, id, now);
      var asks := Answerable(log, waited);
      if |asks| == 1 && 0 < |text| <= 65536 then
        && routing == Answered(asks[0].id)
        && log' == log + [Message(id, now, "orchestrator", "answer", text, asks[0].id, None)]
      else
        && log' == log
        && routing == if |asks| == 0 then NotRouted
                      else if |asks| > 1 then Ambiguous
                      else if |text| == 0 then RouteFailed(EmptyText)
                      else RouteFailed(TextTooLong)
  {
    var asks := Answerable(log, waited);
    if |asks| == 1 {
      var m := asks[0];
      assert m in asks;
      AnswerableMember(log, waited, m);
      UnansweredAgrees(log, m);
      var i :| 0 <= i < |log| && log[i] == m;
    }
  }

  // ----- what one post and one take do -----

  /** What a post leaves and replies, for every input: a note or an ask of the delegate whose
      text fits and that replies to nothing is stored as it is, and so is an answer of the
      orchestrator whose text fits to an ask the log has without an answer; anything else
      leaves the log and is refused, an answer for what it replies to before its text. */
  lemma PostOutcome(log: Log, from: string, kind: string, text: string, replyTo: string, id: string, now: int)
    ensures
      var (log', reply) := Post(log, from, kind, text, replyTo, id, now);
      var posts, answers := from == "delegate" && kind in {"note", "ask"}, from == "orchestrator" && kind == "answer";
      var known := exists i :: 0 <= i < |log| && log[i].id == replyTo && log[i].from == "delegate"
                               && log[i].kind == "ask";
      var taken := exists i :: 0 <= i < |log| && log[i].from == "orchestrator" && log[i].kind == "answer"
                               && log[i].replyTo == replyTo;
      if 0 < |text| <= 65536
         && ((posts && replyTo == "") || (answers && replyTo != "" && known && !taken)) then
        var m := Message(id, now, from, kind, text, replyTo, None);
        log' == log + [m] && reply == Stored(m)
      else
        && log' == log
        && reply == Refused(
             if answers && replyTo == "" then ReplyToRequired
             else if answers && !known then NotAnAsk
             else if answers && taken then AlreadyAnswered
             else if |text| == 0 then EmptyText
             else if |text| > 65536 then TextTooLong
             else if posts then DelegateCannotReply
             else InvalidCombination)
  {
    if from == "orchestrator" && kind == "answer" {
      assert ContainsAsk(log, replyTo) <==>
             exists i :: 0 <= i < |log| && log[i].id == replyTo && log[i].from == "delegate" && log[i].kind == "ask";
      assert HasAnswer(log, replyTo) <==>
             exists i :: 0 <= i < |log| && log[i].from == "orchestrator" && log[i].kind == "answer"
                         && log[i].replyTo == replyTo;
    }
  }

  /** What the store does with a message by itself: it replaces the id, the time and the mark
      of one it accepts, and refuses any other for its text first. */
  lemma AppendOutcome(log: Log, m: Message, id: string, now: int)
    ensures
      var (log', reply) := Append(log, m, id, now);
      var posts, answers := m.from == "delegate" && m.kind in {"note", "ask"},
                            m.from == "orchestrator" && m.kind == "answer";
      if 0 < |m.text| <= 65536 && ((posts && m.replyTo == "") || (answers && m.replyTo != "")) then
        var stored := Message(id, now, m.from, m.kind, m.text, m.replyTo, None);
        log' == log + [stored] && reply == Stored(stored)
      else
        && log' == log
        && reply == Refused(
             if |m.text| == 0 then EmptyText
             else if |m.text| > 65536 then TextTooLong
             else if posts then DelegateCannotReply
             else if answers then AnswerWithoutReply
             else InvalidCombination)
  {
  }

  /** A delegation that has lost its record refuses every answer and routes no follow-up. */
  lemma LostRecordRefuses(log: Log, waited: set<string>, askId: string, text: string, id: string, now: int)
    ensures
      var known := exists i :: 0 <= i < |log| && log[i].id == askId && log[i].from == "delegate"
                               && log[i].kind == "ask";
      var taken := exists i :: 0 <= i < |log| && log[i].from == "orchestrator" && log[i].kind == "answer"
                               && log[i].replyTo == askId;
      AnswerIfRecorded(false, log, askId, text, id, now) ==
      (log, Refused(if askId == "" then ReplyToRequired else if !known then NotAnAsk
                    else if taken then AlreadyAnswered else NotFound))
    ensures
      var asks := |Answerable(log, waited)|;
      RouteIfRecorded(false, log, waited, text, id, now) ==
      (log, if asks == 0 then NotRouted else if asks > 1 then Ambiguous else RouteFailed(NotFound))
    ensures AnswerIfRecorded(true, log, askId, text, id, now) ==
            Post(log, "orchestrator", "answer", text, askId, id, now)
    ensures RouteIfRecorded(true, log, waited, text, id, now) == Route(log, waited, text, id, now)
  {
    assert ContainsAsk(log, askId) <==>
           exists i :: 0 <= i < |log| && log[i].id == askId && log[i].from == "delegate" && log[i].kind == "ask";
    assert HasAnswer(log, askId) <==>
           exists i :: 0 <= i < |log| && log[i].from == "orchestrator" && log[i].kind == "answer"
                       && log[i].replyTo == askId;
  }

  /** An ask the delegate posts can be listed: it is the last of the unanswered
      asks. */
  lemma PostedAskIsOpen(log: Log, text: string, id: string, now: int)
    requires LogInv(log) && id != "" && forall i :: 0 <= i < |log| ==> log[i].id != id
    requires 0 < |text| <= 65536
    ensures
      var m := Message(id, now, "delegate", "ask", text, "", None);
      UnansweredAsks(Post(log, "delegate", "ask", text, "", id, now).0) == UnansweredAsks(log) + [m]
  {
    var m := Message(id, now, "delegate", "ask", text, "", None);
    PostOutcome(log, "delegate", "ask", text, "", id, now);
    assert !HasAnswer(log, id);
    SameAnswers(log, m);
    FilterSnoc(log, m, UnansweredTest(log + [m]));
    FilterAlike(log, UnansweredTest(log + [m]), UnansweredTest(log));
  }

  lemma SameAnswers(log: Log, m: Message)
    requires m.from != "orchestrator"
    ensures forall askId :: HasAnswer(log + [m], askId) <==> HasAnswer(log, askId)
  {
    forall askId
      ensures HasAnswer(log + [m], askId) <==> HasAnswer(log, askId)
    {
      if i :| 0 <= i < |log| && IsAnswer(log[i]) && log[i].replyTo == askId {
        assert (log + [m])[i] == log[i];
      }
    }
  }

  lemma {:induction false} FilterAlike(log: Log, test: Message -> bool, other: Message -> bool)
    requires forall m :: test(m) <==> other(m)
    ensures Filter(log, test) == Filter(log, other)
  {
    if |log| > 0 {
      FilterAlike(log[..|log| - 1], test, other);
    }
  }

  /** A take marks the delegate's messages without a mark, with the time, and changes nothing
      else; it hands out exactly those, marked. */
  lemma TakeOutcome(log: Log, now: int)
    ensures
      var (log', batch) := Take(log, now);
      && |log'| == |log|
      && (forall i :: 0 <= i < |log| ==>
          log'[i] == if log[i].from == "delegate" && log[i].deliveredAt == None
                     then log[i].(deliveredAt := Some(now)) else log[i])
      && (forall m :: m in batch ==>
          exists i :: 0 <= i < |log| && log[i].from == "delegate" && log[i].deliveredAt == None && m == log'[i])
      && (forall i :: 0 <= i < |log| && log[i].from == "delegate" && log[i].deliveredAt == None ==> log'[i] in batch)
  {
    var undelivered := Filter(log, IsUndelivered);
    var (log', batch) := Take(log, now);
    forall m | m in batch
      ensures exists i :: 0 <= i < |log| && log[i].from == "delegate" && log[i].deliveredAt == None && m == log'[i]
    {
      var j :| 0 <= j < |batch| && batch[j] == m;
      FilterMembers(log, IsUndelivered, undelivered[j]);
      var i :| 0 <= i < |log| && log[i] == undelivered[j];
      assert m == log'[i];
    }
    forall i | 0 <= i < |log| && log[i].from == "delegate" && log[i].deliveredAt == None
      ensures log'[i] in batch
    {
      FilterMembers(log, IsUndelivered, log[i]);
      var j :| 0 <= j < |undelivered| && undelivered[j] == log[i];
      assert batch[j] == log'[i];
    }
  }
}
