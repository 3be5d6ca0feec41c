/** The message store and the server's critical sections, changed in place and proved
    against the functions of DelegationLog. */
module DelegationServer {
  import opened Wrappers
  import opened DelegationLog
  import opened DelegationRuns

  class Store {
    /** The delegations that have a record, and each one's stored messages; a delegation
        without a message file has none. */
    var records: set<string>
    var files: map<string, Log>

    function LogOf(delegation: string): Log
      reads this
    {
      if delegation in files then files[delegation] else []
    }

    ghost predicate Valid()
      reads this
    {
      forall d :: LogInv(LogOf(d))
    }

    constructor (records: set<string>)
      ensures Valid() && this.records == records && forall d :: LogOf(d) == []
    {
      this.records := records;
      files := map[];
    }

    /** Adds a message under a fresh id. */
    method AppendMessage(delegation: string, m: Message, id: string, now: int) returns (reply: Reply)
      modifies this`files
      ensures reply == if delegation in records then Append(old(LogOf(delegation)), m, id, now).1 else Refused(NotFound)
      ensures LogOf(delegation) ==
              if delegation in records then Append(old(LogOf(delegation)), m, id, now).0 else old(LogOf(delegation))
      ensures forall d :: d != delegation ==> LogOf(d) == old(LogOf(d))
    {
      if delegation !in records {
        return Refused(NotFound);
      }
      var failure := Validate(m);
      if failure.Some? {
        return Refused(failure.value);
      }
      var stored := m.(id := id, ts := now, deliveredAt := None);
      files := files[delegation := LogOf(delegation) + [stored]];
      return Stored(stored);
    }

    /** The delegate messages not yet handed to the orchestrator. */
    method UndeliveredFromDelegate(delegation: string) returns (undelivered: Log)
      ensures undelivered == Filter(LogOf(delegation), IsUndelivered)
    {
      var messages := LogOf(delegation);
      undelivered := [];
      for i := 0 to |messages|
        invariant undelivered == Filter(messages[..i], IsUndelivered)
      {
        PrefixFilter(messages, i, IsUndelivered);
        if messages[i].from == "delegate" && messages[i].deliveredAt.None? {
          undelivered := undelivered + [messages[i]];
        }
      }
      assert messages[..|messages|] == messages;
    }

    /** Marks the named delegate messages delivered, in place. */
    method MarkDelivered(delegation: string, ids: set<string>, now: int)
      modifies this`files
      ensures |LogOf(delegation)| == |old(LogOf(delegation))|
      ensures forall i :: 0 <= i < |LogOf(delegation)| ==>
                LogOf(delegation)[i] ==
                (var m := old(LogOf(delegation))[i]; if m.id in ids then Deliver(m, now) else m)
      ensures forall d :: d != delegation ==> LogOf(d) == old(LogOf(d))
    {
      var messages := LogOf(delegation);
      ghost var before := messages;
      var changed := false;
      for i := 0 to |messages|
        invariant |messages| == |before|
        invariant forall j :: 0 <= j < |messages| ==>
                    messages[j] == if j < i && before[j].id in ids then Deliver(before[j], now) else before[j]
        invariant !changed ==> messages == before
      {
        if messages[i].id !in ids || messages[i].from != "delegate" || messages[i].deliveredAt.Some? {
          continue;
        }
        messages := messages[i := messages[i].(deliveredAt := Some(now))];
        changed := true;
      }
      if changed {
        files := files[delegation := messages];
      }
    }

    /** The first answer to an ask. */
    method AnswerFor(delegation: string, askId: string) returns (answer: Option<Message>)
      ensures answer.Some? <==> HasAnswer(LogOf(delegation), askId)
      ensures answer.Some? ==>
                answer.value in LogOf(delegation) && IsAnswer(answer.value) && answer.value.replyTo == askId
    {
      var messages := LogOf(delegation);
      for i := 0 to |messages|
        invariant forall j :: 0 <= j < i ==> !(IsAnswer(messages[j]) && messages[j].replyTo == askId)
      {
        if messages[i].from == "orchestrator" && messages[i].kind == "answer" && messages[i].replyTo == askId {
          return Some(messages[i]);
        }
      }
      return None;
    }

    /** The delegate asks that no answer names. */
    method ListUnansweredAsks(delegation: string) returns (asks: Log)
      ensures asks == UnansweredAsks(LogOf(delegation))
    {
      var messages := LogOf(delegation);
      var answered: set<string> := {};
      for i := 0 to |messages|
        invariant forall id :: id in answered <==> HasAnswer(messages[..i], id)
      {
        HasAnswerSnoc(messages, i);
        if messages[i].from == "orchestrator" && messages[i].kind == "answer" {
          answered := answered + {messages[i].replyTo};
        }
      }
      assert messages[..|messages|] == messages;
      asks := [];
      for i := 0 to |messages|
        invariant asks == Filter(messages[..i], UnansweredTest(messages))
      {
        PrefixFilter(messages, i, UnansweredTest(messages));
        if messages[i].from == "delegate" && messages[i].kind == "ask" && messages[i].id !in answered {
          asks := asks + [messages[i]];
        }
      }
    }
  }

  lemma PrefixFilter(log: Log, i: nat, test: Message -> bool)
    requires i < |log|
    ensures Filter(log[..i + 1], test) == Filter(log[..i], test) + if test(log[i]) then [log[i]] else []
  {
    assert log[..i + 1] == log[..i] + [log[i]];
    FilterSnoc(log[..i], log[i], test);
  }

  lemma HasAnswerSnoc(log: Log, i: nat)
    requires i < |log|
    ensures forall id :: HasAnswer(log[..i + 1], id) <==>
        HasAnswer(log[..i], id) || (IsAnswer(log[i]) && log[i].replyTo == id)
  {
    forall id
      ensures HasAnswer(log[..i + 1], id) <==> HasAnswer(log[..i], id) || (IsAnswer(log[i]) && log[i].replyTo == id)
    {
      if HasAnswer(log[..i], id) {
        var j :| 0 <= j < i && IsAnswer(log[..i][j]) && log[..i][j].replyTo == id;
        assert log[..i + 1][j] == log[..i][j];
      }
      if IsAnswer(log[i]) && log[i].replyTo == id {
        assert log[..i + 1][i] == log[i];
      }
    }
  }

  /** A stored message's id is among those taken exactly when the message is undelivered. */
  lemma TakenById(log: Log, ids: set<string>)
    requires UniqueIds(log)
    requires ids == set m | m in Filter(log, IsUndelivered) :: m.id
    ensures forall i :: 0 <= i < |log| ==> (log[i].id in ids <==> IsUndelivered(log[i]))
  {
    forall i | 0 <= i < |log|
      ensures log[i].id in ids <==> IsUndelivered(log[i])
    {
      FilterMembers(log, IsUndelivered, log[i]);
      if log[i].id in ids {
        var m :| m in Filter(log, IsUndelivered) && m.id == log[i].id;
        FilterMembers(log, IsUndelivered, m);
        var j :| 0 <= j < |log| && log[j] == m;
        assert i == j;
      }
    }
  }

  function IdTest(ids: set<string>): Message -> bool {
    (m: Message) => m.id in ids
  }

  /** Marking by id delivers exactly the undelivered, and re-reading by id gives them back
      in their delivered form. */
  lemma MarkedById(log: Log, log': Log, ids: set<string>, now: int)
    requires forall i :: 0 <= i < |log| ==> (log[i].id in ids <==> IsUndelivered(log[i]))
    requires |log'| == |log|
    requires forall i :: 0 <= i < |log| ==> log'[i] == if log[i].id in ids then Deliver(log[i], now) else log[i]
    ensures log' == DeliverAll(log, now)
    ensures Filter(log', IdTest(ids)) == Batch(log, now)
  {
    assert log' == DeliverAll(log, now);
    RereadBatch(log, now, ids);
  }

  lemma {:induction false} RereadBatch(log: Log, now: int, ids: set<string>)
    requires forall i :: 0 <= i < |log| ==> (log[i].id in ids <==> IsUndelivered(log[i]))
    ensures Filter(DeliverAll(log, now), IdTest(ids)) == Batch(log, now)
  {
    if |log| > 0 {
      var init, last := log[..|log| - 1], log[|log| - 1];
      assert forall i :: 0 <= i < |init| ==> init[i] == log[i];
      RereadBatch(init, now, ids);
      assert log == init + [last];
      RereadOneMore(init, last, now, ids);
    }
  }

  lemma RereadOneMore(init: Log, last: Message, now: int, ids: set<string>)
    requires Filter(DeliverAll(init, now), IdTest(ids)) == Batch(init, now)
    requires last.id in ids <==> IsUndelivered(last)
    ensures Filter(DeliverAll(init + [last], now), IdTest(ids)) == Batch(init + [last], now)
  {
    DeliverSnoc(init, last, now);
    FilterSnoc(DeliverAll(init, now), Deliver(last, now), IdTest(ids));
    BatchSnoc(init, last, now);
  }

  class Server {
    const store: Store
    var answerWaiters: map<(string, string), int>

    /** Waiter counts in the map are positive. */
    ghost predicate WaitersCounted()
      reads this
    {
      forall k :: k in answerWaiters ==> answerWaiters[k] > 0
    }

    /** The asks of the delegation somebody waits on. */
    function WaitedAsks(delegation: string): set<string>
      reads this
    {
      set k | k in answerWaiters && k.0 == delegation && answerWaiters[k] > 0 :: k.1
    }

    ghost predicate IsFresh(delegation: string, id: string)
      reads store
    {
      id != "" && forall i :: 0 <= i < |store.LogOf(delegation)| ==> store.LogOf(delegation)[i].id != id
    }

    constructor (store: Store)
      ensures this.store == store && answerWaiters == map[] && WaitersCounted()
    {
      this.store := store;
      answerWaiters := map[];
    }

    method FindAsk(messages: Log, askId: string) returns (found: bool)
      ensures found <==> ContainsAsk(messages, askId)
    {
      for i := 0 to |messages|
        invariant forall j :: 0 <= j < i ==> !(messages[j].id == askId && IsAsk(messages[j]))
      {
        if messages[i].id == askId && messages[i].from == "delegate" && messages[i].kind == "ask" {
          return true;
        }
      }
      return false;
    }

    /** Validates and stores an answer while the message lock is held. */
    method AppendDelegationAnswer(delegation: string, askId: string, text: string, id: string, now: int)
      returns (reply: Reply)
      requires store.Valid() && IsFresh(delegation, id)
      modifies store`files
      ensures store.Valid()
      ensures (store.LogOf(delegation), reply) ==
              AnswerIfRecorded(delegation in store.records, old(store.LogOf(delegation)), askId, text, id, now)
      ensures forall d :: d != delegation ==> store.LogOf(d) == old(store.LogOf(d))
    {
      ghost var log := store.LogOf(delegation);
      assert LogInv(log);
      AnswerKeepsInv(log, askId, text, id, now);
      if askId == "" {
        return Refused(ReplyToRequired);
      }
      var messages := store.LogOf(delegation);
      var known := FindAsk(messages, askId);
      if !known {
        return Refused(NotAnAsk);
      }
      var answer := store.AnswerFor(delegation, askId);
      if answer.Some? {
        return Refused(AlreadyAnswered);
      }
      reply := store.AppendMessage(delegation, Message("", 0, "orchestrator", "answer", text, askId, None), id, now);
      StoreStaysValid(delegation);
    }

    twostate lemma StoreStaysValid(delegation: string)
      requires old(store.Valid()) && LogInv(store.LogOf(delegation))
      requires forall d :: d != delegation ==> store.LogOf(d) == old(store.LogOf(d))
      ensures store.Valid()
    {
      forall d
        ensures LogInv(store.LogOf(d))
      {
        if d != delegation {
          assert old(LogInv(store.LogOf(d)));
        }
      }
    }

    /** The part of a posted message that runs under the message lock. */
    method HandleDelegationMessage(delegation: string, from: string, kind: string, text: string, replyTo: string,
                                   id: string, now: int)
      returns (reply: Reply)
      requires store.Valid() && IsFresh(delegation, id)
      modifies store`files
      ensures store.Valid()
      ensures if delegation in store.records then
                (store.LogOf(delegation), reply) ==
                    Post(old(store.LogOf(delegation)), from, kind, text, replyTo, id, now)
              else
                reply == Refused(NotFound) && store.LogOf(delegation) == old(store.LogOf(delegation))
      ensures forall d :: d != delegation ==> store.LogOf(d) == old(store.LogOf(d))
    {
      if delegation !in store.records {
        return Refused(NotFound);
      }
      if from == "orchestrator" && kind == "answer" {
        reply := AppendDelegationAnswer(delegation, replyTo, text, id, now);
        return;
      }
      ghost var log := store.LogOf(delegation);
      assert LogInv(log);
      PostKeepsInv(log, from, kind, text, replyTo, id, now);
      reply := store.AppendMessage(delegation, Message("", 0, from, kind, text, replyTo, None), id, now);
      StoreStaysValid(delegation);
    }

    /** The stored messages with the given ids, in log order. */
    method ReadById(delegation: string, ids: set<string>) returns (found: Log)
      ensures found == Filter(store.LogOf(delegation), IdTest(ids))
    {
      var all := store.LogOf(delegation);
      found := [];
      for i := 0 to |all|
        invariant found == Filter(all[..i], IdTest(ids))
      {
        PrefixFilter(all, i, IdTest(ids));
        if all[i].id in ids {
          found := found + [all[i]];
        }
      }
      assert all[..|all|] == all;
    }

    /** Hands out every undelivered delegate message once: lists them, marks them by id, and
        re-reads them from the log. */
    method TakeUndeliveredDelegateMessages(delegation: string, now: int) returns (batch: Log)
      requires store.Valid()
      modifies store`files
      ensures store.Valid()
      ensures (store.LogOf(delegation), batch) == Take(old(store.LogOf(delegation)), now)
      ensures forall d :: d != delegation ==> store.LogOf(d) == old(store.LogOf(d))
    {
      ghost var log := store.LogOf(delegation);
      assert LogInv(log);
      var messages := store.UndeliveredFromDelegate(delegation);
      if |messages| == 0 {
        NothingUndelivered(log, now);
        return [];
      }
      var ids := set m | m in messages :: m.id;
      TakenById(log, ids);
      store.MarkDelivered(delegation, ids, now);
      MarkedById(log, store.LogOf(delegation), ids, now);
      batch := ReadById(delegation, ids);
      DeliverAllKeepsInv(log, now);
      StoreStaysValid(delegation);
    }

    method HasAnswerWaiter(delegation: string, askId: string) returns (waited: bool)
      ensures waited <==> askId in WaitedAsks(delegation)
    {
      waited := (delegation, askId) in answerWaiters && answerWaiters[(delegation, askId)] > 0;
      if waited {
        assert (delegation, askId).1 == askId;
      }
    }

    /** The unanswered asks that were handed out and are waited for. */
    method AnswerableAsks(delegation: string) returns (answerable: Log)
      ensures answerable == Answerable(store.LogOf(delegation), WaitedAsks(delegation))
      ensures forall m :: m in answerable <==>
                && m in UnansweredAsks(store.LogOf(delegation)) && m.deliveredAt.Some?
                && (delegation, m.id) in answerWaiters && answerWaiters[(delegation, m.id)] > 0
    {
      ghost var test := WaitedTest(WaitedAsks(delegation));
      var asks := store.ListUnansweredAsks(delegation);
      answerable := [];
      for i := 0 to |asks|
        invariant answerable == Filter(asks[..i], test)
      {
        PrefixFilter(asks, i, test);
        if asks[i].deliveredAt.Some? {
          var waited := HasAnswerWaiter(delegation, asks[i].id);
          if waited {
            answerable := answerable + [asks[i]];
          }
        }
      }
      assert asks[..|asks|] == asks;
      forall m
        ensures m in answerable <==> m in asks && test(m)
      {
        FilterMembers(asks, test, m);
      }
      forall id
        ensures id in WaitedAsks(delegation) <==>
            (delegation, id) in answerWaiters && answerWaiters[(delegation, id)] > 0
      {
        assert (delegation, id).1 == id;
      }
    }

    /** Answers the only ask a follow-up can mean. */
    method RouteFollowupToAsk(delegation: string, text: string, id: string, now: int) returns (routing: Routing)
      requires store.Valid() && IsFresh(delegation, id)
      modifies store`files
      ensures store.Valid()
      ensures (store.LogOf(delegation), routing) ==
              RouteIfRecorded(delegation in store.records, old(store.LogOf(delegation)), WaitedAsks(delegation),
                              text, id, now)
      ensures forall d :: d != delegation ==> store.LogOf(d) == old(store.LogOf(d))
    {
      var answerable := AnswerableAsks(delegation);
      if |answerable| == 0 {
        return NotRouted;
      }
      if |answerable| > 1 {
        return Ambiguous;
      }
      ghost var log := store.LogOf(delegation);
      assert answerable[0] in answerable;
      AnswerableMember(log, WaitedAsks(delegation), answerable[0]);
      UnansweredAgrees(log, answerable[0]);
      assert LogInv(log);
      var reply := AppendDelegationAnswer(delegation, answerable[0].id, text, id, now);
      if reply.Refused? {
        return RouteFailed(reply.failure);
      }
      return Answered(answerable[0].id);
    }

    /** One more long poll waits for the ask's answer. */
    method RegisterAnswerWaiter(delegation: string, askId: string)
      requires WaitersCounted()
      modifies this`answerWaiters
      ensures WaitersCounted()
      ensures answerWaiters == CountWaiter(old(answerWaiters), WaiterStep((delegation, askId), true))
    {
      var key := (delegation, askId);
      answerWaiters := answerWaiters[key := (if key in answerWaiters then answerWaiters[key] else 0) + 1];
    }

    /** The poll has ended. */
    method UnregisterAnswerWaiter(delegation: string, askId: string)
      requires WaitersCounted()
      modifies this`answerWaiters
      ensures WaitersCounted()
      ensures answerWaiters == CountWaiter(old(answerWaiters), WaiterStep((delegation, askId), false))
    {
      var key := (delegation, askId);
      if key !in answerWaiters || answerWaiters[key] <= 1 {
        answerWaiters := answerWaiters - {key};
      } else {
        answerWaiters := answerWaiters[key := answerWaiters[key] - 1];
      }
    }
  }

  lemma NothingUndelivered(log: Log, now: int)
    requires Filter(log, IsUndelivered) == []
    ensures Take(log, now) == (log, [])
  {
    forall i | 0 <= i < |log|
      ensures !IsUndelivered(log[i])
    {
      FilterMembers(log, IsUndelivered, log[i]);
    }
    assert DeliverAll(log, now) == log;
    assert Batch(log, now) == [];
  }

  // ----- the waiter registry over runs -----

  datatype WaiterStep = WaiterStep(key: (string, string), enter: bool)

  function CountWaiter(waiters: map<(string, string), int>, step: WaiterStep): map<(string, string), int> {
    var n := if step.key in waiters then waiters[step.key] else 0;
    if step.enter then waiters[step.key := n + 1]
    else if n <= 1 then waiters - {step.key}
    else waiters[step.key := n - 1]
  }

  function Registry(steps: seq<WaiterStep>): map<(string, string), int> {
    if |steps| == 0 then map[] else CountWaiter(Registry(steps[..|steps| - 1]), steps[|steps| - 1])
  }

  /** Registrations minus unregistrations of a key. */
  function Outstanding(steps: seq<WaiterStep>, key: (string, string)): int {
    if |steps| == 0 then 0
    else
      var last := steps[|steps| - 1];
      Outstanding(steps[..|steps| - 1], key) + if last.key != key then 0 else if last.enter then 1 else -1
  }

  /** Each unregistration ends an earlier registration. */
  ghost predicate Paired(steps: seq<WaiterStep>) {
    forall n, key :: 0 <= n <= |steps| ==> Outstanding(steps[..n], key) >= 0
  }

  /** After any interleaving of polls the registry holds exactly the keys with outstanding
      polls, each with their number. */
  lemma {:induction false} RegistryCountsPolls(steps: seq<WaiterStep>, key: (string, string))
    requires Paired(steps)
    ensures key in Registry(steps) <==> Outstanding(steps, key) > 0
    ensures key in Registry(steps) ==> Registry(steps)[key] == Outstanding(steps, key)
  {
    if |steps| > 0 {
      var init := steps[..|steps| - 1];
      forall n, k | 0 <= n <= |init|
        ensures Outstanding(init[..n], k) >= 0
      {
        assert init[..n] == steps[..n];
      }
      RegistryCountsPolls(init, key);
      assert steps[..|steps|] == steps;
      assert Outstanding(steps[..|steps|], key) >= 0;
    }
  }
}
