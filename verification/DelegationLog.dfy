/** The message log of one delegation and what each critical section does to it, as
    functions of the log. */
module DelegationLog {
  import opened Wrappers

  datatype Message = Message(
    id: string,
    ts: int,
    from: string,
    kind: string,
    text: string,
    replyTo: string,
    deliveredAt: Option<int>)

  datatype Failure =
    | NotFound
    | EmptyText
    | TextTooLong
    | DelegateCannotReply
    | AnswerWithoutReply
    | InvalidCombination
    | ReplyToRequired
    | NotAnAsk
    | AlreadyAnswered

  datatype Reply = Stored(message: Message) | Refused(failure: Failure)

  const MAX_TEXT_LEN := 64 * 1024

  type Log = seq<Message>

  predicate FromDelegate(m: Message) {
    m.from == "delegate"
  }

  predicate IsAsk(m: Message) {
    m.from == "delegate" && m.kind == "ask"
  }

  predicate IsAnswer(m: Message) {
    m.from == "orchestrator" && m.kind == "answer"
  }

  predicate IsDelivered(m: Message) {
    FromDelegate(m) && m.deliveredAt.Some?
  }

  predicate IsUndelivered(m: Message) {
    FromDelegate(m) && m.deliveredAt.None?
  }

  /** Why the store refuses a message, None when it does not. */
  function Validate(m: Message): Option<Failure> {
    if |m.text| == 0 then Some(EmptyText)
    else if |m.text| > MAX_TEXT_LEN then Some(TextTooLong)
    else if m.from == "delegate" && (m.kind == "note" || m.kind == "ask") then
      if m.replyTo != "" then Some(DelegateCannotReply) else None
    else if m.from == "orchestrator" && m.kind == "answer" then
      if m.replyTo == "" then Some(AnswerWithoutReply) else None
    else Some(InvalidCombination)
  }

  /** The messages that pass the test, in log order. */
  function Filter(log: Log, test: Message -> bool): Log {
    if |log| == 0 then []
    else
      var last := log[|log| - 1];
      Filter(log[..|log| - 1], test) + if test(last) then [last] else []
  }

  predicate ContainsAsk(log: Log, askId: string) {
    exists i :: 0 <= i < |log| && log[i].id == askId && IsAsk(log[i])
  }

  predicate HasAnswer(log: Log, askId: string) {
    exists i :: 0 <= i < |log| && IsAnswer(log[i]) && log[i].replyTo == askId
  }

  // ----- critical sections -----

  /** The store appends m under a fresh id unless it is invalid. */
  function Append(log: Log, m: Message, id: string, now: int): (Log, Reply) {
    match Validate(m)
    case Some(failure) => (log, Refused(failure))
    case None =>
      var stored := m.(id := id, ts := now, deliveredAt := None);
      (log + [stored], Stored(stored))
  }

  function Answer(log: Log, askId: string, text: string, id: string, now: int): (Log, Reply) {
    if askId == "" then (log, Refused(ReplyToRequired))
    else if !ContainsAsk(log, askId) then (log, Refused(NotAnAsk))
    else if HasAnswer(log, askId) then (log, Refused(AlreadyAnswered))
    else Append(log, Message("", 0, "orchestrator", "answer", text, askId, None), id, now)
  }

  /** An answer to a delegation that may have lost its record: the store looks for the record
      once the ask has been found and is unanswered. */
  function AnswerIfRecorded(recorded: bool, log: Log, askId: string, text: string, id: string, now: int): (Log, Reply) {
    if recorded || askId == "" || !ContainsAsk(log, askId) || HasAnswer(log, askId) then
      Answer(log, askId, text, id, now)
    else (log, Refused(NotFound))
  }

  function Post(log: Log, from: string, kind: string, text: string, replyTo: string, id: string,
                now: int): (Log, Reply) {
    if from == "orchestrator" && kind == "answer" then Answer(log, replyTo, text, id, now)
    else Append(log, Message("", 0, from, kind, text, replyTo, None), id, now)
  }

  function Deliver(m: Message, now: int): Message {
    if IsUndelivered(m) then m.(deliveredAt := Some(now)) else m
  }

  function DeliverAll(log: Log, now: int): (r: Log)
    ensures |r| == |log|
    ensures forall i :: 0 <= i < |log| ==> r[i] == Deliver(log[i], now)
  {
    if |log| == 0 then []
    else DeliverAll(log[..|log| - 1], now) + [Deliver(log[|log| - 1], now)]
  }

  /** Hands out every undelivered delegate message and marks it delivered. */
  function Take(log: Log, now: int): (Log, Log) {
    (DeliverAll(log, now), DeliverAll(Filter(log, IsUndelivered), now))
  }

  function UnansweredTest(log: Log): Message -> bool {
    (m: Message) => IsAsk(m) && !HasAnswer(log, m.id)
  }

  function UnansweredAsks(log: Log): Log {
    Filter(log, UnansweredTest(log))
  }

  function WaitedTest(waited: set<string>): Message -> bool {
    (m: Message) => m.deliveredAt.Some? && m.id in waited
  }

  /** The asks a follow-up may answer: unanswered, delivered, and waited for. */
  function Answerable(log: Log, waited: set<string>): Log {
    Filter(UnansweredAsks(log), WaitedTest(waited))
  }

  datatype Routing = NotRouted | Ambiguous | RouteFailed(failure: Failure) | Answered(askId: string)

  /** Follow-up routing; waited holds the asks whose waiter the handler saw. */
  function Route(log: Log, waited: set<string>, text: string, id: string, now: int): (Log, Routing) {
    var asks := Answerable(log, waited);
    if |asks| == 0 then (log, NotRouted)
    else if |asks| > 1 then (log, Ambiguous)
    else
      var (log', reply) := Answer(log, asks[0].id, text, id, now);
      match reply
      case Refused(failure) => (log', RouteFailed(failure))
      case Stored(_) => (log', Answered(asks[0].id))
  }

  /** Routing for a delegation that may have lost its record. */
  function RouteIfRecorded(recorded: bool, log: Log, waited: set<string>, text: string, id: string,
                           now: int): (Log, Routing) {
    if !recorded && |Answerable(log, waited)| == 1 then (log, RouteFailed(NotFound))
    else Route(log, waited, text, id, now)
  }

  // ----- filtering -----

  lemma FilterSnoc(log: Log, m: Message, test: Message -> bool)
    ensures Filter(log + [m], test) == Filter(log, test) + if test(m) then [m] else []
  {
    assert (log + [m])[..|log|] == log;
  }

  lemma DeliverSnoc(log: Log, m: Message, now: int)
    ensures DeliverAll(log + [m], now) == DeliverAll(log, now) + [Deliver(m, now)]
  {
  }

  lemma {:induction false} FilterMembers(log: Log, test: Message -> bool, m: Message)
    ensures m in Filter(log, test) <==> m in log && test(m)
  {
    if |log| > 0 {
      FilterMembers(log[..|log| - 1], test, m);
      assert log == log[..|log| - 1] + [log[|log| - 1]];
    }
  }

  lemma {:induction false} FilterNone(log: Log, test: Message -> bool)
    requires forall m :: m in log ==> !test(m)
    ensures Filter(log, test) == []
  {
    if |log| > 0 {
      FilterNone(log[..|log| - 1], test);
    }
  }
}
