/** The optimistic reply of `agree_answer` (and its copy `answer_agree`) in
    crates/qa-svc/src/application/app.rs. */
module VoteReply {
  import opened Integers
  import opened VoteLedger
  import opened VotePipeline
  import opened Wrappers

  datatype Request = Request(id: u64, createBy: string, action: string)

  datatype Reply =
    | Unfound
    | Refused(reason: string)
    | PublishFailed
    | Accepted(agreeCount: u64)

  /** `found` and `voted` are what the two reads returned, each possibly an error. The message is
      the one sent, whether or not sending succeeded. */
  function AgreeAnswer(found: Option<Answer>, voted: Option<bool>, request: Request, publishes: bool)
    : (Reply, Option<VoteMessage>)
  {
    if found.None? then (Unfound, None)
    else
      var isVoted := voted == Some(true);
      if request.action == "up" && isVoted then (Refused("already voted it"), None)
      else if request.action != "up" && !isVoted then (Refused("not voted it"), None)
      else
        var agreeCount := Wrapped(found.value.agreeCount + if request.action == "up" then 1 else -1);
        var message := VoteMessage(AsI64(request.id), "answer", request.createBy, request.action);
        (if publishes then Accepted(AsU64(agreeCount)) else PublishFailed, Some(message))
  }

  function FindOne(l: Ledger, id: u64): Option<Answer> {
    if AsI64(id) in l.answers then Some(l.answers[AsI64(id)]) else None
  }

  /** Both reads from the same tables, and the publish succeeding. */
  function AgreeOn(l: Ledger, request: Request): (Reply, Option<VoteMessage>) {
    AgreeAnswer(FindOne(l, request.id), Some(IsVoted(l, request.id, request.createBy, "answer")), request, true)
  }

  /** The step may change the answer's votes or remove it. */
  predicate Touches(s: System, step: Step, id: i64) {
    || (step.Transact? && s.pc.Checked? && HasMessage(s, s.pc.id) && s.published[s.pc.id].message.targetId == id)
    || (step.DeleteAnswer? && AsI64(step.deletedId) == id)
  }

  predicate RunTouches(targetType: string, s: System, steps: seq<Step>, id: i64)
    decreases |steps|
  {
    steps != [] && (Touches(s, steps[0], id) || RunTouches(targetType, Next(targetType, s, steps[0]), steps[1..], id))
  }

  predicate SameForAnswer(l: Ledger, l': Ledger, id: i64, createdBy: string) {
    && id in l.answers && id in l'.answers
    && l'.answers[id].agreeCount == l.answers[id].agreeCount
    && (AnswerVote(id, createdBy) in l'.votes <==> AnswerVote(id, createdBy) in l.votes)
  }

  lemma NextKeepsAnswer(targetType: string, s: System, step: Step, id: i64, createdBy: string)
    requires VotePipeline.Inv(targetType, s) && id in s.ledger.answers && !Touches(s, step, id)
    ensures SameForAnswer(s.ledger, Next(targetType, s, step).ledger, id, createdBy)
  {
    if step.Transact? && s.pc.Checked? {
      var m := s.published[s.pc.id].message;
      AfterMessageTables(s.ledger, m);
      if Handle(s.ledger, m).Ok? {
        HandleSetsRow(s.ledger, m, AnswerVote(id, createdBy));
      }
    }
  }

  lemma {:induction false} RunKeepsAnswer(targetType: string, s: System, steps: seq<Step>, id: i64, createdBy: string)
    requires VotePipeline.Inv(targetType, s) && id in s.ledger.answers && !RunTouches(targetType, s, steps, id)
    ensures SameForAnswer(s.ledger, Run(targetType, s, steps).ledger, id, createdBy)
    decreases |steps|
  {
    if steps != [] {
      NextKeepsInv(targetType, s, steps[0]);
      NextKeepsAnswer(targetType, s, steps[0], id, createdBy);
      RunKeepsAnswer(targetType, Next(targetType, s, steps[0]), steps[1..], id, createdBy);
    }
  }

  /** Handling `m` takes effect and leaves its answer with the promised count. */
  predicate Honours(l: Ledger, m: VoteMessage, promised: u64) {
    && Handle(l, m).Ok? && Handle(l, m).value.1
    && m.targetId in Handle(l, m).value.0.answers
    && AsU64(Handle(l, m).value.0.answers[m.targetId].agreeCount) == promised
  }

  /** The same of the tables read and the tables the message is handled in. */
  lemma HonoursIff(l: Ledger, later: Ledger, request: Request)
    requires AgreeOn(l, request).0.Accepted?
    requires VoteLedger.Inv(later) && SameForAnswer(l, later, AsI64(request.id), request.createBy)
    ensures var (reply, message) := AgreeOn(l, request);
            && message.Some?
            && (Honours(later, message.value, reply.agreeCount) <==>
                  || request.action == "down"
                  || (request.action == "up" && l.answers[AsI64(request.id)].agreeCount < I64_MAX))
  {
    var m := AgreeOn(l, request).1.value;
    HandleOkIff(later, m);
    if m.action == "down" {
      CancelIsExact(later, m);
    }
  }

  /** When the reads saw one reachable state and nothing else has touched the answer since, the
      reply is honoured exactly if the action is a real one and an "up" had room: an unknown action
      is answered like "down" and then never handled. */
  lemma ReplyHonouredIff(before: seq<Step>, request: Request, between: seq<Step>)
    requires AgreeOn(Run("answer", INITIAL, before).ledger, request).0.Accepted?
    requires !RunTouches("answer", Run("answer", INITIAL, before), between, AsI64(request.id))
    ensures var l := Run("answer", INITIAL, before).ledger;
            var (reply, message) := AgreeOn(l, request);
            var later := Run("answer", Run("answer", INITIAL, before), between).ledger;
            && message.Some?
            && (Honours(later, message.value, reply.agreeCount) <==>
                  || request.action == "down"
                  || (request.action == "up" && l.answers[AsI64(request.id)].agreeCount < I64_MAX))
  {
    var s := Run("answer", INITIAL, before);
    Reachable("answer", before);
    RunKeepsInv("answer", s, between);
    RunKeepsAnswer("answer", s, between, AsI64(request.id), request.createBy);
    HonoursIff(s.ledger, Run("answer", s, between).ledger, request);
  }

  /** Such replies exist: a user who has voted sends an unknown action, or votes for a full answer. */
  lemma SomeRepliesAreNotHonoured(action: string) returns (voted: seq<Step>, full: seq<Step>)
    requires action != "up" && action != "down"
    ensures AcceptedInVain(Run("answer", INITIAL, voted).ledger, Request(FIRST, Voter(0), action))
    ensures AcceptedInVain(Run("answer", INITIAL, full).ledger, Request(FIRST, Voter(I64_MAX), "up"))
  {
    var room: nat := I64_MAX;
    voted := Fill(1);
    full := Fill(room);
    assert Run("answer", INITIAL, []) == INITIAL;
    ReplyHonouredIff(voted, Request(FIRST, Voter(0), action), []);
    ReplyHonouredIff(full, Request(FIRST, Voter(room), "up"), []);
  }

  /** The request is accepted, and handling its message at once does not honour the reply. */
  predicate AcceptedInVain(l: Ledger, request: Request) {
    var (reply, message) := AgreeOn(l, request);
    reply.Accepted? && message.Some? && !Honours(l, message.value, reply.agreeCount)
  }

  /** The promised count never wraps below zero. */
  lemma ReplyDoesNotUnderflow(before: seq<Step>, request: Request)
    ensures var l := Run("answer", INITIAL, before).ledger;
            var reply := AgreeOn(l, request).0;
            reply.Accepted? && request.action != "up" ==>
              reply.agreeCount as int == l.answers[AsI64(request.id)].agreeCount - 1 >= 0
  {
    Reachable("answer", before);
    var l := Run("answer", INITIAL, before).ledger;
    if AgreeOn(l, request).0.Accepted? && request.action != "up" {
      CountForSome(l.votes, AnswerVote(AsI64(request.id), request.createBy));
    }
  }

  /** A message is sent exactly if the answer was found and the vote, as far as it could be read,
      is not already as asked; a failed vote lookup counts as "not voted". */
  lemma PublishesIff(found: Option<Answer>, voted: Option<bool>, request: Request, publishes: bool)
    ensures var (reply, message) := AgreeAnswer(found, voted, request, publishes);
            && (message.Some? <==> found.Some? && ((request.action == "up") != (voted == Some(true))))
            && (message.Some? <==> reply.Accepted? || reply.PublishFailed?)
  {
  }

  /** Exactly which reply is given when, and the message with it. A failed vote lookup counts as "not
      voted", and any action but "up" asks to cancel. */
  lemma RepliesIff(found: Option<Answer>, voted: Option<bool>, request: Request, publishes: bool)
    ensures var (reply, message) := AgreeAnswer(found, voted, request, publishes);
            var isVoted, up := voted == Some(true), request.action == "up";
            && (reply == Unfound <==> found.None?)
            && (reply == Refused("already voted it") <==> found.Some? && up && isVoted)
            && (reply == Refused("not voted it") <==> found.Some? && !up && !isVoted)
            && (reply == PublishFailed <==> found.Some? && up != isVoted && !publishes)
            && (reply.Accepted? <==> found.Some? && up != isVoted && publishes)
            && (reply.Accepted? ==>
                  reply.agreeCount == (found.value.agreeCount + if up then 1 else -1) % 0x1_0000_0000_0000_0000)
            && (message.Some? <==> found.Some? && up != isVoted)
            && (message.Some? ==>
                  && AsU64(message.value.targetId) == request.id && message.value.targetType == "answer"
                  && message.value.createdBy == request.createBy && message.value.action == request.action)
  {
  }
}
