/** The asynchronous vote pipeline as a step machine: anyone publishes and edits answers, one
    exclusive consumer looks a vote up, runs its transaction and acknowledges, and may crash
    between any two of these. A run is any sequence of steps; a step that is not enabled changes
    nothing. Unacknowledged messages may be delivered at any time, in any order, again and again. */
module VotePipeline {
  import Decimal
  import VoteRepository
  import opened Integers
  import opened VoteLedger
  import opened Wrappers

  type Payload = VoteRepository.Payload

  /** Where the consumer is, with the message it holds and what its lookup found. */
  datatype Pc = Down | Idle | Received(id: nat) | Checked(id: nat, hasVoted: bool) | Handled(id: nat)

  datatype Applied = Applied(id: nat, message: VoteMessage)

  /** A message's id is its index in `published`. `applied` is the history of the messages whose
      handling took effect or was a successful no-op, in the order that happened. */
  datatype System =
    System(ledger: Ledger, published: seq<Payload>, acked: set<nat>, pc: Pc, counter: nat, applied: seq<Applied>)

  /** How a transaction ends: committed, failed, or committed with its confirmation lost. */
  datatype Outcome = Committed | RolledBack | ConfirmationLost

  datatype Step =
    | Publish(payload: Payload)
    | Start
    | Deliver(id: nat)
    | Check(succeeds: bool)
    | Transact(outcome: Outcome)
    | Ack
    | AckFails(reached: bool)
    | Crash
    | AddAnswer(questionId: i64, content: string, createdBy: string)
    | UpdateAnswer(answerId: u64, newContent: string)
    | DeleteAnswer(deletedId: u64, username: string)

  const INITIAL := System(EMPTY, [], {}, Down, 0, [])

  predicate HasMessage(s: System, id: nat) {
    id < |s.published| && s.published[id].Vote?
  }

  function DoTransact(s: System, m: VoteMessage, outcome: Outcome): System
    requires s.pc.Checked?
  {
    match DecideMessage(s.ledger, s.pc.hasVoted, m)
    case Err(_) => s.(pc := Idle)
    case Ok((l, acts)) =>
      if acts && outcome.RolledBack? then s.(pc := Idle)
      else s.(ledger := l, applied := s.applied + [Applied(s.pc.id, m)],
              pc := if acts && outcome.ConfirmationLost? then Idle else Handled(s.pc.id))
  }

  function Next(targetType: string, s: System, step: Step): System {
    match step
    case Publish(payload) => s.(published := s.published + [payload])
    case Start => if s.pc.Down? then s.(pc := Idle, counter := 0) else s
    case Deliver(id) =>
      if !s.pc.Idle? || id in s.acked || !HasMessage(s, id) then s
      else s.(pc := if targetType == "answer" then Received(id) else Handled(id))
    case Check(succeeds) =>
      if !s.pc.Received? || !HasMessage(s, s.pc.id) then s
      else s.(pc := if succeeds then Checked(s.pc.id, Voted(s.ledger, s.published[s.pc.id].message)) else Idle)
    case Transact(outcome) =>
      if !s.pc.Checked? || !HasMessage(s, s.pc.id) then s
      else DoTransact(s, s.published[s.pc.id].message, outcome)
    case Ack =>
      if !s.pc.Handled? then s else s.(pc := Idle, acked := s.acked + {s.pc.id}, counter := s.counter + 1)
    case AckFails(reached) =>
      if !s.pc.Handled? then s else s.(pc := Down, acked := if reached then s.acked + {s.pc.id} else s.acked)
    case Crash => s.(pc := Down)
    case AddAnswer(questionId, content, createdBy) =>
      s.(ledger := VoteLedger.AddAnswer(s.ledger, questionId, content, createdBy))
    case UpdateAnswer(id, content) => s.(ledger := VoteLedger.UpdateAnswer(s.ledger, id, content))
    case DeleteAnswer(id, username) => s.(ledger := VoteLedger.DeleteAnswer(s.ledger, id, username))
  }

  function Run(targetType: string, s: System, steps: seq<Step>): System
    decreases |steps|
  {
    if steps == [] then s else Run(targetType, Next(targetType, s, steps[0]), steps[1..])
  }

  // The invariant

  /** The last applied message for a pair was "up". */
  predicate LastUp(applied: seq<Applied>, targetId: i64, createdBy: string) {
    if applied == [] then false
    else
      var last := applied[|applied| - 1].message;
      if last.targetId == targetId && last.createdBy == createdBy then last.action == "up"
      else LastUp(applied[..|applied| - 1], targetId, createdBy)
  }

  ghost predicate RegisterInv(votes: seq<VoteRow>, applied: seq<Applied>) {
    forall targetId, createdBy ::
      AnswerVote(targetId, createdBy) in votes <==> LastUp(applied, targetId, createdBy)
  }

  predicate WasApplied(applied: seq<Applied>, id: nat) {
    exists k :: 0 <= k < |applied| && applied[k].id == id
  }

  /** A handled message is the last of the history until it is acknowledged. */
  predicate PcInv(targetType: string, s: System) {
    && (s.pc.Received? || s.pc.Checked? || s.pc.Handled? ==> HasMessage(s, s.pc.id) && s.pc.id !in s.acked)
    && (s.pc.Received? || s.pc.Checked? ==> targetType == "answer")
    && (s.pc.Checked? ==> s.pc.hasVoted == Voted(s.ledger, s.published[s.pc.id].message))
    && (s.pc.Handled? && targetType == "answer" ==>
          s.applied != [] && s.applied[|s.applied| - 1] == Applied(s.pc.id, s.published[s.pc.id].message))
  }

  ghost predicate HistoryInv(s: System) {
    forall k :: 0 <= k < |s.applied| ==>
      HasMessage(s, s.applied[k].id) && s.published[s.applied[k].id].message == s.applied[k].message
  }

  ghost predicate AcksInv(targetType: string, s: System) {
    forall id :: id in s.acked ==> HasMessage(s, id) && (targetType == "answer" ==> WasApplied(s.applied, id))
  }

  ghost predicate Inv(targetType: string, s: System) {
    && VoteLedger.Inv(s.ledger)
    && PcInv(targetType, s)
    && HistoryInv(s)
    && AcksInv(targetType, s)
    && RegisterInv(s.ledger.votes, s.applied)
  }

  lemma AppliedKeepsRegister(l: Ledger, m: VoteMessage, applied: seq<Applied>, id: nat)
    requires VoteLedger.Inv(l) && RegisterInv(l.votes, applied) && Handle(l, m).Ok?
    ensures RegisterInv(Handle(l, m).value.0.votes, applied + [Applied(id, m)])
  {
    var applied' := applied + [Applied(id, m)];
    assert applied'[..|applied'| - 1] == applied;
    forall targetId, createdBy
      ensures AnswerVote(targetId, createdBy) in Handle(l, m).value.0.votes <==> LastUp(applied', targetId, createdBy)
    {
      HandleSetsRow(l, m, AnswerVote(targetId, createdBy));
      assert AnswerVote(targetId, createdBy) in l.votes <==> LastUp(applied, targetId, createdBy);
    }
  }

  /** What a transaction leaves, in terms of its message alone. */
  lemma TransactOutcome(targetType: string, s: System, outcome: Outcome)
    requires PcInv(targetType, s) && s.pc.Checked?
    ensures HasMessage(s, s.pc.id)
    ensures var id, m := s.pc.id, s.published[s.pc.id].message;
            var s' := Next(targetType, s, Transact(outcome));
            && s'.published == s.published && s'.acked == s.acked && (s'.pc == Idle || s'.pc == Handled(id))
            && (|| (s' == s.(pc := Idle))
                || (Handle(s.ledger, m).Ok? && s'.ledger == Handle(s.ledger, m).value.0
                    && s'.applied == s.applied + [Applied(id, m)]))
  {
  }

  lemma TransactKeepsInv(targetType: string, s: System, outcome: Outcome)
    requires Inv(targetType, s) && s.pc.Checked?
    ensures Inv(targetType, Next(targetType, s, Transact(outcome)))
  {
    var id, m := s.pc.id, s.published[s.pc.id].message;
    var s' := Next(targetType, s, Transact(outcome));
    NextKeepsAcks(targetType, s, Transact(outcome));
    TransactOutcome(targetType, s, outcome);
    if s' != s.(pc := Idle) {
      HandleKeepsInv(s.ledger, m);
      AppliedKeepsRegister(s.ledger, m, s.applied, id);
    }
  }

  lemma NextKeepsAcks(targetType: string, s: System, step: Step)
    requires PcInv(targetType, s) && AcksInv(targetType, s)
    ensures AcksInv(targetType, Next(targetType, s, step))
  {
    var s' := Next(targetType, s, step);
    forall id | id in s'.acked
      ensures HasMessage(s', id) && (targetType == "answer" ==> WasApplied(s'.applied, id))
    {
      if targetType == "answer" && id in s.acked {
        var k :| 0 <= k < |s.applied| && s.applied[k].id == id;
        assert s'.applied[k].id == id;
      } else if targetType == "answer" {
        assert s'.applied[|s'.applied| - 1].id == id;
      }
    }
  }

  lemma NextKeepsInv(targetType: string, s: System, step: Step)
    requires Inv(targetType, s)
    ensures Inv(targetType, Next(targetType, s, step))
  {
    NextKeepsAcks(targetType, s, step);
    match step
    case Transact(outcome) =>
      if s.pc.Checked? {
        TransactKeepsInv(targetType, s, outcome);
      }
    case AddAnswer(questionId, content, createdBy) =>
      AddKeepsInv(s.ledger, questionId, content, createdBy);
    case _ =>
  }

  lemma {:induction false} RunKeepsInv(targetType: string, s: System, steps: seq<Step>)
    requires Inv(targetType, s)
    ensures Inv(targetType, Run(targetType, s, steps))
    decreases |steps|
  {
    if steps != [] {
      NextKeepsInv(targetType, s, steps[0]);
      RunKeepsInv(targetType, Next(targetType, s, steps[0]), steps[1..]);
    }
  }

  lemma Reachable(targetType: string, steps: seq<Step>)
    ensures Inv(targetType, Run(targetType, INITIAL, steps))
  {
    RunKeepsInv(targetType, INITIAL, steps);
  }

  // Single steps

  /** An acknowledgement takes the message out of the broker, counts it and frees the consumer; one that
      fails stops the consumer uncounted, and the broker may or may not have got it. */
  lemma AckLeaves(targetType: string, s: System, reached: bool)
    requires Inv(targetType, s) && s.pc.Handled?
    ensures var acked, failed := Next(targetType, s, Ack), Next(targetType, s, AckFails(reached));
            && acked == s.(pc := Idle, acked := acked.acked, counter := s.counter + 1)
            && failed == s.(pc := Down, acked := failed.acked)
            && s.pc.id !in s.acked && acked.acked - s.acked == {s.pc.id} && s.acked <= acked.acked
            && failed.acked == (if reached then acked.acked else s.acked)
  {
  }

  /** Acknowledgements since the consumer was last started, told by what the broker has lost. */
  function AcksThisRun(targetType: string, s: System, steps: seq<Step>, acks: nat): nat
    decreases |steps|
  {
    if steps == [] then acks
    else
      var s' := Next(targetType, s, steps[0]);
      var acks' := if s.pc.Down? && s'.pc.Idle? then 0 else if s'.acked != s.acked && s'.pc.Idle? then acks + 1
          else acks;
      AcksThisRun(targetType, s', steps[1..], acks')
  }

  /** The consumer's counter is the number of its acknowledgements in this run. */
  lemma {:induction false} CounterIsAcks(targetType: string, s: System, steps: seq<Step>)
    requires Inv(targetType, s)
    ensures Run(targetType, s, steps).counter == AcksThisRun(targetType, s, steps, s.counter)
    decreases |steps|
  {
    if steps != [] {
      NextKeepsInv(targetType, s, steps[0]);
      if steps[0].Ack? && s.pc.Handled? {
        AckLeaves(targetType, s, true);
      }
      CounterIsAcks(targetType, Next(targetType, s, steps[0]), steps[1..]);
    }
  }

  /** Edits of answers reach the tables while the consumer is anywhere, and nothing else. */
  lemma EditStepsAreExact(targetType: string, s: System, id: u64, content: string, username: string, questionId: i64)
    requires 1 <= s.ledger.nextId <= I64_MAX
    ensures var s' := Next(targetType, s, UpdateAnswer(id, content));
            && s' == s.(ledger := s'.ledger) && s'.ledger.votes == s.ledger.votes
            && s'.ledger.answers.Keys == s.ledger.answers.Keys
            && forall a :: a in s.ledger.answers ==>
                 s'.ledger.answers[a] ==
                 if AsU64(a) == id then s.ledger.answers[a].(content := content) else s.ledger.answers[a]
    ensures var s' := Next(targetType, s, AddAnswer(questionId, content, username));
            && s' == s.(ledger := s'.ledger) && s'.ledger.votes == s.ledger.votes
            && s'.ledger.answers == s.ledger.answers[s.ledger.nextId := Answer(questionId, content, username, 0)]
    ensures var s' := Next(targetType, s, DeleteAnswer(id, username));
            && s' == s.(ledger := s'.ledger) && s'.ledger.votes == s.ledger.votes
            && forall a :: a in s'.ledger.answers <==>
                           a in s.ledger.answers && !(AsU64(a) == id && s.ledger.answers[a].createdBy == username)
  {
  }

  // Results over every run

  /** The denormalised count always agrees with the rows, no user has two votes on an answer, and
      no vote names an answer still to come. */
  lemma CountsAgreeWithVotes(targetType: string, steps: seq<Step>)
    ensures var l := Run(targetType, INITIAL, steps).ledger;
            && (forall id :: id in l.answers ==> l.answers[id].agreeCount == CountFor(l.votes, id))
            && (forall i, j :: 0 <= i < j < |l.votes| && l.votes[i].targetType == "answer" ==> l.votes[i] != l.votes[j])
            && (forall row :: row in l.votes && row.targetType == "answer" ==> 1 <= row.targetId < l.nextId)
  {
    Reachable(targetType, steps);
    var l := Run(targetType, INITIAL, steps).ledger;
    forall i, j | 0 <= i < j < |l.votes| && l.votes[i].targetType == "answer"
      ensures l.votes[i] != l.votes[j]
    {
      if l.votes[i] == l.votes[j] {
        TwiceCountsTwo(l.votes, i, j);
      }
    }
  }

  lemma TwiceCountsTwo(votes: seq<VoteRow>, i: nat, j: nat)
    requires i < j < |votes| && votes[i] == votes[j]
    ensures multiset(votes)[votes[i]] >= 2
  {
    assert votes == votes[..j] + [votes[j]] + votes[j + 1..];
    assert votes[i] in votes[..j];
    assert multiset(votes[..j])[votes[i]] >= 1;
  }

  /** A last-writer-wins register: in every reachable state a vote is recorded iff the last message
      applied for that answer and user was "up". */
  lemma VotesAreLastWriterWins(targetType: string, steps: seq<Step>, targetId: i64, createdBy: string)
    ensures var s := Run(targetType, INITIAL, steps);
            AnswerVote(targetId, createdBy) in s.ledger.votes <==> LastUp(s.applied, targetId, createdBy)
  {
    Reachable(targetType, steps);
  }

  /** Ack accounting: only decodable messages that were themselves handled are ever acknowledged, and
      every entry of the history is such a message. */
  lemma AckedWereApplied(steps: seq<Step>, id: nat)
    ensures var s := Run("answer", INITIAL, steps);
            && (id in s.acked ==> HasMessage(s, id) && WasApplied(s.applied, id))
            && (WasApplied(s.applied, id) ==> HasMessage(s, id))
            && (forall k :: 0 <= k < |s.applied| && s.applied[k].id == id ==>
               s.applied[k].message == s.published[id].message)
  {
    Reachable("answer", steps);
  }

  /** At the moment a message is acknowledged it is the last one handled, and its vote is as it asks. */
  lemma AckedWhenInPlace(steps: seq<Step>, step: Step, id: nat)
    requires var s := Run("answer", INITIAL, steps); id !in s.acked && id in Next("answer", s, step).acked
    ensures var s := Run("answer", INITIAL, steps);
            && HasMessage(s, id) && |s.applied| > 0
            && s.applied[|s.applied| - 1] == Applied(id, s.published[id].message)
            && var m := s.published[id].message;
               AnswerVote(m.targetId, m.createdBy) in Next("answer", s, step).ledger.votes <==> m.action == "up"
  {
    Reachable("answer", steps);
  }

  /** Exactly when a transaction ends with its message handled. Handling that ends any other way
      acknowledges nothing and changes no table, except for a commit whose confirmation is lost:
      its effect stands, and its message stays to be delivered again. */
  lemma UnhandledStaysUnacked(targetType: string, steps: seq<Step>, step: Step)
    requires var s := Run(targetType, INITIAL, steps); s.pc.Received? || s.pc.Checked?
    ensures var s := Run(targetType, INITIAL, steps);
            var s' := Next(targetType, s, step);
            && HasMessage(s, s.pc.id) && s'.acked == s.acked && s.pc.id !in s'.acked
            && var handled := Handle(s.ledger, s.published[s.pc.id].message);
               && (s'.pc.Handled? <==>
                  s.pc.Checked? && step.Transact? && handled.Ok? && (handled.value.1 ==> step.outcome.Committed?))
               && (s'.pc.Handled? ==> s'.pc.id == s.pc.id && s'.ledger == handled.value.0)
               && (s'.pc.Idle? ==>
                     s'.ledger == if s.pc.Checked? && step == Transact(ConfirmationLost) && handled.Ok?
                         then handled.value.0 else s.ledger)
  {
    Reachable(targetType, steps);
  }

  /** When the consumer is about to cancel, exactly one row will go and the clamp cannot bite, even
      though answers may have come and gone since its lookup. */
  lemma PendingCancelIsExact(targetType: string, steps: seq<Step>)
    ensures var s := Run(targetType, INITIAL, steps);
            && (s.pc.Checked? ==> HasMessage(s, s.pc.id))
            && (s.pc.Checked? && s.pc.hasVoted && s.published[s.pc.id].message.action == "down" ==>
                  var m := s.published[s.pc.id].message;
                  var s' := Next(targetType, s, Transact(Committed));
                  && multiset(s.ledger.votes)[AnswerVote(m.targetId, m.createdBy)] == 1
                  && (m.targetId !in s.ledger.answers ==> s'.ledger == s.ledger && s'.pc == Idle)
                  && (m.targetId in s.ledger.answers ==>
                        && s'.pc == Handled(s.pc.id)
                        && s'.ledger.answers[m.targetId].agreeCount ==
                           s.ledger.answers[m.targetId].agreeCount - 1 >= 0))
  {
    Reachable(targetType, steps);
    var s := Run(targetType, INITIAL, steps);
    if s.pc.Checked? && s.pc.hasVoted && s.published[s.pc.id].message.action == "down" {
      CancelIsExact(s.ledger, s.published[s.pc.id].message);
    }
  }

  /** A message whose effect is already in place, as after a crash between commit and ack, is a
      no-op when it is handled again, and is then acknowledged. */
  lemma RedeliveryIsNoOp(steps: seq<Step>, id: nat)
    requires var s := Run("answer", INITIAL, steps);
             && s.pc.Idle? && id !in s.acked && HasMessage(s, id)
             && (var m := s.published[id].message;
                 m.action == (if LastUp(s.applied, m.targetId, m.createdBy) then "up" else "down"))
    ensures var s := Run("answer", INITIAL, steps);
            Run("answer", s, [Deliver(id), Check(true), Transact(Committed), Ack])
            == s.(acked := s.acked + {id}, counter := s.counter + 1,
                applied := s.applied + [Applied(id, s.published[id].message)])
  {
    Reachable("answer", steps);
    var s := Run("answer", INITIAL, steps);
    RunFour("answer", s, [Deliver(id), Check(true), Transact(Committed), Ack]);
  }

  lemma RunFour(targetType: string, s: System, steps: seq<Step>)
    requires |steps| == 4
    ensures Run(targetType, s, steps) ==
            Next(targetType, Next(targetType, Next(targetType, Next(targetType, s, steps[0]), steps[1]), steps[2]),
                steps[3])
  {
    var s1 := Next(targetType, s, steps[0]);
    var s2 := Next(targetType, s1, steps[1]);
    var s3 := Next(targetType, s2, steps[2]);
    assert Run(targetType, s3, steps[1..][1..][1..]) == Next(targetType, s3, steps[3]);
    assert Run(targetType, s2, steps[1..][1..]) == Next(targetType, s3, steps[3]);
    assert Run(targetType, s1, steps[1..]) == Next(targetType, s3, steps[3]);
  }

  // Deleted answers

  /** No answer has this id now or ever again. */
  predicate Dead(l: Ledger, id: i64) {
    id < l.nextId && id !in l.answers
  }

  lemma NextKeepsDead(targetType: string, s: System, step: Step, id: i64, createdBy: string)
    requires Inv(targetType, s) && Dead(s.ledger, id)
    ensures var s' := Next(targetType, s, step);
            && Dead(s'.ledger, id)
            && (AnswerVote(id, createdBy) in s'.ledger.votes <==> AnswerVote(id, createdBy) in s.ledger.votes)
  {
    if step.Transact? && s.pc.Checked? {
      var m := s.published[s.pc.id].message;
      HandleOkIff(s.ledger, m);
      if Handle(s.ledger, m).Ok? {
        HandleSetsRow(s.ledger, m, AnswerVote(id, createdBy));
        AfterMessageTables(s.ledger, m);
      }
    }
  }

  /** The votes left behind by a deleted answer never change again. */
  lemma {:induction false} DeletedAnswerIsFrozen(targetType: string, s: System, steps: seq<Step>, id: i64,
      createdBy: string)
    requires Inv(targetType, s) && Dead(s.ledger, id)
    ensures var s' := Run(targetType, s, steps);
            && Dead(s'.ledger, id)
            && (AnswerVote(id, createdBy) in s'.ledger.votes <==> AnswerVote(id, createdBy) in s.ledger.votes)
    decreases |steps|
  {
    if steps != [] {
      NextKeepsInv(targetType, s, steps[0]);
      NextKeepsDead(targetType, s, steps[0], id, createdBy);
      DeletedAnswerIsFrozen(targetType, Next(targetType, s, steps[0]), steps[1..], id, createdBy);
    }
  }

  /** Only its author deletes an answer; from then on, in every run, it is gone and every vote on it
      stays as it was. */
  lemma DeletionFreezesVotes(targetType: string, before: seq<Step>, id: i64, username: string, after: seq<Step>,
                             voter: string)
    requires id in Run(targetType, INITIAL, before).ledger.answers
    ensures var s := Run(targetType, INITIAL, before);
            var deleted := Next(targetType, s, DeleteAnswer(AsU64(id), username));
            if s.ledger.answers[id].createdBy != username then deleted == s
            else
              var later := Run(targetType, deleted, after).ledger;
              && id !in later.answers
              && (AnswerVote(id, voter) in later.votes <==> AnswerVote(id, voter) in s.ledger.votes)
  {
    var s := Run(targetType, INITIAL, before);
    Reachable(targetType, before);
    NextKeepsInv(targetType, s, DeleteAnswer(AsU64(id), username));
    if s.ledger.answers[id].createdBy == username {
      DeletedAnswerIsFrozen(targetType, Next(targetType, s, DeleteAnswer(AsU64(id), username)), after, id, voter);
    }
  }

  /** A message that cannot succeed now or later: its action is unknown, or it would have to change
      the votes of an answer that does not exist. */
  predicate Poison(l: Ledger, m: VoteMessage) {
    || (m.action != "up" && m.action != "down")
    || (Dead(l, m.targetId) && (m.action == "up") != Voted(l, m))
  }

  lemma NextKeepsPoison(s: System, step: Step, id: nat)
    requires Inv("answer", s) && HasMessage(s, id) && id !in s.acked && s.pc != Handled(id)
    requires Poison(s.ledger, s.published[id].message)
    ensures var s' := Next("answer", s, step);
            && HasMessage(s', id) && s'.published[id] == s.published[id]
            && id !in s'.acked && s'.pc != Handled(id)
            && Poison(s'.ledger, s.published[id].message)
  {
    var m := s.published[id].message;
    if m.action == "up" || m.action == "down" {
      NextKeepsDead("answer", s, step, m.targetId, m.createdBy);
    }
    HandleOkIff(s.ledger, m);
  }

  /** Such a message is redelivered for ever: no run acknowledges it. */
  lemma {:induction false} PoisonIsNeverAcked(s: System, steps: seq<Step>, id: nat)
    requires Inv("answer", s) && HasMessage(s, id) && id !in s.acked && s.pc != Handled(id)
    requires Poison(s.ledger, s.published[id].message)
    ensures id !in Run("answer", s, steps).acked
    decreases |steps|
  {
    if steps != [] {
      NextKeepsInv("answer", s, steps[0]);
      NextKeepsPoison(s, steps[0], id);
      PoisonIsNeverAcked(Next("answer", s, steps[0]), steps[1..], id);
    }
  }

  /** Poison is reachable: a vote for an answer that is deleted before the vote is delivered. */
  lemma PoisonIsReachable() returns (steps: seq<Step>)
    ensures var s := Run("answer", INITIAL, steps);
            && HasMessage(s, 0) && s.published[0].message.action == "up"
            && forall later :: 0 !in Run("answer", s, later).acked
  {
    var m := VoteMessage(1, "answer", "voter", "up");
    steps := [AddAnswer(0, "", "author"), Publish(VoteRepository.Vote(m)), DeleteAnswer(1, "author"), Start];
    RunFour("answer", INITIAL, steps);
    Reachable("answer", steps);
    var s := Run("answer", INITIAL, steps);
    assert s.published == [VoteRepository.Vote(m)] && s.pc == Idle && s.acked == {};
    assert Dead(s.ledger, 1) && !Voted(s.ledger, m);
    forall later
      ensures 0 !in Run("answer", s, later).acked
    {
      PoisonIsNeverAcked(s, later, 0);
    }
  }

  lemma {:induction false} RunAppend(targetType: string, s: System, a: seq<Step>, b: seq<Step>)
    ensures Run(targetType, s, a + b) == Run(targetType, Run(targetType, s, a), b)
    decreases |a|
  {
    if a == [] {
      assert a + b == b;
    } else {
      assert (a + b)[1..] == a[1..] + b;
      RunAppend(targetType, Next(targetType, s, a[0]), a[1..], b);
    }
  }

  // The repository's consumer loop refines the machine

  function OutcomeOf(fault: Option<VoteRepository.Statement>): Outcome {
    if fault.None? then Committed
    else if fault == Some(VoteRepository.Confirmation) then ConfirmationLost
    else RolledBack
  }

  /** The steps one received message makes the consumer take. */
  function StepsOf(id: nat, fault: Option<VoteRepository.Statement>, ackFails: bool): seq<Step> {
    [Deliver(id), Check(fault != Some(VoteRepository.Select)), Transact(OutcomeOf(fault)),
     if ackFails then AckFails(false) else Ack]
  }

  /** The transaction step does what handling with that fault does. */
  lemma TransactAsHandled(s: System, id: nat, fault: Option<VoteRepository.Statement>)
    requires HasMessage(s, id) && s.pc == Checked(id, Voted(s.ledger, s.published[id].message))
    requires fault != Some(VoteRepository.Select)
    ensures var m := s.published[id].message;
            var s' := DoTransact(s, m, OutcomeOf(fault));
            var (l, answer) := VoteRepository.HandleWithFault(s.ledger, m, fault);
            && s'.ledger == l && s'.pc == (if answer.None? then Idle else Handled(id))
            && s'.published == s.published && s'.acked == s.acked && s'.counter == s.counter
  {
  }

  /** The machine is where the loop is: `acked` were acknowledged before the loop started. */
  predicate Matches(s: System, c: VoteRepository.Consumption, acked: set<nat>, counter: nat) {
    && s.ledger == c.ledger
    && s.acked == acked + (set id | id in c.acked)
    && s.counter == counter + |c.acked|
    && s.pc == if c.status == VoteRepository.Running then Idle else Down
  }

  /** A turn of a consumer of anything but answers handles nothing. */
  lemma OtherTurn(targetType: string, s: System, id: nat, fault: Option<VoteRepository.Statement>, ackFails: bool)
    requires targetType != "answer" && s.pc.Idle? && HasMessage(s, id) && id !in s.acked
    ensures Run(targetType, s, StepsOf(id, fault, ackFails)) ==
            if ackFails then s.(pc := Down) else s.(acked := s.acked + {id}, counter := s.counter + 1)
  {
    RunFour(targetType, s, StepsOf(id, fault, ackFails));
  }

  /** A turn of a consumer of answers, by what handling answers. */
  lemma AnswerTurn(s: System, id: nat, fault: Option<VoteRepository.Statement>, ackFails: bool)
    requires s.pc.Idle? && HasMessage(s, id) && id !in s.acked
    ensures var s' := Run("answer", s, StepsOf(id, fault, ackFails));
            var (l, answer) := VoteRepository.HandleWithFault(s.ledger, s.published[id].message, fault);
            && s'.ledger == l && s'.published == s.published
            && (answer.None? ==> s'.pc == Idle && s'.acked == s.acked && s'.counter == s.counter)
            && (answer.Some? && ackFails ==> s'.pc == Down && s'.acked == s.acked && s'.counter == s.counter)
            && (answer.Some? && !ackFails ==>
               s'.pc == Idle && s'.acked == s.acked + {id} && s'.counter == s.counter + 1)
  {
    RunFour("answer", s, StepsOf(id, fault, ackFails));
    if fault != Some(VoteRepository.Select) {
      TransactAsHandled(s.(pc := Checked(id, Voted(s.ledger, s.published[id].message))), id, fault);
    }
  }

  /** One turn of the loop on a message does exactly what those steps of the machine do. */
  lemma TurnRefinesMachine(targetType: string, s: System, c: VoteRepository.Consumption, acked: set<nat>, counter: nat,
                           id: nat, fault: Option<VoteRepository.Statement>, ackFails: bool)
    requires Matches(s, c, acked, counter) && s.pc.Idle? && HasMessage(s, id) && id !in s.acked
    ensures var s' := Run(targetType, s, StepsOf(id, fault, ackFails));
            && s'.published == s.published
            && Matches(s', VoteRepository.Consume(c, targetType,
                         VoteRepository.Received(id, s.published[id], fault, ackFails)), acked, counter)
  {
    if targetType == "answer" {
      AnswerTurn(s, id, fault, ackFails);
    } else {
      OtherTurn(targetType, s, id, fault, ackFails);
    }
    assert (set i | i in c.acked + [id]) == (set i | i in c.acked) + {id};
  }

  /** What the machine does for one event. The end of a consumer, however it comes, is a crash. */
  function EventSteps(e: VoteRepository.Event): seq<Step> {
    match e
    case ShutdownSignal(closed) => if closed then [Crash] else []
    case StreamError => [Crash]
    case StreamEnd => [Crash]
    case Received(id, payload, fault, ackFails) => if payload.Undecodable? then [] else StepsOf(id, fault, ackFails)
  }

  function LoopSteps(events: seq<VoteRepository.Event>): seq<Step> {
    if events == [] then [] else LoopSteps(events[..|events| - 1]) + EventSteps(events[|events| - 1])
  }

  /** The broker delivers what was published and has not been acknowledged. */
  predicate Delivers(targetType: string, s: System, events: seq<VoteRepository.Event>) {
    events == [] ||
    (var before, e := events[..|events| - 1], events[|events| - 1];
     && Delivers(targetType, s, before)
     && (e.Received? ==>
           && e.id < |s.published| && s.published[e.id] == e.payload
           && e.id !in Run(targetType, s, LoopSteps(before)).acked))
  }

  lemma EventRefinesMachine(targetType: string, s: System, c: VoteRepository.Consumption, acked: set<nat>,
                            counter: nat, e: VoteRepository.Event)
    requires Matches(s, c, acked, counter)
    requires e.Received? ==> e.id < |s.published| && s.published[e.id] == e.payload && e.id !in s.acked
    ensures var s' := Run(targetType, s, EventSteps(e));
            s'.published == s.published && Matches(s', VoteRepository.Consume(c, targetType, e), acked, counter)
  {
    if e.Received? && e.payload.Vote? {
      if c.status == VoteRepository.Running {
        TurnRefinesMachine(targetType, s, c, acked, counter, e.id, e.fault, e.ackFails);
      } else {
        RunFour(targetType, s, EventSteps(e));
      }
    } else if EventSteps(e) != [] {
      assert Run(targetType, Next(targetType, s, Crash), EventSteps(e)[1..]) == Next(targetType, s, Crash);
    }
  }

  /** The whole loop, over any events until it ends for any reason: its tables, its acknowledgements
      and its counter are those of a run of the machine, so every result above holds of the loop. */
  lemma {:induction false} LoopRefinesMachine(targetType: string, s: System, events: seq<VoteRepository.Event>)
    requires s.pc.Idle? && Delivers(targetType, s, events)
    ensures var s' := Run(targetType, s, LoopSteps(events));
            && s'.published == s.published
            && Matches(s',
               VoteRepository.ConsumeAll(VoteRepository.Consumption(s.ledger, [], VoteRepository.Running), targetType,
                   events),
                       s.acked, s.counter)
  {
    var c := VoteRepository.Consumption(s.ledger, [], VoteRepository.Running);
    if events == [] {
      assert (set id | id in c.acked) == {};
    } else {
      var before, e := events[..|events| - 1], events[|events| - 1];
      LoopRefinesMachine(targetType, s, before);
      RunAppend(targetType, s, LoopSteps(before), EventSteps(e));
      EventRefinesMachine(targetType, Run(targetType, s, LoopSteps(before)),
                          VoteRepository.ConsumeAll(c, targetType, before), s.acked, s.counter, e);
    }
  }

  /** Started from any reachable state, a consumer of answers leaves counts and votes in agreement, has
      acknowledged only messages it handled, and has left a vote exactly where the last message handled
      for it was "up". */
  lemma LoopKeepsLedger(steps: seq<Step>, events: seq<VoteRepository.Event>, targetId: i64, createdBy: string)
    requires var s := Run("answer", INITIAL, steps); s.pc.Idle? && Delivers("answer", s, events)
    ensures var s := Run("answer", INITIAL, steps);
            var c := VoteRepository.ConsumeAll(VoteRepository.Consumption(s.ledger, [], VoteRepository.Running),
                "answer", events);
            var applied := Run("answer", s, LoopSteps(events)).applied;
            && VoteLedger.Inv(c.ledger)
            && (forall id :: id in c.acked ==> HasMessage(s, id) && WasApplied(applied, id))
            && (AnswerVote(targetId, createdBy) in c.ledger.votes <==> LastUp(applied, targetId, createdBy))
  {
    var s := Run("answer", INITIAL, steps);
    Reachable("answer", steps);
    RunKeepsInv("answer", s, LoopSteps(events));
    LoopRefinesMachine("answer", s, events);
  }

  // Which messages some run acknowledges

  /** A message that can be handled now is acknowledged in one undisturbed turn. */
  lemma HandledAtOnce(s: System, id: nat)
    requires Inv("answer", s) && s.pc.Idle? && HasMessage(s, id) && id !in s.acked
    requires Handle(s.ledger, s.published[id].message).Ok?
    ensures var s' := Run("answer", s, StepsOf(id, None, false));
            && s'.ledger == Handle(s.ledger, s.published[id].message).value.0
            && s'.published == s.published && s'.acked == s.acked + {id} && s'.pc.Idle? && Inv("answer", s')
  {
    RunFour("answer", s, StepsOf(id, None, false));
    RunKeepsInv("answer", s, StepsOf(id, None, false));
  }

  lemma PublishAndHandle(s: System, m: VoteMessage) returns (steps: seq<Step>)
    requires Inv("answer", s) && s.pc.Idle? && Handle(s.ledger, m).Ok?
    ensures var s' := Run("answer", s, steps);
            && s'.ledger == Handle(s.ledger, m).value.0 && s'.published == s.published + [VoteRepository.Vote(m)]
            && s'.acked == s.acked + {|s.published|} && s'.pc.Idle? && Inv("answer", s')
  {
    var publish := [Publish(VoteRepository.Vote(m))];
    var s1 := Next("answer", s, publish[0]);
    assert Run("answer", s, publish) == s1 by {
      assert publish[1..] == [];
    }
    NextKeepsInv("answer", s, publish[0]);
    HandledAtOnce(s1, |s.published|);
    RunAppend("answer", s, publish, StepsOf(|s.published|, None, false));
    steps := publish + StepsOf(|s.published|, None, false);
  }

  /** Answers are added until `id` has been drawn. */
  lemma {:induction false} AddUntil(s: System, id: i64) returns (steps: seq<Step>)
    requires Inv("answer", s) && s.ledger.nextId <= id
    ensures var s' := Run("answer", s, steps);
            && id in s'.ledger.answers && s'.ledger.answers[id].agreeCount == 0
            && s'.ledger.votes == s.ledger.votes && s'.published == s.published && s'.acked == s.acked && s'.pc == s.pc
            && Inv("answer", s')
    decreases id - s.ledger.nextId
  {
    var add := [AddAnswer(0, "", "")];
    var s1 := Next("answer", s, add[0]);
    assert Run("answer", s, add) == s1 by {
      assert add[1..] == [];
    }
    NextKeepsInv("answer", s, add[0]);
    if s.ledger.nextId == id {
      steps := add;
    } else {
      var rest := AddUntil(s1, id);
      RunAppend("answer", s, add, rest);
      steps := add + rest;
    }
  }

  lemma SomeVoteFor(l: Ledger, id: i64) returns (createdBy: string)
    requires CountFor(l.votes, id) > 0
    ensures AnswerVote(id, createdBy) in l.votes
  {
    if forall row :: row in l.votes && row.targetType == "answer" ==> row.targetId != id {
      CountForNone(l.votes, id);
    }
    var row :| row in l.votes && row.targetType == "answer" && row.targetId == id;
    createdBy := row.createdBy;
  }

  /** Steps that make a message possible to handle, unless it is poison: its answer is added, or
      another vote makes room in a full count. */
  lemma MakeRoom(s: System, id: nat) returns (steps: seq<Step>)
    requires Inv("answer", s) && s.pc.Idle? && HasMessage(s, id) && id !in s.acked
    requires !Poison(s.ledger, s.published[id].message)
    ensures var s' := Run("answer", s, steps);
            && Inv("answer", s') && s'.pc.Idle? && HasMessage(s', id) && id !in s'.acked
            && s'.published[id] == s.published[id] && Handle(s'.ledger, s.published[id].message).Ok?
  {
    var m := s.published[id].message;
    HandleOkIff(s.ledger, m);
    if Handle(s.ledger, m).Ok? {
      steps := [];
    } else if m.targetId !in s.ledger.answers {
      steps := AddUntil(s, m.targetId);
      HandleOkIff(Run("answer", s, steps).ledger, m);
    } else {
      var createdBy := SomeVoteFor(s.ledger, m.targetId);
      var cancel := VoteMessage(m.targetId, "answer", createdBy, "down");
      CancelIsExact(s.ledger, cancel);
      HandleSetsRow(s.ledger, cancel, AnswerVote(m.targetId, m.createdBy));
      steps := PublishAndHandle(s, cancel);
      HandleOkIff(Run("answer", s, steps).ledger, m);
    }
  }

  lemma SomeRunAcks(s: System, id: nat) returns (steps: seq<Step>)
    requires Inv("answer", s) && HasMessage(s, id) && id !in s.acked
    requires !Poison(s.ledger, s.published[id].message)
    ensures id in Run("answer", s, steps).acked
  {
    var restart := [Crash, Start];
    var s1 := Next("answer", Next("answer", s, Crash), Start);
    assert Run("answer", s, restart) == s1 by {
      assert restart[1..] == [Start] && [Start][1..] == [];
    }
    RunKeepsInv("answer", s, restart);
    var room := MakeRoom(s1, id);
    var s2 := Run("answer", s1, room);
    HandledAtOnce(s2, id);
    RunAppend("answer", s1, room, StepsOf(id, None, false));
    RunAppend("answer", s, restart, room + StepsOf(id, None, false));
    steps := restart + (room + StepsOf(id, None, false));
  }

  /** Exactly which messages can still be acknowledged: all those that are not poison. */
  lemma AckedInSomeRunIff(s: System, id: nat)
    requires Inv("answer", s) && HasMessage(s, id) && id !in s.acked && s.pc != Handled(id)
    ensures (exists steps :: id in Run("answer", s, steps).acked) <==> !Poison(s.ledger, s.published[id].message)
  {
    if Poison(s.ledger, s.published[id].message) {
      forall steps
        ensures id !in Run("answer", s, steps).acked
      {
        PoisonIsNeverAcked(s, steps, id);
      }
    } else {
      var steps := SomeRunAcks(s, id);
    }
  }

  // A run that fills an answer's count

  function Voter(k: nat): string {
    Decimal.DigitsOf(k)
  }

  lemma VotersApart(j: nat, k: nat)
    ensures Voter(j) == Voter(k) ==> j == k
  {
    Decimal.ParseDigitsRoundTrip(j);
    Decimal.ParseDigitsRoundTrip(k);
  }

  /** The first value of a serial column. */
  const FIRST: i64 := 1

  /** The first answer has the votes of the first `n` voters. */
  ghost predicate Filled(s: System, n: nat) {
    && Inv("answer", s) && s.pc.Idle?
    && FIRST in s.ledger.answers && s.ledger.answers[FIRST].agreeCount == n
    && forall k: nat :: AnswerVote(FIRST, Voter(k)) in s.ledger.votes <==> k < n
  }

  lemma {:induction false} Fill(n: nat) returns (steps: seq<Step>)
    requires n <= I64_MAX
    ensures Filled(Run("answer", INITIAL, steps), n)
    decreases n
  {
    if n == 0 {
      steps := [Start, AddAnswer(0, "", "")];
      assert steps[1..] == [AddAnswer(0, "", "")] && steps[1..][1..] == [];
      Reachable("answer", steps);
    } else {
      var before := Fill(n - 1);
      var s := Run("answer", INITIAL, before);
      var m := VoteMessage(FIRST, "answer", Voter(n - 1), "up");
      HandleOkIff(s.ledger, m);
      var vote := PublishAndHandle(s, m);
      forall k: nat
        ensures AnswerVote(FIRST, Voter(k)) in Handle(s.ledger, m).value.0.votes <==> k < n
      {
        VotersApart(k, n - 1);
        HandleSetsRow(s.ledger, m, AnswerVote(FIRST, Voter(k)));
      }
      RunAppend("answer", INITIAL, before, vote);
      steps := before + vote;
    }
  }

  /** Competition is reachable: two users who vote for an answer with room for one vote. */
  lemma CompetitionIsReachable() returns (steps: seq<Step>, m: VoteMessage, n: VoteMessage)
    ensures var l := Run("answer", INITIAL, steps).ledger;
            && m.createdBy != n.createdBy
            && !SameTables(AfterMessage(AfterMessage(l, m), n), AfterMessage(AfterMessage(l, n), m))
  {
    var room: nat := I64_MAX - 1;
    steps := Fill(room);
    var l := Run("answer", INITIAL, steps).ledger;
    m, n := VoteMessage(FIRST, "answer", Voter(room), "up"), VoteMessage(FIRST, "answer", Voter(room + 1), "up");
    VotersApart(room, room + 1);
    MessagesCommuteIff(l, m, n);
  }
}
