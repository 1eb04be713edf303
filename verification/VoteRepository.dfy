/** The vote repository of crates/qa-svc/src/core/user_vote.rs: lookups, transactions and the
    consumer loop, changing the tables in place. */
module VoteRepository {
  import Decimal
  import Text
  import opened Integers
  import opened VoteLedger
  import opened Wrappers

  /** The database statement that fails while one message is handled, if one does. A commit fails, or
      stands although its confirmation is lost. */
  datatype Statement = Select | Begin | Rows | Count | Commit | Confirmation

  // Placeholders and binding

  function Placeholder(i: nat): string {
    "$" + Decimal.DigitsOf(i)
  }

  /** "$1,$2,...,$len" */
  function GenInPlaceholder(len: nat): string {
    Text.Join(seq(len, i requires 0 <= i < len => Placeholder(i + 1)), ',')
  }

  /** The parameter number a placeholder names. */
  function ParameterNumber(text: string): Option<nat> {
    if text == "" || text[0] != '$' then None else Decimal.ParseDigits(text[1..])
  }

  /** A parameter is written "$" and its number in decimal, which zeros may precede. */
  lemma ParameterNumberIff(text: string, n: nat)
    ensures ParameterNumber(text) == Some(n) <==>
            text != "" && text[0] == '$' && exists k :: text[1..] == Decimal.Zeros(k) + Decimal.DigitsOf(n)
  {
    if text != "" {
      Decimal.ParseDigitsIff(text[1..], n);
    }
  }

  function ParameterNumbers(texts: seq<string>): seq<Option<nat>> {
    seq(|texts|, i requires 0 <= i < |texts| => ParameterNumber(texts[i]))
  }

  lemma PlaceholderReadsBack(i: nat)
    ensures ParameterNumber(Placeholder(i)) == Some(i)
    ensures ',' !in Placeholder(i)
  {
    Decimal.ParseDigitsRoundTrip(i);
    Decimal.DigitsAreDigits(i);
    assert Placeholder(i)[1..] == Decimal.DigitsOf(i);
    assert !Decimal.IsDigit(',');
  }

  /** The list names the parameters 1 to `len`, in order. */
  lemma PlaceholdersNameOneToLen(len: nat)
    requires len > 0
    ensures ParameterNumbers(Text.Split(GenInPlaceholder(len), ',')) == seq(len, i => Some(i + 1))
  {
    var texts := seq(len, i requires 0 <= i < len => Placeholder(i + 1));
    forall i | 0 <= i < len
      ensures ',' !in texts[i] && ParameterNumber(texts[i]) == Some(i + 1)
    {
      PlaceholderReadsBack(i + 1);
    }
    Text.SplitJoin(texts, ',');
  }

  datatype Argument = Id(id: i64) | Str(text: string)

  /** Parameter `n` is bound to `a`; parameters are numbered from 1. */
  predicate Bound(arguments: seq<Argument>, n: Option<nat>, a: Argument) {
    n.Some? && 1 <= n.value <= |arguments| && arguments[n.value - 1] == a
  }

  predicate Selected(row: VoteRow, hold: seq<Option<nat>>, typeParameter: nat, userParameter: nat,
                     arguments: seq<Argument>) {
    && (exists i :: 0 <= i < |hold| && Bound(arguments, hold[i], Id(row.targetId)))
    && Bound(arguments, Some(typeParameter), Str(row.targetType))
    && Bound(arguments, Some(userParameter), Str(row.createdBy))
  }

  /** `select target_id from users_votes where target_id in (hold) and target_type=$t and
      created_by=$u`, with its parameters bound to `arguments`. */
  function SelectTargets(votes: seq<VoteRow>, hold: string, typeParameter: nat, userParameter: nat,
                         arguments: seq<Argument>): seq<i64> {
    if votes == [] then []
    else
      (if Selected(votes[0], ParameterNumbers(Text.Split(hold, ',')), typeParameter, userParameter, arguments)
       then [votes[0].targetId] else [])
      + SelectTargets(votes[1..], hold, typeParameter, userParameter, arguments)
  }

  lemma {:induction false} SelectTargetsIff(votes: seq<VoteRow>, hold: string, typeParameter: nat, userParameter: nat,
                                            arguments: seq<Argument>, id: i64)
    ensures id in SelectTargets(votes, hold, typeParameter, userParameter, arguments) <==>
            exists row :: row in votes && row.targetId == id
                          && Selected(row, ParameterNumbers(Text.Split(hold, ',')), typeParameter, userParameter,
                             arguments)
  {
    if votes != [] {
      SelectTargetsIff(votes[1..], hold, typeParameter, userParameter, arguments, id);
      assert votes == [votes[0]] + votes[1..];
    }
  }

  function BatchArguments(targetIds: seq<u64>, username: string, targetType: string): seq<Argument> {
    seq(|targetIds|, i requires 0 <= i < |targetIds| => Id(AsI64(targetIds[i]))) + [Str(targetType), Str(username)]
  }

  lemma BatchSelectsRow(row: VoteRow, targetIds: seq<u64>, username: string, targetType: string)
    requires targetIds != []
    ensures Selected(row, seq(|targetIds|, i => Some(i + 1)), |targetIds| + 1, |targetIds| + 2,
                     BatchArguments(targetIds, username, targetType)) <==>
            AsU64(row.targetId) in targetIds && row.targetType == targetType && row.createdBy == username
  {
    var n, arguments := |targetIds|, BatchArguments(targetIds, username, targetType);
    var hold: seq<Option<nat>> := seq(n, i => Some(i + 1));
    if AsU64(row.targetId) in targetIds {
      var i :| 0 <= i < n && targetIds[i] == AsU64(row.targetId);
      assert Bound(arguments, hold[i], Id(row.targetId));
    }
    if i :| 0 <= i < |hold| && Bound(arguments, hold[i], Id(row.targetId)) {
      assert arguments[i] == Id(AsI64(targetIds[i]));
      assert targetIds[i] == AsU64(row.targetId);
    }
  }

  /** With the batch's placeholders and bindings the query selects exactly the listed targets the
      user has voted for. */
  lemma BatchSelects(l: Ledger, targetIds: seq<u64>, username: string, targetType: string, id: i64)
    requires targetIds != []
    ensures id in SelectTargets(l.votes, GenInPlaceholder(|targetIds|), |targetIds| + 1, |targetIds| + 2,
                                BatchArguments(targetIds, username, targetType)) <==>
            AsU64(id) in targetIds && IsVoted(l, AsU64(id), username, targetType)
  {
    var n, arguments := |targetIds|, BatchArguments(targetIds, username, targetType);
    var hold := ParameterNumbers(Text.Split(GenInPlaceholder(n), ','));
    PlaceholdersNameOneToLen(n);
    SelectTargetsIff(l.votes, GenInPlaceholder(n), n + 1, n + 2, arguments, id);
    var wanted := VoteRow(id, targetType, username);
    BatchSelectsRow(wanted, targetIds, username, targetType);
    if row :| row in l.votes && row.targetId == id && Selected(row, hold, n + 1, n + 2, arguments) {
      BatchSelectsRow(row, targetIds, username, targetType);
      assert row == wanted;
    }
  }

  // The consumer's view of the world

  datatype Payload = Undecodable | Vote(message: VoteMessage)

  /** What the consumer's `select!` can see next. */
  datatype Event =
    | ShutdownSignal(closed: bool)
    | StreamError
    | StreamEnd
    | Received(id: nat, payload: Payload, fault: Option<Statement>, ackFails: bool)

  datatype Status = Running | Ended | Failed

  datatype Consumption = Consumption(ledger: Ledger, acked: seq<nat>, status: Status)

  /** The tables after handling with a database fault, which only matters where a statement is
      executed, and what is answered; `None` is an error. */
  function HandleWithFault(l: Ledger, m: VoteMessage, fault: Option<Statement>): (Ledger, Option<bool>) {
    if fault == Some(Select) then (l, None)
    else match Handle(l, m)
      case Err(_) => (l, None)
      case Ok((l', acts)) =>
        if !acts || fault.None? then (l', Some(acts))
        else (if fault == Some(Confirmation) then l' else l, None)
  }

  /** One turn of the loop. */
  function Consume(c: Consumption, targetType: string, e: Event): Consumption {
    if c.status != Running then c
    else match e
      case ShutdownSignal(closed) => if closed then c.(status := Ended) else c
      case StreamError => c.(status := Failed)
      case StreamEnd => c.(status := Ended)
      case Received(id, payload, fault, ackFails) =>
        if payload.Undecodable? then c
        else
          var (l, answer) := if targetType == "answer" then HandleWithFault(c.ledger, payload.message, fault)
              else (c.ledger, Some(true));
          if answer.None? then c.(ledger := l)
          else if ackFails then c.(ledger := l, status := Failed)
          else c.(ledger := l, acked := c.acked + [id])
  }

  function ConsumeAll(c: Consumption, targetType: string, events: seq<Event>): Consumption {
    if events == [] then c
    else Consume(ConsumeAll(c, targetType, events[..|events| - 1]), targetType, events[|events| - 1])
  }

  /** What ends the loop and how: a closed shutdown channel or the end of the stream quietly, an error of
      the stream or of an acknowledgement with an error. */
  lemma StatusAfter(c: Consumption, targetType: string, events: seq<Event>)
    requires events != []
    ensures var before, after := ConsumeAll(c, targetType, events[..|events| - 1]), ConsumeAll(c, targetType, events);
            var e := events[|events| - 1];
            && (before.status != Running ==> after == before)
            && (before.status == Running ==>
                  && (after.status == Ended <==> e == ShutdownSignal(true) || e == StreamEnd)
                  && (after.status == Failed <==>
                        || e == StreamError
                        || (e.Received? && e.payload.Vote? && e.ackFails
                            && (targetType == "answer" ==>
                               HandleWithFault(before.ledger, e.payload.message, e.fault).1.Some?)))
                  && (!e.Received? ==> after.ledger == before.ledger && after.acked == before.acked))
  {
  }

  lemma HandleWithFaultKeepsInv(l: Ledger, m: VoteMessage, fault: Option<Statement>)
    requires VoteLedger.Inv(l)
    ensures VoteLedger.Inv(HandleWithFault(l, m, fault).0)
  {
    if Handle(l, m).Ok? {
      HandleKeepsInv(l, m);
    }
  }

  lemma ConsumeKeepsInv(c: Consumption, targetType: string, e: Event)
    requires VoteLedger.Inv(c.ledger)
    ensures VoteLedger.Inv(Consume(c, targetType, e).ledger)
  {
    if e.Received? && e.payload.Vote? {
      HandleWithFaultKeepsInv(c.ledger, e.payload.message, e.fault);
    }
  }

  /** Whatever is delivered, even twice, and whatever fails, the tables stay in agreement. */
  lemma {:induction false} ConsumeAllKeepsInv(c: Consumption, targetType: string, events: seq<Event>)
    requires VoteLedger.Inv(c.ledger)
    ensures VoteLedger.Inv(ConsumeAll(c, targetType, events).ledger)
  {
    if events != [] {
      ConsumeAllKeepsInv(c, targetType, events[..|events| - 1]);
      ConsumeKeepsInv(ConsumeAll(c, targetType, events[..|events| - 1]), targetType, events[|events| - 1]);
    }
  }

  lemma {:induction false} StoppedStays(c: Consumption, targetType: string, events: seq<Event>, i: nat)
    requires i <= |events| && ConsumeAll(c, targetType, events[..i]).status != Running
    ensures ConsumeAll(c, targetType, events) == ConsumeAll(c, targetType, events[..i])
  {
    if i < |events| {
      assert events[..|events| - 1][..i] == events[..i];
      StoppedStays(c, targetType, events[..|events| - 1], i);
    } else {
      assert events[..i] == events;
    }
  }

  /** The flag of `answer_detail`: the single lookup, or false if it fails. */
  predicate HasAgreed(l: Ledger, id: i64, username: string, fails: bool) {
    !fails && IsVoted(l, AsU64(id), username, "answer")
  }

  lemma HasAgreedIff(l: Ledger, id: i64, username: string, fails: bool)
    ensures HasAgreed(l, id, username, fails) <==> !fails && VoteRow(id, "answer", username) in l.votes
  {
  }

  class VoteRepository {
    var votes: seq<VoteRow>
    var answers: map<i64, Answer>
    var nextId: int

    constructor ()
      ensures State() == EMPTY
    {
      votes, answers, nextId := [], map[], 1;
    }

    function State(): Ledger
      reads this
    {
      Ledger(votes, answers, nextId)
    }

    method VoteAnswer(targetId: u64, createdBy: string, fault: Option<Statement>) returns (r: Result<bool, VoteError>)
      modifies this`votes, this`answers
      ensures r.Ok? <==> fault.None? && VoteLedger.VoteAnswer(old(State()), targetId, createdBy).Ok?
      ensures var clean := VoteLedger.VoteAnswer(old(State()), targetId, createdBy);
              State() == if clean.Ok? && (r.Ok? || fault == Some(Confirmation)) then clean.value else old(State())
      ensures r.Ok? ==> r.value
      ensures fault.None? && r.Err? ==> VoteLedger.VoteAnswer(old(State()), targetId, createdBy) == Err(r.error)
    {
      if targetId > I64_MAX {
        return Err(TargetOutOfRange);
      }
      if fault == Some(Begin) {
        return Err(Database);
      }
      var savedVotes := votes;
      votes := votes + [AnswerVote(targetId, createdBy)];
      if fault.Some? && fault.value.Rows? {
        votes := savedVotes;
        return Err(Database);
      }
      if targetId !in answers {
        votes := savedVotes;
        return Err(AnswerMissing);
      }
      var savedAnswers, answer := answers, answers[targetId];
      if answer.agreeCount + 1 > I64_MAX {
        votes := savedVotes;
        return Err(CountOutOfRange);
      }
      answers := answers[targetId := answer.(agreeCount := answer.agreeCount + 1)];
      if fault.Some? {
        if !fault.value.Confirmation? {
          votes, answers := savedVotes, savedAnswers;
        }
        return Err(Database);
      }
      return Ok(true);
    }

    method CancelVoteAnswer(targetId: u64, createdBy: string, fault: Option<Statement>)
      returns (r: Result<bool, VoteError>)
      modifies this`votes, this`answers
      ensures r.Ok? <==> fault.None? && VoteLedger.CancelVoteAnswer(old(State()), targetId, createdBy).Ok?
      ensures var clean := VoteLedger.CancelVoteAnswer(old(State()), targetId, createdBy);
              State() == if clean.Ok? && (r.Ok? || fault == Some(Confirmation)) then clean.value else old(State())
      ensures r.Ok? ==> r.value
      ensures fault.None? && r.Err? ==> VoteLedger.CancelVoteAnswer(old(State()), targetId, createdBy) == Err(r.error)
    {
      if targetId > I64_MAX {
        return Err(TargetOutOfRange);
      }
      if fault == Some(Begin) {
        return Err(Database);
      }
      var savedVotes := votes;
      var row := AnswerVote(targetId, createdBy);
      var rowsAffected := multiset(votes)[row];
      votes := Without(votes, row);
      if rowsAffected != 1 || (fault.Some? && fault.value.Rows?) {
        votes := savedVotes;
        return Err(if fault.Some? then Database else RowNotDeleted);
      }
      if targetId !in answers {
        votes := savedVotes;
        return Err(AnswerMissing);
      }
      var savedAnswers, answer := answers, answers[targetId];
      if answer.agreeCount - 1 < I64_MIN {
        votes := savedVotes;
        return Err(CountOutOfRange);
      }
      answers := answers[targetId := answer.(agreeCount := Max(answer.agreeCount - 1, 0))];
      if fault.Some? {
        if !fault.value.Confirmation? {
          votes, answers := savedVotes, savedAnswers;
        }
        return Err(Database);
      }
      return Ok(true);
    }

    method HandlerAnswerAgree(targetId: u64, createdBy: string, action: string, fault: Option<Statement>)
      returns (r: Result<bool, VoteError>)
      modifies this`votes, this`answers
      ensures var m := VoteMessage(AsI64(targetId), "answer", createdBy, action);
              && (State(), if r.Ok? then Some(r.value) else None) == HandleWithFault(old(State()), m, fault)
              && (fault.None? && r.Err? ==> Handle(old(State()), m) == Err(r.error))
    {
      if fault == Some(Select) {
        return Err(Database);
      }
      var hasVoted := AnswerVote(AsI64(targetId), createdBy) in votes;
      if action == "up" {
        if hasVoted {
          return Ok(false);
        }
        r := VoteAnswer(targetId, createdBy, fault);
      } else if action == "down" {
        if !hasVoted {
          return Ok(false);
        }
        r := CancelVoteAnswer(targetId, createdBy, fault);
      } else {
        return Err(UnsupportedAction);
      }
    }

    /** A key for exactly the listed ids the user has voted for. No query is made for an empty list. */
    method IsBatchVoted(targetIds: seq<u64>, username: string, targetType: string, fails: bool)
      returns (r: Result<map<u64, bool>, VoteError>)
      ensures r.Err? <==> fails && targetIds != []
      ensures r.Ok? ==> forall i :: i in r.value <==> i in targetIds && IsVoted(State(), i, username, targetType)
      ensures r.Ok? ==> forall i :: i in r.value ==> r.value[i]
    {
      if targetIds == [] {
        return Ok(map[]);
      }
      var n := |targetIds|;
      var hold := GenInPlaceholder(n);
      var arguments: seq<Argument> := [];
      for k := 0 to n
        invariant arguments == seq(k, i requires 0 <= i < k => Id(AsI64(targetIds[i])))
      {
        arguments := arguments + [Id(AsI64(targetIds[k]))];
      }
      arguments := arguments + [Str(targetType), Str(username)];
      assert arguments == BatchArguments(targetIds, username, targetType);
      if fails {
        return Err(Database);
      }
      var rest := SelectTargets(votes, hold, n + 1, n + 2, arguments);
      var result: map<u64, bool> := map[];
      for k := 0 to |rest|
        invariant forall i :: i in result <==> exists j :: 0 <= j < k && AsU64(rest[j]) == i
        invariant forall i :: i in result ==> result[i]
      {
        result := result[AsU64(rest[k]) := true];
      }
      forall i: u64
        ensures i in result <==> i in targetIds && IsVoted(State(), i, username, targetType)
      {
        BatchSelects(State(), targetIds, username, targetType, AsI64(i));
        assert AsU64(AsI64(i)) == i;
      }
      return Ok(result);
    }

    /** The flags `answer_list` shows are those `answer_detail` would show for each answer; both show
        none while their lookup fails. */
    method HasAgreedFlags(ids: seq<i64>, username: string, fails: bool) returns (flags: seq<bool>)
      ensures |flags| == |ids|
      ensures forall k :: 0 <= k < |ids| ==> flags[k] == HasAgreed(State(), ids[k], username, fails)
    {
      var targetIds := seq(|ids|, k requires 0 <= k < |ids| => AsU64(ids[k]));
      var found := IsBatchVoted(targetIds, username, "answer", fails);
      var voteMap := if found.Ok? then found.value else map[];
      flags := seq(|ids|, k requires 0 <= k < |ids| => AsU64(ids[k]) in voteMap);
      forall k | 0 <= k < |ids|
        ensures flags[k] == HasAgreed(State(), ids[k], username, fails)
      {
        assert targetIds[k] in targetIds;
      }
    }

    /** The consumer loop over whatever its sources deliver. `counter` counts the acks of this run. */
    method Consumer(targetType: string, events: seq<Event>) returns (status: Status, acked: seq<nat>, counter: nat)
      modifies this`votes, this`answers
      ensures ConsumeAll(Consumption(old(State()), [], Running), targetType, events) ==
              Consumption(State(), acked, status)
      ensures counter == |acked|
      ensures VoteLedger.Inv(old(State())) ==> VoteLedger.Inv(State())
    {
      ghost var start := Consumption(State(), [], Running);
      if VoteLedger.Inv(State()) {
        forall n: nat | n <= |events|
          ensures VoteLedger.Inv(ConsumeAll(start, targetType, events[..n]).ledger)
        {
          ConsumeAllKeepsInv(start, targetType, events[..n]);
        }
      }
      status, acked, counter := Running, [], 0;
      var i := 0;
      while i < |events|
        invariant 0 <= i <= |events|
        invariant ConsumeAll(start, targetType, events[..i]) == Consumption(State(), acked, Running)
        invariant counter == |acked| && status == Running
      {
        assert events[..i + 1][..i] == events[..i];
        match events[i] {
          case ShutdownSignal(closed) =>
            if closed {
              status := Ended;
            }
          case StreamError =>
            status := Failed;
          case StreamEnd =>
            status := Ended;
          case Received(id, payload, fault, ackFails) =>
            var handled := payload.Vote?;
            if payload.Vote? && targetType == "answer" {
              var m := payload.message;
              HandleIgnoresType(State(), m, fault);
              var reply := HandlerAnswerAgree(AsU64(m.targetId), m.createdBy, m.action, fault);
              handled := reply.Ok?;
            }
            if handled {
              if ackFails {
                status := Failed;
              } else {
                acked, counter := acked + [id], counter + 1;
              }
            }
        }
        i := i + 1;
        assert ConsumeAll(start, targetType, events[..i]) == Consumption(State(), acked, status);
        if status != Running {
          StoppedStays(start, targetType, events, i);
          return;
        }
      }
      assert events[..i] == events;
    }
  }

  /** The consumer tests its own target type, not the message's. */
  lemma HandleIgnoresType(l: Ledger, m: VoteMessage, fault: Option<Statement>)
    ensures var answerMessage := VoteMessage(AsI64(AsU64(m.targetId)), "answer", m.createdBy, m.action);
            HandleWithFault(l, answerMessage, fault) == HandleWithFault(l, m, fault)
  {
  }
}
