/** The `answers` and `users_votes` tables and the transactions of
    crates/qa-svc/src/core/user_vote.rs on them. No constraint of the schema keeps one vote per
    user or ties `agree_count` to the rows. */
module VoteLedger {
  import opened Integers
  import opened Wrappers

  datatype VoteRow = VoteRow(targetId: i64, targetType: string, createdBy: string)

  datatype Answer = Answer(questionId: i64, content: string, createdBy: string, agreeCount: i64)

  /** `nextId` is the next value of the `answers` sequence. */
  datatype Ledger = Ledger(votes: seq<VoteRow>, answers: map<i64, Answer>, nextId: int)

  datatype VoteMessage = VoteMessage(targetId: i64, targetType: string, createdBy: string, action: string)

  datatype VoteError =
    | TargetOutOfRange
    | RowNotDeleted
    | AnswerMissing
    | CountOutOfRange
    | UnsupportedAction
    | Database

  const EMPTY := Ledger([], map[], 1)

  function AnswerVote(targetId: i64, createdBy: string): VoteRow {
    VoteRow(targetId, "answer", createdBy)
  }

  // Statements

  function Without(votes: seq<VoteRow>, row: VoteRow): seq<VoteRow> {
    if votes == [] then []
    else (if votes[0] == row then [] else [votes[0]]) + Without(votes[1..], row)
  }

  function CountFor(votes: seq<VoteRow>, id: i64): nat {
    if votes == [] then 0
    else (if votes[0].targetType == "answer" && votes[0].targetId == id then 1 else 0) + CountFor(votes[1..], id)
  }

  function Max(a: int, b: int): int {
    if a >= b then a else b
  }

  // Operations

  predicate IsVoted(l: Ledger, targetId: u64, username: string, targetType: string) {
    VoteRow(AsI64(targetId), targetType, username) in l.votes
  }

  /** Insert the row, then raise the count; any failing statement rolls both back. */
  function VoteAnswer(l: Ledger, targetId: u64, createdBy: string): Result<Ledger, VoteError> {
    if targetId > I64_MAX then Err(TargetOutOfRange)
    else if targetId !in l.answers then Err(AnswerMissing)
    else
      var answer := l.answers[targetId];
      if answer.agreeCount + 1 > I64_MAX then Err(CountOutOfRange)
      else Ok(l.(votes := l.votes + [AnswerVote(targetId, createdBy)],
                 answers := l.answers[targetId := answer.(agreeCount := answer.agreeCount + 1)]))
  }

  /** Delete the rows, which must be exactly one, then lower the count, clamped at zero. */
  function CancelVoteAnswer(l: Ledger, targetId: u64, createdBy: string): Result<Ledger, VoteError> {
    if targetId > I64_MAX then Err(TargetOutOfRange)
    else if multiset(l.votes)[AnswerVote(targetId, createdBy)] != 1 then Err(RowNotDeleted)
    else if targetId !in l.answers then Err(AnswerMissing)
    else
      var answer := l.answers[targetId];
      if answer.agreeCount - 1 < I64_MIN then Err(CountOutOfRange)
      else Ok(l.(votes := Without(l.votes, AnswerVote(targetId, createdBy)),
                 answers := l.answers[targetId := answer.(agreeCount := Max(answer.agreeCount - 1, 0))]))
  }

  /** Exactly when the first transaction is refused, and why. */
  lemma VoteRefusedIff(l: Ledger, targetId: u64, createdBy: string)
    ensures var r, max := VoteAnswer(l, targetId, createdBy), 0x7fff_ffff_ffff_ffff;
            && (r == Err(TargetOutOfRange) <==> targetId > max)
            && (r == Err(AnswerMissing) <==> targetId <= max && targetId !in l.answers)
            && (r == Err(CountOutOfRange) <==>
               targetId <= max && targetId in l.answers && l.answers[targetId].agreeCount == max)
            && (r.Ok? <==> targetId <= max && targetId in l.answers && l.answers[targetId].agreeCount < max)
  {
  }

  /** Exactly when the second is, whatever the tables are; a count is never left negative. */
  lemma CancelRefusedIff(l: Ledger, targetId: u64, createdBy: string)
    ensures var r := CancelVoteAnswer(l, targetId, createdBy);
            if targetId > 0x7fff_ffff_ffff_ffff then r == Err(TargetOutOfRange)
            else
              var one := multiset(l.votes)[VoteRow(targetId, "answer", createdBy)] == 1;
              var overflows := targetId in l.answers && l.answers[targetId].agreeCount == -0x8000_0000_0000_0000;
              && (r == Err(RowNotDeleted) <==> !one)
              && (r == Err(AnswerMissing) <==> one && targetId !in l.answers)
              && (r == Err(CountOutOfRange) <==> one && overflows)
              && (r.Ok? <==> one && targetId in l.answers && !overflows)
              && (r.Ok? ==>
                    r.value.answers[targetId].agreeCount ==
                    if l.answers[targetId].agreeCount >= 1 then l.answers[targetId].agreeCount - 1 else 0)
  {
  }

  /** What `handler_answer_agree` does once `hasVoted` is known. */
  function Decide(l: Ledger, hasVoted: bool, targetId: u64, createdBy: string, action: string)
    : Result<(Ledger, bool), VoteError>
  {
    if action == "up" then
      if hasVoted then Ok((l, false))
      else match VoteAnswer(l, targetId, createdBy)
        case Err(e) => Err(e)
        case Ok(l') => Ok((l', true))
    else if action == "down" then
      if !hasVoted then Ok((l, false))
      else match CancelVoteAnswer(l, targetId, createdBy)
        case Err(e) => Err(e)
        case Ok(l') => Ok((l', true))
    else Err(UnsupportedAction)
  }

  function DecideMessage(l: Ledger, hasVoted: bool, m: VoteMessage): Result<(Ledger, bool), VoteError> {
    Decide(l, hasVoted, AsU64(m.targetId), m.createdBy, m.action)
  }

  predicate Voted(l: Ledger, m: VoteMessage) {
    IsVoted(l, AsU64(m.targetId), m.createdBy, "answer")
  }

  /** Handling a message with nothing in between: look the vote up, then act on it. */
  function Handle(l: Ledger, m: VoteMessage): Result<(Ledger, bool), VoteError> {
    DecideMessage(l, Voted(l, m), m)
  }

  function AddAnswer(l: Ledger, questionId: i64, content: string, createdBy: string): Ledger {
    if l.nextId > I64_MAX || l.nextId < 1 then l
    else l.(answers := l.answers[l.nextId := Answer(questionId, content, createdBy, 0)], nextId := l.nextId + 1)
  }

  function UpdateAnswer(l: Ledger, id: u64, content: string): Ledger {
    if AsI64(id) !in l.answers then l
    else l.(answers := l.answers[AsI64(id) := l.answers[AsI64(id)].(content := content)])
  }

  function DeleteAnswer(l: Ledger, id: u64, username: string): Ledger {
    if AsI64(id) in l.answers && l.answers[AsI64(id)].createdBy == username
    then l.(answers := l.answers - {AsI64(id)})
    else l
  }

  /** A new answer has the next id, no votes counted, and leaves everything else as it was. */
  lemma AddIsExact(l: Ledger, questionId: i64, content: string, createdBy: string)
    requires 1 <= l.nextId
    ensures var l' := AddAnswer(l, questionId, content, createdBy);
            if l.nextId > I64_MAX then l' == l
            else
              && l'.votes == l.votes && l'.nextId == l.nextId + 1
              && l'.answers.Keys == l.answers.Keys + {l.nextId}
              && l'.answers[l.nextId] == Answer(questionId, content, createdBy, 0)
              && forall id :: id in l.answers && id != l.nextId ==> l'.answers[id] == l.answers[id]
  {
  }

  /** An update changes exactly the content of exactly the answer with that id, whoever asks. */
  lemma UpdateIsExact(l: Ledger, id: u64, content: string)
    ensures var l' := UpdateAnswer(l, id, content);
            && l'.votes == l.votes && l'.nextId == l.nextId && l'.answers.Keys == l.answers.Keys
            && forall a :: a in l.answers ==>
                 && l'.answers[a].content == (if AsU64(a) == id then content else l.answers[a].content)
                 && l'.answers[a] == l.answers[a].(content := l'.answers[a].content)
  {
  }

  /** A deletion removes exactly the answer with that id, and only for its author. */
  lemma DeleteIsExact(l: Ledger, id: u64, username: string)
    ensures var l' := DeleteAnswer(l, id, username);
            && l'.votes == l.votes && l'.nextId == l.nextId
            && (forall a :: a in l'.answers <==>
               a in l.answers && !(AsU64(a) == id && l.answers[a].createdBy == username))
            && forall a :: a in l'.answers ==> l'.answers[a] == l.answers[a]
  {
  }

  // The invariant

  ghost predicate RowsInv(l: Ledger) {
    forall row :: row in l.votes && row.targetType == "answer" ==>
      1 <= row.targetId < l.nextId && multiset(l.votes)[row] == 1
  }

  ghost predicate AnswersInv(l: Ledger) {
    forall id :: id in l.answers ==>
      1 <= id < l.nextId && l.answers[id].agreeCount == CountFor(l.votes, id)
  }

  /** One row per user and answer, no row for an id still to be drawn, and every live answer's
      count equal to its number of rows. */
  ghost predicate Inv(l: Ledger) {
    1 <= l.nextId && RowsInv(l) && AnswersInv(l)
  }

  lemma {:induction false} CountForAppend(votes: seq<VoteRow>, row: VoteRow, id: i64)
    ensures CountFor(votes + [row], id) ==
            CountFor(votes, id) + if row.targetType == "answer" && row.targetId == id then 1 else 0
  {
    if votes == [] {
      assert votes + [row] == [row];
    } else {
      assert (votes + [row])[1..] == votes[1..] + [row];
      CountForAppend(votes[1..], row, id);
    }
  }

  lemma {:induction false} WithoutRow(votes: seq<VoteRow>, row: VoteRow)
    ensures multiset(Without(votes, row)) == multiset(votes)[row := 0]
  {
    if votes != [] {
      WithoutRow(votes[1..], row);
      assert votes == [votes[0]] + votes[1..];
      assert multiset(votes) == multiset{votes[0]} + multiset(votes[1..]);
    }
  }

  lemma InWithout(votes: seq<VoteRow>, row: VoteRow, r: VoteRow)
    ensures r in Without(votes, row) <==> r in votes && r != row
  {
    WithoutRow(votes, row);
    assert r in Without(votes, row) <==> multiset(Without(votes, row))[r] > 0;
    assert r in votes <==> multiset(votes)[r] > 0;
  }

  lemma CountForCons(head: VoteRow, tail: seq<VoteRow>, id: i64)
    ensures CountFor([head] + tail, id) ==
            (if head.targetType == "answer" && head.targetId == id then 1 else 0) + CountFor(tail, id)
    ensures multiset([head] + tail)[head] == multiset(tail)[head] + 1
    ensures forall row :: row != head ==> multiset([head] + tail)[row] == multiset(tail)[row]
  {
    assert ([head] + tail)[1..] == tail;
  }

  lemma {:induction false} CountForWithout(votes: seq<VoteRow>, row: VoteRow, id: i64)
    requires row.targetType == "answer"
    ensures CountFor(votes, id) ==
            CountFor(Without(votes, row), id) + if row.targetId == id then multiset(votes)[row] else 0
  {
    if votes != [] {
      var head, tail := votes[0], votes[1..];
      CountForWithout(tail, row, id);
      assert votes == [head] + tail;
      CountForCons(head, tail, id);
      if head != row {
        CountForCons(head, Without(tail, row), id);
      } else {
        assert Without(votes, row) == Without(tail, row);
      }
    }
  }

  lemma {:induction false} CountForNone(votes: seq<VoteRow>, id: i64)
    requires forall row :: row in votes && row.targetType == "answer" ==> row.targetId != id
    ensures CountFor(votes, id) == 0
  {
    if votes != [] {
      assert votes[0] in votes;
      CountForNone(votes[1..], id);
    }
  }

  lemma {:induction false} CountForSome(votes: seq<VoteRow>, row: VoteRow)
    requires row in votes && row.targetType == "answer"
    ensures CountFor(votes, row.targetId) > 0
  {
    if votes[0] != row {
      CountForSome(votes[1..], row);
    }
  }

  lemma VoteKeepsInv(l: Ledger, targetId: u64, createdBy: string)
    requires Inv(l) && !IsVoted(l, targetId, createdBy, "answer")
    requires VoteAnswer(l, targetId, createdBy).Ok?
    ensures Inv(VoteAnswer(l, targetId, createdBy).value)
  {
    var row := AnswerVote(targetId, createdBy);
    var l' := VoteAnswer(l, targetId, createdBy).value;
    assert multiset(l'.votes) == multiset(l.votes) + multiset{row};
    assert row !in multiset(l.votes);
    forall id | id in l'.answers
      ensures l'.answers[id].agreeCount == CountFor(l'.votes, id)
    {
      CountForAppend(l.votes, row, id);
    }
  }

  lemma CancelKeepsRows(l: Ledger, row: VoteRow)
    requires Inv(l)
    ensures RowsInv(l.(votes := Without(l.votes, row)))
  {
    forall r | r in Without(l.votes, row)
      ensures r in l.votes && multiset(Without(l.votes, row))[r] == multiset(l.votes)[r]
    {
      InWithout(l.votes, row, r);
      WithoutRow(l.votes, row);
    }
  }

  lemma CancelKeepsInv(l: Ledger, targetId: u64, createdBy: string)
    requires Inv(l)
    requires CancelVoteAnswer(l, targetId, createdBy).Ok?
    ensures Inv(CancelVoteAnswer(l, targetId, createdBy).value)
  {
    var row := AnswerVote(targetId, createdBy);
    var l' := CancelVoteAnswer(l, targetId, createdBy).value;
    CancelKeepsRows(l, row);
    assert row in multiset(l.votes);
    CountForSome(l.votes, row);
    forall id | id in l'.answers
      ensures l'.answers[id].agreeCount == CountFor(l'.votes, id)
    {
      CountForWithout(l.votes, row, id);
    }
  }

  /** Whatever a message decides, from the truth about the vote, keeps the invariant. */
  lemma HandleKeepsInv(l: Ledger, m: VoteMessage)
    requires Inv(l) && Handle(l, m).Ok?
    ensures Inv(Handle(l, m).value.0)
  {
    if Handle(l, m).value.1 {
      if m.action == "up" {
        VoteKeepsInv(l, AsU64(m.targetId), m.createdBy);
      } else {
        CancelKeepsInv(l, AsU64(m.targetId), m.createdBy);
      }
    }
  }

  lemma AddKeepsInv(l: Ledger, questionId: i64, content: string, createdBy: string)
    requires Inv(l)
    ensures Inv(AddAnswer(l, questionId, content, createdBy))
  {
    if l.nextId <= I64_MAX {
      CountForNone(l.votes, l.nextId);
    }
  }

  /** A cancellation that finds the vote deletes exactly one row, and the clamp at zero never
      bites: the count of a live answer goes down by exactly one. */
  lemma CancelIsExact(l: Ledger, m: VoteMessage)
    requires Inv(l) && m.action == "down" && Voted(l, m)
    ensures multiset(l.votes)[AnswerVote(m.targetId, m.createdBy)] == 1
    ensures Handle(l, m).Ok? <==> m.targetId in l.answers
    ensures m.targetId in l.answers ==>
              var l' := Handle(l, m).value.0;
              && l.answers[m.targetId].agreeCount >= 1
              && l'.answers[m.targetId].agreeCount == l.answers[m.targetId].agreeCount - 1
              && AnswerVote(m.targetId, m.createdBy) !in l'.votes
  {
    var row := AnswerVote(m.targetId, m.createdBy);
    CountForSome(l.votes, row);
    InWithout(l.votes, row, row);
  }

  /** Exactly which messages can be handled; the others are never acknowledged. */
  lemma HandleOkIff(l: Ledger, m: VoteMessage)
    requires Inv(l)
    ensures Handle(l, m).Ok? <==>
            || (m.action == "up"
               && (Voted(l, m) || (m.targetId in l.answers && l.answers[m.targetId].agreeCount < I64_MAX)))
            || (m.action == "down" && (!Voted(l, m) || m.targetId in l.answers))
    ensures Handle(l, m).Ok? ==>
            (Handle(l, m).value.1 <==> (m.action == "up") != Voted(l, m))
  {
    if m.action == "down" && Voted(l, m) {
      CancelIsExact(l, m);
    }
  }

  /** After a handled message its own row is there iff it was "up", and no other row changed. */
  lemma HandleSetsRow(l: Ledger, m: VoteMessage, row: VoteRow)
    requires Inv(l) && Handle(l, m).Ok?
    ensures row in Handle(l, m).value.0.votes <==>
            if row == AnswerVote(m.targetId, m.createdBy) then m.action == "up" else row in l.votes
  {
    var own := AnswerVote(m.targetId, m.createdBy);
    HandleOkIff(l, m);
    if m.action == "down" && Voted(l, m) {
      assert Handle(l, m).value.0.votes == Without(l.votes, own);
      InWithout(l.votes, own, row);
    } else if m.action == "up" && !Voted(l, m) {
      assert Handle(l, m).value.0.votes == l.votes + [own];
    } else {
      assert Handle(l, m).value.0 == l;
    }
  }

  /** Handling the same message again changes nothing and succeeds. */
  lemma HandleTwice(l: Ledger, m: VoteMessage)
    requires Inv(l) && Handle(l, m).Ok?
    ensures Handle(Handle(l, m).value.0, m) == Ok((Handle(l, m).value.0, false))
  {
    HandleSetsRow(l, m, AnswerVote(m.targetId, m.createdBy));
  }

  // Messages for different pairs commute

  /** Equal tables: rows in any order. */
  predicate SameTables(a: Ledger, b: Ledger) {
    multiset(a.votes) == multiset(b.votes) && a.answers == b.answers && a.nextId == b.nextId
  }

  function AfterMessage(l: Ledger, m: VoteMessage): Ledger {
    match Handle(l, m)
    case Ok((l', _)) => l'
    case Err(_) => l
  }

  lemma AfterMessageKeepsInv(l: Ledger, m: VoteMessage)
    requires Inv(l)
    ensures Inv(AfterMessage(l, m))
  {
    if Handle(l, m).Ok? {
      HandleKeepsInv(l, m);
    }
  }

  /** How a handled message moves its answer's count. */
  function Delta(l: Ledger, m: VoteMessage): int {
    match Handle(l, m)
    case Ok((_, true)) => if m.action == "up" then 1 else -1
    case _ => 0
  }

  /** Tables `l'` reached from `l` by a message on `row` that moved its answer's count by `d`. */
  ghost predicate TablesMoved(l: Ledger, l': Ledger, row: VoteRow, d: int) {
    && (forall r :: multiset(l'.votes)[r] == multiset(l.votes)[r] + if r == row then d else 0)
    && l'.nextId == l.nextId && l'.answers.Keys == l.answers.Keys
    && (d != 0 ==> row.targetId in l.answers)
    && forall id :: id in l.answers ==>
         l'.answers[id].agreeCount == l.answers[id].agreeCount + (if id == row.targetId then d else 0)
         && l'.answers[id] == l.answers[id].(agreeCount := l'.answers[id].agreeCount)
  }

  lemma VoteMoves(l: Ledger, targetId: u64, createdBy: string)
    requires VoteAnswer(l, targetId, createdBy).Ok?
    ensures TablesMoved(l, VoteAnswer(l, targetId, createdBy).value, AnswerVote(targetId, createdBy), 1)
  {
    var row := AnswerVote(targetId, createdBy);
    assert multiset(l.votes + [row]) == multiset(l.votes) + multiset{row};
  }

  lemma CancelMoves(l: Ledger, targetId: u64, createdBy: string)
    requires Inv(l) && CancelVoteAnswer(l, targetId, createdBy).Ok?
    ensures TablesMoved(l, CancelVoteAnswer(l, targetId, createdBy).value, AnswerVote(targetId, createdBy), -1)
  {
    var row := AnswerVote(targetId, createdBy);
    WithoutRow(l.votes, row);
    assert row in multiset(l.votes);
    CountForSome(l.votes, row);
  }

  /** The tables after a message, in terms of its row and its delta alone. */
  lemma AfterMessageTables(l: Ledger, m: VoteMessage)
    requires Inv(l)
    ensures TablesMoved(l, AfterMessage(l, m), AnswerVote(m.targetId, m.createdBy), Delta(l, m))
  {
    if Delta(l, m) == 1 {
      VoteMoves(l, AsU64(m.targetId), m.createdBy);
    } else if Delta(l, m) == -1 {
      CancelMoves(l, AsU64(m.targetId), m.createdBy);
    } else {
      assert AfterMessage(l, m) == l;
    }
  }

  /** How a message would move its answer's count, were there room for any count. */
  function Want(l: Ledger, m: VoteMessage): int {
    if m.action == "up" && !Voted(l, m) then 1 else if m.action == "down" && Voted(l, m) then -1 else 0
  }

  /** The messages compete for the last room in their answer's count. */
  predicate Compete(l: Ledger, m: VoteMessage, n: VoteMessage) {
    && m.targetId == n.targetId && m.targetId in l.answers
    && (|| (Want(l, m) == Want(l, n) == 1 && l.answers[m.targetId].agreeCount == I64_MAX - 1)
        || (Want(l, m) != 0 && Want(l, n) == -Want(l, m) && l.answers[m.targetId].agreeCount == I64_MAX))
  }

  lemma DeltaOfWant(l: Ledger, m: VoteMessage)
    requires Inv(l)
    ensures Delta(l, m) ==
            if m.targetId in l.answers && (Want(l, m) == 1 ==> l.answers[m.targetId].agreeCount < I64_MAX)
            then Want(l, m) else 0
  {
    HandleOkIff(l, m);
  }

  lemma WantUnmoved(l: Ledger, m: VoteMessage, n: VoteMessage)
    requires Inv(l) && (m.targetId, m.createdBy) != (n.targetId, n.createdBy)
    ensures Want(AfterMessage(l, m), n) == Want(l, n)
  {
    if Handle(l, m).Ok? {
      HandleSetsRow(l, m, AnswerVote(n.targetId, n.createdBy));
    }
  }

  /** What a message still does after another one has been handled. */
  lemma DeltaAfter(l: Ledger, m: VoteMessage, n: VoteMessage)
    requires Inv(l) && (m.targetId, m.createdBy) != (n.targetId, n.createdBy)
    ensures Inv(AfterMessage(l, m))
    ensures Compete(l, m, n) && Want(l, n) == 1 ==> Delta(AfterMessage(l, m), n) != Delta(l, n)
    ensures !Compete(l, m, n) ==> Delta(AfterMessage(l, m), n) == Delta(l, n)
  {
    AfterMessageKeepsInv(l, m);
    WantUnmoved(l, m, n);
    DeltaOfWant(l, n);
    DeltaOfWant(AfterMessage(l, m), n);
    DeltaOfWant(l, m);
    AfterMessageTables(l, m);
  }

  lemma MovesCommute(l: Ledger, lm: Ledger, ln: Ledger, lmn: Ledger, lnm: Ledger, m: VoteRow, n: VoteRow, dm: int,
                     dn: int)
    requires TablesMoved(l, lm, m, dm) && TablesMoved(lm, lmn, n, dn)
    requires TablesMoved(l, ln, n, dn) && TablesMoved(ln, lnm, m, dm)
    ensures SameTables(lmn, lnm)
  {
    forall row
      ensures multiset(lmn.votes)[row] == multiset(lnm.votes)[row]
    {
    }
    forall id | id in lmn.answers
      ensures id in lnm.answers && lmn.answers[id] == lnm.answers[id]
    {
      assert lm.answers[id].agreeCount + (if id == n.targetId then dn else 0)
          == ln.answers[id].agreeCount + (if id == m.targetId then dm else 0);
    }
  }

  /** Messages for different answers or users leave the same tables in either order, except exactly
      when they compete for the last room in one answer's count. */
  lemma MessagesCommuteIff(l: Ledger, m: VoteMessage, n: VoteMessage)
    requires Inv(l) && (m.targetId, m.createdBy) != (n.targetId, n.createdBy)
    ensures SameTables(AfterMessage(AfterMessage(l, m), n), AfterMessage(AfterMessage(l, n), m)) <==> !Compete(l, m, n)
  {
    var lm, ln := AfterMessage(l, m), AfterMessage(l, n);
    var rowM, rowN := AnswerVote(m.targetId, m.createdBy), AnswerVote(n.targetId, n.createdBy);
    DeltaAfter(l, m, n);
    DeltaAfter(l, n, m);
    AfterMessageTables(l, m);
    AfterMessageTables(l, n);
    AfterMessageTables(lm, n);
    AfterMessageTables(ln, m);
    if Compete(l, m, n) {
      var row := if Want(l, m) == 1 then rowM else rowN;
      assert multiset(AfterMessage(lm, n).votes)[row] != multiset(AfterMessage(ln, m).votes)[row];
    } else {
      MovesCommute(l, lm, ln, AfterMessage(lm, n), AfterMessage(ln, m), rowM, rowN, Delta(l, m), Delta(l, n));
    }
  }
}
