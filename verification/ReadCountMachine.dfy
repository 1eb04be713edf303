/** Views, question edits and any number of flushers of crates/qa-svc/src/core/question.rs,
    interleaved at every database command. A run is any sequence of steps; a step that is not
    enabled changes nothing, and a flusher that fails or crashes simply stops. Both stores keep
    64-bit counters and refuse a write that would overflow one. */
module ReadCountMachine {
  import Decimal
  import opened Integers
  import opened ReadCounter
  import opened Wrappers

  /** A flusher: before a scan, working through a scanned batch, between its two writes for one
      field, finished, or stopped for good between the two writes. */
  datatype Flusher =
    | Scanning
    | Working(todo: seq<(string, int)>, next: u64)
    | Owing(id: i64, amount: int, rest: seq<(string, int)>, cursor: u64)
    | Finished
    | Abandoned(owedId: i64, owed: int)

  /** `increments` counts, per id, the increments made so far. */
  datatype System = System(tables: Tables, flushers: seq<Flusher>, increments: map<i64, nat>)

  datatype Step =
    | AddQuestion(createdBy: string)
    | DeleteQuestion(deletedId: u64, username: string)
    | Increment(viewedId: i64)
    | Spawn
    | Scan(s: nat, fields: seq<string>, next: u64)
    | WriteRow(w: nat)
    | WriteHash(h: nat)
    | EndBatch(e: nat)
    | Stop(x: nat)

  const INITIAL := System(Tables(map[], 1, map[]), [], map[])

  function Increments(s: System, id: i64): nat {
    if id in s.increments then s.increments[id] else 0
  }

  function Batch(hash: map<string, int>, fields: seq<string>): seq<(string, int)> {
    seq(|fields|, i requires 0 <= i < |fields| => (fields[i], Pending(hash, fields[i])))
  }

  function NextFlusher(f: Flusher, tables: Tables, step: Step): (Flusher, Tables) {
    match step
    case Scan(_, fields, next) =>
      if f.Scanning? && forall i :: 0 <= i < |fields| ==> fields[i] in tables.hash
      then (Working(Batch(tables.hash, fields), next), tables)
      else (f, tables)
    case WriteRow(_) =>
      if !f.Working? || f.todo == [] then (f, tables)
      else
        var id := Decimal.ParseI64(f.todo[0].0);
        if id.None? || id.value !in tables.questions then (Finished, tables)
        else if !InI64(tables.questions[id.value].readCount + f.todo[0].1) then (Finished, tables)
        else (Owing(id.value, f.todo[0].1, f.todo[1..], f.next),
              tables.(questions := AddToRow(tables.questions, id.value, f.todo[0].1)))
    case WriteHash(_) =>
      if !f.Owing? then (f, tables)
      else if !InI64(Pending(tables.hash, Field(f.id)) - f.amount) then (Abandoned(f.id, f.amount), tables)
      else (Working(f.rest, f.cursor), tables.(hash := Hincr(tables.hash, Field(f.id), -f.amount)))
    case EndBatch(_) =>
      if f.Working? && f.todo == [] then (if f.next == 0 then Finished else Scanning, tables) else (f, tables)
    case Stop(_) =>
      (if f.Owing? then Abandoned(f.id, f.amount) else if f.Abandoned? then f else Finished, tables)
    case _ => (f, tables)
  }

  /** The flusher a step belongs to. */
  function Who(step: Step): Option<nat> {
    match step
    case Scan(i, _, _) => Some(i)
    case WriteRow(i) => Some(i)
    case WriteHash(i) => Some(i)
    case EndBatch(i) => Some(i)
    case Stop(i) => Some(i)
    case _ => None
  }

  function DeleteQuestionRow(t: Tables, id: u64, username: string): Tables {
    if AsI64(id) in t.questions && t.questions[AsI64(id)].createdBy == username
    then t.(questions := t.questions - {AsI64(id)})
    else t
  }

  function Next(s: System, step: Step): System {
    match step
    case AddQuestion(createdBy) =>
      if !(1 <= s.tables.nextId <= I64_MAX) then s
      else s.(tables := s.tables.(questions := s.tables.questions[s.tables.nextId := Question(createdBy, 0)],
                                  nextId := s.tables.nextId + 1))
    case DeleteQuestion(id, username) => s.(tables := DeleteQuestionRow(s.tables, id, username))
    case Increment(id) =>
      if !(1 <= id < s.tables.nextId) || !InI64(Pending(s.tables.hash, Field(id)) + 1) then s
      else s.(tables := s.tables.(hash := Hincr(s.tables.hash, Field(id), 1)),
              increments := s.increments[id := Increments(s, id) + 1])
    case Spawn => s.(flushers := s.flushers + [Scanning])
    case _ =>
      var i := Who(step).value;
      if i >= |s.flushers| then s
      else
        var (f, tables) := NextFlusher(s.flushers[i], s.tables, step);
        s.(flushers := s.flushers[i := f], tables := tables)
  }

  function Run(s: System, steps: seq<Step>): System
    decreases |steps|
  {
    if steps == [] then s else Run(Next(s, steps[0]), steps[1..])
  }

  /** A new question has the next id and nothing read, and leaves everything else as it was. */
  lemma AddQuestionIsExact(s: System, createdBy: string)
    requires 1 <= s.tables.nextId
    ensures var t, t' := s.tables, Next(s, AddQuestion(createdBy)).tables;
            if t.nextId > I64_MAX then t' == t
            else
              && t'.hash == t.hash && t'.nextId == t.nextId + 1 && t'.questions.Keys == t.questions.Keys + {t.nextId}
              && t'.questions[t.nextId] == Question(createdBy, 0)
              && forall id :: id in t.questions && id != t.nextId ==> t'.questions[id] == t.questions[id]
  {
  }

  /** A deletion removes exactly the question with that id, and only for its author; its field stays. */
  lemma DeleteQuestionIsExact(s: System, id: u64, username: string)
    ensures var t, t' := s.tables, Next(s, DeleteQuestion(id, username)).tables;
            && t'.hash == t.hash && t'.nextId == t.nextId
            && (forall q :: q in t'.questions <==>
               q in t.questions && !(AsU64(q) == id && t.questions[q].createdBy == username))
            && forall q :: q in t'.questions ==> t'.questions[q] == t.questions[q]
  {
  }

  /** A flusher works its batch off in order: it ends a batch only when nothing is left of it, writes the
      field only of the row it has just raised, and scans only between batches. */
  lemma FlusherStepsInOrder(f: Flusher, tables: Tables, fields: seq<string>, next: u64, i: nat)
    ensures NextFlusher(f, tables, EndBatch(i)) != (f, tables) ==> f.Working? && f.todo == []
    ensures NextFlusher(f, tables, WriteHash(i)) != (f, tables) ==> f.Owing?
    ensures NextFlusher(f, tables, WriteRow(i)) != (f, tables) ==> f.Working? && f.todo != []
    ensures NextFlusher(f, tables, Scan(i, fields, next)) != (f, tables) ==>
              f.Scanning? && forall k :: 0 <= k < |fields| ==> fields[k] in tables.hash
  {
  }

  // Conservation

  /** What a flusher has added to the row of `id` and not yet taken from its field. */
  function OwedBy(f: Flusher, id: i64): int {
    match f
    case Owing(i, amount, _, _) => if i == id then amount else 0
    case Abandoned(i, amount) => if i == id then amount else 0
    case _ => 0
  }

  function Owed(flushers: seq<Flusher>, id: i64): int {
    if flushers == [] then 0 else OwedBy(flushers[0], id) + Owed(flushers[1..], id)
  }

  lemma {:induction false} OwedUpdate(flushers: seq<Flusher>, i: nat, f: Flusher, id: i64)
    requires i < |flushers|
    ensures Owed(flushers[i := f], id) == Owed(flushers, id) - OwedBy(flushers[i], id) + OwedBy(f, id)
  {
    if i > 0 {
      assert flushers[i := f][1..] == flushers[1..][i - 1 := f];
      OwedUpdate(flushers[1..], i - 1, f, id);
    } else {
      assert flushers[i := f][1..] == flushers[1..];
    }
  }

  lemma {:induction false} OwedAppend(flushers: seq<Flusher>, f: Flusher, id: i64)
    ensures Owed(flushers + [f], id) == Owed(flushers, id) + OwedBy(f, id)
  {
    if flushers == [] {
      assert flushers + [f] == [f];
    } else {
      assert (flushers + [f])[1..] == flushers[1..] + [f];
      OwedAppend(flushers[1..], f, id);
    }
  }

  /** Row plus field is increments plus what is owed. */
  predicate Balanced(s: System, id: i64) {
    id in s.tables.questions ==>
      s.tables.questions[id].readCount + Pending(s.tables.hash, Field(id)) == Increments(s, id) + Owed(s.flushers, id)
  }

  /** Nothing yet refers to `id`. */
  predicate Untouched(s: System, id: i64) {
    && id !in s.tables.questions && Pending(s.tables.hash, Field(id)) == 0
    && Increments(s, id) == 0 && Owed(s.flushers, id) == 0
  }

  ghost predicate Inv(s: System) {
    && 1 <= s.tables.nextId
    && (forall id: i64 :: Balanced(s, id))
    && (forall id: i64 :: id >= s.tables.nextId ==> Untouched(s, id))
    && (forall i :: 0 <= i < |s.flushers| && s.flushers[i].Owing? ==> s.flushers[i].id < s.tables.nextId)
  }

  lemma FieldsApart(a: i64, b: i64)
    ensures Field(a) == Field(b) ==> a == b
  {
    if Field(a) == Field(b) {
      Decimal.ToDecimalInjective(a, b);
    }
  }

  lemma IncrementKeepsInv(s: System, viewed: i64)
    requires Inv(s)
    ensures Inv(Next(s, Increment(viewed)))
  {
    var s' := Next(s, Increment(viewed));
    forall id: i64
      ensures Balanced(s', id) && (id >= s'.tables.nextId ==> Untouched(s', id))
    {
      assert Balanced(s, id) && (id >= s.tables.nextId ==> Untouched(s, id));
      FieldsApart(viewed, id);
    }
  }

  /** What one flusher's step moves between the row, the field and what it owes. */
  lemma FlusherMoves(f: Flusher, tables: Tables, step: Step, id: i64)
    ensures var (f', tables') := NextFlusher(f, tables, step);
            var pending, pending' := Pending(tables.hash, Field(id)), Pending(tables'.hash, Field(id));
            && tables'.nextId == tables.nextId && tables'.questions.Keys == tables.questions.Keys
            && (id in tables.questions ==>
                  tables'.questions[id].readCount + pending' - OwedBy(f', id) ==
                  tables.questions[id].readCount + pending - OwedBy(f, id))
            && (id !in tables.questions && !(f.Owing? && f.id == id) ==>
                  pending' == pending && OwedBy(f', id) == OwedBy(f, id))
  {
    if f.Owing? {
      FieldsApart(f.id, id);
    }
  }

  lemma FlusherKeepsQuestion(s: System, step: Step, id: i64)
    requires Who(step).Some? && Who(step).value < |s.flushers|
    requires Balanced(s, id) && (id >= s.tables.nextId ==> Untouched(s, id))
    requires var f := s.flushers[Who(step).value]; f.Owing? ==> f.id < s.tables.nextId
    ensures var s' := Next(s, step); Balanced(s', id) && (id >= s'.tables.nextId ==> Untouched(s', id))
  {
    var i := Who(step).value;
    var (f, tables) := NextFlusher(s.flushers[i], s.tables, step);
    OwedUpdate(s.flushers, i, f, id);
    FlusherMoves(s.flushers[i], s.tables, step, id);
    assert Next(s, step) == s.(flushers := s.flushers[i := f], tables := tables);
  }

  lemma FlusherKeepsInv(s: System, step: Step)
    requires Inv(s) && Who(step).Some?
    ensures Inv(Next(s, step))
  {
    var s', i := Next(s, step), Who(step).value;
    if i < |s.flushers| {
      forall id: i64
        ensures Balanced(s', id) && (id >= s'.tables.nextId ==> Untouched(s', id))
      {
        assert Balanced(s, id) && (id >= s.tables.nextId ==> Untouched(s, id));
        FlusherKeepsQuestion(s, step, id);
      }
      var f := s'.flushers[i];
      if f.Owing? && s.flushers[i].Working? {
        assert !Untouched(s, f.id);
      }
    }
  }

  lemma EditKeepsInv(s: System, step: Step)
    requires Inv(s) && (step.AddQuestion? || step.DeleteQuestion? || step.Spawn?)
    ensures Inv(Next(s, step))
  {
    var s' := Next(s, step);
    forall id: i64
      ensures Balanced(s', id) && (id >= s'.tables.nextId ==> Untouched(s', id))
    {
      assert Balanced(s, id) && (id >= s.tables.nextId ==> Untouched(s, id));
      OwedAppend(s.flushers, Scanning, id);
    }
  }

  lemma {:induction false} RunKeepsInv(s: System, steps: seq<Step>)
    requires Inv(s)
    ensures Inv(Run(s, steps))
    decreases |steps|
  {
    if steps != [] {
      if Who(steps[0]).Some? {
        FlusherKeepsInv(s, steps[0]);
      } else if steps[0].Increment? {
        IncrementKeepsInv(s, steps[0].viewedId);
      } else {
        EditKeepsInv(s, steps[0]);
      }
      RunKeepsInv(Next(s, steps[0]), steps[1..]);
    }
  }

  /** Conservation. Over every interleaving of views, question edits and any number of flushers
      working from stale or repeated scans, a live question's row and pending field together hold
      every increment made, plus what flushers have added to the row and still owe the field,
      including for ever what a crash abandoned. */
  lemma ReadsAreConserved(steps: seq<Step>, id: i64)
    ensures var s := Run(INITIAL, steps);
            id in s.tables.questions ==>
              s.tables.questions[id].readCount + Pending(s.tables.hash, Field(id)) ==
                  Increments(s, id) + Owed(s.flushers, id)
  {
    RunKeepsInv(INITIAL, steps);
    assert Balanced(Run(INITIAL, steps), id);
  }

  // The displayed count

  /** `question_detail`: the row as read earlier, then an increment whose reply is added; `None` when
      the store refuses the increment. The reply passes through a `u64` and the sum is shown as one. */
  function QuestionDetail(rowRead: Question, s: System, id: i64): Option<u64> {
    var value := Pending(s.tables.hash, Field(id)) + 1;
    if !InI64(value) then None
    else
      var reply := AsU64(value);
      Some(AsU64(Wrapped(rowRead.readCount + AsI64(reply))))
  }

  ghost predicate Fits(s: System) {
    && (forall id :: id in s.tables.questions ==> InI64(s.tables.questions[id].readCount))
    && (forall field :: field in s.tables.hash ==> InI64(s.tables.hash[field]))
    && (forall i :: 0 <= i < |s.flushers| ==> AmountsFit(s.flushers[i]))
  }

  ghost predicate AmountsFit(f: Flusher) {
    match f
    case Working(todo, _) => forall i :: 0 <= i < |todo| ==> InI64(todo[i].1)
    case Owing(_, amount, rest, _) => InI64(amount) && forall i :: 0 <= i < |rest| ==> InI64(rest[i].1)
    case _ => true
  }

  lemma NextFits(s: System, step: Step)
    requires Fits(s)
    ensures Fits(Next(s, step))
  {
    var i := Who(step);
    if i.Some? && i.value < |s.flushers| {
      assert AmountsFit(s.flushers[i.value]);
      assert AmountsFit(NextFlusher(s.flushers[i.value], s.tables, step).0);
    }
  }

  lemma {:induction false} RunFits(s: System, steps: seq<Step>)
    requires Fits(s)
    ensures Fits(Run(s, steps))
    decreases |steps|
  {
    if steps != [] {
      NextFits(s, steps[0]);
      RunFits(Next(s, steps[0]), steps[1..]);
    }
  }

  /** Whatever happened between the row read and the increment: a view fails exactly if its field is
      full, and otherwise shows the exact number of increments, its own included, plus what is owed,
      less what flushes moved into the row in between; only if that is negative is it shown as a
      `u64` near 2^64. */
  lemma DisplayedCount(before: seq<Step>, between: seq<Step>, id: i64)
    requires id in Run(INITIAL, before).tables.questions
    requires id in Run(Run(INITIAL, before), between).tables.questions
    ensures var s1 := Run(INITIAL, before);
            var s2 := Run(s1, between);
            var shown := QuestionDetail(s1.tables.questions[id], s2, id);
            var moved := s2.tables.questions[id].readCount - s1.tables.questions[id].readCount;
            var exact := Increments(Next(s2, Increment(id)), id) + Owed(s2.flushers, id) - moved;
            && (shown.None? <==> Pending(s2.tables.hash, Field(id)) == I64_MAX)
            && (shown.Some? ==>
                  && Increments(Next(s2, Increment(id)), id) == Increments(s2, id) + 1
                  && shown.value == if exact >= 0 then exact else exact + U64_MODULUS)
  {
    var s1 := Run(INITIAL, before);
    ViewCounts(before, between, id);
    ViewValue(s1.tables.questions[id], Run(s1, between), id);
  }

  ghost predicate Sound(s: System) {
    Inv(s) && Fits(s) && Positive(s)
  }

  lemma RunKeepsSound(s: System, steps: seq<Step>)
    requires Sound(s)
    ensures Sound(Run(s, steps))
  {
    RunKeepsInv(s, steps);
    RunFits(s, steps);
    StaysPositive(s, steps);
  }

  lemma LiveRow(s: System, id: i64)
    requires Sound(s) && id in s.tables.questions
    ensures 1 <= id < s.tables.nextId && InI64(s.tables.questions[id].readCount)
            && InI64(Pending(s.tables.hash, Field(id)))
    ensures s.tables.questions[id].readCount + Pending(s.tables.hash, Field(id)) ==
            Increments(s, id) + Owed(s.flushers, id)
  {
    assert Balanced(s, id) && (id >= s.tables.nextId ==> Untouched(s, id));
  }

  lemma ViewCounts(before: seq<Step>, between: seq<Step>, id: i64)
    requires id in Run(INITIAL, before).tables.questions
    requires id in Run(Run(INITIAL, before), between).tables.questions
    ensures var s := Run(Run(INITIAL, before), between);
            && InI64(Run(INITIAL, before).tables.questions[id].readCount) && InI64(Pending(s.tables.hash, Field(id)))
            && s.tables.questions[id].readCount + Pending(s.tables.hash, Field(id)) ==
               Increments(s, id) + Owed(s.flushers, id)
            && (Pending(s.tables.hash, Field(id)) < I64_MAX ==>
               Increments(Next(s, Increment(id)), id) == Increments(s, id) + 1)
  {
    RunKeepsSound(INITIAL, before);
    LiveRow(Run(INITIAL, before), id);
    RunKeepsSound(Run(INITIAL, before), between);
    LiveRow(Run(Run(INITIAL, before), between), id);
  }

  /** What a view shows, by its row and its field. */
  lemma ViewValue(rowRead: Question, s: System, id: i64)
    requires InI64(rowRead.readCount) && InI64(Pending(s.tables.hash, Field(id)))
    ensures var shown := QuestionDetail(rowRead, s, id);
            var sum := rowRead.readCount + Pending(s.tables.hash, Field(id)) + 1;
            && (shown.None? <==> Pending(s.tables.hash, Field(id)) == I64_MAX)
            && (shown.Some? ==> shown.value == if sum >= 0 then sum else sum + U64_MODULUS)
  {
    ShownSum(rowRead.readCount, Pending(s.tables.hash, Field(id)) + 1);
  }

  /** The casts on the way cancel out. */
  lemma ShownSum(row: int, value: int)
    requires InI64(row)
    ensures InI64(value) ==>
              AsU64(Wrapped(row + AsI64(AsU64(value)))) == if row + value >= 0 then row + value
                  else row + value + U64_MODULUS
  {
  }

  ghost predicate Positive(s: System) {
    1 <= s.tables.nextId && forall id :: id in s.tables.questions ==> id >= 1
  }

  lemma {:induction false} StaysPositive(s: System, steps: seq<Step>)
    requires Positive(s)
    ensures Positive(Run(s, steps))
    decreases |steps|
  {
    if steps != [] {
      StaysPositive(Next(s, steps[0]), steps[1..]);
    }
  }

  lemma {:induction false} IncrementsGrow(s: System, steps: seq<Step>, id: i64)
    ensures Increments(Run(s, steps), id) >= Increments(s, id)
    decreases |steps|
  {
    if steps != [] {
      IncrementsGrow(Next(s, steps[0]), steps[1..], id);
    }
  }

  /** A view whose row is read after `before` and whose increment comes after `during` as well, with
      no flush of the question overlapping it and room in the field. */
  predicate UndisturbedView(before: seq<Step>, during: seq<Step>, id: i64) {
    var s1 := Run(INITIAL, before);
    var s2 := Run(s1, during);
    && id in s1.tables.questions && id in s2.tables.questions
    && s2.tables.questions[id].readCount == s1.tables.questions[id].readCount && Owed(s2.flushers, id) == 0
    && InI64(Pending(s2.tables.hash, Field(id)) + 1)
  }

  function Shown(before: seq<Step>, during: seq<Step>, id: i64): u64
    requires UndisturbedView(before, during, id)
  {
    var s1 := Run(INITIAL, before);
    QuestionDetail(s1.tables.questions[id], Run(s1, during), id).value
  }

  /** Such views show the exact count, their own included, so a later one shows strictly more. */
  lemma LaterViewShowsMore(before: seq<Step>, during: seq<Step>, later: seq<Step>, laterDuring: seq<Step>, id: i64)
    requires UndisturbedView(before, during, id) && UndisturbedView(later, laterDuring, id)
    requires before + during + [Increment(id)] <= later
    ensures Shown(before, during, id) == Increments(Run(INITIAL, before + during + [Increment(id)]), id)
    ensures Shown(before, during, id) < Shown(later, laterDuring, id)
  {
    var first := before + during + [Increment(id)];
    var rest := later[|first|..];
    DisplayedCount(before, during, id);
    DisplayedCount(later, laterDuring, id);
    RunAppend(INITIAL, before, during);
    RunAppend(INITIAL, before + during, [Increment(id)]);
    RunOne(Run(INITIAL, before + during), Increment(id));
    assert later == first + rest;
    RunAppend(INITIAL, first, rest);
    IncrementsGrow(Run(INITIAL, first), rest, id);
    IncrementsGrow(Run(INITIAL, later), laterDuring, id);
  }

  lemma RunOne(s: System, step: Step)
    ensures Run(s, [step]) == Next(s, step)
  {
    assert [step][1..] == [];
  }

  lemma {:induction false} RunAppend(s: System, a: seq<Step>, b: seq<Step>)
    ensures Run(s, a + b) == Run(Run(s, a), b)
    decreases |a|
  {
    if a == [] {
      assert a + b == b;
    } else {
      assert (a + b)[1..] == a[1..] + b;
      RunAppend(Next(s, a[0]), a[1..], b);
    }
  }

  // What a field holds

  /** What a step takes out of the field of `id`. */
  function SubtractedBy(s: System, step: Step, id: i64): int {
    if step.WriteHash? && step.h < |s.flushers| && s.flushers[step.h].Owing? && s.flushers[step.h].id == id
       && InI64(Pending(s.tables.hash, Field(id)) - s.flushers[step.h].amount)
    then s.flushers[step.h].amount else 0
  }

  function Subtracted(s: System, steps: seq<Step>, id: i64): int
    decreases |steps|
  {
    if steps == [] then 0 else SubtractedBy(s, steps[0], id) + Subtracted(Next(s, steps[0]), steps[1..], id)
  }

  lemma NextField(s: System, step: Step, id: i64)
    ensures var s' := Next(s, step);
            Pending(s'.tables.hash, Field(id)) ==
            Pending(s.tables.hash, Field(id)) + Increments(s', id) - Increments(s, id) - SubtractedBy(s, step, id)
  {
    if step.Increment? {
      FieldsApart(step.viewedId, id);
    } else if step.WriteHash? && step.h < |s.flushers| && s.flushers[step.h].Owing? {
      FieldsApart(s.flushers[step.h].id, id);
    }
  }

  /** Over any steps a field gains what was incremented and loses what was subtracted. */
  lemma {:induction false} FieldAccount(s: System, steps: seq<Step>, id: i64)
    ensures var s' := Run(s, steps);
            Pending(s'.tables.hash, Field(id)) ==
            Pending(s.tables.hash, Field(id)) + Increments(s', id) - Increments(s, id) - Subtracted(s, steps, id)
    decreases |steps|
  {
    if steps != [] {
      NextField(s, steps[0], id);
      FieldAccount(Next(s, steps[0]), steps[1..], id);
    }
  }

  /** The step is a scan by flusher `i` that is answered. */
  predicate Scans(s: System, step: Step, i: nat) {
    && step.Scan? && step.s == i && i < |s.flushers| && s.flushers[i].Scanning?
    && forall k :: 0 <= k < |step.fields| ==> step.fields[k] in s.tables.hash
  }

  predicate Rescans(s: System, steps: seq<Step>, i: nat)
    decreases |steps|
  {
    steps != [] && (Scans(s, steps[0], i) || Rescans(Next(s, steps[0]), steps[1..], i))
  }

  /** All the flusher holds was read from `hash`. */
  ghost predicate ReadFrom(hash: map<string, int>, f: Flusher) {
    match f
    case Working(todo, _) => forall k :: 0 <= k < |todo| ==> todo[k].0 in hash && todo[k].1 == hash[todo[k].0]
    case Owing(id, amount, rest, _) =>
      && amount == Pending(hash, Field(id))
      && forall k :: 0 <= k < |rest| ==> rest[k].0 in hash && rest[k].1 == hash[rest[k].0]
    case _ => true
  }

  lemma {:induction false} HeldSinceScan(hash: map<string, int>, s: System, steps: seq<Step>, i: nat)
    requires CanonicalFields(hash) && i < |s.flushers| && ReadFrom(hash, s.flushers[i]) && !Rescans(s, steps, i)
    ensures i < |Run(s, steps).flushers| && ReadFrom(hash, Run(s, steps).flushers[i])
    decreases |steps|
  {
    if steps != [] {
      var f := s.flushers[i];
      if f.Working? && f.todo != [] {
        assert f.todo[0].0 in hash;
      }
      assert Who(steps[0]) == Some(i) ==> ReadFrom(hash, NextFlusher(f, s.tables, steps[0]).0);
      HeldSinceScan(hash, Next(s, steps[0]), steps[1..], i);
    }
  }

  /** The step is a hash write of more than its field holds. */
  predicate OverdrawsNow(s: System, step: Step) {
    && step.WriteHash? && step.h < |s.flushers| && s.flushers[step.h].Owing?
    && s.flushers[step.h].amount > Pending(s.tables.hash, Field(s.flushers[step.h].id))
  }

  /** What a hash write leaves is what was incremented since its scan, less what others subtracted since
      then. So it overdraws its field exactly if, since its scan, more was subtracted than incremented:
      by a flusher that overlaps it, or by its own batch listing the field twice. */
  lemma HashWriteLeaves(before: seq<Step>, scan: Step, between: seq<Step>, i: nat)
    requires Scans(Run(INITIAL, before), scan, i)
    requires !Rescans(Next(Run(INITIAL, before), scan), between, i)
    requires var f := Run(Next(Run(INITIAL, before), scan), between).flushers; i < |f| && f[i].Owing?
    ensures var s1 := Next(Run(INITIAL, before), scan);
            var s2 := Run(s1, between);
            var id := s2.flushers[i].id;
            var left := Increments(s2, id) - Increments(s1, id) - Subtracted(s1, between, id);
            && (OverdrawsNow(s2, WriteHash(i)) <==>
               Subtracted(s1, between, id) > Increments(s2, id) - Increments(s1, id))
            && Pending(Next(s2, WriteHash(i)).tables.hash, Field(id)) ==
               if InI64(left) then left else Pending(s2.tables.hash, Field(id))
  {
    var s0 := Run(INITIAL, before);
    var s1 := Next(s0, scan);
    var s2 := Run(s1, between);
    ReadAtScan(before, scan, between, i);
    FieldAccount(s1, between, s2.flushers[i].id);
    WriteLeaves(s2, i);
  }

  /** A flusher owes what its field held when it scanned. */
  lemma ReadAtScan(before: seq<Step>, scan: Step, between: seq<Step>, i: nat)
    requires Scans(Run(INITIAL, before), scan, i)
    requires !Rescans(Next(Run(INITIAL, before), scan), between, i)
    requires var f := Run(Next(Run(INITIAL, before), scan), between).flushers; i < |f| && f[i].Owing?
    ensures var s1 := Next(Run(INITIAL, before), scan);
            var f := Run(s1, between).flushers[i];
            f.amount == Pending(s1.tables.hash, Field(f.id))
  {
    var s0 := Run(INITIAL, before);
    FieldsAreCanonical(INITIAL, before);
    HeldSinceScan(s0.tables.hash, Next(s0, scan), between, i);
  }

  lemma WriteLeaves(s: System, i: nat)
    requires i < |s.flushers| && s.flushers[i].Owing?
    ensures var id := s.flushers[i].id;
            var left := Pending(s.tables.hash, Field(id)) - s.flushers[i].amount;
            Pending(Next(s, WriteHash(i)).tables.hash, Field(id)) == if InI64(left) then left
                else Pending(s.tables.hash, Field(id))
  {
  }

  predicate Overdraws(s: System, steps: seq<Step>)
    decreases |steps|
  {
    steps != [] && (OverdrawsNow(s, steps[0]) || Overdraws(Next(s, steps[0]), steps[1..]))
  }

  predicate NonNegative(hash: map<string, int>) {
    forall field :: field in hash ==> hash[field] >= 0
  }

  predicate StaysNonNegative(s: System, steps: seq<Step>)
    decreases |steps|
  {
    NonNegative(s.tables.hash) && (steps == [] || StaysNonNegative(Next(s, steps[0]), steps[1..]))
  }

  lemma NextNonNegativeIff(s: System, step: Step)
    requires Fits(s) && NonNegative(s.tables.hash)
    ensures NonNegative(Next(s, step).tables.hash) <==> !OverdrawsNow(s, step)
  {
    if step.WriteHash? && step.h < |s.flushers| && s.flushers[step.h].Owing? {
      assert AmountsFit(s.flushers[step.h]);
      var id := s.flushers[step.h].id;
      if OverdrawsNow(s, step) {
        assert Next(s, step).tables.hash[Field(id)] < 0;
      }
    }
  }

  /** Pending counts never go negative in a run exactly if none of its hash writes overdraws. */
  lemma {:induction false} NeverNegativeIff(s: System, steps: seq<Step>)
    requires Fits(s) && NonNegative(s.tables.hash)
    ensures StaysNonNegative(s, steps) <==> !Overdraws(s, steps)
    decreases |steps|
  {
    if steps != [] {
      NextNonNegativeIff(s, steps[0]);
      NextFits(s, steps[0]);
      if !OverdrawsNow(s, steps[0]) {
        NeverNegativeIff(Next(s, steps[0]), steps[1..]);
      }
    }
  }

  /** In every run a field is negative exactly if more was subtracted from it than was ever incremented. */
  lemma FieldNegativeIff(steps: seq<Step>, id: i64)
    ensures Pending(Run(INITIAL, steps).tables.hash, Field(id)) < 0 <==>
            Subtracted(INITIAL, steps, id) > Increments(Run(INITIAL, steps), id)
  {
    FieldAccount(INITIAL, steps, id);
  }

  // One flusher at a time

  predicate Over(f: Flusher) {
    f.Finished? || f.Abandoned?
  }

  /** Flushers do not overlap and no scan lists a field twice. */
  predicate OneAtATime(s: System, steps: seq<Step>)
    decreases |steps|
  {
    steps == [] ||
    (&& (steps[0].Spawn? ==> forall i :: 0 <= i < |s.flushers| ==> Over(s.flushers[i]))
     && (steps[0].Scan? ==> forall i, j :: 0 <= i < j < |steps[0].fields| ==> steps[0].fields[i] != steps[0].fields[j])
     && OneAtATime(Next(s, steps[0]), steps[1..]))
  }

  /** The remaining entries name different fields, each written canonically and holding at least its
      amount. */
  ghost predicate Covered(hash: map<string, int>, todo: seq<(string, int)>) {
    && (forall i, j :: 0 <= i < j < |todo| ==> todo[i].0 != todo[j].0)
    && forall i :: 0 <= i < |todo| ==> 0 <= todo[i].1 <= Pending(hash, todo[i].0)
  }

  ghost predicate FlusherCovered(hash: map<string, int>, f: Flusher) {
    match f
    case Working(todo, _) => Covered(hash, todo)
    case Owing(id, amount, rest, _) =>
      && Covered(hash, rest) && 0 <= amount <= Pending(hash, Field(id))
      && forall i :: 0 <= i < |rest| ==> rest[i].0 != Field(id)
    case _ => true
  }

  predicate CanonicalFields(hash: map<string, int>) {
    forall field :: field in hash ==>
      var id := Decimal.ParseI64(field);
      id.Some? && field == Field(id.value)
  }

  lemma HincrCanonical(hash: map<string, int>, id: i64, amount: int)
    requires CanonicalFields(hash)
    ensures CanonicalFields(Hincr(hash, Field(id), amount))
  {
    Decimal.ParseRoundTrip(id);
  }

  lemma FlusherCanonical(f: Flusher, tables: Tables, step: Step)
    requires CanonicalFields(tables.hash)
    ensures CanonicalFields(NextFlusher(f, tables, step).1.hash)
  {
    if step.WriteHash? && f.Owing? {
      HincrCanonical(tables.hash, f.id, -f.amount);
    }
  }

  lemma NextCanonical(s: System, step: Step)
    requires CanonicalFields(s.tables.hash)
    ensures CanonicalFields(Next(s, step).tables.hash)
  {
    var i := Who(step);
    if step.Increment? {
      HincrCanonical(s.tables.hash, step.viewedId, 1);
    } else if i.Some? && i.value < |s.flushers| {
      FlusherCanonical(s.flushers[i.value], s.tables, step);
    }
  }

  /** Every field of the hash, in every run, is written the way `incr` writes it: what scans list
      always names an id, and canonically, as ReadCounter.FlushDrains asks of them. */
  lemma {:induction false} FieldsAreCanonical(s: System, steps: seq<Step>)
    requires CanonicalFields(s.tables.hash)
    ensures CanonicalFields(Run(s, steps).tables.hash)
    decreases |steps|
  {
    if steps != [] {
      NextCanonical(s, steps[0]);
      FieldsAreCanonical(Next(s, steps[0]), steps[1..]);
    }
  }

  ghost predicate FieldsNamed(hash: map<string, int>, f: Flusher) {
    match f
    case Working(todo, _) => forall i :: 0 <= i < |todo| ==> todo[i].0 in hash
    case Owing(id, _, rest, _) => Field(id) in hash && forall i :: 0 <= i < |rest| ==> rest[i].0 in hash
    case _ => true
  }

  ghost predicate SoloInv(s: System) {
    && CanonicalFields(s.tables.hash)
    && (forall field :: field in s.tables.hash ==> s.tables.hash[field] >= 0)
    && (forall i :: 0 <= i < |s.flushers| - 1 ==> Over(s.flushers[i]))
    && (forall i :: 0 <= i < |s.flushers| ==>
          FlusherCovered(s.tables.hash, s.flushers[i]) && FieldsNamed(s.tables.hash, s.flushers[i]))
  }

  lemma IncrementKeepsSolo(s: System, id: i64)
    requires SoloInv(s)
    ensures SoloInv(Next(s, Increment(id)))
  {
    Decimal.ParseRoundTrip(id);
    var s' := Next(s, Increment(id));
    assert forall field :: Pending(s'.tables.hash, field) >= Pending(s.tables.hash, field);
    forall i | 0 <= i < |s'.flushers|
      ensures FlusherCovered(s'.tables.hash, s'.flushers[i]) && FieldsNamed(s'.tables.hash, s'.flushers[i])
    {
      assert FlusherCovered(s.tables.hash, s.flushers[i]) && FieldsNamed(s.tables.hash, s.flushers[i]);
    }
  }

  lemma ScanCovers(hash: map<string, int>, fields: seq<string>)
    requires forall field :: field in hash ==> hash[field] >= 0
    requires forall i, j :: 0 <= i < j < |fields| ==> fields[i] != fields[j]
    ensures Covered(hash, Batch(hash, fields))
  {
  }

  /** The fields of the hash and what one flusher holds of them, under one flusher at a time. */
  ghost predicate SoloTables(hash: map<string, int>, f: Flusher) {
    && CanonicalFields(hash) && (forall field :: field in hash ==> hash[field] >= 0)
    && FlusherCovered(hash, f) && FieldsNamed(hash, f)
  }

  lemma RowWriteStaysCovered(f: Flusher, tables: Tables, w: nat)
    requires SoloTables(tables.hash, f)
    ensures var (f', tables') := NextFlusher(f, tables, WriteRow(w)); SoloTables(tables'.hash, f')
  {
    if f.Working? && f.todo != [] {
      assert f.todo[0].0 in tables.hash;
    }
  }

  lemma OthersStayCovered(hash: map<string, int>, rest: seq<(string, int)>, field: string, amount: int)
    requires Covered(hash, rest) && forall i :: 0 <= i < |rest| ==> rest[i].0 != field
    ensures Covered(Hincr(hash, field, amount), rest)
  {
  }

  lemma HashWriteStaysCovered(f: Flusher, tables: Tables, h: nat)
    requires SoloTables(tables.hash, f)
    ensures var (f', tables') := NextFlusher(f, tables, WriteHash(h)); SoloTables(tables'.hash, f')
  {
    if f.Owing? {
      OthersStayCovered(tables.hash, f.rest, Field(f.id), -f.amount);
      HincrCanonical(tables.hash, f.id, -f.amount);
    }
  }

  /** One flusher's step on its own entries. */
  lemma FlusherStaysCovered(f: Flusher, tables: Tables, step: Step)
    requires SoloTables(tables.hash, f)
    requires step.Scan? ==> forall i, j :: 0 <= i < j < |step.fields| ==> step.fields[i] != step.fields[j]
    ensures var (f', tables') := NextFlusher(f, tables, step);
            SoloTables(tables'.hash, f') && (Over(f) ==> f' == f && tables' == tables)
  {
    match step
    case Scan(_, fields, _) =>
      ScanCovers(tables.hash, fields);
    case WriteRow(w) =>
      RowWriteStaysCovered(f, tables, w);
    case WriteHash(h) =>
      HashWriteStaysCovered(f, tables, h);
    case _ =>
  }

  lemma FlusherKeepsSolo(s: System, step: Step)
    requires SoloInv(s) && Who(step).Some?
    requires step.Scan? ==> forall i, j :: 0 <= i < j < |step.fields| ==> step.fields[i] != step.fields[j]
    ensures SoloInv(Next(s, step))
  {
    var s', i := Next(s, step), Who(step).value;
    if i < |s.flushers| {
      FlusherStaysCovered(s.flushers[i], s.tables, step);
      forall j | 0 <= j < |s'.flushers| && j != i
        ensures FlusherCovered(s'.tables.hash, s'.flushers[j]) && FieldsNamed(s'.tables.hash, s'.flushers[j])
      {
        assert i < |s.flushers| - 1 ==> Over(s.flushers[i]);
        assert FlusherCovered(s.tables.hash, s.flushers[j]) && FieldsNamed(s.tables.hash, s.flushers[j]);
      }
    }
  }

  lemma {:induction false} SoloStaysNonNegative(s: System, steps: seq<Step>)
    requires SoloInv(s) && OneAtATime(s, steps)
    ensures StaysNonNegative(s, steps)
    decreases |steps|
  {
    if steps != [] {
      if Who(steps[0]).Some? {
        FlusherKeepsSolo(s, steps[0]);
      } else if steps[0].Increment? {
        IncrementKeepsSolo(s, steps[0].viewedId);
      } else {
        assert SoloInv(Next(s, steps[0]));
      }
      SoloStaysNonNegative(Next(s, steps[0]), steps[1..]);
    }
  }

  /** As long as flushers do not overlap and no scan lists a field twice, even if flushers crash between
      their writes, no hash write overdraws and no pending count is ever negative. */
  lemma OneAtATimeNeverOverdraws(steps: seq<Step>)
    requires OneAtATime(INITIAL, steps)
    ensures !Overdraws(INITIAL, steps) && StaysNonNegative(INITIAL, steps)
  {
    SoloStaysNonNegative(INITIAL, steps);
    NeverNegativeIff(INITIAL, steps);
  }

  lemma {:induction false} RunThrough(steps: seq<Step>, states: seq<System>)
    requires |states| == |steps| + 1
    requires forall i :: 0 <= i < |steps| ==> states[i + 1] == Next(states[i], steps[i])
    ensures Run(states[0], steps) == states[|steps|]
    decreases |steps|
  {
    if steps != [] {
      RunThrough(steps[1..], states[1..]);
    }
  }

  /** The first value of a serial column. */
  const FIRST: i64 := 1

  /** Question `id` with two increments, `rows` of them written to its row and `pending` in its field. */
  function TwoViews(id: i64, rows: int, pending: int, flushers: seq<Flusher>): System {
    System(Tables(map[id := Question("", rows)], 2, map[Field(id) := pending]), flushers, map[id := 2])
  }

  lemma TwoIncrements() returns (steps: seq<Step>)
    ensures Run(INITIAL, steps) == TwoViews(FIRST, 0, 2, [])
  {
    var f := Field(FIRST);
    var q := map[FIRST := Question("", 0)];
    steps := [AddQuestion(""), Increment(FIRST), Increment(FIRST)];
    RunThrough(steps, [INITIAL, System(Tables(q, 2, map[]), [], map[]),
                       System(Tables(q, 2, map[f := 1]), [], map[FIRST := 1]), TwoViews(FIRST, 0, 2, [])]);
  }

  /** The flusher at index `i` makes its two writes for the first field it scanned. */
  lemma TwoWrites(id: i64, rows: int, pending: int, flushers: seq<Flusher>, i: nat, rest: seq<(string, int)>)
    returns (steps: seq<Step>)
    requires i < |flushers| && flushers[i] == Working([(Field(id), 2)] + rest, 0)
    requires 0 <= rows <= 2 && 0 <= pending <= 2
    ensures Run(TwoViews(id, rows, pending, flushers), steps) ==
            TwoViews(id, rows + 2, pending - 2, flushers[i := Working(rest, 0)])
  {
    Decimal.ParseRoundTrip(id);
    assert flushers[i].todo[1..] == rest;
    var owing := flushers[i := Owing(id, 2, rest, 0)];
    assert owing[i := Working(rest, 0)] == flushers[i := Working(rest, 0)];
    steps := [WriteRow(i), WriteHash(i)];
    RunThrough(steps, [TwoViews(id, rows, pending, flushers), TwoViews(id, rows + 2, pending, owing),
                       TwoViews(id, rows + 2, pending - 2, flushers[i := Working(rest, 0)])]);
  }

  lemma RunThen(s0: System, a: seq<Step>, s: System, b: seq<Step>, s': System)
    requires Run(s0, a) == s && Run(s, b) == s'
    ensures Run(s0, a + b) == s'
  {
    RunAppend(s0, a, b);
  }

  /** Two flushers scan the two increments before either has written. */
  lemma OverlappingScans(id: i64) returns (steps: seq<Step>)
    ensures var batch := Working([(Field(id), 2)], 0);
            Run(TwoViews(id, 0, 2, []), steps) == TwoViews(id, 0, 2, [batch, batch])
  {
    var batch := Working([(Field(id), 2)], 0);
    assert Batch(map[Field(id) := 2], [Field(id)]) == [(Field(id), 2)];
    steps := [Spawn, Spawn, Scan(0, [Field(id)], 0), Scan(1, [Field(id)], 0)];
    RunThrough(steps, [TwoViews(id, 0, 2, []), TwoViews(id, 0, 2, [Scanning]), TwoViews(id, 0, 2, [Scanning, Scanning]),
                       TwoViews(id, 0, 2, [batch, Scanning]), TwoViews(id, 0, 2, [batch, batch])]);
  }

  /** One flusher's scan lists the field twice. */
  lemma RepeatingScan(id: i64) returns (steps: seq<Step>)
    ensures Run(TwoViews(id, 0, 2, []), steps) == TwoViews(id, 0, 2, [Working([(Field(id), 2), (Field(id), 2)], 0)])
  {
    var batch := [(Field(id), 2), (Field(id), 2)];
    assert Batch(map[Field(id) := 2], [Field(id), Field(id)]) == batch;
    steps := [Spawn, Scan(0, [Field(id), Field(id)], 0)];
    RunThrough(steps,
        [TwoViews(id, 0, 2, []), TwoViews(id, 0, 2, [Scanning]), TwoViews(id, 0, 2, [Working(batch, 0)])]);
  }

  /** The field is at -2 although no increment is lost: a view that reads its row now is exact, one that
      read it before the flush shows 2^64 - 1. */
  ghost predicate ShowsNonsense(id: i64, before: seq<Step>, between: seq<Step>) {
    var s1 := Run(INITIAL, before);
    var s2 := Run(s1, between);
    && Pending(s2.tables.hash, Field(id)) == -2 && Increments(s2, id) == 2
    && id in s1.tables.questions && id in s2.tables.questions
    && QuestionDetail(s2.tables.questions[id], s2, id) == Some(3)
    && QuestionDetail(s1.tables.questions[id], s2, id) == Some(U64_MODULUS - 1)
  }

  lemma NonsenseShown(flushers: seq<Flusher>, before: seq<Step>, between: seq<Step>)
    requires Run(INITIAL, before) == TwoViews(FIRST, 0, 2, [])
    requires Run(TwoViews(FIRST, 0, 2, []), between) == TwoViews(FIRST, 4, -2, flushers)
    ensures ShowsNonsense(FIRST, before, between)
  {
    var s := TwoViews(FIRST, 4, -2, flushers);
    assert FIRST in s.increments && Field(FIRST) in s.tables.hash;
    ShownSum(4, -1);
    ShownSum(0, -1);
  }

  /** Two turns of writes after the run so far. */
  lemma WrittenTwice(scans: seq<Step>, first: seq<Step>, second: seq<Step>, a: seq<Flusher>, b: seq<Flusher>,
                     c: seq<Flusher>)
    requires Run(TwoViews(FIRST, 0, 2, []), scans) == TwoViews(FIRST, 0, 2, a)
    requires Run(TwoViews(FIRST, 0, 2, a), first) == TwoViews(FIRST, 2, 0, b)
    requires Run(TwoViews(FIRST, 2, 0, b), second) == TwoViews(FIRST, 4, -2, c)
    ensures Run(TwoViews(FIRST, 0, 2, []), scans + first + second) == TwoViews(FIRST, 4, -2, c)
  {
    RunThen(TwoViews(FIRST, 0, 2, []), scans, TwoViews(FIRST, 0, 2, a), first, TwoViews(FIRST, 2, 0, b));
    RunThen(TwoViews(FIRST, 0, 2, []), scans + first, TwoViews(FIRST, 2, 0, b), second, TwoViews(FIRST, 4, -2, c));
  }

  lemma WritesTwice(scans: seq<Step>, a: seq<Flusher>, i: nat, j: nat, rest: seq<(string, int)>, b: seq<Flusher>)
    returns (steps: seq<Step>, c: seq<Flusher>)
    requires Run(TwoViews(FIRST, 0, 2, []), scans) == TwoViews(FIRST, 0, 2, a)
    requires i < |a| && a[i] == Working([(Field(FIRST), 2)] + rest, 0)
    requires b == a[i := Working(rest, 0)] && j < |b| && b[j] == Working([(Field(FIRST), 2)] + [], 0)
    ensures Run(TwoViews(FIRST, 0, 2, []), steps) == TwoViews(FIRST, 4, -2, c)
  {
    var first := TwoWrites(FIRST, 0, 2, a, i, rest);
    var second := TwoWrites(FIRST, 2, 0, b, j, []);
    c := b[j := Working([], 0)];
    WrittenTwice(scans, first, second, a, b, c);
    steps := scans + first + second;
  }

  /** Two overlapping flushers that scan the same two increments subtract them twice. */
  lemma OverlappingFlushersGoNegative() returns (before: seq<Step>, between: seq<Step>)
    ensures ShowsNonsense(FIRST, before, between)
  {
    var batch, done := Working([(Field(FIRST), 2)], 0), Working([], 0);
    assert [(Field(FIRST), 2)] + [] == [(Field(FIRST), 2)];
    before := TwoIncrements();
    var scans := OverlappingScans(FIRST);
    var flushers: seq<Flusher>;
    between, flushers := WritesTwice(scans, [batch, batch], 0, 1, [], [batch, batch][0 := done]);
    NonsenseShown(flushers, before, between);
  }

  /** So does a single flusher whose scan lists the field twice. */
  lemma RepeatedFieldGoesNegative() returns (before: seq<Step>, between: seq<Step>)
    ensures ShowsNonsense(FIRST, before, between)
  {
    var entry := (Field(FIRST), 2);
    var twice, once := Working([entry, entry], 0), Working([entry], 0);
    assert [entry] + [entry] == [entry, entry] && [entry] + [] == [entry];
    before := TwoIncrements();
    var scan := RepeatingScan(FIRST);
    var flushers: seq<Flusher>;
    between, flushers := WritesTwice(scan, [twice], 0, 0, [entry], [twice][0 := once]);
    NonsenseShown(flushers, before, between);
  }

  /** The field of a deleted question is left in the hash, and every flush whose first page lists it
      fails. */
  lemma LeftoverFieldStopsFlushes() returns (steps: seq<Step>)
    ensures var t := Run(INITIAL, steps).tables;
            && Field(FIRST) in t.hash && FIRST !in t.questions
            && forall pages: seq<Page> ::
                 pages != [] && (exists k :: 0 <= k < |pages[0].turns| && pages[0].turns[k].field == Field(FIRST)) ==>
                 Flush(t, pages).1 == Failed
  {
    steps := [AddQuestion(""), Increment(FIRST), DeleteQuestion(AsU64(FIRST), "")];
    var t1, t2 := Tables(map[FIRST := Question("", 0)], 2, map[]),
        Tables(map[FIRST := Question("", 0)], 2, map[Field(FIRST) := 1]);
    RunThrough(steps, [INITIAL, System(t1, [], map[]), System(t2, [], map[FIRST := 1]),
                       System(t2.(questions := map[]), [], map[FIRST := 1])]);
    var t := Run(INITIAL, steps).tables;
    Decimal.ParseRoundTrip(FIRST);
    forall pages: seq<Page>, k | pages != [] && 0 <= k < |pages[0].turns| && pages[0].turns[k].field == Field(FIRST)
      ensures Flush(t, pages).1 == Failed
    {
      FlushCompletesIff(t, pages);
      assert !Succeeds(t.questions, pages[0].turns[k]);
    }
  }

  // The repository's flush refines the machine

  /** The id an increment's field names. */
  function IdOf(field: string): i64 {
    var id := Decimal.ParseI64(field);
    if id.Some? then id.value else 0
  }

  /** The stores accept these increments, one after another. */
  predicate Accepted(t: Tables, fields: seq<string>)
    decreases |fields|
  {
    fields == [] ||
    (&& fields[0] == Field(IdOf(fields[0])) && 1 <= IdOf(fields[0]) < t.nextId
     && InI64(Pending(t.hash, fields[0]) + 1)
     && Accepted(t.(hash := Hincr(t.hash, fields[0], 1)), fields[1..]))
  }

  function IncrementSteps(fields: seq<string>): seq<Step> {
    seq(|fields|, k requires 0 <= k < |fields| => Increment(IdOf(fields[k])))
  }

  lemma {:induction false} ArrivalsRefine(s: System, fields: seq<string>)
    requires Accepted(s.tables, fields)
    ensures var s' := Run(s, IncrementSteps(fields));
            s'.tables == s.tables.(hash := HincrAll(s.tables.hash, fields)) && s'.flushers == s.flushers
    decreases |fields|
  {
    if fields != [] {
      assert IncrementSteps(fields)[1..] == IncrementSteps(fields[1..]);
      ArrivalsRefine(Next(s, Increment(IdOf(fields[0]))), fields[1..]);
    }
  }

  /** The turn with a write that overflows a counter as its fault. */
  function Effective(t: Tables, turn: Turn, amount: int): Turn {
    if !NamesLive(t.questions, turn.field) then turn
    else
      var id := Decimal.ParseI64(turn.field).value;
      if !InI64(t.questions[id].readCount + amount) then turn.(fault := Some(RowWrite))
      else if turn.fault != Some(RowWrite) && !InI64(Pending(t.hash, Field(id)) - amount)
          then turn.(fault := Some(HashWrite))
      else turn
  }

  /** The writes of one turn; where they fail the flusher stops. */
  function WriteSteps(i: nat, fault: Option<Write>): seq<Step> {
    match fault
    case None => [WriteRow(i), WriteHash(i)]
    case Some(RowWrite) => [Stop(i)]
    case Some(HashWrite) => [WriteRow(i), Stop(i)]
    case Some(HashReply) => [WriteRow(i), WriteHash(i), Stop(i)]
  }

  lemma RunUpToThree(s: System, steps: seq<Step>)
    ensures |steps| == 1 ==> Run(s, steps) == Next(s, steps[0])
    ensures |steps| == 2 ==> Run(s, steps) == Next(Next(s, steps[0]), steps[1])
    ensures |steps| == 3 ==> Run(s, steps) == Next(Next(Next(s, steps[0]), steps[1]), steps[2])
    decreases |steps|
  {
    if |steps| == 3 {
      RunUpToThree(Next(s, steps[0]), steps[1..]);
    } else if |steps| == 2 {
      RunOne(Next(s, steps[0]), steps[1]);
      assert steps[1..] == [steps[1]];
    } else if |steps| == 1 {
      assert steps[1..] == [];
    }
  }

  lemma WriteRowRefines(s: System, i: nat, field: string, amount: int, rest: seq<(string, int)>, next: u64)
    requires i < |s.flushers| && s.flushers[i] == Working([(field, amount)] + rest, next)
    ensures var s', id := Next(s, WriteRow(i)), IdOf(field);
            if NamesLive(s.tables.questions, field) && InI64(s.tables.questions[id].readCount + amount)
            then s' == s.(flushers := s.flushers[i := Owing(id, amount, rest, next)],
                          tables := s.tables.(questions := AddToRow(s.tables.questions, id, amount)))
            else s' == s.(flushers := s.flushers[i := Finished])
  {
    assert s.flushers[i].todo[1..] == rest;
  }

  lemma WriteHashRefines(s: System, i: nat, id: i64, amount: int, rest: seq<(string, int)>, next: u64)
    requires i < |s.flushers| && s.flushers[i] == Owing(id, amount, rest, next)
    ensures var s' := Next(s, WriteHash(i));
            if InI64(Pending(s.tables.hash, Field(id)) - amount)
            then s' == s.(flushers := s.flushers[i := Working(rest, next)],
                          tables := s.tables.(hash := Hincr(s.tables.hash, Field(id), -amount)))
            else s' == s.(flushers := s.flushers[i := Abandoned(id, amount)])
  {
  }

  lemma StopRefines(s: System, i: nat)
    requires i < |s.flushers|
    ensures var s' := Next(s, Stop(i));
            s'.tables == s.tables && |s'.flushers| == |s.flushers| && Over(s'.flushers[i])
  {
  }

  /** Nothing is left to do for a flusher that is over. */
  lemma OverRefines(s: System, i: nat)
    requires i < |s.flushers| && Over(s.flushers[i])
    ensures Next(s, WriteHash(i)).tables == s.tables
    ensures |Next(s, WriteHash(i)).flushers| == |s.flushers| && Over(Next(s, WriteHash(i)).flushers[i])
  {
  }

  /** What a turn without arrivals flushes, by its writes. */
  lemma FlushTurnEffective(t: Tables, turn: Turn, amount: int)
    requires turn.arrivals == []
    ensures var flushed, id := FlushTurn(t, Effective(t, turn, amount), amount), IdOf(turn.field);
            if !NamesLive(t.questions, turn.field) || turn.fault == Some(RowWrite)
                || !InI64(t.questions[id].readCount + amount)
            then flushed == (t, false)
            else
              var raised := t.(questions := AddToRow(t.questions, id, amount));
              if turn.fault == Some(HashWrite) || !InI64(Pending(t.hash, Field(id)) - amount)
                  then flushed == (raised, false)
              else flushed == (raised.(hash := Hincr(t.hash, Field(id), -amount)), turn.fault.None?)
  {
    assert turn.fault.None? || turn.fault.value.RowWrite? || turn.fault.value.HashWrite? || turn.fault.value.HashReply?;
  }

  lemma WritesRefine(s: System, i: nat, turn: Turn, amount: int, rest: seq<(string, int)>, next: u64)
    requires i < |s.flushers| && s.flushers[i] == Working([(turn.field, amount)] + rest, next)
    requires turn.arrivals == []
    ensures var s' := Run(s, WriteSteps(i, turn.fault));
            var flushed := FlushTurn(s.tables, Effective(s.tables, turn, amount), amount);
            && s'.tables == flushed.0 && |s'.flushers| == |s.flushers|
            && (if flushed.1 then s'.flushers[i] == Working(rest, next) else Over(s'.flushers[i]))
  {
    RunUpToThree(s, WriteSteps(i, turn.fault));
    FlushTurnEffective(s.tables, turn, amount);
    if turn.fault == Some(RowWrite) {
      StopRefines(s, i);
    } else {
      var s1 := Next(s, WriteRow(i));
      var s2 := Next(s1, WriteHash(i));
      WriteRowRefines(s, i, turn.field, amount, rest, next);
      if s1.flushers[i].Owing? {
        WriteHashRefines(s1, i, IdOf(turn.field), amount, rest, next);
      } else {
        OverRefines(s1, i);
      }
      StopRefines(s1, i);
      StopRefines(s2, i);
      assert turn.fault.None? || turn.fault.value.HashWrite? || turn.fault.value.HashReply?;
    }
  }

  /** Every step is an increment or one of flusher `i`. */
  predicate Own(i: nat, steps: seq<Step>) {
    forall k :: 0 <= k < |steps| ==> steps[k].Increment? || Who(steps[k]) == Some(i)
  }

  function TurnSteps(i: nat, turn: Turn): seq<Step> {
    IncrementSteps(turn.arrivals) + WriteSteps(i, turn.fault)
  }

  lemma ArrivalsFirst(t: Tables, turn: Turn, amount: int)
    ensures var arrived := t.(hash := HincrAll(t.hash, turn.arrivals));
            FlushTurn(t, Effective(arrived, turn, amount), amount) ==
            FlushTurn(arrived, Effective(arrived, turn.(arrivals := []), amount), amount)
  {
    var arrived := t.(hash := HincrAll(t.hash, turn.arrivals));
    assert Effective(arrived, turn.(arrivals := []), amount) == Effective(arrived, turn, amount).(arrivals := []);
    assert Effective(arrived, turn, amount).arrivals == turn.arrivals;
    assert arrived.(hash := HincrAll(arrived.hash, [])) == arrived;
  }

  /** The flusher and the tables are as a flushed turn leaves them. */
  predicate TurnDone(s: System, i: nat, flushed: (Tables, bool), rest: seq<(string, int)>, next: u64) {
    && s.tables == flushed.0 && i < |s.flushers|
    && (if flushed.1 then s.flushers[i] == Working(rest, next) else Over(s.flushers[i]))
  }

  lemma ArrivalsThenWrites(s: System, i: nat, turn: Turn, amount: int, rest: seq<(string, int)>, next: u64)
    requires i < |s.flushers| && s.flushers[i] == Working([(turn.field, amount)] + rest, next)
    requires Accepted(s.tables, turn.arrivals)
    ensures var s1 := Run(s, IncrementSteps(turn.arrivals));
            var s' := Run(s1, WriteSteps(i, turn.fault));
            && s1.tables == s.tables.(hash := HincrAll(s.tables.hash, turn.arrivals))
            && |s'.flushers| == |s.flushers|
            && TurnDone(s', i, FlushTurn(s1.tables, Effective(s1.tables, turn.(arrivals := []), amount), amount),
               rest, next)
  {
    ArrivalsRefine(s, turn.arrivals);
    WritesRefine(Run(s, IncrementSteps(turn.arrivals)), i, turn.(arrivals := []), amount, rest, next);
  }

  /** One turn of a flush, with the increments that arrive meanwhile, does exactly what those steps of
      the machine do; a write that overflows a counter is a fault of the turn. */
  lemma TurnRefinesMachine(s: System, i: nat, turn: Turn, amount: int, rest: seq<(string, int)>, next: u64)
    requires i < |s.flushers| && s.flushers[i] == Working([(turn.field, amount)] + rest, next)
    requires Accepted(s.tables, turn.arrivals)
    ensures var s' := Run(s, TurnSteps(i, turn));
            var arrived := s.tables.(hash := HincrAll(s.tables.hash, turn.arrivals));
            && |s'.flushers| == |s.flushers|
            && TurnDone(s', i, FlushTurn(s.tables, Effective(arrived, turn, amount), amount), rest, next)
    ensures Own(i, TurnSteps(i, turn))
  {
    ArrivalsThenWrites(s, i, turn, amount, rest, next);
    ArrivalsFirst(s.tables, turn, amount);
    RunAppend(s, IncrementSteps(turn.arrivals), WriteSteps(i, turn.fault));
    OwnTurn(i, turn);
  }

  lemma OwnTurn(i: nat, turn: Turn)
    ensures Own(i, TurnSteps(i, turn))
  {
  }

  function Entries(turns: seq<Turn>, amounts: seq<int>): seq<(string, int)>
    requires |turns| == |amounts|
  {
    seq(|turns|, k requires 0 <= k < |turns| => (turns[k].field, amounts[k]))
  }

  /** The arrivals are increments the stores accept, and overflowing writes are among the faults. */
  predicate TurnsFeasible(t: Tables, turns: seq<Turn>, amounts: seq<int>)
    requires |turns| == |amounts|
    decreases |turns|
  {
    turns == [] ||
    (&& Accepted(t, turns[0].arrivals)
     && Effective(t.(hash := HincrAll(t.hash, turns[0].arrivals)), turns[0], amounts[0]) == turns[0]
     && (FlushTurn(t, turns[0], amounts[0]).1 ==>
        TurnsFeasible(FlushTurn(t, turns[0], amounts[0]).0, turns[1..], amounts[1..])))
  }

  lemma {:induction false} TurnsRefineMachine(s: System, i: nat, turns: seq<Turn>, amounts: seq<int>, next: u64)
    returns (steps: seq<Step>)
    requires |turns| == |amounts| && TurnsFeasible(s.tables, turns, amounts)
    requires i < |s.flushers| && s.flushers[i] == Working(Entries(turns, amounts), next)
    ensures var s', flushed := Run(s, steps), FlushTurns(s.tables, turns, amounts);
            && s'.tables == flushed.0 && |s'.flushers| == |s.flushers|
            && (if flushed.1 then s'.flushers[i] == Working([], next) else Over(s'.flushers[i]))
    ensures Own(i, steps)
    decreases |turns|
  {
    if turns == [] {
      steps := [];
    } else {
      var rest := Entries(turns[1..], amounts[1..]);
      assert Entries(turns, amounts) == [(turns[0].field, amounts[0])] + rest;
      TurnRefinesMachine(s, i, turns[0], amounts[0], rest, next);
      steps := TurnSteps(i, turns[0]);
      if FlushTurn(s.tables, turns[0], amounts[0]).1 {
        var later := TurnsRefineMachine(Run(s, steps), i, turns[1..], amounts[1..], next);
        RunAppend(s, steps, later);
        steps := steps + later;
      }
    }
  }

  function FieldsOf(turns: seq<Turn>): seq<string> {
    seq(|turns|, k requires 0 <= k < |turns| => turns[k].field)
  }

  /** The scan lists fields that are there. */
  predicate PageFeasible(t: Tables, page: Page) {
    var arrived := t.(hash := HincrAll(t.hash, page.before));
    && Accepted(t, page.before)
    && (forall k :: 0 <= k < |page.turns| ==> page.turns[k].field in arrived.hash)
    && TurnsFeasible(arrived, page.turns, Scanned(arrived.hash, page.turns))
  }

  lemma ScanRefines(s: System, i: nat, page: Page)
    requires i < |s.flushers| && s.flushers[i].Scanning?
    requires forall k :: 0 <= k < |page.turns| ==> page.turns[k].field in s.tables.hash
    ensures var s' := Run(s, [Scan(i, FieldsOf(page.turns), page.next)]);
            && s'.tables == s.tables && |s'.flushers| == |s.flushers|
            && s'.flushers[i] == Working(Entries(page.turns, Scanned(s.tables.hash, page.turns)), page.next)
  {
    RunOne(s, Scan(i, FieldsOf(page.turns), page.next));
    assert Batch(s.tables.hash, FieldsOf(page.turns)) == Entries(page.turns, Scanned(s.tables.hash, page.turns));
  }

  /** The scan and its turns. */
  lemma BatchRefinesMachine(s: System, i: nat, page: Page) returns (steps: seq<Step>)
    requires i < |s.flushers| && s.flushers[i].Scanning?
    requires forall k :: 0 <= k < |page.turns| ==> page.turns[k].field in s.tables.hash
    requires TurnsFeasible(s.tables, page.turns, Scanned(s.tables.hash, page.turns))
    ensures var s', flushed := Run(s, steps), FlushTurns(s.tables, page.turns, Scanned(s.tables.hash, page.turns));
            && s'.tables == flushed.0 && |s'.flushers| == |s.flushers|
            && (if flushed.1 then s'.flushers[i] == Working([], page.next) else Over(s'.flushers[i]))
    ensures Own(i, steps)
  {
    var scan := [Scan(i, FieldsOf(page.turns), page.next)];
    ScanRefines(s, i, page);
    var turns := TurnsRefineMachine(Run(s, scan), i, page.turns, Scanned(s.tables.hash, page.turns), page.next);
    RunAppend(s, scan, turns);
    steps := scan + turns;
  }

  lemma EndRefines(s: System, i: nat)
    requires i < |s.flushers|
    ensures var s' := Run(s, [EndBatch(i)]);
            && s'.tables == s.tables && |s'.flushers| == |s.flushers|
            && (Over(s.flushers[i]) ==> Over(s'.flushers[i]))
            && (s.flushers[i].Working? && s.flushers[i].todo == [] ==>
                  if s.flushers[i].next == 0 then s'.flushers[i].Finished? else s'.flushers[i].Scanning?)
  {
    RunOne(s, EndBatch(i));
  }

  lemma RunParts(s: System, i: nat, a: seq<Step>, b: seq<Step>)
    requires Own(i, a) && Own(i, b)
    ensures Run(s, a + b) == Run(Run(s, a), b) && Own(i, a + b)
  {
    RunAppend(s, a, b);
  }

  lemma BatchEndRefinesMachine(s: System, i: nat, page: Page) returns (steps: seq<Step>)
    requires i < |s.flushers| && s.flushers[i].Scanning?
    requires forall k :: 0 <= k < |page.turns| ==> page.turns[k].field in s.tables.hash
    requires TurnsFeasible(s.tables, page.turns, Scanned(s.tables.hash, page.turns))
    ensures var s', flushed := Run(s, steps), FlushTurns(s.tables, page.turns, Scanned(s.tables.hash, page.turns));
            && s'.tables == flushed.0 && |s'.flushers| == |s.flushers|
            && (if flushed.1 && page.next != 0 then s'.flushers[i].Scanning? else Over(s'.flushers[i]))
    ensures Own(i, steps)
  {
    var batch := BatchRefinesMachine(s, i, page);
    EndRefines(Run(s, batch), i);
    RunParts(s, i, batch, [EndBatch(i)]);
    steps := batch + [EndBatch(i)];
  }

  lemma PageRefinesMachine(s: System, i: nat, page: Page) returns (steps: seq<Step>)
    requires i < |s.flushers| && s.flushers[i].Scanning? && PageFeasible(s.tables, page)
    ensures var s', flushed := Run(s, steps), FlushPage(s.tables, page);
            && s'.tables == flushed.0 && |s'.flushers| == |s.flushers|
            && (if flushed.1 && page.next != 0 then s'.flushers[i].Scanning? else Over(s'.flushers[i]))
    ensures Own(i, steps)
  {
    ArrivalsRefine(s, page.before);
    var batch := BatchEndRefinesMachine(Run(s, IncrementSteps(page.before)), i, page);
    RunParts(s, i, IncrementSteps(page.before), batch);
    steps := IncrementSteps(page.before) + batch;
  }

  predicate PagesFeasible(t: Tables, pages: seq<Page>)
    decreases |pages|
  {
    pages == [] ||
    (&& PageFeasible(t, pages[0])
     && (FlushPage(t, pages[0]).1 && pages[0].next != 0 ==> PagesFeasible(FlushPage(t, pages[0]).0, pages[1..])))
  }

  /** A whole flush is a run of the machine made of one flusher's own steps and of increments: the
      results on every interleaving hold of the repository's loop. */
  lemma {:induction false} FlushRefinesMachine(s: System, i: nat, pages: seq<Page>) returns (steps: seq<Step>)
    requires i < |s.flushers| && s.flushers[i].Scanning? && PagesFeasible(s.tables, pages)
    ensures var s', flushed := Run(s, steps), Flush(s.tables, pages);
            && s'.tables == flushed.0 && |s'.flushers| == |s.flushers|
            && (if flushed.1 == Ongoing then s'.flushers[i].Scanning? else Over(s'.flushers[i]))
    ensures Own(i, steps)
    decreases |pages|
  {
    if pages == [] {
      steps := [];
    } else {
      steps := PageRefinesMachine(s, i, pages[0]);
      if FlushPage(s.tables, pages[0]).1 && pages[0].next != 0 {
        var later := FlushRefinesMachine(Run(s, steps), i, pages[1..]);
        RunAppend(s, steps, later);
        steps := steps + later;
      }
    }
  }

  /** So a flush started in any reachable state leaves tables that a reachable state has: row plus field
      is still all increments and what is owed. */
  lemma FlushConserves(before: seq<Step>, i: nat, pages: seq<Page>, id: i64) returns (after: seq<Step>)
    requires var s := Run(INITIAL, before);
             i < |s.flushers| && s.flushers[i].Scanning? && PagesFeasible(s.tables, pages)
    ensures var s, t := Run(INITIAL, after), Flush(Run(INITIAL, before).tables, pages).0;
            && s.tables == t
            && (id in t.questions ==>
                  t.questions[id].readCount + Pending(t.hash, Field(id)) == Increments(s, id) + Owed(s.flushers, id))
  {
    var steps := FlushRefinesMachine(Run(INITIAL, before), i, pages);
    RunAppend(INITIAL, before, steps);
    after := before + steps;
    ReadsAreConserved(after, id);
  }
}
