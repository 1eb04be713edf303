/** The write-behind read counter of crates/qa-svc/src/core/question.rs: increments go to a Redis
    hash, and a flush adds each scanned value to the question's row and then subtracts that same
    value from the hash. */
module ReadCounter {
  import Decimal
  import opened Integers
  import opened Wrappers

  datatype Question = Question(createdBy: string, readCount: int)

  /** The `questions` table, its sequence and the hash of pending increments, by field text. */
  datatype Tables = Tables(questions: map<i64, Question>, nextId: int, hash: map<string, int>)

  function Field(id: int): string {
    Decimal.ToDecimal(id)
  }

  function Pending(hash: map<string, int>, field: string): int {
    if field in hash then hash[field] else 0
  }

  /** `HINCRBY`: creates the field at zero if it is missing. */
  function Hincr(hash: map<string, int>, field: string, amount: int): map<string, int> {
    hash[field := Pending(hash, field) + amount]
  }

  function HincrAll(hash: map<string, int>, fields: seq<string>): map<string, int>
    decreases |fields|
  {
    if fields == [] then hash else HincrAll(Hincr(hash, fields[0], 1), fields[1..])
  }

  function Occurrences(fields: seq<string>, field: string): nat {
    multiset(fields)[field]
  }

  lemma {:induction false} HincrAllPending(hash: map<string, int>, fields: seq<string>, field: string)
    ensures Pending(HincrAll(hash, fields), field) == Pending(hash, field) + Occurrences(fields, field)
    ensures HincrAll(hash, fields).Keys == hash.Keys + set f | f in fields
    decreases |fields|
  {
    if fields != [] {
      HincrAllPending(Hincr(hash, fields[0], 1), fields[1..], field);
      assert fields == [fields[0]] + fields[1..];
    }
  }

  function AddToRow(questions: map<i64, Question>, id: i64, amount: int): map<i64, Question>
    requires id in questions
  {
    questions[id := questions[id].(readCount := questions[id].readCount + amount)]
  }

  // One flush

  /** What fails: the row's write; the hash's, after the row's has been made; or only the reply to the
      hash's, which has been made too. A row write whose reply is lost leaves what a failed hash write
      does. Overflowing a 64-bit counter is one way to fail. */
  datatype Write = RowWrite | HashWrite | HashReply

  /** One scanned field, the increments that arrive before its hash write, and the write that fails
      if one does. */
  datatype Turn = Turn(field: string, arrivals: seq<string>, fault: Option<Write>)

  /** One `HSCAN` reply: the increments that arrive before it, the fields it lists and the cursor
      it returns. */
  datatype Page = Page(before: seq<string>, turns: seq<Turn>, next: u64)

  function Transfer(t: Tables, id: i64, amount: int, fault: Option<Write>): (Tables, bool) {
    if fault == Some(RowWrite) || id !in t.questions then (t, false)
    else
      var t' := t.(questions := AddToRow(t.questions, id, amount));
      if fault == Some(HashWrite) then (t', false)
      else (t'.(hash := Hincr(t'.hash, Field(id), -amount)), fault.None?)
  }

  function FlushTurn(t: Tables, turn: Turn, amount: int): (Tables, bool) {
    var arrived := t.(hash := HincrAll(t.hash, turn.arrivals));
    match Decimal.ParseI64(turn.field)
    case None => (arrived, false)
    case Some(id) => Transfer(arrived, id, amount, turn.fault)
  }

  /** The amounts are those the scan returned. */
  function FlushTurns(t: Tables, turns: seq<Turn>, amounts: seq<int>): (Tables, bool)
    requires |turns| == |amounts|
    decreases |turns|
  {
    if turns == [] then (t, true)
    else
      var (t', ok) := FlushTurn(t, turns[0], amounts[0]);
      if ok then FlushTurns(t', turns[1..], amounts[1..]) else (t', false)
  }

  function Scanned(hash: map<string, int>, turns: seq<Turn>): seq<int> {
    seq(|turns|, i requires 0 <= i < |turns| => Pending(hash, turns[i].field))
  }

  function FlushPage(t: Tables, page: Page): (Tables, bool) {
    var arrived := t.(hash := HincrAll(t.hash, page.before));
    FlushTurns(arrived, page.turns, Scanned(arrived.hash, page.turns))
  }

  datatype Progress = Ongoing | Done | Failed

  /** Page after page until one returns cursor 0 or fails; `Ongoing` when neither has happened yet. */
  function Flush(t: Tables, pages: seq<Page>): (Tables, Progress)
    decreases |pages|
  {
    if pages == [] then (t, Ongoing)
    else
      var (t', ok) := FlushPage(t, pages[0]);
      if !ok then (t', Failed)
      else if pages[0].next == 0 then (t', Done)
      else Flush(t', pages[1..])
  }

  /** For each round, what the server would answer to each cursor; a scan with no answer fails. */
  type Server = seq<map<u64, Page>>

  /** The replies to scans from `round` on, each sent the cursor of the reply before it. */
  function Replies(server: Server, round: nat, cursor: u64): seq<Page>
    decreases |server| - round
  {
    if round >= |server| || cursor !in server[round] then []
    else
      var page := server[round][cursor];
      [page] + if page.next == 0 then [] else Replies(server, round + 1, page.next)
  }

  /** The last of these scans fails. */
  predicate ScanFails(server: Server, round: nat, cursor: u64)
    decreases |server| - round
  {
    round < |server| &&
    (cursor !in server[round]
        || (server[round][cursor].next != 0 && ScanFails(server, round + 1, server[round][cursor].next)))
  }

  /** The flush loop, scan by scan. */
  function Rounds(t: Tables, server: Server, round: nat, cursor: u64): (Tables, Progress)
    decreases |server| - round
  {
    if round >= |server| then (t, Ongoing)
    else if cursor !in server[round] then (t, Failed)
    else
      var page := server[round][cursor];
      var (t', ok) := FlushPage(t, page);
      if !ok then (t', Failed)
      else if page.next == 0 then (t', Done)
      else Rounds(t', server, round + 1, page.next)
  }

  /** It flushes the pages the server replies with. */
  lemma {:induction false} RoundsFlushReplies(t: Tables, server: Server, round: nat, cursor: u64)
    ensures var flush := Flush(t, Replies(server, round, cursor));
            Rounds(t, server, round, cursor) ==
            (flush.0, if flush.1 == Ongoing && ScanFails(server, round, cursor) then Failed else flush.1)
    decreases |server| - round
  {
    if round < |server| && cursor in server[round] {
      var pages := Replies(server, round, cursor);
      assert pages[0] == server[round][cursor];
      if pages[0].next != 0 {
        RoundsFlushReplies(FlushPage(t, pages[0]).0, server, round + 1, pages[0].next);
        assert pages[1..] == Replies(server, round + 1, pages[0].next);
      }
    }
  }

  // What a flush moves

  /** What the turns take out of the field of `id`. */
  function Taken(turns: seq<Turn>, amounts: seq<int>, id: i64): int
    requires |turns| == |amounts|
  {
    if turns == [] then 0
    else (if Decimal.ParseI64(turns[0].field) == Some(id) then amounts[0] else 0) + Taken(turns[1..], amounts[1..], id)
  }

  function TurnArrivals(turns: seq<Turn>, field: string): nat {
    if turns == [] then 0 else Occurrences(turns[0].arrivals, field) + TurnArrivals(turns[1..], field)
  }

  lemma TurnMoves(t: Tables, turn: Turn, amount: int, id: i64)
    requires FlushTurn(t, turn, amount).1 && id in t.questions
    ensures var t' := FlushTurn(t, turn, amount).0;
            var taken := if Decimal.ParseI64(turn.field) == Some(id) then amount else 0;
            && t'.questions.Keys == t.questions.Keys
            && t'.questions[id] == t.questions[id].(readCount := t.questions[id].readCount + taken)
            && Pending(t'.hash, Field(id)) == Pending(t.hash, Field(id)) + Occurrences(turn.arrivals, Field(id)) - taken
  {
    HincrAllPending(t.hash, turn.arrivals, Field(id));
    var named := Decimal.ParseI64(turn.field).value;
    if Field(named) == Field(id) {
      Decimal.ToDecimalInjective(named, id);
    }
  }

  /** What leaves the hash enters the row, whatever arrives meanwhile and however often a field is
      listed. */
  lemma {:induction false} TurnsMove(t: Tables, turns: seq<Turn>, amounts: seq<int>, id: i64)
    requires |turns| == |amounts| && FlushTurns(t, turns, amounts).1 && id in t.questions
    ensures var t', taken := FlushTurns(t, turns, amounts).0, Taken(turns, amounts, id);
            && t'.questions.Keys == t.questions.Keys
            && t'.questions[id] == t.questions[id].(readCount := t.questions[id].readCount + taken)
            && Pending(t'.hash, Field(id)) == Pending(t.hash, Field(id)) + TurnArrivals(turns, Field(id)) - taken
    decreases |turns|
  {
    if turns != [] {
      TurnMoves(t, turns[0], amounts[0], id);
      TurnsMove(FlushTurn(t, turns[0], amounts[0]).0, turns[1..], amounts[1..], id);
    }
  }

  /** No field disappears, and the field a turn has flushed is there. */
  lemma {:induction false} TurnsKeepFields(t: Tables, turns: seq<Turn>, amounts: seq<int>, id: i64)
    requires |turns| == |amounts|
    ensures t.hash.Keys <= FlushTurns(t, turns, amounts).0.hash.Keys
    ensures FlushTurns(t, turns, amounts).1 && Listed(turns, id) > 0 ==>
            Field(id) in FlushTurns(t, turns, amounts).0.hash
    decreases |turns|
  {
    if turns != [] {
      HincrAllPending(t.hash, turns[0].arrivals, Field(id));
      TurnsKeepFields(FlushTurn(t, turns[0], amounts[0]).0, turns[1..], amounts[1..], id);
    }
  }

  /** How often a page lists a field naming `id`. */
  function Listed(turns: seq<Turn>, id: i64): nat {
    if turns == [] then 0
    else (if Decimal.ParseI64(turns[0].field) == Some(id) then 1 else 0) + Listed(turns[1..], id)
  }

  function ListedIn(pages: seq<Page>, id: i64): nat {
    if pages == [] then 0
    else Listed(pages[0].turns, id) + if pages[0].next == 0 then 0 else ListedIn(pages[1..], id)
  }

  /** Listed fields are written the way `incr` writes them. */
  predicate CanonicalTurns(turns: seq<Turn>) {
    forall i :: 0 <= i < |turns| ==>
      var id := Decimal.ParseI64(turns[i].field);
      id.Some? ==> turns[i].field == Field(id.value)
  }

  predicate Canonical(pages: seq<Page>) {
    forall p :: 0 <= p < |pages| ==> CanonicalTurns(pages[p].turns)
  }

  lemma {:induction false} TakenOnce(turns: seq<Turn>, hash: map<string, int>, amounts: seq<int>, id: i64)
    requires |turns| == |amounts| && CanonicalTurns(turns) && Listed(turns, id) <= 1
    requires forall i :: 0 <= i < |turns| ==> amounts[i] == Pending(hash, turns[i].field)
    ensures Taken(turns, amounts, id) == if Listed(turns, id) == 1 then Pending(hash, Field(id)) else 0
  {
    if turns != [] {
      TakenOnce(turns[1..], hash, amounts[1..], id);
      if Decimal.ParseI64(turns[0].field) == Some(id) {
        assert turns[0].field == Field(id);
      }
    }
  }

  /** The increments of a field that arrive before, and after, the scan that lists it. */
  function ArrivedBefore(pages: seq<Page>, id: i64): nat {
    if pages == [] then 0
    else
      Occurrences(pages[0].before, Field(id))
      + if pages[0].next == 0 || Listed(pages[0].turns, id) > 0 then 0
        else TurnArrivals(pages[0].turns, Field(id)) + ArrivedBefore(pages[1..], id)
  }

  function Arrived(pages: seq<Page>, id: i64): nat {
    if pages == [] then 0
    else
      Occurrences(pages[0].before, Field(id)) + TurnArrivals(pages[0].turns, Field(id))
      + if pages[0].next == 0 then 0 else Arrived(pages[1..], id)
  }

  lemma PageMoves(t: Tables, page: Page, id: i64)
    requires FlushPage(t, page).1 && id in t.questions && CanonicalTurns(page.turns) && Listed(page.turns, id) <= 1
    ensures var t' := FlushPage(t, page).0;
            var seen := Pending(t.hash, Field(id)) + Occurrences(page.before, Field(id));
            var taken := if Listed(page.turns, id) == 1 then seen else 0;
            && id in t'.questions
            && t'.questions[id] == t.questions[id].(readCount := t.questions[id].readCount + taken)
            && Pending(t'.hash, Field(id)) == seen + TurnArrivals(page.turns, Field(id)) - taken
            && (Field(id) in t.hash || Listed(page.turns, id) > 0 ==> Field(id) in t'.hash)
  {
    var arrived := t.(hash := HincrAll(t.hash, page.before));
    var amounts := Scanned(arrived.hash, page.turns);
    HincrAllPending(t.hash, page.before, Field(id));
    TurnsMove(arrived, page.turns, amounts, id);
    TakenOnce(page.turns, arrived.hash, amounts, id);
    TurnsKeepFields(arrived, page.turns, amounts, id);
  }

  /** Drain. A flush that has not failed and lists a question's field once has moved to its row exactly
      what was pending when the field was scanned, and has left in the hash exactly the increments that
      arrived after that: none is lost and none is counted twice. One that does not list the field
      leaves the row alone. */
  lemma {:induction false} FlushDrains(t: Tables, pages: seq<Page>, id: i64)
    requires Flush(t, pages).1 != Failed && id in t.questions && Canonical(pages) && ListedIn(pages, id) <= 1
    ensures var t' := Flush(t, pages).0;
            var taken := if ListedIn(pages, id) == 1 then Pending(t.hash, Field(id)) + ArrivedBefore(pages, id) else 0;
            && id in t'.questions
            && t'.questions[id] == t.questions[id].(readCount := t.questions[id].readCount + taken)
            && Pending(t'.hash, Field(id)) == Pending(t.hash, Field(id)) + Arrived(pages, id) - taken
            && (Field(id) in t.hash || ListedIn(pages, id) == 1 ==> Field(id) in t'.hash)
    decreases |pages|
  {
    if pages != [] {
      PageMoves(t, pages[0], id);
      if pages[0].next != 0 {
        FlushDrains(FlushPage(t, pages[0]).0, pages[1..], id);
      }
    }
  }

  // Which flushes complete

  predicate NamesLive(questions: map<i64, Question>, field: string) {
    var id := Decimal.ParseI64(field);
    id.Some? && id.value in questions
  }

  /** The turn's field names a live question and neither write fails. */
  predicate Succeeds(questions: map<i64, Question>, turn: Turn) {
    NamesLive(questions, turn.field) && turn.fault.None?
  }

  predicate AllSucceed(questions: map<i64, Question>, turns: seq<Turn>) {
    forall i :: 0 <= i < |turns| ==> Succeeds(questions, turns[i])
  }

  lemma {:induction false} TurnsCompleteIff(t: Tables, turns: seq<Turn>, amounts: seq<int>)
    requires |turns| == |amounts|
    ensures FlushTurns(t, turns, amounts).0.questions.Keys == t.questions.Keys
    ensures FlushTurns(t, turns, amounts).1 <==> AllSucceed(t.questions, turns)
    decreases |turns|
  {
    if turns != [] {
      var (t', ok) := FlushTurn(t, turns[0], amounts[0]);
      assert ok <==> Succeeds(t.questions, turns[0]);
      if ok {
        TurnsCompleteIff(t', turns[1..], amounts[1..]);
        forall i | 0 <= i < |turns[1..]|
          ensures Succeeds(t'.questions, turns[1..][i]) <==> Succeeds(t.questions, turns[i + 1])
        {
        }
        if AllSucceed(t'.questions, turns[1..]) {
          forall i | 0 <= i < |turns|
            ensures Succeeds(t.questions, turns[i])
          {
            assert i > 0 ==> Succeeds(t'.questions, turns[1..][i - 1]);
          }
        }
      }
    }
  }

  /** Every turn up to the page that returns cursor 0 succeeds. */
  predicate PagesSucceed(questions: map<i64, Question>, pages: seq<Page>) {
    pages == [] ||
    (AllSucceed(questions, pages[0].turns) && (pages[0].next == 0 || PagesSucceed(questions, pages[1..])))
  }

  lemma {:induction false} PagesSucceedKeys(a: map<i64, Question>, b: map<i64, Question>, pages: seq<Page>)
    requires a.Keys == b.Keys
    ensures PagesSucceed(a, pages) <==> PagesSucceed(b, pages)
  {
    if pages != [] {
      PagesSucceedKeys(a, b, pages[1..]);
    }
  }

  /** A flush fails unless each listed field names a live question and each write succeeds, and is then
      done exactly if a page returned cursor 0. So the field of one deleted question stops every
      later flush that lists it. */
  lemma {:induction false} FlushCompletesIff(t: Tables, pages: seq<Page>)
    ensures Flush(t, pages).1 == Failed <==> !PagesSucceed(t.questions, pages)
    ensures Flush(t, pages).1 == Done <==>
            PagesSucceed(t.questions, pages) && exists p :: 0 <= p < |pages| && pages[p].next == 0
    decreases |pages|
  {
    if pages != [] {
      var arrived := t.(hash := HincrAll(t.hash, pages[0].before));
      TurnsCompleteIff(arrived, pages[0].turns, Scanned(arrived.hash, pages[0].turns));
      var (t', ok) := FlushPage(t, pages[0]);
      if ok && pages[0].next != 0 {
        FlushCompletesIff(t', pages[1..]);
        PagesSucceedKeys(t'.questions, t.questions, pages[1..]);
        if p :| 0 <= p < |pages| && pages[p].next == 0 {
          assert pages[1..][p - 1].next == 0;
        }
      }
    }
  }

  lemma {:induction false} FailedScanIsNoEnd(server: Server, round: nat, cursor: u64)
    requires ScanFails(server, round, cursor)
    ensures forall p :: 0 <= p < |Replies(server, round, cursor)| ==> Replies(server, round, cursor)[p].next != 0
    decreases |server| - round
  {
    if cursor in server[round] {
      FailedScanIsNoEnd(server, round + 1, server[round][cursor].next);
    }
  }

  /** The flush loop fails exactly if a scan goes unanswered, a listed field does not name a live
      question or a write fails, and is done exactly if none of these and cursor 0 came back. */
  lemma RoundsEndIff(t: Tables, server: Server)
    ensures var pages, progress := Replies(server, 0, 0), Rounds(t, server, 0, 0).1;
            && (progress == Failed <==> !PagesSucceed(t.questions, pages) || ScanFails(server, 0, 0))
            && (progress == Done <==>
                  && PagesSucceed(t.questions, pages) && !ScanFails(server, 0, 0)
                  && exists p :: 0 <= p < |pages| && pages[p].next == 0)
  {
    RoundsFlushReplies(t, server, 0, 0);
    FlushCompletesIff(t, Replies(server, 0, 0));
    if ScanFails(server, 0, 0) {
      FailedScanIsNoEnd(server, 0, 0);
    }
  }

  // Where a failed flush stops

  /** What a failing turn has added to the row of `id` all the same. */
  function Raised(turn: Turn, amount: int, id: i64): int {
    if turn.fault.Some? && !turn.fault.value.RowWrite? && Decimal.ParseI64(turn.field) == Some(id) then amount else 0
  }

  /** What it has taken from the field of `id` all the same. */
  function Lowered(turn: Turn, amount: int, id: i64): int {
    if turn.fault == Some(HashReply) && Decimal.ParseI64(turn.field) == Some(id) then amount else 0
  }

  /** A turn that fails changes no field but by what arrives, and no row, unless it got further: after
      a failed hash write the row is raised and the field not lowered, after a lost reply it is. */
  lemma FailedTurnLeaves(t: Tables, turn: Turn, amount: int, id: i64)
    requires !FlushTurn(t, turn, amount).1 && id in t.questions
    ensures var t' := FlushTurn(t, turn, amount).0;
            && t'.questions.Keys == t.questions.Keys
            && t'.questions[id] == t.questions[id].(readCount := t.questions[id].readCount + Raised(turn, amount, id))
            && Pending(t'.hash, Field(id)) ==
               Pending(t.hash, Field(id)) + Occurrences(turn.arrivals, Field(id)) - Lowered(turn, amount, id)
  {
    HincrAllPending(t.hash, turn.arrivals, Field(id));
    var arrived, named := t.(hash := HincrAll(t.hash, turn.arrivals)), Decimal.ParseI64(turn.field);
    if named.Some? {
      assert FlushTurn(t, turn, amount) == Transfer(arrived, named.value, amount, turn.fault);
      assert turn.fault.None? || turn.fault.value.RowWrite? || turn.fault.value.HashWrite?
          || turn.fault.value.HashReply?;
      if Field(named.value) == Field(id) {
        Decimal.ToDecimalInjective(named.value, id);
      }
    }
  }

  /** The turns before `k` succeed and turn `k` fails, for whatever reason. */
  ghost predicate TurnsFailAt(t: Tables, turns: seq<Turn>, amounts: seq<int>, k: nat)
    requires |turns| == |amounts|
  {
    && k < |turns| && FlushTurns(t, turns[..k], amounts[..k]).1
    && !FlushTurn(FlushTurns(t, turns[..k], amounts[..k]).0, turns[k], amounts[k]).1
  }

  /** A page that fails at a field has flushed those before it as if they were the whole page, and has
      not touched anything after it. */
  lemma {:induction false} TurnsStopAt(t: Tables, turns: seq<Turn>, amounts: seq<int>, k: nat)
    requires |turns| == |amounts| && TurnsFailAt(t, turns, amounts, k)
    ensures FlushTurns(t, turns, amounts) ==
            (FlushTurn(FlushTurns(t, turns[..k], amounts[..k]).0, turns[k], amounts[k]).0, false)
    decreases k
  {
    if k > 0 {
      var (t', ok) := FlushTurn(t, turns[0], amounts[0]);
      assert turns[..k][1..] == turns[1..][..k - 1] && amounts[..k][1..] == amounts[1..][..k - 1];
      TurnsStopAt(t', turns[1..], amounts[1..], k - 1);
    }
  }

  lemma {:induction false} FailedTurns(t: Tables, turns: seq<Turn>, amounts: seq<int>) returns (k: nat)
    requires |turns| == |amounts| && !FlushTurns(t, turns, amounts).1
    ensures TurnsFailAt(t, turns, amounts, k)
    decreases |turns|
  {
    var (t', ok) := FlushTurn(t, turns[0], amounts[0]);
    if ok {
      var j := FailedTurns(t', turns[1..], amounts[1..]);
      k := j + 1;
      assert turns[..k][1..] == turns[1..][..j] && amounts[..k][1..] == amounts[1..][..j];
    } else {
      k := 0;
    }
  }

  /** The tables page `p` scans. */
  function AtScan(t: Tables, pages: seq<Page>, p: nat): Tables
    requires p < |pages|
  {
    var before := Flush(t, pages[..p]).0;
    before.(hash := HincrAll(before.hash, pages[p].before))
  }

  /** The pages up to turn `k` of page `p`, as if the flush ended there. */
  function Cut(pages: seq<Page>, p: nat, k: nat): seq<Page>
    requires p < |pages| && k <= |pages[p].turns|
  {
    pages[..p] + [pages[p].(turns := pages[p].turns[..k], next := 0)]
  }

  /** The flush completes up to turn `k` of page `p`, which then fails. */
  ghost predicate StopsAt(t: Tables, pages: seq<Page>, p: nat, k: nat) {
    && p < |pages| && k < |pages[p].turns| && (forall q :: 0 <= q < p ==> pages[q].next != 0)
    && Flush(t, Cut(pages, p, k)).1 == Done
    && !FlushTurn(Flush(t, Cut(pages, p, k)).0, pages[p].turns[k],
       Pending(AtScan(t, pages, p).hash, pages[p].turns[k].field)).1
  }

  lemma CutLater(t: Tables, pages: seq<Page>, p: nat, k: nat)
    requires 0 < p < |pages| && k <= |pages[p].turns|
    ensures Cut(pages, p, k)[1..] == Cut(pages[1..], p - 1, k)
    ensures FlushPage(t, pages[0]).1 && pages[0].next != 0 ==>
              AtScan(t, pages, p) == AtScan(FlushPage(t, pages[0]).0, pages[1..], p - 1)
  {
    assert pages[..p][1..] == pages[1..][..p - 1];
    assert Cut(pages, p, k)[1..] == pages[..p][1..] + [pages[p].(turns := pages[p].turns[..k], next := 0)];
  }

  lemma CutFirst(t: Tables, pages: seq<Page>, k: nat)
    requires pages != [] && k <= |pages[0].turns|
    ensures var arrived := AtScan(t, pages, 0);
            var amounts := Scanned(arrived.hash, pages[0].turns);
            && FlushPage(t, pages[0]) == FlushTurns(arrived, pages[0].turns, amounts)
            && FlushPage(t, Cut(pages, 0, k)[0]) == FlushTurns(arrived, pages[0].turns[..k], amounts[..k])
  {
    var amounts := Scanned(AtScan(t, pages, 0).hash, pages[0].turns);
    assert Flush(t, pages[..0]).0 == t;
    assert amounts[..k] == Scanned(AtScan(t, pages, 0).hash, pages[0].turns[..k]);
  }

  /** What a failed flush is: a completed flush of everything before the failing turn, and that turn. */
  lemma {:induction false} FlushStopsAt(t: Tables, pages: seq<Page>, p: nat, k: nat)
    requires StopsAt(t, pages, p, k)
    ensures var turn := pages[p].turns[k];
            var done := Flush(t, Cut(pages, p, k)).0;
            Flush(t, pages) == (FlushTurn(done, turn, Pending(AtScan(t, pages, p).hash, turn.field)).0, Failed)
    decreases p
  {
    if p == 0 {
      var arrived := AtScan(t, pages, 0);
      CutFirst(t, pages, k);
      TurnsStopAt(arrived, pages[0].turns, Scanned(arrived.hash, pages[0].turns), k);
    } else {
      CutLater(t, pages, p, k);
      assert Cut(pages, p, k)[0] == pages[0];
      FlushStopsAt(FlushPage(t, pages[0]).0, pages[1..], p - 1, k);
    }
  }

  lemma FirstPageStops(t: Tables, pages: seq<Page>) returns (k: nat)
    requires pages != [] && !FlushPage(t, pages[0]).1
    ensures StopsAt(t, pages, 0, k)
  {
    var arrived := AtScan(t, pages, 0);
    CutFirst(t, pages, 0);
    k := FailedTurns(arrived, pages[0].turns, Scanned(arrived.hash, pages[0].turns));
    CutFirst(t, pages, k);
  }

  lemma LaterPageStops(t: Tables, pages: seq<Page>, p: nat, k: nat)
    requires pages != [] && FlushPage(t, pages[0]).1 && pages[0].next != 0
    requires StopsAt(FlushPage(t, pages[0]).0, pages[1..], p, k)
    ensures StopsAt(t, pages, p + 1, k)
  {
    CutLater(t, pages, p + 1, k);
    assert Cut(pages, p + 1, k)[0] == pages[0];
    forall q | 0 <= q < p + 1
      ensures pages[q].next != 0
    {
      assert q > 0 ==> pages[q] == pages[1..][q - 1];
    }
  }

  /** Every failed flush stops at some turn in this way. */
  lemma {:induction false} FailedFlushStops(t: Tables, pages: seq<Page>) returns (p: nat, k: nat)
    requires Flush(t, pages).1 == Failed
    ensures StopsAt(t, pages, p, k)
    decreases |pages|
  {
    var (t', ok) := FlushPage(t, pages[0]);
    if ok {
      p, k := FailedFlushStops(t', pages[1..]);
      LaterPageStops(t, pages, p, k);
      p := p + 1;
    } else {
      p := 0;
      k := FirstPageStops(t, pages);
    }
  }

  /** On an error. A failed flush has drained the questions listed before the failing turn exactly as a
      completed one does, and left every other row and field alone but for arrivals and for what the
      failing turn itself still did. */
  lemma FailedFlushLeaves(t: Tables, pages: seq<Page>, id: i64) returns (p: nat, k: nat)
    requires Flush(t, pages).1 == Failed && id in t.questions && Canonical(pages)
    ensures StopsAt(t, pages, p, k)
    ensures ListedIn(Cut(pages, p, k), id) <= 1 ==>
              var t', cut, turn := Flush(t, pages).0, Cut(pages, p, k), pages[p].turns[k];
              var taken := if ListedIn(cut, id) == 1 then Pending(t.hash, Field(id)) + ArrivedBefore(cut, id) else 0;
              var amount := Pending(AtScan(t, pages, p).hash, turn.field);
              && id in t'.questions
              && t'.questions[id] ==
                 t.questions[id].(readCount := t.questions[id].readCount + taken + Raised(turn, amount, id))
              && Pending(t'.hash, Field(id)) ==
                 Pending(t.hash, Field(id)) + Arrived(cut, id) + Occurrences(turn.arrivals, Field(id))
                 - taken - Lowered(turn, amount, id)
  {
    p, k := FailedFlushStops(t, pages);
    FlushStopsAt(t, pages, p, k);
    var cut, turn := Cut(pages, p, k), pages[p].turns[k];
    if ListedIn(cut, id) <= 1 {
      assert CanonicalTurns(pages[p].turns);
      forall q | 0 <= q < |cut|
        ensures CanonicalTurns(cut[q].turns)
      {
        assert q < p ==> CanonicalTurns(pages[q].turns);
      }
      FlushDrains(t, cut, id);
      FailedTurnLeaves(Flush(t, cut).0, turn, Pending(AtScan(t, pages, p).hash, turn.field), id);
    }
  }

  // A second flush

  predicate Idle(pages: seq<Page>) {
    forall p :: 0 <= p < |pages| ==>
      pages[p].before == [] && forall i :: 0 <= i < |pages[p].turns| ==> pages[p].turns[i].arrivals == []
  }

  lemma {:induction false} IdleTurns(turns: seq<Turn>, field: string)
    requires forall i :: 0 <= i < |turns| ==> turns[i].arrivals == []
    ensures TurnArrivals(turns, field) == 0
  {
    if turns != [] {
      IdleTurns(turns[1..], field);
    }
  }

  lemma {:induction false} IdlePages(pages: seq<Page>, id: i64)
    requires Idle(pages)
    ensures ArrivedBefore(pages, id) == 0 && Arrived(pages, id) == 0
  {
    if pages != [] {
      IdleTurns(pages[0].turns, Field(id));
      IdlePages(pages[1..], id);
    }
  }

  predicate Drained(hash: map<string, int>, turns: seq<Turn>) {
    forall i :: 0 <= i < |turns| ==> turns[i].field in hash && hash[turns[i].field] == 0
  }

  lemma {:induction false} DrainedTurnsChangeNothing(t: Tables, turns: seq<Turn>, amounts: seq<int>)
    requires |turns| == |amounts| && CanonicalTurns(turns) && Drained(t.hash, turns)
    requires forall i :: 0 <= i < |turns| ==> turns[i].arrivals == [] && amounts[i] == 0
    ensures FlushTurns(t, turns, amounts).0 == t
  {
    if turns != [] {
      var (t', ok) := FlushTurn(t, turns[0], amounts[0]);
      assert turns[0].field in t.hash && t.hash[turns[0].field] == 0;
      assert t'.questions == t.questions && t'.hash == t.hash;
      DrainedTurnsChangeNothing(t, turns[1..], amounts[1..]);
    }
  }

  /** Flushing what is already drained changes nothing, complete or not. */
  lemma {:induction false} DrainedFlushChangesNothing(t: Tables, pages: seq<Page>)
    requires Idle(pages) && Canonical(pages)
    requires forall p :: 0 <= p < |pages| ==> Drained(t.hash, pages[p].turns)
    ensures Flush(t, pages).0 == t
  {
    if pages != [] {
      assert Drained(t.hash, pages[0].turns);
      DrainedTurnsChangeNothing(t, pages[0].turns, Scanned(t.hash, pages[0].turns));
      if FlushPage(t, pages[0]).1 && pages[0].next != 0 {
        forall p | 0 <= p < |pages[1..]|
          ensures Drained(t.hash, pages[1..][p].turns)
        {
          assert Drained(t.hash, pages[p + 1].turns);
        }
        DrainedFlushChangesNothing(t, pages[1..]);
      }
    }
  }

  lemma {:induction false} ListedTurnsLive(questions: map<i64, Question>, turns: seq<Turn>, id: i64)
    requires AllSucceed(questions, turns) && Listed(turns, id) > 0
    ensures id in questions
  {
    if Decimal.ParseI64(turns[0].field) == Some(id) {
      assert Succeeds(questions, turns[0]);
    } else {
      forall i | 0 <= i < |turns[1..]|
        ensures Succeeds(questions, turns[1..][i])
      {
        assert Succeeds(questions, turns[i + 1]);
      }
      ListedTurnsLive(questions, turns[1..], id);
    }
  }

  lemma {:induction false} ListedPagesLive(questions: map<i64, Question>, pages: seq<Page>, id: i64)
    requires PagesSucceed(questions, pages) && ListedIn(pages, id) > 0
    ensures id in questions
  {
    if Listed(pages[0].turns, id) > 0 {
      ListedTurnsLive(questions, pages[0].turns, id);
    } else {
      ListedPagesLive(questions, pages[1..], id);
    }
  }

  /** An undisturbed flush that has not failed leaves the field of a question it lists once at 0. */
  lemma FlushedFieldIsZero(t: Tables, pages: seq<Page>, id: i64)
    requires Flush(t, pages).1 != Failed && Idle(pages) && Canonical(pages) && ListedIn(pages, id) == 1
    ensures var hash := Flush(t, pages).0.hash; Field(id) in hash && hash[Field(id)] == 0
    ensures id in t.questions && id in Flush(t, pages).0.questions
    ensures Flush(t, pages).0.questions[id] ==
            t.questions[id].(readCount := t.questions[id].readCount + Pending(t.hash, Field(id)))
  {
    FlushCompletesIff(t, pages);
    ListedPagesLive(t.questions, pages, id);
    FlushDrains(t, pages, id);
    IdlePages(pages, id);
  }

  /** The fields of `again` were each listed once by `pages`. */
  predicate ListsOnly(again: seq<Page>, pages: seq<Page>) {
    forall p, i :: 0 <= p < |again| && 0 <= i < |again[p].turns| ==>
      var id := Decimal.ParseI64(again[p].turns[i].field);
      id.Some? && ListedIn(pages, id.value) == 1
  }

  /** A second flush. After an undisturbed flush that did not fail, flushing again any fields it listed
      once changes nothing, whether the second flush completes or not. */
  lemma SecondFlushChangesNothing(t: Tables, pages: seq<Page>, again: seq<Page>)
    requires Flush(t, pages).1 != Failed && Idle(pages) && Canonical(pages)
    requires Idle(again) && Canonical(again) && ListsOnly(again, pages)
    ensures Flush(Flush(t, pages).0, again).0 == Flush(t, pages).0
  {
    var t' := Flush(t, pages).0;
    forall p | 0 <= p < |again|
      ensures Drained(t'.hash, again[p].turns)
    {
      forall i | 0 <= i < |again[p].turns|
        ensures again[p].turns[i].field in t'.hash && t'.hash[again[p].turns[i].field] == 0
      {
        assert CanonicalTurns(again[p].turns);
        FlushedFieldIsZero(t, pages, Decimal.ParseI64(again[p].turns[i].field).value);
      }
    }
    DrainedFlushChangesNothing(t', again);
  }

  // The repository

  class QuestionRepository {
    var questions: map<i64, Question>
    var nextId: int
    var hash: map<string, int>

    constructor ()
      ensures State() == Tables(map[], 1, map[])
    {
      questions, nextId, hash := map[], 1, map[];
    }

    function State(): Tables
      reads this
    {
      Tables(questions, nextId, hash)
    }

    /** `hincr(.., 1)`: refused if the field is full; the reply of a negative field is read as a `u64`
        by two's complement. */
    method Incr(targetId: u64) returns (r: Option<u64>)
      modifies this`hash
      ensures r.Some? <==> InI64(Pending(old(hash), Field(targetId)) + 1)
      ensures r.Some? ==> hash == Hincr(old(hash), Field(targetId), 1) && AsI64(r.value) == hash[Field(targetId)]
      ensures r.None? ==> hash == old(hash)
    {
      var value := Pending(hash, Field(targetId)) + 1;
      if !InI64(value) {
        return None;
      }
      hash := Hincr(hash, Field(targetId), 1);
      return Some(AsU64(value));
    }

    /** Increments by other requests, between two steps of a flush. */
    method Arrive(fields: seq<string>)
      modifies this`hash
      ensures hash == HincrAll(old(hash), fields)
    {
      var i := 0;
      while i < |fields|
        invariant 0 <= i <= |fields|
        invariant HincrAll(hash, fields[i..]) == HincrAll(old(hash), fields)
      {
        hash := Hincr(hash, fields[i], 1);
        i := i + 1;
      }
    }

    method UpdateReadCount(targetId: i64, increment: int, fault: Option<Write>) returns (ok: bool)
      modifies this`questions, this`hash
      ensures (State(), ok) == Transfer(old(State()), targetId, increment, fault)
    {
      if fault == Some(RowWrite) || targetId !in questions {
        return false;
      }
      questions := AddToRow(questions, targetId, increment);
      if fault == Some(HashWrite) {
        return false;
      }
      hash := Hincr(hash, Field(targetId), -increment);
      return fault.None?;
    }

    /** One scan, sent `cursor`, and its replies; `None` is an error, otherwise the next cursor. */
    method RedisCmd(scan: map<u64, Page>, cursor: u64) returns (r: Option<u64>)
      modifies this`questions, this`hash
      ensures cursor !in scan ==> r.None? && State() == old(State())
      ensures cursor in scan ==> (State(), r.Some?) == FlushPage(old(State()), scan[cursor])
      ensures r.Some? ==> r.value == scan[cursor].next
    {
      if cursor !in scan {
        return None;
      }
      var page := scan[cursor];
      Arrive(page.before);
      var replies := Scanned(hash, page.turns);
      ghost var goal := FlushPage(old(State()), page);
      var i := 0;
      while i < |page.turns|
        invariant 0 <= i <= |page.turns|
        invariant FlushTurns(State(), page.turns[i..], replies[i..]) == goal
      {
        var turn := page.turns[i];
        assert page.turns[i..][0] == turn && page.turns[i..][1..] == page.turns[i + 1..];
        assert replies[i..][0] == replies[i] && replies[i..][1..] == replies[i + 1..];
        Arrive(turn.arrivals);
        var targetId := Decimal.ParseI64(turn.field);
        if targetId.None? {
          return None;
        }
        var ok := UpdateReadCount(targetId.value, replies[i], turn.fault);
        if !ok {
          return None;
        }
        i := i + 1;
      }
      return Some(page.next);
    }

    /** The flush loop, as far as the server is followed: it need never return cursor 0. */
    method HandlerRedisToPg(server: Server) returns (progress: Progress)
      modifies this`questions, this`hash
      ensures var flush := Flush(old(State()), Replies(server, 0, 0));
              && State() == flush.0
              && progress == if flush.1 == Ongoing && ScanFails(server, 0, 0) then Failed else flush.1
    {
      var cursor: u64 := 0;
      var round := 0;
      ghost var goal := Rounds(State(), server, 0, 0);
      RoundsFlushReplies(State(), server, 0, 0);
      while round < |server|
        invariant 0 <= round <= |server|
        invariant Rounds(State(), server, round, cursor) == goal
      {
        var next := RedisCmd(server[round], cursor);
        if next.None? {
          return Failed;
        }
        cursor := next.value;
        if cursor == 0 {
          return Done;
        }
        round := round + 1;
      }
      return Ongoing;
    }
  }
}
