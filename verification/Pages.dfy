/** The two paginations: the keyset cursor over questions (crates/qa-svc/src/core/question.rs) and
    the offset pages of answers (crates/qa-svc/src/core/answer.rs and
    crates/qa-svc/src/domain/entity/answer.rs). */
module Pages {
  import opened Integers
  import opened Wrappers

  // `order by id desc`

  predicate IsLargest(ids: set<i64>, m: i64) {
    m in ids && forall id :: id in ids ==> id <= m
  }

  function Largest(ids: set<i64>): (m: i64)
    requires ids != {}
    ensures IsLargest(ids, m)
  {
    LargestExists(ids);
    var m :| m in ids && IsLargest(ids, m);
    m
  }

  lemma LargerWithOne(ids: set<i64>, x: i64, m: i64)
    requires x in ids && IsLargest(ids - {x}, m)
    ensures IsLargest(ids, if x > m then x else m)
  {
    forall id | id in ids
      ensures id <= if x > m then x else m
    {
      assert id == x || id in ids - {x};
    }
  }

  lemma {:induction false} LargestExists(ids: set<i64>)
    requires ids != {}
    ensures exists m :: IsLargest(ids, m)
  {
    var x :| x in ids;
    if ids - {x} == {} {
      assert forall id :: id in ids ==> id == x || id in ids - {x};
      assert IsLargest(ids, x);
    } else {
      LargestExists(ids - {x});
      var m :| IsLargest(ids - {x}, m);
      LargerWithOne(ids, x, m);
    }
  }

  function Descending(ids: set<i64>): seq<i64>
    decreases |ids|
  {
    if ids == {} then [] else [Largest(ids)] + Descending(ids - {Largest(ids)})
  }

  ghost predicate StrictlyDescending(s: seq<i64>) {
    forall i, j :: 0 <= i < j < |s| ==> s[i] > s[j]
  }

  lemma {:induction false} DescendingSorts(ids: set<i64>)
    ensures StrictlyDescending(Descending(ids))
    ensures forall id :: id in Descending(ids) <==> id in ids
    ensures |Descending(ids)| == |ids|
    decreases |ids|
  {
    if ids != {} {
      var rest := ids - {Largest(ids)};
      DescendingSorts(rest);
      forall j | 1 <= j < |Descending(ids)|
        ensures Descending(ids)[j] < Largest(ids)
      {
        assert Descending(ids)[j] == Descending(rest)[j - 1] && Descending(rest)[j - 1] in rest;
      }
    }
  }

  function MinInt(a: int, b: int): int {
    if a <= b then a else b
  }

  function Take(s: seq<i64>, n: nat): seq<i64> {
    if n <= |s| then s[..n] else s
  }

  function Drop(s: seq<i64>, n: nat): seq<i64> {
    if n <= |s| then s[n..] else []
  }

  // The keyset walk over questions

  datatype QueryError =
    | LimitTooLarge
    | CursorTooLarge
    | PageSizeZero
    | QuestionIdTooLarge
    | PageSizeTooLarge
    | PageNumberTooLarge
    | OffsetOverflow
    | NegativeOffset
    | InvalidPage(error: PaginationError)

  datatype LatestQuestions = LatestQuestions(questions: seq<i64>, lastId: Option<i64>, isEnd: bool)

  function Below(ids: set<i64>, lastId: u64): set<i64> {
    if lastId == 0 then ids else set id | id in ids && id < lastId
  }

  /** `QuestionRepository::find_latest`; `ids` are the ids in the table. */
  function FindLatestQuestions(ids: set<i64>, lastId: u64, limit: u64): Result<LatestQuestions, QueryError> {
    if limit > I64_MAX then Err(LimitTooLarge)
    else if lastId > I64_MAX then Err(CursorTooLarge)
    else
      var questions := Take(Descending(Below(ids, lastId)), limit);
      var last := if questions == [] then None else Some(questions[|questions| - 1]);
      Ok(LatestQuestions(questions, last, |questions| < limit))
  }

  datatype QuestionPage = QuestionPage(lastId: u64, isEnd: bool, questions: seq<i64>)

  /** The reply of `latest_question`: an empty page is the end, whatever the limit. */
  function LatestQuestion(ids: set<i64>, lastId: u64, limit: u64): Result<QuestionPage, QueryError> {
    var found := FindLatestQuestions(ids, lastId, limit);
    if found.Err? then Err(found.error)
    else
      var r := found.value;
      if r.questions == [] then Ok(QuestionPage(0, true, []))
      else Ok(QuestionPage(AsU64(r.lastId.value), r.isEnd, r.questions))
  }

  /** The table each page of a walk reads: rows may come and go in any way between pages, but ids
      are drawn from a sequence that starts at 1. */
  ghost predicate Serial(table: nat -> set<i64>) {
    forall page: nat, id :: id in table(page) ==> id >= 1
  }

  /** Only a limit or a cursor above the bigint range is refused, and limit 0 ends at once. */
  lemma LatestQuestionOkIff(ids: set<i64>, lastId: u64, limit: u64)
    ensures var r := LatestQuestion(ids, lastId, limit);
            && (r == Err(LimitTooLarge) <==> limit > 0x7fff_ffff_ffff_ffff)
            && (r == Err(CursorTooLarge) <==> limit <= 0x7fff_ffff_ffff_ffff && lastId > 0x7fff_ffff_ffff_ffff)
            && (r.Ok? <==> limit <= 0x7fff_ffff_ffff_ffff && lastId <= 0x7fff_ffff_ffff_ffff)
            && (limit == 0 && r.Ok? ==> r.value == QuestionPage(0, true, []))
  {
  }

  /** The cursor of a page is its last id, on the last page too, and 0 if the page is empty. */
  lemma CursorIsLastId(ids: set<i64>, lastId: u64, limit: u64)
    requires LatestQuestion(ids, lastId, limit).Ok?
    requires forall id :: id in ids ==> id >= 1
    ensures var page := LatestQuestion(ids, lastId, limit).value;
            && (page.questions == [] ==> page.lastId == 0 && page.isEnd)
            && (page.questions != [] ==>
                  page.lastId == page.questions[|page.questions| - 1] && (page.isEnd <==> |page.questions| < limit))
  {
    if limit > 0 {
      PageShape(ids, lastId, limit);
    }
    var page := LatestQuestion(ids, lastId, limit).value;
    if page.questions != [] {
      assert page.questions[|page.questions| - 1] in page.questions;
    }
  }

  predicate InReach(id: i64, lastId: u64) {
    id >= 1 && (lastId == 0 || id < lastId)
  }

  /** One page: in descending order, all of it in reach of the cursor, full unless it is the end;
      and nothing in reach above the new cursor is skipped. */
  ghost predicate WellShaped(page: QuestionPage, ids: set<i64>, lastId: u64, limit: u64) {
    && StrictlyDescending(page.questions) && |page.questions| <= limit
    && (forall id :: id in page.questions ==> id in ids && InReach(id, lastId) && (page.isEnd || id >= page.lastId))
    && (page.isEnd <==> |page.questions| < limit)
    && (!page.isEnd ==> 1 <= page.lastId <= I64_MAX && InReach(page.lastId, lastId))
    && (forall id :: id in ids && InReach(id, lastId) && (page.isEnd || id >= page.lastId) ==> id in page.questions)
  }

  /** The first `limit` of all ids in descending order: nothing above the last of them is missing. */
  lemma TopIds(all: seq<i64>, limit: nat)
    requires limit > 0 && StrictlyDescending(all)
    ensures var top := Take(all, limit);
            && StrictlyDescending(top) && |top| <= limit
            && (forall id :: id in top ==> id in all && top[|top| - 1] <= id)
            && (forall id :: id in all && (|top| < limit || top[|top| - 1] <= id) ==> id in top)
  {
    var top := Take(all, limit);
    forall id | id in top
      ensures id in all && top[|top| - 1] <= id
    {
      var i :| 0 <= i < |top| && top[i] == id;
      assert all[i] == id;
    }
    forall id | id in all && (|top| < limit || top[|top| - 1] <= id)
      ensures id in top
    {
      TopHas(all, limit, id);
    }
  }

  lemma TopHas(all: seq<i64>, limit: nat, id: i64)
    requires limit > 0 && StrictlyDescending(all) && id in all
    requires |all| < limit || all[MinInt(limit, |all|) - 1] <= id
    ensures id in Take(all, limit)
  {
    var k :| 0 <= k < |all| && all[k] == id;
    assert k < MinInt(limit, |all|);
    assert Take(all, limit)[k] == id;
  }

  /** The same of a set's largest ids. */
  lemma TopOf(ids: set<i64>, limit: nat)
    requires limit > 0
    ensures var top := Take(Descending(ids), limit);
            && StrictlyDescending(top) && |top| <= limit
            && (forall id :: id in top ==> id in ids && top[|top| - 1] <= id)
            && (forall id :: id in ids && (|top| < limit || top[|top| - 1] <= id) ==> id in top)
  {
    DescendingSorts(ids);
    TopIds(Descending(ids), limit);
  }

  lemma PageShape(ids: set<i64>, lastId: u64, limit: u64)
    requires 1 <= limit <= I64_MAX && lastId <= I64_MAX
    requires forall id :: id in ids ==> id >= 1
    ensures LatestQuestion(ids, lastId, limit).Ok?
    ensures WellShaped(LatestQuestion(ids, lastId, limit).value, ids, lastId, limit)
  {
    var below := Below(ids, lastId);
    var top := Take(Descending(below), limit);
    var page := LatestQuestion(ids, lastId, limit).value;
    TopOf(below, limit);
    assert page.questions == top;
    assert forall id :: id in below <==> id in ids && InReach(id, lastId);
    if !page.isEnd {
      assert top[|top| - 1] in top;
      assert page.lastId == top[|top| - 1];
    }
  }

  lemma NextCursor(ids: set<i64>, lastId: u64, limit: u64)
    requires 1 <= limit <= I64_MAX && lastId <= I64_MAX
    requires forall id :: id in ids ==> id >= 1
    ensures LatestQuestion(ids, lastId, limit).Ok?
    ensures var page := LatestQuestion(ids, lastId, limit).value;
            !page.isEnd ==> 1 <= page.lastId <= I64_MAX && (lastId == 0 || page.lastId < lastId)
  {
    PageShape(ids, lastId, limit);
  }

  /** Following `last_id` from page `k` until `is_end`; each page reads the table of its turn. */
  ghost function Walk(table: nat -> set<i64>, k: nat, lastId: u64, limit: u64): (pages: seq<seq<i64>>)
    requires Serial(table) && 1 <= limit <= I64_MAX && lastId <= I64_MAX
    ensures |pages| > 0
    decreases if lastId == 0 then I64_MAX + 1 else lastId
  {
    NextCursor(table(k), lastId, limit);
    var page := LatestQuestion(table(k), lastId, limit).value;
    if page.isEnd then [page.questions]
    else [page.questions] + Walk(table, k + 1, page.lastId, limit)
  }

  function Concat(pages: seq<seq<i64>>): seq<i64> {
    if pages == [] then [] else pages[0] + Concat(pages[1..])
  }

  lemma {:induction false} WalkDescends(table: nat -> set<i64>, k: nat, lastId: u64, limit: u64)
    requires Serial(table) && 1 <= limit <= I64_MAX && lastId <= I64_MAX
    ensures StrictlyDescending(Concat(Walk(table, k, lastId, limit)))
    ensures forall id :: id in Concat(Walk(table, k, lastId, limit)) ==> InReach(id, lastId)
    decreases if lastId == 0 then I64_MAX + 1 else lastId
  {
    PageShape(table(k), lastId, limit);
    var page := LatestQuestion(table(k), lastId, limit).value;
    var pages := Walk(table, k, lastId, limit);
    if page.isEnd {
      assert Concat(pages[1..]) == [];
      assert Concat(pages) == page.questions;
    } else {
      WalkDescends(table, k + 1, page.lastId, limit);
      assert pages[1..] == Walk(table, k + 1, page.lastId, limit);
      var rest := Concat(pages[1..]);
      assert Concat(pages) == page.questions + rest;
      assert forall i :: 0 <= i < |rest| ==> rest[i] in rest;
      assert forall i :: 0 <= i < |page.questions| ==> page.questions[i] in page.questions;
    }
  }

  /** A page either has an id in reach of its cursor or leaves it in reach of the next. */
  lemma PageHasOrPasses(ids: set<i64>, lastId: u64, limit: u64, id: i64)
    requires 1 <= limit <= I64_MAX && lastId <= I64_MAX && (forall x :: x in ids ==> x >= 1)
    requires id in ids && (lastId == 0 || id < lastId)
    ensures LatestQuestion(ids, lastId, limit).Ok?
    ensures var page := LatestQuestion(ids, lastId, limit).value;
            id in page.questions || (!page.isEnd && id < page.lastId)
  {
    PageShape(ids, lastId, limit);
  }

  lemma {:induction false} WalkFinds(table: nat -> set<i64>, k: nat, lastId: u64, limit: u64, id: i64)
    requires Serial(table) && 1 <= limit <= I64_MAX && lastId <= I64_MAX
    requires lastId == 0 || id < lastId
    requires forall j :: k <= j < k + |Walk(table, k, lastId, limit)| ==> id in table(j)
    ensures id in Concat(Walk(table, k, lastId, limit))
    decreases if lastId == 0 then I64_MAX + 1 else lastId
  {
    var pages := Walk(table, k, lastId, limit);
    assert id in table(k);
    NextCursor(table(k), lastId, limit);
    PageHasOrPasses(table(k), lastId, limit, id);
    var page := LatestQuestion(table(k), lastId, limit).value;
    assert pages[0] == page.questions;
    if id !in pages[0] {
      assert pages[1..] == Walk(table, k + 1, page.lastId, limit);
      WalkFinds(table, k + 1, page.lastId, limit, id);
    }
    assert Concat(pages) == pages[0] + Concat(pages[1..]);
  }

  /** Page `j` of the walk was read from its own table, and is full exactly if it is not the last. */
  ghost predicate PageOf(page: seq<i64>, ids: set<i64>, limit: u64, last: bool) {
    (forall id :: id in page ==> id in ids) && |page| <= limit && (|page| == limit <==> !last)
  }

  lemma FirstPageOf(table: nat -> set<i64>, k: nat, lastId: u64, limit: u64)
    requires Serial(table) && 1 <= limit <= I64_MAX && lastId <= I64_MAX
    ensures var pages := Walk(table, k, lastId, limit);
            PageOf(pages[0], table(k), limit, |pages| == 1)
  {
    PageShape(table(k), lastId, limit);
  }

  /** The tail of a walk is the walk from its first page's cursor. */
  lemma WalkTail(table: nat -> set<i64>, k: nat, lastId: u64, limit: u64) returns (next: u64)
    requires Serial(table) && 1 <= limit <= I64_MAX && lastId <= I64_MAX
    requires |Walk(table, k, lastId, limit)| > 1
    ensures next <= I64_MAX && Walk(table, k, lastId, limit)[1..] == Walk(table, k + 1, next, limit)
  {
    NextCursor(table(k), lastId, limit);
    next := LatestQuestion(table(k), lastId, limit).value.lastId;
  }

  lemma {:induction false} WalkPages(table: nat -> set<i64>, k: nat, lastId: u64, limit: u64,
                                     pages: seq<seq<i64>>, j: nat)
    requires Serial(table) && 1 <= limit <= I64_MAX && lastId <= I64_MAX
    requires pages == Walk(table, k, lastId, limit) && j < |pages|
    ensures PageOf(pages[j], table(k + j), limit, j == |pages| - 1)
    decreases j
  {
    if j == 0 {
      FirstPageOf(table, k, lastId, limit);
    } else {
      var next := WalkTail(table, k, lastId, limit);
      WalkPages(table, k + 1, next, limit, pages[1..], j - 1);
      assert k + 1 + (j - 1) == k + j;
    }
  }

  /** The walk from cursor 0 ends after finitely many pages whatever is written meanwhile. Its ids
      are strictly descending, so none comes twice; every question present on all its pages is
      returned exactly once; and every page is full but the last, and read from its own table. */
  lemma WalkReturnsEachStableQuestionOnce(table: nat -> set<i64>, limit: u64)
    requires Serial(table) && 1 <= limit <= I64_MAX
    ensures var pages := Walk(table, 0, 0, limit);
            && StrictlyDescending(Concat(pages))
            && (forall id :: (forall j :: 0 <= j < |pages| ==> id in table(j)) ==> multiset(Concat(pages))[id] == 1)
            && (forall j :: 0 <= j < |pages| ==> PageOf(pages[j], table(j), limit, j == |pages| - 1))
  {
    var pages := Walk(table, 0, 0, limit);
    WalkDescends(table, 0, 0, limit);
    forall j | 0 <= j < |pages|
      ensures PageOf(pages[j], table(j), limit, j == |pages| - 1)
    {
      WalkPages(table, 0, 0, limit, pages, j);
    }
    forall id | forall j :: 0 <= j < |pages| ==> id in table(j)
      ensures multiset(Concat(pages))[id] == 1
    {
      WalkFinds(table, 0, 0, limit, id);
      DescendingHasOnce(Concat(pages), id);
    }
  }

  lemma {:induction false} DescendingHasOnce(s: seq<i64>, id: i64)
    requires StrictlyDescending(s) && id in s
    ensures multiset(s)[id] == 1
  {
    assert s == [s[0]] + s[1..];
    if s[0] == id {
      assert id !in s[1..];
      assert id !in multiset(s[1..]);
    } else {
      assert id in s[1..];
      DescendingHasOnce(s[1..], id);
    }
  }

  // The offset pages of answers

  datatype PaginationError = NegativeTotal(total: i64) | InvalidPageSize(size: i64) | InvalidCurrentPage(page: i64)

  datatype LatestAnswers =
    LatestAnswers(answers: seq<i64>, total: i64, totalPage: i64, pageSize: i64, currentPage: i64, isEnd: bool)

  /** `LatestAnswerResponse::try_new`. The page count fits an i64 for every input. */
  function TryNew(answers: seq<i64>, total: i64, pageSize: i64, currentPage: i64)
    : Result<LatestAnswers, PaginationError>
  {
    if total < 0 then Err(NegativeTotal(total))
    else if pageSize <= 0 then Err(InvalidPageSize(pageSize))
    else if currentPage <= 0 then Err(InvalidCurrentPage(currentPage))
    else
      PageCountFits(total, pageSize);
      var totalPage: i64 := total / pageSize + if total % pageSize != 0 then 1 else 0;
      Ok(LatestAnswers(answers, total, totalPage, pageSize, currentPage, totalPage == 0 || currentPage >= totalPage))
  }

  /** Exactly which page arithmetic is refused, and why; the rest of the reply is what was passed in. */
  lemma TryNewIff(answers: seq<i64>, total: i64, pageSize: i64, currentPage: i64)
    ensures var r := TryNew(answers, total, pageSize, currentPage);
            && (r == Err(NegativeTotal(total)) <==> total < 0)
            && (r == Err(InvalidPageSize(pageSize)) <==> total >= 0 && pageSize <= 0)
            && (r == Err(InvalidCurrentPage(currentPage)) <==> total >= 0 && pageSize > 0 && currentPage <= 0)
            && (r.Ok? <==> total >= 0 && pageSize > 0 && currentPage > 0)
            && (r.Ok? ==> r.value.answers == answers && r.value.total == total
                          && r.value.pageSize == pageSize && r.value.currentPage == currentPage)
  {
  }

  lemma Scale(a: int, b: int, c: int)
    requires a <= b && c >= 0
    ensures a * c <= b * c
  {
  }

  lemma PageCountFits(total: i64, pageSize: i64)
    requires total >= 0 && pageSize > 0
    ensures 0 <= total / pageSize + (if total % pageSize != 0 then 1 else 0) <= total
  {
    var q: int := total / pageSize;
    Scale(1, pageSize, q);
    assert total == pageSize * q + total % pageSize;
  }

  /** The page count is the least number of pages that hold `total` rows, and a page is the last
      exactly if nothing follows it. */
  lemma PageCountIsLeast(answers: seq<i64>, total: i64, pageSize: i64, currentPage: i64, n: int)
    requires TryNew(answers, total, pageSize, currentPage).Ok?
    ensures var r := TryNew(answers, total, pageSize, currentPage).value;
            && (n * pageSize >= total <==> n >= r.totalPage)
            && (r.isEnd <==> currentPage * pageSize >= total)
            && (1 <= n <= r.totalPage ==> 0 <= (n - 1) * pageSize < total)
  {
    var t := TryNew(answers, total, pageSize, currentPage).value.totalPage;
    CoversIff(total, pageSize, t, n);
    CoversIff(total, pageSize, t, n - 1);
    CoversIff(total, pageSize, t, currentPage);
    if 1 <= n {
      Scale(0, n - 1, pageSize);
    }
  }

  lemma CoversIff(total: int, size: int, pages: int, n: int)
    requires total >= 0 && size > 0 && pages == total / size + if total % size != 0 then 1 else 0
    ensures n * size >= total <==> n >= pages
  {
    var q, r := total / size, total % size;
    assert total == q * size + r;
    if n <= q - 1 {
      Scale(n, q - 1, size);
      assert (q - 1) * size == q * size - size;
    } else if n >= q + 1 {
      Scale(q + 1, n, size);
      assert (q + 1) * size == q * size + size;
    }
  }

  /** The ids of the answers of one question; the table maps an answer's id to its question's. */
  function AnswersOf(table: map<i64, i64>, questionId: i64): set<i64> {
    set id | id in table && table[id] == questionId
  }

  /** `count(*)` over the table fits a bigint. */
  predicate Countable(table: map<i64, i64>) {
    |table| <= I64_MAX
  }

  lemma AnswersCountable(table: map<i64, i64>, questionId: i64)
    requires Countable(table)
    ensures |AnswersOf(table, questionId)| <= I64_MAX
  {
    assert AnswersOf(table, questionId) <= table.Keys;
    Smaller(AnswersOf(table, questionId), table.Keys);
  }

  lemma Smaller(a: set<i64>, b: set<i64>)
    requires a <= b
    ensures |a| <= |b|
  {
    assert b == a + (b - a);
  }

  /** `AnswerRepository::find_latest`: the table as the counting and as the selecting query see it. A
      negative offset is refused by the database. */
  function FindLatestAnswers(atCount: map<i64, i64>, atSelect: map<i64, i64>, questionId: u64, limit: u64,
                             currentPage: u64): Result<LatestAnswers, QueryError>
    requires Countable(atCount)
  {
    if limit == 0 then Err(PageSizeZero)
    else if questionId > I64_MAX then Err(QuestionIdTooLarge)
    else if limit > I64_MAX then Err(PageSizeTooLarge)
    else if currentPage > I64_MAX then Err(PageNumberTooLarge)
    else
      var offset := (currentPage as int - 1) * limit;
      if !InI64(offset) then Err(OffsetOverflow)
      else if offset < 0 then Err(NegativeOffset)
      else
        AnswersCountable(atCount, questionId);
        var answers := Take(Drop(Descending(AnswersOf(atSelect, questionId)), offset), limit);
        match TryNew(answers, |AnswersOf(atCount, questionId)|, limit, currentPage)
        case Err(e) => Err(InvalidPage(e))
        case Ok(r) => Ok(r)
  }

  lemma OffsetSign(page: int, limit: int)
    requires limit >= 1
    ensures (page - 1) * limit >= 0 <==> page >= 1
    ensures page == 0 ==> (page - 1) * limit == -limit
  {
    if page >= 1 {
      Scale(0, page - 1, limit);
    } else {
      Scale(page - 1, -1, limit);
    }
  }

  /** Exactly which requests are answered and why the others are refused; page 0 only by its offset. */
  lemma FindLatestAnswersOkIff(atCount: map<i64, i64>, atSelect: map<i64, i64>, questionId: u64, limit: u64,
                               currentPage: u64)
    requires Countable(atCount)
    ensures var r := FindLatestAnswers(atCount, atSelect, questionId, limit, currentPage);
            var max, offset := 0x7fff_ffff_ffff_ffff, (currentPage as int - 1) * limit;
            && (r == Err(PageSizeZero) <==> limit == 0)
            && (r == Err(QuestionIdTooLarge) <==> limit > 0 && questionId > max)
            && (r == Err(PageSizeTooLarge) <==> questionId <= max && limit > max)
            && (r == Err(PageNumberTooLarge) <==> 1 <= limit <= max && questionId <= max && currentPage > max)
            && (r == Err(OffsetOverflow) <==>
               1 <= limit <= max && questionId <= max && currentPage <= max && offset > max)
            && (r == Err(NegativeOffset) <==> 1 <= limit <= max && questionId <= max && currentPage == 0)
            && (r.Ok? <==> 1 <= limit <= max && questionId <= max && 1 <= currentPage <= max && offset <= max)
  {
    if limit >= 1 {
      OffsetSign(currentPage, limit);
    }
  }

  function Elements(s: seq<i64>): set<i64> {
    set x | x in s
  }

  lemma {:induction false} DistinctSize(s: seq<i64>)
    requires StrictlyDescending(s)
    ensures |Elements(s)| == |s|
  {
    if s != [] {
      var head, last := s[..|s| - 1], s[|s| - 1];
      DistinctSize(head);
      assert s == head + [last];
      assert Elements(s) == Elements(head) + {last};
      assert last !in head;
    }
  }

  /** The element at `i` of a descending sequence has exactly `i` larger ones. */
  lemma Rank(ids: set<i64>, s: seq<i64>, i: nat)
    requires StrictlyDescending(s) && (forall id :: id in s <==> id in ids) && i < |s|
    ensures |set x | x in ids && x > s[i]| == i
  {
    var larger := s[..i];
    DistinctSize(larger);
    forall x
      ensures x in ids && x > s[i] <==> x in larger
    {
      if x in ids && x > s[i] {
        var k :| 0 <= k < |s| && s[k] == x;
        assert k < i;
        assert larger[k] == x;
      }
    }
    assert (set x | x in ids && x > s[i]) == Elements(larger);
  }

  /** What a window over all ids holds, wherever it starts. */
  lemma WindowRows(ids: set<i64>, offset: nat, limit: nat)
    ensures var rows := Take(Drop(Descending(ids), offset), limit);
            && |rows| == (if |ids| <= offset then 0 else if |ids| - offset <= limit then |ids| - offset else limit)
            && (forall i :: 0 <= i < |rows| ==> rows[i] in ids && |set x | x in ids && x > rows[i]| == offset + i)
  {
    var rows := Take(Drop(Descending(ids), offset), limit);
    DescendingSorts(ids);
    forall i | 0 <= i < |rows|
      ensures rows[i] in ids && |set x | x in ids && x > rows[i]| == offset + i
    {
      assert rows[i] == Descending(ids)[offset + i];
      Rank(ids, Descending(ids), offset + i);
    }
  }

  /** What an answered request holds, in terms of its offset. */
  lemma AnsweredAt(atCount: map<i64, i64>, atSelect: map<i64, i64>, questionId: u64, limit: u64, page: u64, offset: int)
    requires Countable(atCount) && FindLatestAnswers(atCount, atSelect, questionId, limit, page).Ok?
    requires offset == (page as int - 1) * limit && 1 <= limit <= I64_MAX && 1 <= page <= I64_MAX
    ensures var r := FindLatestAnswers(atCount, atSelect, questionId, limit, page).value;
            && 0 <= offset && r.answers == Take(Drop(Descending(AnswersOf(atSelect, questionId)), offset), limit)
            && r.total == |AnswersOf(atCount, questionId)| && r.pageSize == limit && r.currentPage == page
            && TryNew(r.answers, r.total, limit, page) == Ok(r)
  {
    AnswersCountable(atCount, questionId);
  }

  /** Every answered request, past the last page too, and with the table changing between its two queries:
      the rows are the question's at the select, the ones with as many larger ids as the offset says, as many
      as a page takes or as are left; the total is the question's at the count. */
  lemma AnsweredRequest(atCount: map<i64, i64>, atSelect: map<i64, i64>, questionId: u64, limit: u64, page: u64)
    requires Countable(atCount) && FindLatestAnswers(atCount, atSelect, questionId, limit, page).Ok?
    ensures var r := FindLatestAnswers(atCount, atSelect, questionId, limit, page).value;
            var rows := set id | id in atSelect && atSelect[id] == questionId;
            var offset := (page as int - 1) * limit;
            && |r.answers| ==
               (if |rows| <= offset then 0 else if |rows| - offset <= limit then |rows| - offset else limit)
            && (forall i :: 0 <= i < |r.answers| ==>
                  r.answers[i] in rows && |set x | x in rows && x > r.answers[i]| == offset + i)
            && r.total == |set id | id in atCount && atCount[id] == questionId|
            && r.pageSize == limit && r.currentPage == page && (r.isEnd <==> page * limit >= r.total)
  {
    FindLatestAnswersOkIff(atCount, atSelect, questionId, limit, page);
    AnsweredAt(atCount, atSelect, questionId, limit, page, (page as int - 1) * limit);
    var r := FindLatestAnswers(atCount, atSelect, questionId, limit, page).value;
    var rows := set id | id in atSelect && atSelect[id] == questionId;
    assert AnswersOf(atSelect, questionId) == rows;
    assert AnswersOf(atCount, questionId) == set id | id in atCount && atCount[id] == questionId;
    WindowRows(rows, (page as int - 1) * limit, limit);
    PageCountIsLeast(r.answers, r.total, limit, page, 0);
  }

  lemma WindowOf(s: seq<i64>, offset: nat, limit: nat)
    requires offset <= |s|
    ensures Take(Drop(s, offset), limit) == s[offset..MinInt(offset + limit, |s|)]
  {
  }

  function PageCount(total: int, size: int): int
    requires size > 0
  {
    total / size + if total % size != 0 then 1 else 0
  }

  /** An answered page, in terms of its offset. */
  lemma PageAtOffset(table: map<i64, i64>, questionId: u64, limit: u64, page: u64, offset: int)
    requires Countable(table) && questionId <= I64_MAX && 1 <= limit <= I64_MAX && 1 <= page <= I64_MAX
    requires offset == (page as int - 1) * limit && 0 <= offset <= |AnswersOf(table, questionId)|
    ensures var ids := AnswersOf(table, questionId);
            var r := FindLatestAnswers(table, table, questionId, limit, page);
            && r.Ok? && |Descending(ids)| == |ids|
            && r.value.answers == Descending(ids)[offset..MinInt(offset + limit, |ids|)]
            && r.value.totalPage == PageCount(|ids|, limit)
            && (r.value.isEnd <==> page >= r.value.totalPage)
  {
    var ids := AnswersOf(table, questionId);
    AnswersCountable(table, questionId);
    DescendingSorts(ids);
    WindowOf(Descending(ids), offset, limit);
  }

  /** Page `page` of a fixed table, if it is at most the page count, is answered without overflow: it
      holds the answers from its offset on, as many as a page takes or as are left, and says it is
      the end exactly if it is the last. */
  lemma AnswerPage(table: map<i64, i64>, questionId: u64, limit: u64, page: u64)
    requires Countable(table) && questionId <= I64_MAX && 1 <= limit <= I64_MAX
    requires 1 <= page <= PageCount(|AnswersOf(table, questionId)|, limit)
    ensures var ids := AnswersOf(table, questionId);
            var r := FindLatestAnswers(table, table, questionId, limit, page);
            var offset := (page as int - 1) * limit;
            && r.Ok? && |Descending(ids)| == |ids| && 0 <= offset < |ids|
            && r.value.answers == Descending(ids)[offset..MinInt(offset + limit, |ids|)]
            && r.value.totalPage == PageCount(|ids|, limit)
            && (r.value.isEnd <==> page == r.value.totalPage)
  {
    AnswersCountable(table, questionId);
    OffsetInside(|AnswersOf(table, questionId)|, limit, page);
    PageAtOffset(table, questionId, limit, page, (page as int - 1) * limit);
  }

  /** The answers on pages 1 to `n`. */
  function FirstPages(table: map<i64, i64>, questionId: u64, limit: u64, n: nat): seq<i64>
    requires Countable(table) && n < U64_MODULUS
  {
    if n == 0 then []
    else
      var r := FindLatestAnswers(table, table, questionId, limit, n);
      FirstPages(table, questionId, limit, n - 1) + if r.Ok? then r.value.answers else []
  }

  lemma PrefixGrows(s: seq<i64>, offset: nat, limit: nat)
    requires offset <= |s|
    ensures s[..offset] + s[offset..MinInt(offset + limit, |s|)] == s[..MinInt(offset + limit, |s|)]
  {
  }

  lemma NextOffset(n: int, limit: int)
    ensures (n - 1) * limit + limit == n * limit
  {
  }

  lemma OffsetInside(total: i64, limit: i64, page: int)
    requires total >= 0 && limit >= 1 && 1 <= page <= PageCount(total, limit)
    ensures 0 <= (page - 1) * limit < total && page <= I64_MAX
  {
    CoversIff(total, limit, PageCount(total, limit), page - 1);
    OffsetSign(page, limit);
    PageCountFits(total, limit);
  }

  /** The offset of page `n`, by where the page ends. */
  lemma OffsetOfEnd(total: i64, limit: i64, n: int, end: int)
    requires total >= 0 && limit >= 1 && 1 <= n <= PageCount(total, limit) && end == n * limit
    ensures end - limit == (n - 1) * limit && 0 <= end - limit < total && n <= I64_MAX
  {
    NextOffset(n, limit);
    OffsetInside(total, limit, n);
  }

  /** One more page makes the prefix one page longer. */
  lemma PrefixStep(table: map<i64, i64>, questionId: u64, limit: u64, n: nat, offset: int)
    requires Countable(table) && questionId <= I64_MAX && 1 <= limit <= I64_MAX
    requires 1 <= n <= I64_MAX && offset == (n - 1) * limit && 0 <= offset <= |AnswersOf(table, questionId)|
    requires var ids := AnswersOf(table, questionId);
             |Descending(ids)| == |ids| && FirstPages(table, questionId, limit, n - 1) == Descending(ids)[..offset]
    ensures var ids := AnswersOf(table, questionId);
            FirstPages(table, questionId, limit, n) == Descending(ids)[..MinInt(offset + limit, |ids|)]
  {
    FirstPagesStep(table, questionId, limit, n, offset);
    PrefixGrows(Descending(AnswersOf(table, questionId)), offset, limit);
  }

  lemma FirstPagesStep(table: map<i64, i64>, questionId: u64, limit: u64, n: nat, offset: int)
    requires Countable(table) && questionId <= I64_MAX && 1 <= limit <= I64_MAX
    requires 1 <= n <= I64_MAX && offset == (n - 1) * limit && 0 <= offset <= |AnswersOf(table, questionId)|
    ensures var ids := AnswersOf(table, questionId);
            && |Descending(ids)| == |ids|
            && FirstPages(table, questionId, limit, n) ==
               FirstPages(table, questionId, limit, n - 1) + Descending(ids)[offset..MinInt(offset + limit, |ids|)]
  {
    PageAtOffset(table, questionId, limit, n, offset);
  }

  lemma {:induction false} FirstPagesArePrefix(table: map<i64, i64>, questionId: u64, limit: u64, n: nat, end: int)
    requires Countable(table) && questionId <= I64_MAX && 1 <= limit <= I64_MAX
    requires n <= PageCount(|AnswersOf(table, questionId)|, limit) && end == n * limit
    ensures var ids := AnswersOf(table, questionId);
            && n <= I64_MAX && 0 <= end && |Descending(ids)| == |ids|
            && FirstPages(table, questionId, limit, n) == Descending(ids)[..MinInt(end, |ids|)]
    decreases n
  {
    var ids := AnswersOf(table, questionId);
    if n == 0 {
      DescendingSorts(ids);
    } else {
      var offset := end - limit;
      AnswersCountable(table, questionId);
      OffsetOfEnd(|ids|, limit, n, end);
      FirstPagesArePrefix(table, questionId, limit, n - 1, offset);
      PrefixStep(table, questionId, limit, n, offset);
    }
  }

  lemma AllPages(table: map<i64, i64>, questionId: u64, limit: u64, n: int)
    requires Countable(table) && questionId <= I64_MAX && 1 <= limit <= I64_MAX
    requires n == PageCount(|AnswersOf(table, questionId)|, limit)
    ensures 0 <= n <= I64_MAX
    ensures FirstPages(table, questionId, limit, n) == Descending(AnswersOf(table, questionId))
  {
    var ids := AnswersOf(table, questionId);
    AnswersCountable(table, questionId);
    PageCountFits(|ids|, limit);
    CoversIff(|ids|, limit, n, n);
    FirstPagesArePrefix(table, questionId, limit, n, n * limit);
    assert Descending(ids)[..|ids|] == Descending(ids);
  }

  /** For a fixed table, pages 1 to `total_page` put together are all the answers of the question, in
      descending order, each exactly once. */
  lemma PagesPartitionAnswers(table: map<i64, i64>, questionId: u64, limit: u64)
    requires Countable(table) && questionId <= I64_MAX && 1 <= limit <= I64_MAX
    ensures var ids := AnswersOf(table, questionId);
            var first := FindLatestAnswers(table, table, questionId, limit, 1);
            && first.Ok? && 0 <= first.value.totalPage
            && FirstPages(table, questionId, limit, first.value.totalPage) == Descending(ids)
            && StrictlyDescending(Descending(ids))
            && (forall id :: id in Descending(ids) <==> id in table && table[id] == questionId)
  {
    var ids := AnswersOf(table, questionId);
    PageAtOffset(table, questionId, limit, 1, 0);
    AllPages(table, questionId, limit, PageCount(|ids|, limit));
    DescendingSorts(ids);
  }
}
