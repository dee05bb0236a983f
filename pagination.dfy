/** Pagination of the question list done by the `GET /questions` handler. */
module Pagination {
  import opened TriviaTypes

  /** Questions shown on one page. */
  const QuestionsPerPage: nat := 10

  /** What the handler decides about a requested page: not found, or the page and the full count. */
  datatype PageResult = OutOfRange | Page(questions: seq<Question>, totalQuestions: nat)

  function Min(a: int, b: int): int { if a <= b then a else b }

  /** The `page` query argument; an absent argument means page 1. */
  function PageNumber(arg: Option<int>): (page: int)
    ensures arg.None? ==> page == 1
    ensures arg.Some? ==> page == arg.value
  {
    match arg
    case None => 1
    case Some(p) => p
  }

  /** Index of the first question of `page` (it is negative for pages below 1). */
  function PageStart(page: int): int
  {
    (page - 1) * QuestionsPerPage
  }

  /** Python's normalisation of one slice bound against a length `n`:
      a negative bound counts from the end, and the result is clamped to `0..n`. */
  function SliceBound(k: int, n: nat): (b: nat)
    ensures b <= n
    ensures 0 <= k <= n ==> b == k
    ensures k > n ==> b == n
    ensures k < 0 && 0 <= k + n ==> b == k + n
    ensures k + n < 0 ==> b == 0
  {
    if k < 0 then (if k + n < 0 then 0 else k + n)
    else if k > n then n
    else k
  }

  /** Python's `s[i:j]` (step 1). For non-negative bounds it is the run `i..j` cut off at the end of `s`. */
  function PySlice<T>(s: seq<T>, i: int, j: int): (r: seq<T>)
    ensures |r| <= |s|
    ensures 0 <= i <= j ==> r == s[Min(i, |s|)..Min(j, |s|)]
  {
    var lo, hi := SliceBound(i, |s|), SliceBound(j, |s|);
    if lo < hi then s[lo..hi] else []
  }

  /** The pagination of `get_all_questions`: reject a page whose start index is at or past the
      number of questions, otherwise return the slice `[start:start+10]` and the full count. */
  function Paginate(all: seq<Question>, page: int): PageResult
  {
    var start := PageStart(page);
    var finish := start + QuestionsPerPage;
    if start >= |all| then OutOfRange
    else Page(PySlice(all, start, finish), |all|)
  }

  /** Number of pages that hold questions: the ceiling of `total / 10`. */
  function PageCount(total: nat): nat
  {
    (total + QuestionsPerPage - 1) / QuestionsPerPage
  }

  /** For pages from 1 on, exactly the pages `1..PageCount(total)` are accepted; in particular page 1
      of an empty store and the page just past the last one are rejected. */
  lemma AcceptedPagesExactly(all: seq<Question>, page: int)
    requires page >= 1
    ensures Paginate(all, page).Page? <==> page <= PageCount(|all|)
    ensures |all| == 0 ==> Paginate(all, page) == OutOfRange
    ensures Paginate(all, PageCount(|all|) + 1) == OutOfRange
  {
  }

  /** An accepted page from 1 on is the contiguous run of the store from its start index up to ten
      questions further or the end of the store, in store order; it holds 1 to 10 questions, and the
      reported total is the size of the whole store. */
  lemma AcceptedPageContents(all: seq<Question>, page: int)
    requires page >= 1
    requires Paginate(all, page).Page?
    ensures var start := PageStart(page);
      && 0 <= start < |all|
      && Paginate(all, page).questions == all[start..Min(start + QuestionsPerPage, |all|)]
      && 1 <= |Paginate(all, page).questions| <= QuestionsPerPage
      && Paginate(all, page).totalQuestions == |all|
      && forall k :: 0 <= k < |Paginate(all, page).questions| ==> Paginate(all, page).questions[k] == all[start + k]
  {
  }

  /** The last page holds the remainder of the store: `total - (page-1)*10` questions, at most ten. */
  lemma LastPageLength(all: seq<Question>)
    requires |all| > 0
    ensures Paginate(all, PageCount(|all|)).Page?
    ensures |Paginate(all, PageCount(|all|)).questions| == |all| - PageStart(PageCount(|all|)) <= QuestionsPerPage
  {
  }

  /** Every question of the store is shown: question `i` is entry `i % 10` of page `i / 10 + 1`. */
  lemma QuestionOnItsPage(all: seq<Question>, i: nat)
    requires i < |all|
    ensures Paginate(all, i / QuestionsPerPage + 1).Page?
    ensures var p := Paginate(all, i / QuestionsPerPage + 1);
      i % QuestionsPerPage < |p.questions| && p.questions[i % QuestionsPerPage] == all[i]
  {
  }

  /** The questions of `page` and of every later page, concatenated. */
  function PagesFrom(all: seq<Question>, page: int): seq<Question>
    requires page >= 1
    decreases |all| - Min(PageStart(page), |all|)
  {
    match Paginate(all, page)
    case OutOfRange => []
    case Page(qs, _) => qs + PagesFrom(all, page + 1)
  }

  /** Reading the pages from `page` on yields the store from that page's start index on. */
  lemma {:induction false} PagesFromIsSuffix(all: seq<Question>, page: int)
    requires page >= 1
    ensures PagesFrom(all, page) == all[Min(PageStart(page), |all|)..]
    decreases |all| - Min(PageStart(page), |all|)
  {
    if Paginate(all, page).Page? {
      AcceptedPageContents(all, page);
      PagesFromIsSuffix(all, page + 1);
      var start := PageStart(page);
      assert PageStart(page + 1) == start + QuestionsPerPage;
      assert all[start..Min(start + QuestionsPerPage, |all|)] + all[Min(start + QuestionsPerPage, |all|)..] == all[start..];
    }
  }

  /** The pages 1, 2, ... read in order give back the whole store, each question exactly once. */
  lemma PagesPartitionStore(all: seq<Question>)
    ensures PagesFrom(all, 1) == all
  {
    PagesFromIsSuffix(all, 1);
  }

  /** The handler does not validate `page <= 0`: page 0 is accepted as the empty slice `[-10:0]`. */
  lemma PageZeroIsEmptyPage(all: seq<Question>)
    ensures Paginate(all, 0) == Page([], |all|)
  {
  }

  /** A negative page wraps round through Python's negative indices: with 25 questions,
      page -1 is the slice `[-20:-10]`, questions 5 to 14. */
  lemma NegativePageWraps(all: seq<Question>)
    requires |all| == 25
    ensures Paginate(all, -1) == Page(all[5..15], 25)
  {
  }
}
