# Trivia service: route-handler logic, modelled in Dafny

This project models the logic of the trivia web service's Flask route handlers in
`backend/flaskr/__init__.py`, taken out of their HTTP and database wiring:

- `get_all_questions` (module `Pagination`, and `QuestionStore.TriviaDb.GetAllQuestions`):
  the `page` argument defaults to 1. The start index is `(page-1)*10` and the end index is `start+10`.
  A page whose start index is at or past the number of questions is not found. Otherwise the reply
  is the Python slice `questions[start:end]` together with the full question count and the
  category dictionary. Python's slice semantics are modelled exactly, negative bounds included. So
  the model also covers the pages the handler does not validate: page 0 is an accepted empty page,
  and negative pages wrap round.
- `get_all_categories` (module `Categories`): the loop that fills the `{id: type}` dictionary.
  It is a method with a `for` loop, proved against the function `CategoriesDict`, in which a later
  row overwrites an earlier one with the same identifier, as in a Python dict.
- `delete_question` and `post_new_question` (class `QuestionStore.TriviaDb`): the question table is
  a `seq<Question>` field that the two methods update in place. Delete reports `NotFound` or removes
  exactly the question with that identifier. Create reports `BadRequest` when one of the four
  required fields is absent or `null`. Otherwise it appends exactly one question with a fresh identifier.
- `search_questions` (module `Search`): the questions whose text contains the search term, case
  ignored, in store order, with their count. The `ilike('%term%')` filter as written is modelled
  separately, with its `%` and `_` wildcards (see "## Findings").

HTTP outcomes are the enum `Status = Ok | BadRequest | NotFound` and the reply datatypes
`PageResult`, `ListReply` and `SearchResult`; status codes and JSON are not modelled.

## Model

| member | source | states |
|---|---|---|
| Pagination.PageNumber | backend/flaskr/__init__.py:68 | an absent `page` argument means page 1; a given one is used as is |
| Pagination.SliceBound | backend/flaskr/__init__.py:81 | a Python slice bound is taken as is inside `0..n`, counted from the end when negative, and clamped to `0..n` |
| Pagination.PySlice | backend/flaskr/__init__.py:81 | a Python slice with bounds `0 <= i <= j` is the contiguous run `i..j` cut off at the end of the list |
| Pagination.AcceptedPagesExactly | backend/flaskr/__init__.py:68-78 | for pages from 1 on, a page is accepted if and only if it is at most `ceil(total/10)`; page 1 of an empty store and page `ceil(total/10)+1` are not found |
| Pagination.AcceptedPageContents | backend/flaskr/__init__.py:69-81 | an accepted page from 1 on is exactly the questions from `(page-1)*10` up to `min(start+10, total)`, in store order, between 1 and 10 of them, and its total is the size of the whole store |
| Pagination.LastPageLength | backend/flaskr/__init__.py:69-81 | the last page is accepted and holds `total - (page-1)*10` questions, at most 10 |
| Pagination.QuestionOnItsPage | backend/flaskr/__init__.py:69-81 | every question `i` of the store is shown, as entry `i % 10` of page `i / 10 + 1` |
| Pagination.PagesFromIsSuffix | backend/flaskr/__init__.py:69-81 | the pages from `page` on, concatenated, are the store from that page's start index on |
| Pagination.PagesPartitionStore | backend/flaskr/__init__.py:73-81 | pages 1, 2, ... read in order give back the whole store, each question once |
| Pagination.PageZeroIsEmptyPage | backend/flaskr/__init__.py:68-81 | page 0 is not rejected: it is accepted as the empty slice `[-10:0]` with the full count |
| Pagination.NegativePageWraps | backend/flaskr/__init__.py:68-81 | a negative page wraps round through negative slicing: page -1 of 25 questions shows questions 5 to 14 |
| Categories.BuildCategoriesDict | backend/flaskr/__init__.py:45-48 | the loop builds exactly the dictionary of inserting each category row in order |
| Categories.CategoriesDictKeys | backend/flaskr/__init__.py:45-48 | the dictionary's keys are exactly the category identifiers |
| Categories.CategoriesDictLastWins | backend/flaskr/__init__.py:45-48 | an identifier maps to the type of the last row that carries it |
| Categories.CategoriesDictOfDistinct | backend/flaskr/__init__.py:87-90 | with distinct identifiers there is one entry per category, each identifier mapped to its own type |
| Categories.DistinctIdsCount | backend/flaskr/__init__.py:45-48 | with distinct identifiers the dictionary has as many entries as there are categories |
| Search.SearchTerm | backend/flaskr/__init__.py:172 | an absent `searchTerm` means the empty term |
| Search.SearchQuestions | backend/flaskr/__init__.py:172-184 | the reply holds exactly the store's questions that match the term, and `total_questions` is their number |
| Search.SearchMembership | backend/flaskr/__init__.py:160-162 | a question is found if and only if it is in the store and its text contains the term, case ignored |
| Search.SearchLength | backend/flaskr/__init__.py:173-176 | the search never returns more questions than the store holds |
| Search.SearchKeepsOrder | backend/flaskr/__init__.py:173-175 | results keep store order: searching a split store gives the results of each part, in order |
| Search.EmptyTermFindsAll | backend/flaskr/__init__.py:172-173 | the empty term finds every question, in store order |
| Search.SearchIgnoresTermCase | backend/flaskr/__init__.py:173 | the lower-cased and the upper-cased term find the same questions as the term itself |
| Search.SearchSameFolding | backend/flaskr/__init__.py:173 | two terms with the same lower-case form find the same questions |
| Search.LowerCaseTermFindsCapitalised | backend/test_flaskr.py:152-158 | the term "what" finds a question that starts "What" |
| Search.UnderscoreTermMatchesAnyText | backend/flaskr/__init__.py:173 | as written, the term "_" finds "Who?", which contains no underscore; the substring search does not |
| Search.PercentMatchesAll | backend/flaskr/__init__.py:173 | the ILIKE pattern `%` matches every text |
| Search.LiteralPrefix | backend/flaskr/__init__.py:173 | a wildcard-free term followed by `%` matches exactly the texts that start with the term, case ignored |
| Search.LeadingPercent | backend/flaskr/__init__.py:173 | `%` followed by a pattern matches exactly when the pattern matches some suffix of the text |
| Search.ILikeIsSubstringForPlainTerms | backend/flaskr/__init__.py:173 | for a term without `%`, `_` or `\`, `ilike('%term%')` holds if and only if the term is a case-insensitive substring |
| Search.SearchAsWrittenAgreesForPlainTerms | backend/flaskr/__init__.py:173 | for such terms the filter as written and the intended search return the same questions |
| QuestionStore.Validate | backend/flaskr/__init__.py:139-146 | a create request is rejected if and only if question, answer, category or difficulty is absent or `null`; an accepted one keeps the four values as given |
| QuestionStore.IndexOfId | backend/flaskr/__init__.py:111-113 | the lookup by identifier finds nothing if and only if no question has that identifier, and otherwise a position holding it |
| QuestionStore.AboveAllIds | backend/flaskr/__init__.py:155 | the next identifier of a seeded store is above every identifier in it |
| QuestionStore.WithoutIdMembership | backend/flaskr/__init__.py:116 | deleting `key` keeps exactly the questions whose identifier differs from `key`, and no question with `key` remains |
| QuestionStore.WithoutAbsentId | backend/flaskr/__init__.py:111-114 | deleting an identifier that is not in the store changes nothing |
| QuestionStore.WithoutIdAtIndex | backend/flaskr/__init__.py:116 | with distinct identifiers, deleting a present identifier removes just that question, closing up around its position |
| QuestionStore.WithoutPresentIdLength | backend/flaskr/__init__.py:116 | with distinct identifiers, deleting a present identifier shortens the store by exactly one |
| QuestionStore.WithoutIdKeepsDistinct | backend/flaskr/__init__.py:116 | deletion keeps question identifiers distinct |
| QuestionStore.WithoutIdAppend | backend/flaskr/__init__.py:116 | deletion works part by part: deleting from a joined store deletes from each part |
| QuestionStore.CreateThenDeleteRestores | backend/flaskr/__init__.py:149-155 | deleting the question just created gives back the store as it was before |
| QuestionStore.TriviaDb.GetAllCategories | backend/flaskr/__init__.py:42-50 | the categories reply is the dictionary built from the category rows |
| QuestionStore.TriviaDb.GetAllQuestions | backend/flaskr/__init__.py:66-99 | not found if and only if pagination rejects the page; otherwise the page, the full count, the category dictionary and no current category |
| QuestionStore.TriviaDb.DeleteQuestion | backend/flaskr/__init__.py:110-118 | not found, with the store unchanged, if and only if no question has the identifier; otherwise the store without that question, and identifiers stay distinct |
| QuestionStore.TriviaDb.PostNewQuestion | backend/flaskr/__init__.py:131-157 | bad request, with the store unchanged, if and only if a required field is absent or `null`; otherwise exactly one question is appended with the four given values and an identifier no stored question has |

## Left out

- Flask app construction, CORS and the `after_request` headers (backend/flaskr/__init__.py:11-34) are framework wiring and are not modelled.
- `jsonify`, HTTP status codes and the `success` flag: the model returns typed outcomes instead.
- The database: `Question.query`, `Category.query`, `insert()`, `delete()` and `format()` are replaced by an in-memory `seq` of records. Their order is taken as given. `Question.query.all()` (line 73) has no `order_by`, so the database itself promises no page order. `models.py` is not part of this model.
- Category rows are taken in the order given; the `order_by(Category.type)` sort of lines 43 and 85 is done by the database and is not modelled.
- Field types: `category` is modelled as a string and `difficulty` as an integer. The code accepts any JSON value other than `null` for these fields; it only tests each against `None`.
- A create request whose body is not a JSON object: `request.get_json()` or `.get` fails at lines 132-134 before the field check, and this is not modelled. The model's request always has the four fields, each present or absent/`null`.
- QuestionStore.TriviaDb.PostNewQuestion: the database assigns the new identifier. The model issues it from a counter `nextId`, and the code's callers rely only on its freshness.
- A non-integer `page` argument, for which `int()` raises at line 68: the argument is modelled as an optional integer.
- The search handler as it is reachable. Only its filtering is modelled, because three defects keep the handler from running as written:
  - line 172 passes `default=` as a keyword to `dict.get`, which raises `TypeError`;
  - the route at line 169 repeats `POST /questions` from line 130, so `post_new_question` handles those requests;
  - the test posts to `/questions/search`, which no route serves (backend/test_flaskr.py:154).
- Search.SearchAsWritten: ILIKE case folding depends on the database locale and is modelled as ASCII only. The backslash escape character of LIKE patterns is not modelled, so `SearchAsWritten` treats `\` as an ordinary character. The agreement lemmas exclude it.
- Category-filtered listing, quiz question selection and the error handlers are only TODO comments (backend/flaskr/__init__.py:186-211), so there is no code to model.
- The PostgreSQL test fixture (backend/test_flaskr.py:14-31) is test infrastructure.
- Concurrency between requests and the database's per-operation atomicity are not modelled. Each method is one atomic step.
- The handlers check less than a client might expect; the model follows the code:
  - a question with empty text is accepted;
  - a category that does not exist is accepted;
  - a difficulty outside 1 to 5 is accepted;
  - a page of 0 or below is not rejected as an invalid argument.

## Findings

| source | as written | input that shows it | evidently intended | confidence | as-written member | corrected member |
|---|---|---|---|---|---|---|
| backend/flaskr/__init__.py:173 | the term is pasted into an ILIKE pattern `'%term%'`, so `%` and `_` in the term act as wildcards | term `_`, store holding the question "Who?": the question is found though it contains no underscore | questions whose text contains the term as a substring (lines 160-162) | medium, not executed | Search.UnderscoreTermMatchesAnyText | Search.SearchQuestions |
