/** The question store behind the route handlers, with the handlers that read and change it:
    listing categories, listing a page of questions, deleting a question and creating one. */
module QuestionStore {
  import opened TriviaTypes
  import opened Pagination
  import opened Categories

  /** The body of a create request; `None` stands for a field that is absent or `null`
      (the handler reads each field with `get` and tests it against `None`). */
  datatype NewQuestionRequest = NewQuestionRequest(
    question: Option<string>, answer: Option<string>, category: Option<string>, difficulty: Option<int>)

  /** The four client-supplied values of a question that passed validation. */
  datatype Draft = Draft(question: string, answer: string, category: string, difficulty: int)

  /** The reply of `GET /questions`: not found, or the page with the full count and the category dictionary. */
  datatype ListReply =
    | PageNotFound
    | QuestionsPage(questions: seq<Question>, totalQuestions: nat, categories: map<int, string>, currentCategory: Option<int>)

  /** The required-field check of `post_new_question`: a request is turned down exactly when one of
      question, answer, category or difficulty is absent or `null`; otherwise its four values are kept as given
      (an empty string is present). */
  function Validate(req: NewQuestionRequest): (r: Option<Draft>)
    ensures r.None? <==> req.question.None? || req.answer.None? || req.category.None? || req.difficulty.None?
    ensures r.Some? ==>
      && r.value.question == req.question.value && r.value.answer == req.answer.value
      && r.value.category == req.category.value && r.value.difficulty == req.difficulty.value
  {
    match (req.question, req.answer, req.category, req.difficulty)
    case (Some(q), Some(a), Some(c), Some(d)) => Some(Draft(q, a, c, d))
    case _ => None
  }

  /** The lookup `Question.query.get(key)`: the position of the question with identifier `key`, if any. */
  function IndexOfId(qs: seq<Question>, key: int): (r: Option<nat>)
    ensures r.None? <==> !HasId(qs, key)
    ensures r.Some? ==> r.value < |qs| && qs[r.value].id == key
  {
    if qs == [] then None
    else if qs[0].id == key then Some(0)
    else
      match IndexOfId(qs[1..], key)
      case None => None
      case Some(i) => Some(i + 1)
  }

  /** An identifier above every identifier of the collection. */
  function AboveAllIds(qs: seq<Question>): (r: int)
    ensures forall q :: q in qs ==> q.id < r
  {
    if qs == [] then 1
    else
      var rest := AboveAllIds(qs[1..]);
      if qs[0].id < rest then rest else qs[0].id + 1
  }

  /** The store after deleting the question with identifier `key`: every other question, in order. */
  function WithoutId(qs: seq<Question>, key: int): seq<Question>
  {
    if qs == [] then []
    else (if qs[0].id == key then [] else [qs[0]]) + WithoutId(qs[1..], key)
  }

  /** Deletion keeps exactly the questions whose identifier differs from `key`. */
  lemma {:induction false} WithoutIdMembership(qs: seq<Question>, key: int)
    ensures forall q :: q in WithoutId(qs, key) <==> q in qs && q.id != key
    ensures !HasId(WithoutId(qs, key), key)
  {
    if qs != [] {
      WithoutIdMembership(qs[1..], key);
      assert qs == [qs[0]] + qs[1..];
    }
  }

  /** Deleting an identifier the store does not hold changes nothing. */
  lemma {:induction false} WithoutAbsentId(qs: seq<Question>, key: int)
    requires !HasId(qs, key)
    ensures WithoutId(qs, key) == qs
  {
    if qs != [] {
      assert qs[0] in qs;
      assert !HasId(qs[1..], key) by {
        forall q | q in qs[1..] ensures q.id != key { assert q in qs; }
      }
      WithoutAbsentId(qs[1..], key);
    }
  }

  /** With distinct identifiers, deleting a present identifier removes that one question:
      the store closes up around its position. */
  lemma {:induction false} WithoutIdAtIndex(qs: seq<Question>, i: nat)
    requires DistinctIds(qs)
    requires i < |qs|
    ensures WithoutId(qs, qs[i].id) == qs[..i] + qs[i + 1..]
  {
    var key := qs[i].id;
    if i == 0 {
      assert !HasId(qs[1..], key) by {
        forall q | q in qs[1..] ensures q.id != key {
          var k :| 0 <= k < |qs[1..]| && qs[1..][k] == q;
          assert qs[k + 1] == q;
        }
      }
      WithoutAbsentId(qs[1..], key);
    } else {
      assert qs[0].id != key;
      assert DistinctIds(qs[1..]) by {
        forall a, b | 0 <= a < b < |qs[1..]| ensures qs[1..][a].id != qs[1..][b].id {
          assert qs[1..][a] == qs[a + 1] && qs[1..][b] == qs[b + 1];
        }
      }
      WithoutIdAtIndex(qs[1..], i - 1);
      assert qs[1..][i - 1] == qs[i];
      assert qs[..i] == [qs[0]] + qs[1..][..i - 1];
      assert qs[i + 1..] == qs[1..][i..];
    }
  }

  /** With distinct identifiers, deleting a present identifier shortens the store by exactly one. */
  lemma WithoutPresentIdLength(qs: seq<Question>, key: int)
    requires DistinctIds(qs)
    requires HasId(qs, key)
    ensures |WithoutId(qs, key)| == |qs| - 1
  {
    var i := IndexOfId(qs, key).value;
    WithoutIdAtIndex(qs, i);
  }

  /** Deletion keeps identifiers distinct. */
  lemma {:induction false} WithoutIdKeepsDistinct(qs: seq<Question>, key: int)
    requires DistinctIds(qs)
    ensures DistinctIds(WithoutId(qs, key))
  {
    if qs != [] {
      assert DistinctIds(qs[1..]) by {
        forall a, b | 0 <= a < b < |qs[1..]| ensures qs[1..][a].id != qs[1..][b].id {
          assert qs[1..][a] == qs[a + 1] && qs[1..][b] == qs[b + 1];
        }
      }
      WithoutIdKeepsDistinct(qs[1..], key);
      WithoutIdMembership(qs[1..], key);
      var rest := WithoutId(qs[1..], key);
      if qs[0].id != key {
        forall b | 0 <= b < |rest| ensures rest[b].id != qs[0].id {
          assert rest[b] in qs[1..];
          var k :| 0 <= k < |qs[1..]| && qs[1..][k] == rest[b];
          assert qs[k + 1] == rest[b];
        }
        assert WithoutId(qs, key) == [qs[0]] + rest;
      }
    }
  }

  /** Deleting the question just created gives back the store as it was before the creation. */
  lemma CreateThenDeleteRestores(qs: seq<Question>, q: Question)
    requires !HasId(qs, q.id)
    ensures WithoutId(qs + [q], q.id) == qs
  {
    WithoutIdAppend(qs, [q], q.id);
    WithoutAbsentId(qs, q.id);
    assert WithoutId([q], q.id) == [];
  }

  lemma {:induction false} WithoutIdAppend(a: seq<Question>, b: seq<Question>, key: int)
    ensures WithoutId(a + b, key) == WithoutId(a, key) + WithoutId(b, key)
  {
    if a == [] {
      assert a + b == b;
    } else {
      assert (a + b)[1..] == a[1..] + b;
      WithoutIdAppend(a[1..], b, key);
    }
  }

  /** The database of the service: the question table, in the order the store returns it, the
      category table, and the next identifier the database will issue. */
  class TriviaDb {
    var questions: seq<Question>
    const categories: seq<Category>
    var nextId: int

    /** Question identifiers are unique and all below the next identifier to be issued. */
    ghost predicate Valid()
      reads this
    {
      DistinctIds(questions) && forall q :: q in questions ==> q.id < nextId
    }

    /** A database seeded with questions and categories. */
    constructor (seed: seq<Question>, cats: seq<Category>)
      requires DistinctIds(seed)
      ensures Valid()
      ensures questions == seed && categories == cats
    {
      questions := seed;
      categories := cats;
      nextId := AboveAllIds(seed);
    }

    /** `GET /categories`: the dictionary from category identifier to type. */
    method GetAllCategories() returns (d: map<int, string>)
      ensures d == CategoriesDict(categories)
    {
      d := BuildCategoriesDict(categories);
    }

    /** `GET /questions`: page `pageArg` (1 when absent) of the question list, or not found when the
        page starts at or after the last question; an accepted page carries the full question count,
        the category dictionary and no current category. */
    method GetAllQuestions(pageArg: Option<int>) returns (r: ListReply)
      ensures var p := Paginate(questions, PageNumber(pageArg));
        && (r.PageNotFound? <==> p.OutOfRange?)
        && (p.Page? ==> r == QuestionsPage(p.questions, |questions|, CategoriesDict(categories), None))
    {
      var page := PageNumber(pageArg);
      var start := (page - 1) * QuestionsPerPage;
      var finish := start + QuestionsPerPage;
      var total := |questions|;
      if start >= total {
        return PageNotFound;
      }
      var shown := PySlice(questions, start, finish);
      var dict := BuildCategoriesDict(categories);
      r := QuestionsPage(shown, total, dict, None);
    }

    /** `DELETE /questions/<key>`: not found, and nothing changes, when no question has identifier
        `key`; otherwise that question is removed and all others stay, in order. */
    method DeleteQuestion(key: int) returns (status: Status)
      requires Valid()
      modifies this
      ensures Valid()
      ensures status != BadRequest
      ensures status == NotFound <==> !HasId(old(questions), key)
      ensures status == NotFound ==> questions == old(questions)
      ensures status == Ok ==> questions == WithoutId(old(questions), key)
      ensures nextId == old(nextId)
    {
      match IndexOfId(questions, key)
      case None =>
        status := NotFound;
      case Some(i) =>
        WithoutIdAtIndex(questions, i);
        WithoutIdKeepsDistinct(questions, key);
        WithoutIdMembership(questions, key);
        questions := questions[..i] + questions[i + 1..];
        status := Ok;
    }

    /** `POST /questions`: a bad request, and nothing changes, when a required field is absent or `null`;
        otherwise exactly one question is appended, carrying the four given values and an
        identifier no question of the store has. */
    method PostNewQuestion(req: NewQuestionRequest) returns (status: Status)
      requires Valid()
      modifies this
      ensures Valid()
      ensures status != NotFound
      ensures status == BadRequest <==> Validate(req).None?
      ensures status == BadRequest ==> questions == old(questions) && nextId == old(nextId)
      ensures status == Ok ==> !HasId(old(questions), old(nextId))
      ensures status == Ok ==>
        var d := Validate(req).value;
        questions == old(questions) + [Question(old(nextId), d.question, d.answer, d.category, d.difficulty)]
    {
      match Validate(req)
      case None =>
        status := BadRequest;
      case Some(d) =>
        var q := Question(nextId, d.question, d.answer, d.category, d.difficulty);
        assert forall i :: 0 <= i < |questions| ==> questions[i] in questions;
        questions := questions + [q];
        nextId := nextId + 1;
        status := Ok;
    }
  }
}
