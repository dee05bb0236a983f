/** Records and outcomes shared by the trivia service's route handlers. */
module TriviaTypes {

  /** A JSON field that may be missing from a request body (`None` is an absent key). */
  datatype Option<+T> = None | Some(value: T)

  /** The typed outcome a handler reports instead of an HTTP status code. */
  datatype Status = Ok | BadRequest | NotFound

  /** A stored trivia question: the store assigns `id`, the other four fields come from the client. */
  datatype Question = Question(id: int, question: string, answer: string, category: string, difficulty: int)

  /** A category row: its identifier and its human-readable type label. */
  datatype Category = Category(id: int, categoryType: string)

  /** No two questions of the collection share an identifier. */
  ghost predicate DistinctIds(qs: seq<Question>)
  {
    forall i, j :: 0 <= i < j < |qs| ==> qs[i].id != qs[j].id
  }

  /** Some question of the collection carries identifier `key`. */
  predicate HasId(qs: seq<Question>, key: int)
  {
    exists q :: q in qs && q.id == key
  }
}
