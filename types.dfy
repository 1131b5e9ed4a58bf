/** The entities of the trivia API and the outcome of a request handler. */
module Types {

  datatype Option<T> = None | Some(value: T) {
    function GetOr(default: T): T {
      if Some? then value else default
    }
  }

  /** A row of the question table. The four value columns are passed to the
      persistence layer exactly as the request body gave them, so each may be
      absent (SQL NULL). */
  datatype Question = Question(
    id: int,
    question: Option<string>,
    answer: Option<string>,
    category: Option<int>,
    difficulty: Option<int>)

  /** A row of the category table; `typeName` is the `type` column. */
  datatype Category = Category(id: int, typeName: string)

  /** Rows listed by increasing primary key: what `order_by(Question.id)`
      returns, and a table in which no id occurs twice. */
  predicate QuestionIdsIncreasing(t: seq<Question>) {
    forall i, j | 0 <= i < j < |t| :: t[i].id < t[j].id
  }

  predicate CategoryIdsIncreasing(t: seq<Category>) {
    forall i, j | 0 <= i < j < |t| :: t[i].id < t[j].id
  }

  type QuestionTable = t: seq<Question> | QuestionIdsIncreasing(t) witness []

  type CategoryTable = t: seq<Category> | CategoryIdsIncreasing(t) witness []

  function QuestionIds(t: seq<Question>): set<int> {
    set q | q in t :: q.id
  }

  function CategoryIds(t: seq<Category>): set<int> {
    set c | c in t :: c.id
  }

  /** What a handler answers: a success envelope carrying the handler's own
      payload, or one of the error envelopes the application registers. */
  datatype Response<T> = Ok(payload: T) | NotFound | Unprocessable | ServerError {
    function StatusCode(): int {
      match this
      case Ok(_) => 200
      case NotFound => 404
      case Unprocessable => 422
      case ServerError => 500
    }
  }
}
