/** The two handlers that change the question table: DELETE /questions/<id>
    and POST /questions, as methods of the store that owns the table. */
module Store {
  import opened Types
  import opened Pagination
  import opened Queries

  /** Success payload of DELETE /questions/<id>. */
  datatype Deleted = Deleted(deleted: int, questions: seq<Question>, totalQuestions: nat)

  /** Success payload of POST /questions. */
  datatype Created = Created(created: int, questions: seq<Question>, totalQuestions: nat)

  /** The JSON object of POST /questions; `body.get` gives None for a
      missing key, and that value is passed on unchanged. */
  datatype CreateRequest = CreateRequest(
    question: Option<string>,
    answer: Option<string>,
    category: Option<int>,
    difficulty: Option<int>)

  class QuestionStore {
    /** The question table, by increasing id. */
    var rows: QuestionTable
    /** The category table, which no handler changes. */
    const categories: CategoryTable
    /** The next value of the id sequence. */
    var nextId: int
    /** Every id the sequence has handed out. */
    ghost var issued: set<int>

    ghost predicate Valid()
      reads this
    {
      && 1 <= nextId
      && QuestionIds(rows) <= issued
      && forall id | id in issued :: id < nextId
    }

    constructor (initial: QuestionTable, cats: CategoryTable)
      ensures Valid()
      ensures rows == initial && categories == cats && issued == QuestionIds(initial)
    {
      rows := initial;
      categories := cats;
      issued := QuestionIds(initial);
      if initial == [] {
        nextId := 1;
      } else {
        var last := initial[|initial| - 1].id;
        forall id | id in QuestionIds(initial)
          ensures id <= last
        {
          var k :| 0 <= k < |initial| && initial[k].id == id;
          assert k == |initial| - 1 || initial[k].id < last;
        }
        nextId := Max(1, last + 1);
      }
    }

    /** DELETE /questions/<id>?page=N. An absent id makes the lookup abort
        with 404 inside the `try`, whose bare `except` turns it into 422. */
    method DeleteQuestion(questionId: nat, pageArg: Option<int>) returns (r: Response<Deleted>)
      requires Valid()
      modifies this
      ensures Valid() && nextId == old(nextId) && issued == old(issued)
      ensures r.Ok? || r.Unprocessable?
      ensures r.Unprocessable? <==> questionId !in old(QuestionIds(rows))
      ensures r.Unprocessable? ==> rows == old(rows)
      ensures r.Ok? ==>
        && (exists k | 0 <= k < |old(rows)| ::
              old(rows)[k].id == questionId && rows == old(rows)[..k] + old(rows)[k + 1..])
        && QuestionIds(rows) == old(QuestionIds(rows)) - {questionId}
        && (forall q | q in old(rows) && q.id != questionId :: q in rows)
        && |rows| == |old(rows)| - 1
        && r.payload == Deleted(questionId, Paginate(rows, PageNumber(pageArg)), |rows|)
    {
      match IndexOf(rows, questionId)
      case None =>
        r := Unprocessable;
      case Some(k) =>
        RemoveAtProperties(rows, k);
        rows := RemoveAt(rows, k);
        r := Ok(Deleted(questionId, Paginate(rows, PageNumber(pageArg)), |rows|));
    }

    /** POST /questions?page=N. `request` is None when the body is not a JSON
        object: `body.get` then fails before the `try`, so nothing catches
        it. `insertSucceeds` is the persistence layer's verdict on the
        INSERT; a refusal is caught and answered with 422. */
    method CreateQuestion(request: Option<CreateRequest>, insertSucceeds: bool, pageArg: Option<int>)
      returns (r: Response<Created>)
      requires Valid()
      modifies this
      ensures Valid()
      ensures r.Ok? || r.Unprocessable? || r.ServerError?
      ensures r.ServerError? <==> request.None?
      ensures r.Unprocessable? <==> request.Some? && !insertSucceeds
      ensures !r.Ok? ==> rows == old(rows) && issued == old(issued)
      ensures r.Ok? ==>
        && var id := r.payload.created;
        && id >= 1
        && id !in old(issued)
        && id !in old(QuestionIds(rows))
        && issued == old(issued) + {id}
        && rows == old(rows) + [Question(id, request.value.question, request.value.answer,
                                         request.value.category, request.value.difficulty)]
        && r.payload.totalQuestions == |old(rows)| + 1
        && r.payload.questions == Paginate(rows, PageNumber(pageArg))
    {
      if request.None? {
        return ServerError;
      }
      if !insertSucceeds {
        return Unprocessable;
      }
      var req := request.value;
      var q := Question(nextId, req.question, req.answer, req.category, req.difficulty);
      forall p | p in rows
        ensures p.id < q.id
      {
        assert p.id in QuestionIds(rows);
      }
      assert QuestionIdsIncreasing(rows + [q]) by {
        forall i, j | 0 <= i < j < |rows| + 1
          ensures (rows + [q])[i].id < (rows + [q])[j].id
        {
          assert (rows + [q])[i] in rows;
        }
      }
      rows := rows + [q];
      issued := issued + {q.id};
      nextId := nextId + 1;
      r := Ok(Created(q.id, Paginate(rows, PageNumber(pageArg)), |rows|));
    }
  }

  /** A client of the store: a deleted question is gone for a second delete,
      a question created after it never reuses its id, and the id stays out
      of the table. */
  method DeleteThenCreate(store: QuestionStore, questionId: nat, request: CreateRequest)
    returns (second: Response<Deleted>, created: Response<Created>)
    requires store.Valid() && questionId in QuestionIds(store.rows)
    modifies store
    ensures store.Valid()
    ensures second.Unprocessable?
    ensures created.Ok? && created.payload.created != questionId
    ensures questionId !in QuestionIds(store.rows)
  {
    var first := store.DeleteQuestion(questionId, None);
    assert first.Ok? && first.payload.deleted == questionId;
    second := store.DeleteQuestion(questionId, None);
    created := store.CreateQuestion(Some(request), true, None);
  }
}
