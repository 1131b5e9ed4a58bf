/** The read-only request handlers of the API, each a function of the tables
    and the request, and the quiz's choice of a next question. */
module Handlers {
  import opened Types
  import opened Pagination
  import opened Queries
  import Text

  /** Success payload of GET /questions. */
  datatype QuestionList = QuestionList(
    questions: seq<Question>,
    totalQuestions: nat,
    categories: map<int, string>,
    currentCategory: Option<string>)

  /** Success payload of POST /search. */
  datatype SearchResult = SearchResult(questions: seq<Question>, totalQuestions: nat)

  /** Success payload of GET /categories/<id>/questions. */
  datatype CategoryQuestions = CategoryQuestions(
    questions: seq<Question>,
    totalQuestions: nat,
    currentCategory: string)

  /** Success payload of GET /categories. */
  datatype CategoryList = CategoryList(categories: seq<Category>, totalCategories: nat)

  /** A key of a JSON request object, present or not. */
  datatype Field<T> = Missing | Present(value: T)

  /** The JSON object of POST /search. */
  datatype SearchRequest = SearchRequest(searchTerm: Option<string>)

  /** The JSON object of POST /quizzes: `previous_questions` (a list of ids,
      or null) and `quiz_category.id`. */
  datatype QuizRequest = QuizRequest(
    previousQuestions: Field<Option<seq<int>>>,
    quizCategoryId: Field<int>)

  // ---------------------------------------------------------------- listing

  /** GET /questions?page=N. */
  function ListQuestions(rows: QuestionTable, cats: CategoryTable, pageArg: Option<int>)
    : (r: Response<QuestionList>)
    ensures r.Ok? || r.NotFound?
    ensures r.NotFound? <==> EmptyPage(|rows|, PageNumber(pageArg))
    ensures r.Ok? ==>
      && r.payload.questions == PageSpec(rows, PageNumber(pageArg))
      && r.payload.totalQuestions == |rows|
      && r.payload.categories.Keys == CategoryIds(cats)
      && (forall c | c in cats ::
            c.id in r.payload.categories && r.payload.categories[c.id] == c.typeName)
      && r.payload.currentCategory == None
  {
    var page := PageNumber(pageArg);
    var current := Paginate(rows, page);
    EmptyPageIff(rows, page);
    PaginateIsPageSpec(rows, page);
    if |current| == 0 then NotFound
    else
      assert forall c | c in cats ::
        c.id in CategoryMap(cats) && CategoryMap(cats)[c.id] == c.typeName
      by {
        forall c | c in cats
          ensures c.id in CategoryMap(cats) && CategoryMap(cats)[c.id] == c.typeName
        {
          CategoryMapOfTable(cats, c);
        }
      }
      Ok(QuestionList(current, |rows|, CategoryMap(cats), None))
  }

  /** A row just appended to the table is listed on the table's last page. */
  lemma AppendedRowIsListed(rows: QuestionTable, cats: CategoryTable, q: Question)
    requires QuestionIdsIncreasing(rows + [q])
    ensures var r := ListQuestions(rows + [q], cats, Some(|rows| / 10 + 1));
      r.Ok? && q in r.payload.questions
  {
    var t: QuestionTable := rows + [q];
    ItemOnItsPage(t, |rows|);
    PaginateIsPageSpec(t, |rows| / 10 + 1);
  }

  // ----------------------------------------------------------------- search

  /** The search term as it reaches the pattern `'%{}%'.format(term)`: a
      missing `searchTerm` is formatted as the text "None". */
  function SearchText(request: SearchRequest): string {
    request.searchTerm.GetOr("None")
  }

  /** `Question.question.ilike('%term%')`; a NULL question text never
      matches. */
  predicate MatchesTerm(q: Question, term: string) {
    q.question.Some? && Text.ILike(q.question.value, term)
  }

  function Matching(term: string): Question -> bool {
    (q: Question) => MatchesTerm(q, term)
  }

  /** POST /search?page=N. `None` is a request without a JSON object, on
      which `body.get` fails outside any handler. */
  function SearchQuestions(rows: QuestionTable, request: Option<SearchRequest>, pageArg: Option<int>)
    : (r: Response<SearchResult>)
    ensures r.Ok? || r.NotFound? || r.ServerError?
    ensures r.ServerError? <==> request.None?
    ensures request.Some? ==>
      (r.NotFound? <==> forall q | q in rows :: !MatchesTerm(q, SearchText(request.value)))
    ensures r.Ok? ==>
      && r.payload.totalQuestions == |rows|
      && |r.payload.questions| <= QUESTIONS_PER_PAGE
      && forall q | q in r.payload.questions :: q in rows && MatchesTerm(q, SearchText(request.value))
  {
    match request
    case None => ServerError
    case Some(req) =>
      var selection := Filter(rows, Matching(SearchText(req)));
      if |selection| == 0 then NotFound
      else
        assert selection[0] in selection;
        var page := Paginate(selection, PageNumber(pageArg));
        assert forall q | q in page :: q in selection by {
          forall q | q in page ensures q in selection {
            PageItemsFromSelection(selection, PageNumber(pageArg), q);
          }
        }
        Ok(SearchResult(page, |rows|))
  }

  /** Every matching row is returned on some page of the search. */
  lemma SearchFindsEveryMatch(rows: QuestionTable, request: SearchRequest, q: Question)
    requires q in rows && MatchesTerm(q, SearchText(request))
    ensures exists page: int :: var r := SearchQuestions(rows, Some(request), Some(page));
      r.Ok? && q in r.payload.questions
  {
    var selection := Filter(rows, Matching(SearchText(request)));
    var k :| 0 <= k < |selection| && selection[k] == q;
    ItemOnItsPage(selection, k);
    var r := SearchQuestions(rows, Some(request), Some(k / 10 + 1));
    assert r.Ok? && q in r.payload.questions;
  }

  // ------------------------------------------------------- category listing

  function InCategory(id: int): Question -> bool {
    (q: Question) => q.category == Some(id)
  }

  /** GET /categories/<id>/questions?page=N (the route admits only
      non-negative ids). */
  function QuestionsByCategory(rows: QuestionTable, cats: CategoryTable, categoryId: nat, pageArg: Option<int>)
    : (r: Response<CategoryQuestions>)
    ensures r.Ok? || r.NotFound?
    ensures r.NotFound? <==> categoryId !in CategoryIds(cats)
    ensures r.Ok? ==>
      && Category(categoryId, r.payload.currentCategory) in cats
      && r.payload.totalQuestions == |set q | q in rows && q.category == Some(categoryId)|
      && |r.payload.questions| <= QUESTIONS_PER_PAGE
      && forall q | q in r.payload.questions :: q in rows && q.category == Some(categoryId)
  {
    match FindCategory(cats, categoryId)
    case None => NotFound
    case Some(c) =>
      var selection := Filter(rows, InCategory(c.id));
      FilterCountsMatches(rows, InCategory(c.id));
      assert (set q | q in rows && InCategory(c.id)(q))
          == (set q | q in rows && q.category == Some(categoryId));
      var page := Paginate(selection, PageNumber(pageArg));
      assert forall q | q in page :: q in selection by {
        forall q | q in page ensures q in selection {
          PageItemsFromSelection(selection, PageNumber(pageArg), q);
        }
      }
      Ok(CategoryQuestions(page, |selection|, c.typeName))
  }

  /** Every question of an existing category is returned on some page. */
  lemma CategoryListsEveryQuestion(rows: QuestionTable, cats: CategoryTable, categoryId: nat, q: Question)
    requires categoryId in CategoryIds(cats)
    requires q in rows && q.category == Some(categoryId)
    ensures exists page: int :: var r := QuestionsByCategory(rows, cats, categoryId, Some(page));
      r.Ok? && q in r.payload.questions
  {
    var selection := Filter(rows, InCategory(categoryId));
    var k :| 0 <= k < |selection| && selection[k] == q;
    ItemOnItsPage(selection, k);
    var r := QuestionsByCategory(rows, cats, categoryId, Some(k / 10 + 1));
    assert r.Ok? && q in r.payload.questions;
  }

  // ------------------------------------------------------------------- quiz

  /** A row the quiz may ask next: in the requested category (0 is every
      category) and not among the previous questions (null excludes
      nothing). */
  predicate Eligible(q: Question, categoryId: int, previous: Option<seq<int>>) {
    && (categoryId == 0 || q.category == Some(categoryId))
    && (previous.None? || q.id !in previous.value)
  }

  function InQuizScope(categoryId: int, previous: Option<seq<int>>): Question -> bool {
    (q: Question) => Eligible(q, categoryId, previous)
  }

  /** When the quiz answers 422: no JSON object, a missing key, an unknown
      non-zero category, or nothing left to ask. */
  predicate QuizRejected(rows: QuestionTable, cats: CategoryTable, request: Option<QuizRequest>) {
    || request.None?
    || request.value.previousQuestions.Missing?
    || request.value.quizCategoryId.Missing?
    || (var id := request.value.quizCategoryId.value;
        || (id != 0 && id !in CategoryIds(cats))
        || forall q | q in rows :: !Eligible(q, id, request.value.previousQuestions.value))
  }

  /** POST /quizzes. `pick` stands for the random source: `random.choice`
      returns the candidate at position `pick % |candidates|`. Every failure
      is caught and answered with 422. */
  function Quiz(rows: QuestionTable, cats: CategoryTable, request: Option<QuizRequest>, pick: nat)
    : (r: Response<Question>)
    ensures r.Ok? || r.Unprocessable?
    ensures r.Unprocessable? <==> QuizRejected(rows, cats, request)
    ensures r.Ok? ==>
      && r.payload in rows
      && Eligible(r.payload, request.value.quizCategoryId.value, request.value.previousQuestions.value)
  {
    if request.None? || request.value.previousQuestions.Missing? || request.value.quizCategoryId.Missing? then
      Unprocessable
    else
      var previous := request.value.previousQuestions.value;
      var id := request.value.quizCategoryId.value;
      if id != 0 && FindCategory(cats, id).None? then Unprocessable
      else
        var candidates := Filter(rows, InQuizScope(id, previous));
        if |candidates| == 0 then Unprocessable
        else
          assert candidates[0] in candidates;
          Ok(Choose(candidates, pick))
  }

  /** `random.choice` with the random source as a parameter. */
  function Choose<T>(s: seq<T>, pick: nat): (x: T)
    requires s != []
    ensures x in s
  {
    s[pick % |s|]
  }

  /** Each position can be chosen. */
  lemma ChooseReaches<T>(s: seq<T>, k: nat)
    requires k < |s|
    ensures Choose(s, k) == s[k]
  {
  }

  /** The choice can land on any eligible row. */
  lemma QuizCanAskAnyEligible(rows: QuestionTable, cats: CategoryTable, request: QuizRequest, q: Question)
    requires !QuizRejected(rows, cats, Some(request))
    requires q in rows && Eligible(q, request.quizCategoryId.value, request.previousQuestions.value)
    ensures exists pick: nat :: Quiz(rows, cats, Some(request), pick) == Ok(q)
  {
    var id := request.quizCategoryId.value;
    var candidates := Filter(rows, InQuizScope(id, request.previousQuestions.value));
    assert q in candidates;
    var k :| 0 <= k < |candidates| && candidates[k] == q;
    QuizPicksCandidate(rows, cats, request, k);
  }

  /** Past the request checks, `pick` selects a position among the
      candidates. */
  lemma QuizPicksCandidate(rows: QuestionTable, cats: CategoryTable, request: QuizRequest, k: nat)
    requires request.previousQuestions.Present? && request.quizCategoryId.Present?
    requires var id := request.quizCategoryId.value; id != 0 ==> id in CategoryIds(cats)
    requires k < |Filter(rows, InQuizScope(request.quizCategoryId.value, request.previousQuestions.value))|
    ensures Quiz(rows, cats, Some(request), k)
         == Ok(Filter(rows, InQuizScope(request.quizCategoryId.value, request.previousQuestions.value))[k])
  {
    ChooseReaches(Filter(rows, InQuizScope(request.quizCategoryId.value, request.previousQuestions.value)), k);
  }

  /** Once every id has been asked, a quiz over all categories answers 422
      rather than a "no more questions" result. */
  lemma QuizExhausted(rows: QuestionTable, cats: CategoryTable, previous: seq<int>, pick: nat)
    requires QuestionIds(rows) <= set i | i in previous
    ensures Quiz(rows, cats, Some(QuizRequest(Present(Some(previous)), Present(0))), pick) == Unprocessable
  {
    forall q | q in rows
      ensures !Eligible(q, 0, Some(previous))
    {
      assert q.id in QuestionIds(rows);
    }
  }

  // --------------------------------------------------------- category table

  /** GET /categories as written: the formatting step names `categories`,
      which is unbound (the query result is `categories_1`), so the handler
      raises NameError, which nothing catches. */
  function GetCategoriesAsWritten(cats: CategoryTable): (r: Response<CategoryList>)
    ensures r.ServerError?
  {
    ServerError
  }

  /** GET /categories as evidently intended: every category, by increasing
      id, with their number. */
  function GetCategories(cats: CategoryTable): (r: Response<CategoryList>)
    ensures r.Ok?
    ensures CategoryIdsIncreasing(r.payload.categories)
    ensures forall c :: c in r.payload.categories <==> c in cats
    ensures r.payload.totalCategories == |CategoryIds(cats)|
  {
    CategoryIdCount(cats);
    Ok(CategoryList(cats, |cats|))
  }

  /** In a table each category has its own id, so there are as many ids as
      rows. */
  lemma {:induction false} CategoryIdCount(cats: CategoryTable)
    ensures |CategoryIds(cats)| == |cats|
    decreases |cats|
  {
    if cats != [] {
      var rest: CategoryTable := cats[1..];
      CategoryIdCount(rest);
      assert cats == [cats[0]] + rest;
      assert CategoryIds(cats) == {cats[0].id} + CategoryIds(rest);
      forall c | c in rest
        ensures c.id != cats[0].id
      {
        var k :| 0 <= k < |rest| && rest[k] == c;
        assert cats[k + 1] == c;
      }
    }
  }

  /** With at least one category, the handler as written fails where the
      intended one lists them all. */
  lemma GetCategoriesDiscrepancy(cats: CategoryTable)
    requires cats != []
    ensures GetCategoriesAsWritten(cats).StatusCode() == 500
    ensures GetCategories(cats).StatusCode() == 200
    ensures GetCategories(cats).payload.totalCategories > 0
  {
    assert cats[0].id in CategoryIds(cats);
  }
}
