# Trivia API: a verified model of the request handlers

The trivia backend is a small Flask application over two tables: questions
(`id`, `question`, `answer`, `category`, `difficulty`) and categories (`id`,
`type`). Its handlers are in `starter/backend/flaskr/__init__.py`. They list
questions ten to a page, delete and create questions, search question texts,
list one category's questions, and choose the next quiz question. Each one
ends in a success envelope or in an error status (404, 422, 500). This
project models that decision logic in Dafny and proves what each handler
answers.

Every file holds one module:

- `types.dfy` (`Types`): the rows, the two tables and the handler outcome
  `Response` (`Ok`, `NotFound` = 404, `Unprocessable` = 422, `ServerError` =
  500). A table is a sequence whose ids strictly increase. That is the
  primary key, listed in the order `order_by(Question.id)` gives.
- `pagination.dfy` (`Pagination`): `paginate_questions`. It models Python
  slice semantics exactly: negative bounds count from the end, and every
  bound is clamped to the length. The model checks this against a
  case-by-case reference definition, `PageSpec`.
- `text.dfy` (`Text`): the search match `question ILIKE '%term%'`. It is a
  substring test on lower-cased text. The recursive test is proved equal to
  "occurs at some position".
- `queries.dfy` (`Queries`): the persistence queries the handlers issue. These
  are a filter, a lookup by primary key, removal of one row, a category lookup
  and the id→type map.
- `handlers.dfy` (`Handlers`): the read-only handlers as functions of the
  tables and the request. They are GET /questions, POST /search, GET
  /categories/<id>/questions, POST /quizzes and GET /categories (see
  Findings).
- `store.dfy` (`Store`): class `QuestionStore`, which owns the question table
  as a field. Its methods `DeleteQuestion` and `CreateQuestion` change the
  table in place, as `question.delete()` and `question.insert()` do.

Inputs outside the program are parameters:

- the `page` query argument is `Option<int>` (absent or not an integer gives
  `None`, which means page 1);
- the JSON request body is an `Option` of a request record (`None` means the
  body is not a JSON object);
- the persistence layer's verdict on an INSERT is a boolean;
- the random source of `random.choice` is a natural number `pick`, and the
  choice is the candidate at `pick % |candidates|`.

Where the handlers' prose and the code disagree, the model follows the code:

- `total_questions` of a search is the size of the whole table
  (`__init__.py:219`), not the number of matches;
- deleting an absent id answers 422, not 404 (`__init__.py:124`, caught at
  139-140);
- the quiz answers 422 when no question is left, not a "no more questions"
  value;
- `test_flaskr.py:99` expects `deleted == 25` after deleting question 44, but
  the handler returns the requested id (`__init__.py:134`), and so does the
  model;
- the create handler's response spells its list key `Questions`
  (`__init__.py:174`). In the model it is the `questions` field of
  `Store.Created`.

## Model

| member | source | states |
|---|---|---|
| `Pagination.Paginate` | starter/backend/flaskr/__init__.py:10-44 | whatever the page number, a page holds at most `QUESTIONS_PER_PAGE` = 10 items |
| `Pagination.SliceBound` | starter/backend/flaskr/__init__.py:42 | a Python slice bound, once normalised, lies within [0, length] |
| `Pagination.PaginateIsPageSpec` | starter/backend/flaskr/__init__.py:38-42 | the Python slice `[(page-1)*10 : (page-1)*10+10]` equals the case-by-case page: from the front for page ≥ 1, empty for page 0, counted back from the end for a negative page |
| `Pagination.PositivePage` | starter/backend/flaskr/__init__.py:38-42 | for page ≥ 1 the page has max(0, min(10, n − (page−1)·10)) items, and its item i is the selection's item (page−1)·10 + i, in order |
| `Pagination.EmptyPageIff` | starter/backend/flaskr/__init__.py:38-42 | a page is empty exactly when page ≥ 1 and (page−1)·10 ≥ n, or page = 0, or page < 0 and n + 10·page ≤ 0 |
| `Pagination.PageItemsFromSelection` | starter/backend/flaskr/__init__.py:41-42 | every item on a page is an item of the selection |
| `Pagination.ItemOnItsPage` | starter/backend/flaskr/__init__.py:38-42 | paging loses nothing: the item at position i is item i % 10 of page i / 10 + 1 |
| `Text.ContainsIff` | starter/backend/flaskr/__init__.py:207 | the recursive substring test holds exactly when the pattern occurs at some position of the text (both directions) |
| `Text.ILikeIff` | starter/backend/flaskr/__init__.py:207 | a text matches a term exactly when the lower-cased term occurs in the lower-cased text |
| `Text.ILikeIgnoresCase` | starter/backend/flaskr/__init__.py:207 | upper- or lower-casing the text or the term never changes whether it matches |
| `Text.LowerOfUpper` | starter/backend/flaskr/__init__.py:207 | lower-casing an upper-cased text gives the lower-cased text, a fact the case-insensitivity proof needs |
| `Text.EmptyTermMatchesAll` | starter/backend/flaskr/__init__.py:207 | an empty search term (pattern `%%`) matches every text |
| `Queries.Filter` | starter/backend/flaskr/__init__.py:283-296 | a filtered query returns exactly the rows of the table that satisfy the condition (both directions) and never more rows than the table |
| `Queries.FilterKeepsIdOrder` | starter/backend/flaskr/__init__.py:239 | the rows a filter returns still have distinct, increasing ids |
| `Queries.FilterCountsMatches` | starter/backend/flaskr/__init__.py:239-247 | the length of a filtered table is the number of distinct rows that satisfy the condition |
| `Queries.IndexOf` | starter/backend/flaskr/__init__.py:120-124 | the lookup by id finds a row holding that id, and finds none exactly when no row has it |
| `Queries.RemoveAtProperties` | starter/backend/flaskr/__init__.py:127 | deleting one row leaves an ordered table one row shorter, whose ids are the old ids minus that one, and which keeps every other row |
| `Queries.FindCategory` | starter/backend/flaskr/__init__.py:233-237 | the category lookup finds a category with that id, and finds none exactly when no category has it |
| `Queries.CategoryMap` | starter/backend/flaskr/__init__.py:94-98 | the id→type map has exactly the category ids as keys, and each entry is a category of the table |
| `Queries.CategoryMapOfTable` | starter/backend/flaskr/__init__.py:98 | with unique ids, the map gives every category its own type |
| `Handlers.ListQuestions` | starter/backend/flaskr/__init__.py:82-106 | GET /questions answers 404 exactly when the requested page is empty (page 0 included); otherwise it returns that page of the id-ordered table, `total_questions` = table size, an id→type map whose keys are exactly the category ids and which maps every category's id to its own type, and `current_category` = None; it never answers anything else |
| `Handlers.AppendedRowIsListed` | starter/backend/flaskr/__init__.py:165-169 | a question appended by a create is listed on the table's last page |
| `Handlers.SearchQuestions` | starter/backend/flaskr/__init__.py:198-220 | POST /search with no JSON object fails with 500; otherwise it answers 404 exactly when no question text matches the term; a missing term is searched as "None"; on success every returned row is a matching row of the table, at most 10 are returned, and `total_questions` is the size of the whole table |
| `Handlers.SearchFindsEveryMatch` | starter/backend/flaskr/__init__.py:207-214 | every matching row is returned on some page of the search |
| `Handlers.QuestionsByCategory` | starter/backend/flaskr/__init__.py:232-249 | answers 404 exactly when no category has the id; otherwise every returned question belongs to that category, at most 10 are returned, `total_questions` is the number of the category's questions before paging, and `current_category` is that category's type |
| `Handlers.CategoryListsEveryQuestion` | starter/backend/flaskr/__init__.py:239-242 | every question of an existing category is returned on some page |
| `Handlers.Quiz` | starter/backend/flaskr/__init__.py:268-311 | POST /quizzes answers 200 or 422 only; it answers 422 exactly when there is no JSON object, a key is missing, a non-zero category does not exist, or no row is in scope and outside `previous_questions`; otherwise the returned question is a row of the table in the requested category (any, for id 0) whose id is not among the previous questions (a null list excludes none) |
| `Handlers.Choose` | starter/backend/flaskr/__init__.py:299 | the random choice returns an element of the candidates |
| `Handlers.ChooseReaches` | starter/backend/flaskr/__init__.py:299 | every candidate position can be chosen |
| `Handlers.QuizCanAskAnyEligible` | starter/backend/flaskr/__init__.py:283-299 | when the request is accepted, every eligible row is the answer for some random pick |
| `Handlers.QuizPicksCandidate` | starter/backend/flaskr/__init__.py:274-299 | once the request checks pass, pick k < number of candidates returns candidate k |
| `Handlers.QuizExhausted` | starter/backend/flaskr/__init__.py:279-311 | once every id is among the previous questions, a quiz over all categories answers 422 |
| `Handlers.GetCategoriesAsWritten` | starter/backend/flaskr/__init__.py:52-64 | GET /categories as written always answers 500 |
| `Handlers.GetCategories` | starter/backend/flaskr/__init__.py:55-64 | the corrected GET /categories succeeds and lists exactly the categories, by increasing id, with `total_categories` = the number of distinct category ids |
| `Handlers.CategoryIdCount` | starter/backend/flaskr/__init__.py:63 | a category table has exactly as many ids as rows |
| `Handlers.GetCategoriesDiscrepancy` | starter/backend/flaskr/__init__.py:52-64 | with at least one category, the handler as written answers 500 where the corrected one answers 200 with `total_categories` > 0 |
| `Store.QuestionStore.DeleteQuestion` | starter/backend/flaskr/__init__.py:117-140 | an absent id answers 422 and leaves the table unchanged; an existing id answers 200 and removes exactly that row: the rest keep their order and values, `deleted` is the requested id, `total_questions` is the old count minus 1, and `questions` is the requested page of what remains |
| `Store.QuestionStore.CreateQuestion` | starter/backend/flaskr/__init__.py:152-179 | with no JSON object it answers 500; a refused insert answers 422; in both cases the table is unchanged; otherwise it appends one row holding the body's values and a positive id never issued before, `created` is that id, `total_questions` rises by 1, and `questions` is the requested page of the new table |
| `Store.DeleteThenCreate` | starter/backend/flaskr/__init__.py:117-179 | after an existing question is deleted, deleting it again answers 422; a question created next succeeds with an id different from the deleted one, and the deleted id is absent from the table |

## Left out

- Flask routing, CORS (`CORS(...)` and `after_request`, lines 16-31) and the JSON rendering of envelopes (`jsonify`, and the error handlers at lines 323-353). A response is its status and its payload.
- 405 answers come from Flask's verb matching, not from this code. Route parameters are `nat`, because the `<int:...>` converter matches only digits.
- `models.py` and SQLAlchemy are not part of this model. The tables are in-memory sequences. `Question.format()` is the identity. Id assignment is a SERIAL-like counter (`nextId`) with a ghost record of every issued id. Whether the persistence layer accepts an INSERT is the parameter `insertSucceeds`.
- Store.QuestionStore.DeleteQuestion: does not model a failure of the DELETE statement itself. On a valid table such a failure would be caught and answered with 422.
- Handlers.SearchQuestions: treats `%`, `_` and the escape character `\` inside the search term as ordinary characters, though ILIKE reads the first two as wildcards and `\` as an escape (the term `a\b` matches the text "ab"). Letter case is folded for ASCII letters only, not by the database's locale.
- Handlers.SearchQuestions: the term is a string or missing. A `searchTerm` of another JSON type, such as the number 5, is formatted into the pattern by `'%{}%'.format` (giving `%5%`); the model's `Option<string>` cannot hold it.
- Handlers.SearchQuestions: no order is claimed for search and category results, which the SQL leaves unspecified. The model returns them in table order.
- Handlers.Quiz: request values of the wrong JSON type are not modelled: a string category id (the test sends `"1"`, which the ORM coerces), a non-list `previous_questions`, or `False` compared equal to 0. The `random_question is None` branch (lines 301-303) is left out, because `Question.format()` is not visible.
- Handlers.Quiz: `random.choice` is modelled as an index chosen by the caller, not as a uniform distribution. `Handlers.QuizCanAskAnyEligible` proves only that every candidate can be chosen.
- Malformed JSON on POST /questions and POST /search, for which Flask's `get_json` answers 400 before any `try`, is not modelled. On POST /quizzes `get_json` runs inside the `try` (lines 269-271), so malformed JSON there answers 422, which the `None` request covers. A body that is not a JSON object is modelled, as `None`, on all three.
- Concurrency between requests is not modelled. Each handler is one atomic step on the tables.

## Findings

| source | as written | input that shows it | evidently intended | confidence | as-written member | corrected member |
|---|---|---|---|---|---|---|
| starter/backend/flaskr/__init__.py:55-63 | the query result is bound to `categories_1`, but the next line formats the unbound name `categories` and the count calls the undefined `leng`, so every request raises NameError and answers 500 | GET /categories on any table, e.g. one holding the category (1, "Science"); `test_flaskr.py:60-67` expects 200 and `total_categories` > 0 | format `categories_1` and count it with `len`: every category by increasing id, with their number | high, not executed | `Handlers.GetCategoriesAsWritten` (with `Handlers.GetCategoriesDiscrepancy`) | `Handlers.GetCategories` |
