# Trivia API backend — verified model

This project models the core of a small Flask trivia backend
(`backend/flaskr/__init__.py`): the `paginate_questions` page window and the
decision logic of the seven request handlers, over an in-memory store of
questions and categories. For each handler the model gives the outcome the
code produces, either a JSON payload (status 200) or an abort with its HTTP
status, and the new store contents for the two handlers that write.

Files:

- `records.dfy` (module `Records`): the `Question` and `Category` rows, the
  request bodies, and `Response`, one constructor per endpoint payload plus
  `Failure(status)`.
- `pagination.dfy` (module `Pagination`): Python slice normalisation and
  `Paginate`, with lemmas for forward pages, page 0, negative pages, where each
  item is listed, and how consecutive pages tile the selection.
- `queries.dfy` (module `Queries`): the store queries the handlers issue.
  `Where` is the filter. `MatchesTerm` is the `ilike` containment.
  `FindQuestion`/`FindCategory` are the primary-key lookups. `CategoryTypes` is
  the id→type dictionary. `QuizCandidates` is the quiz candidate set.
- `flaskr.dfy` (module `Flaskr`): the handlers. Read-only handlers are
  functions of the tables' contents. `GetQuestions` and `CategoryMap` are
  methods because the source builds the dictionary in a loop. `QuizzesGame` is
  a method because `random.choice` becomes a nondeterministic pick. Create and
  delete are methods of the `TriviaStore` class, which holds the two tables
  and the next id the question sequence hands out.

Conventions of the model:

- `format()` is the identity on rows.
- The store keeps each table in id order, so `order_by(id)` and the store's
  natural order coincide. `TriviaStore.Valid()` states this: question ids and
  category ids are strictly increasing, and every question id is below
  `nextId`. The handlers that sort by id (`RetrieveCategories`,
  `GetQuestions`) require their table in that order, as `Valid()` guarantees.
- `storeRaises: bool` stands for an exception raised by a store query inside
  a handler's `try`. The bare `except` turns it into that handler's status:
  404 for get_questions, 422 for delete, create and quiz, and 400 for
  questions-by-category. `retrieve_categories` and `search_questions` have no
  `try`, so they take no such parameter.
- The `page` query parameter is an `Option<int>`. `None` means absent or not
  an integer, and `PageNumber` turns that into the default page 1.

Behaviour of the code worth knowing:

- Deleting an unknown id gives 422. The inner `abort(404)` is caught by the
  bare `except`. The test suite expects 404 here
  (`backend/test_flaskr.py:85-89`).
- The reported `total_questions` of a delete is the count before deletion.
- A missing or empty search term gives 404.
- GET /api/categories passes the categories through `paginate_questions`.
  With more than ten categories, page 1 lists only the ten lowest ids
  (`RetrieveCategoriesFirstPage`). A page past the end gives 404.
- A negative page is Python's negative-index slice, so it is not empty in
  general.
- `total_questions` of questions-by-category counts every question, not just
  those in the category.

## Model

| member | source | states |
|---|---|---|
| Pagination.PageNumber | backend/flaskr/__init__.py:12 | the page is the parsed integer parameter, and 1 when it is absent or not an integer |
| Pagination.SliceBound | backend/flaskr/__init__.py:17 | a slice bound is clamped into 0..n; a non-negative bound becomes min(i, n), a negative one i+n clamped at 0 |
| Pagination.PySlice | backend/flaskr/__init__.py:17 | `s[start:stop]` is the contiguous run of s from the normalised start, of length max(0, hi - lo) |
| Pagination.Paginate | backend/flaskr/__init__.py:11-19 | a page never holds more than 10 items, and every item on it comes from the selection |
| Pagination.PaginateForwardPage | backend/flaskr/__init__.py:13-17 | for page ≥ 1 the page is exactly items (page-1)*10 .. min(page*10, n)-1 in order, and it is empty iff (page-1)*10 ≥ n |
| Pagination.PaginatePageZero | backend/flaskr/__init__.py:13-17 | page 0 (the slice [-10:0]) is always empty |
| Pagination.PaginateNegativePage | backend/flaskr/__init__.py:13-17 | a negative page is the slice with both bounds shifted by n and clamped at 0; it is non-empty iff n > -10*page |
| Pagination.PageOfIndex | backend/flaskr/__init__.py:13-17 | item i of the selection is listed on page i/10+1 at position i%10 |
| Pagination.PagesArePrefix | backend/flaskr/__init__.py:13-17 | pages 1..k laid end to end are exactly the first min(10k, n) items: no gap, overlap or reordering |
| Pagination.AllPagesCoverSelection | backend/flaskr/__init__.py:13-17 | the ceil(n/10) pages together give back the whole selection |
| Queries.Where | backend/flaskr/__init__.py:176-177 | a filtered query returns exactly the rows satisfying the filter, and never more rows than the table |
| Queries.WhereConcat | backend/flaskr/__init__.py:176-179 | filtering keeps store order: it distributes over concatenation |
| Queries.WhereNone | backend/flaskr/__init__.py:242-246 | a filter that rejects every row returns nothing |
| Queries.WhereKeepsIdOrder | backend/flaskr/__init__.py:176-179 | filtering a table kept in id order gives rows in id order, each at most once |
| Queries.WhereCongruent | backend/flaskr/__init__.py:176-177 | filters that agree on every row return the same rows |
| Queries.OccursIffWindow | backend/flaskr/__init__.py:177 | the containment test holds iff some window of the text equals the pattern |
| Queries.MatchesTerm | backend/flaskr/__init__.py:176-177 | a question matches iff the lower-cased term occurs at some position of its lower-cased text |
| Queries.Search | backend/flaskr/__init__.py:176-177 | exactly the stored questions that match the term, in id order (each once) when the table is |
| Queries.CategoryIdsIncreasingAreUnique | backend/flaskr/__init__.py:49 | a category table in id order has unique ids |
| Queries.MatchesIgnoreTermCase | backend/flaskr/__init__.py:177 | `ilike` matching does not depend on the case of the term |
| Queries.FindQuestion | backend/flaskr/__init__.py:111-113 | the lookup by id finds a row carrying the id, and finds none iff no row has it |
| Queries.FindCategory | backend/flaskr/__init__.py:201-203 | the lookup by id returns a stored category with that id, and None iff no category has it |
| Queries.FindCategoryUnique | backend/flaskr/__init__.py:201 | with unique ids the lookup returns the one category carrying the id |
| Queries.RemoveFoundQuestion | backend/flaskr/__init__.py:111-116 | removing the found row leaves n-1 rows, none with that id, still in id order |
| Queries.CategoryTypes | backend/flaskr/__init__.py:84-88 | the dictionary's keys are exactly the category ids |
| Queries.CategoryTypesOfUnique | backend/flaskr/__init__.py:85-88 | with unique ids every category id maps to that category's type |
| Queries.QuizCandidates | backend/flaskr/__init__.py:241-244 | a question is a candidate iff it is stored, its id is not among the previous ids, and it is in the category when one is given |
| Queries.AllAskedLeavesNoCandidate | backend/flaskr/__init__.py:241-246 | when every question of the category was asked before, the candidate set is empty |
| Flaskr.RetrieveCategories | backend/flaskr/__init__.py:48-61 | 404 iff the category page is empty (always when there are no categories); otherwise exactly that page of the table in id order (1..10 categories, ids increasing) and the total category count |
| Flaskr.RetrieveCategoriesFirstPage | backend/flaskr/__init__.py:49-53 | without a page parameter all categories are listed when there are 1..10, and only the ten lowest ids when there are more |
| Flaskr.CategoryMap | backend/flaskr/__init__.py:84-88 | the loop builds the id→type dictionary `CategoryTypes` (later rows overwrite earlier ones) |
| Flaskr.GetQuestions | backend/flaskr/__init__.py:76-97 | success iff the store did not raise and the page is non-empty, else 404; on success the page of the questions in id order, the count of all questions and the full id→type dictionary, which maps every category id to its type when ids are unique |
| Flaskr.SearchQuestions | backend/flaskr/__init__.py:170-188 | 404 iff the term is missing or empty; otherwise exactly the questions whose text contains the term ignoring case, in store order and each once (the `Search` filter), with their count |
| Flaskr.SearchIgnoresTermCase | backend/flaskr/__init__.py:175-179 | searching with a term and with its lower-cased form gives the same response |
| Flaskr.SearchFindsOccurrence | backend/flaskr/__init__.py:175-179 | a stored question whose text holds the term at some position, in any case, is among the results |
| Flaskr.InCategory | backend/flaskr/__init__.py:205 | a question is selected iff it is stored and its category is the given id |
| Flaskr.QuestionsByCategory | backend/flaskr/__init__.py:199-217 | 404 iff no category has the id (before any question query); 400 iff the store raised for a known category; otherwise the page of that category's questions, the category's type and the count of all questions |
| Flaskr.EmptyCategoryIsSuccess | backend/flaskr/__init__.py:204-214 | a known category with no questions gives a successful empty first page, not 404 |
| Flaskr.CategoryPageMembers | backend/flaskr/__init__.py:205-206 | every question on a category page is stored and belongs to that category |
| Flaskr.QuizFilter | backend/flaskr/__init__.py:236-238 | `category['id']` fails (None) iff quiz_category is missing or has no 'id' key; a null id means no category filter; a number is the category to filter by |
| Flaskr.QuizzesGame | backend/flaskr/__init__.py:231-254 | 422 iff the store raised or `quiz_category['id']` cannot be read; otherwise null iff no candidate is left, and a returned question is stored, not asked before and in the category when its id is not null |
| Flaskr.TriviaStore.DeleteQuestion | backend/flaskr/__init__.py:108-126 | an unknown id or a store exception gives 422 and leaves the store unchanged; otherwise exactly the row with the id is removed, every other row is kept in order, and the reported total is the count before deletion |
| Flaskr.TriviaStore.CreateQuestion | backend/flaskr/__init__.py:139-157 | on success the table grows by exactly one row carrying the body's fields and a fresh id, which is returned as `created`; a store exception gives 422 and no change |
| Flaskr.CreatedQuestionIsListed | backend/flaskr/__init__.py:149-154 | the created question is the last item of the last page of the listing, and the next page is empty |
| Flaskr.DeletedQuestionNotListed | backend/flaskr/__init__.py:116 | after a delete, no page of the listing shows the deleted id |

## Left out

- Flask routing, `request`/`jsonify`, CORS and the `after_request` headers (lines 23-40) are framework plumbing.
- The JSON bodies and messages of the error handlers (lines 261-299) are left out. A failure is modelled by its status alone.
- SQLAlchemy and the `models` module are not part of this model. The tables are sequences kept in id order, and new ids come from a counter.
- Which store exceptions occur, and where, is left out. It is one boolean per handler that has a `try`. For delete it means a failure before the row is removed, with the store rolling back.
- Store exceptions outside a `try` reach Flask's 500 handler and are not modelled. That covers all of `retrieve_categories` and `search_questions`, and the category lookup of `get_questions_by_category` (line 201).
- A missing or non-JSON request body is not modelled, because `get_json` behaves differently across Flask versions. Bodies are always JSON objects.
- Body fields of the wrong JSON type are not modelled. Examples are a non-string search term and a string category id.
- `CreateQuestion` does not model missing body fields, which would be stored as nulls. Whether the store accepts nulls depends on the `models` module, which is not part of this model. A rejection is the `storeRaises` case.
- `QuizzesGame` assumes `previous_questions` is present. What `notin_(None)` does depends on the SQLAlchemy version.
- `SearchQuestions` treats `%`, `_` and `\` in the term as ordinary characters, although `ilike` treats `%` and `_` as wildcards and `\` as its escape character. It also case-folds ASCII letters only, while the database folds case by locale.
- `SearchQuestions` gives `total_questions` as the match count. The source's trailing comma at line 180 actually sends a one-element array.
- `QuizzesGame` models `random.choice` as a nondeterministic pick. Uniformity cannot be stated.
- The dead pagination of categories inside `delete_question` (lines 117-118) is left out, because its result is discarded.
- The question sequence also advances on a failed insert. The model leaves `nextId` unchanged in that case, because ids are only required to be fresh.
