/** The request handlers of the trivia API (backend/flaskr/__init__.py).
    Read-only handlers are functions (or, where the source builds a value in a
    loop or picks at random, methods) of the tables' current contents; the two
    handlers that write are methods of `TriviaStore`.

    `storeRaises` stands for an exception raised by a store query inside a
    handler's `try` block; each handler's bare `except` turns it into the
    status that handler aborts with. Handlers without a `try` take no such
    parameter. */
module Flaskr {
  import opened Records
  import opened Pagination
  import opened Queries

  /** GET /api/categories: the categories, in id order as the table keeps
      them, are paginated like questions, and an empty page aborts with 404. */
  function RetrieveCategories(cs: seq<Category>, page: Option<int>): (r: Response)
    requires CategoryIdsIncreasing(cs)
    ensures r.CategoryList? || r == Failure(404)
    ensures r == Failure(404) <==> Paginate(cs, PageNumber(page)) == []
    ensures cs == [] ==> r == Failure(404)
    ensures r.CategoryList? ==>
              r.totalCategories == |cs| && 1 <= |r.categories| <= QuestionsPerPage &&
              r.categories == Paginate(cs, PageNumber(page)) &&
              CategoryIdsIncreasing(r.categories) &&
              forall c :: c in r.categories ==> c in cs
  {
    var current := Paginate(cs, PageNumber(page));
    if |current| == 0 then Failure(404)
    else CategoryList(current, |cs|)
  }

  /** With no page parameter, all categories are listed only when there are at
      most ten of them; otherwise the first page holds the ten lowest ids. */
  lemma RetrieveCategoriesFirstPage(cs: seq<Category>)
    requires CategoryIdsIncreasing(cs)
    ensures 1 <= |cs| <= QuestionsPerPage ==> RetrieveCategories(cs, None) == CategoryList(cs, |cs|)
    ensures |cs| > QuestionsPerPage ==> RetrieveCategories(cs, None) == CategoryList(cs[..QuestionsPerPage], |cs|)
  {
    PaginateForwardPage(cs, 1);
    assert cs[0..|cs|] == cs;
  }

  /** The `cat_list` loop of get_questions: `cat_list[c.id] = c.type` for each category in turn. */
  method CategoryMap(cs: seq<Category>) returns (m: map<int, string>)
    ensures m == CategoryTypes(cs)
  {
    m := map[];
    for i := 0 to |cs|
      invariant m == CategoryTypes(cs[..i])
    {
      assert cs[..i + 1][..i] == cs[..i];
      m := m[cs[i].id := cs[i].categoryType];
    }
    assert cs[..|cs|] == cs;
  }

  /** GET /api/questions: success only for a non-empty page of the questions
      in id order; an empty page, or any exception in the `try`, ends in 404
      (the inner abort is re-raised as 404 by the bare except). */
  method GetQuestions(qs: seq<Question>, cs: seq<Category>, page: Option<int>, storeRaises: bool)
    returns (r: Response)
    requires IdsIncreasing(qs)
    ensures r.QuestionList? || r == Failure(404)
    ensures r.QuestionList? <==> !storeRaises && Paginate(qs, PageNumber(page)) != []
    ensures r.QuestionList? ==>
              r.totalQuestions == |qs| &&
              r.questions == Paginate(qs, PageNumber(page)) &&
              r.categoryTypes == CategoryTypes(cs) &&
              r.categoryTypes.Keys == set c | c in cs :: c.id
    ensures r.QuestionList? && CategoryIdsUnique(cs) ==>
              forall c :: c in cs ==> r.categoryTypes[c.id] == c.categoryType
  {
    if storeRaises {
      return Failure(404);
    }
    var current := Paginate(qs, PageNumber(page));
    if |current| == 0 {
      return Failure(404);
    }
    var catList := CategoryMap(cs);
    if CategoryIdsUnique(cs) {
      CategoryTypesOfUnique(cs);
    }
    r := QuestionList(|qs|, catList, current);
  }

  /** POST /api/search: a missing or empty (falsy) term aborts with 404;
      otherwise every question whose text contains the term, ignoring case. */
  function SearchQuestions(qs: seq<Question>, searchTerm: Option<string>): (r: Response)
    ensures r.SearchResult? || r == Failure(404)
    ensures r == Failure(404) <==> searchTerm.None? || searchTerm.value == ""
    ensures r.SearchResult? ==>
              r.totalQuestions == |r.questions| &&
              r.questions == Search(qs, searchTerm.value) &&
              forall q :: q in r.questions <==> q in qs && MatchesTerm(q, searchTerm.value)
    ensures r.SearchResult? && IdsIncreasing(qs) ==> IdsIncreasing(r.questions)
  {
    match searchTerm
    case Some(term) =>
      if |term| > 0 then
        var found := Search(qs, term);
        SearchResult(found, |found|)
      else Failure(404)
    case None => Failure(404)
  }

  /** The results of a search do not depend on the case of the term. */
  lemma SearchIgnoresTermCase(qs: seq<Question>, term: string)
    ensures SearchQuestions(qs, Some(term)) == SearchQuestions(qs, Some(Lower(term)))
  {
    forall q | q in qs
      ensures MatchesTerm(q, term) == MatchesTerm(q, Lower(term))
    {
      MatchesIgnoreTermCase(q, term);
    }
    WhereCongruent(qs, q => MatchesTerm(q, term), q => MatchesTerm(q, Lower(term)));
  }

  /** A question whose text holds the term at some position, in any case, is
      among the results. */
  lemma SearchFindsOccurrence(qs: seq<Question>, q: Question, term: string, i: int)
    requires q in qs && term != ""
    requires OccursAt(Lower(term), Lower(q.question), i)
    ensures var r := SearchQuestions(qs, Some(term)); r.SearchResult? && q in r.questions
  {
    OccursIffWindow(Lower(term), Lower(q.question));
  }

  /** The questions of one category, in store order. */
  function InCategory(qs: seq<Question>, categoryId: int): (r: seq<Question>)
    ensures forall q :: q in r <==> q in qs && q.category == categoryId
  {
    Where(qs, (q: Question) => q.category == categoryId)
  }

  /** GET /api/categories/<id>/questions: an unknown category aborts with 404
      before any question is queried; otherwise a page of that category's
      questions, which may be empty. An exception in the `try` gives 400. */
  function QuestionsByCategory(qs: seq<Question>, cs: seq<Category>, categoryId: int,
                               page: Option<int>, storeRaises: bool): (r: Response)
    ensures r.CategoryQuestions? || r == Failure(404) || r == Failure(400)
    ensures r == Failure(404) <==> forall c :: c in cs ==> c.id != categoryId
    ensures r == Failure(400) <==> storeRaises && exists c :: c in cs && c.id == categoryId
    ensures r.CategoryQuestions? ==>
              r.totalQuestions == |qs| &&
              r.questions == Paginate(InCategory(qs, categoryId), PageNumber(page)) &&
              exists c :: c in cs && c.id == categoryId && r.currentCategory == c.categoryType
  {
    match FindCategory(cs, categoryId)
    case None => Failure(404)
    case Some(category) =>
      if storeRaises then Failure(400)
      else CategoryQuestions(|qs|, category.categoryType, Paginate(InCategory(qs, category.id), PageNumber(page)))
  }

  /** A known category without questions is not an error: its first page is an
      empty success, whereas an empty page of the plain listing is a 404. */
  lemma EmptyCategoryIsSuccess(qs: seq<Question>, cs: seq<Category>, c: Category)
    requires c in cs && CategoryIdsUnique(cs)
    requires forall q :: q in qs ==> q.category != c.id
    ensures QuestionsByCategory(qs, cs, c.id, None, false) == CategoryQuestions(|qs|, c.categoryType, [])
  {
    FindCategoryUnique(cs, c);
    WhereNone(qs, (q: Question) => q.category == c.id);
    PaginateForwardPage(InCategory(qs, c.id), 1);
  }

  /** Every question on a category page belongs to that category and to the store. */
  lemma CategoryPageMembers(qs: seq<Question>, cs: seq<Category>, categoryId: int, page: Option<int>)
    ensures var r := QuestionsByCategory(qs, cs, categoryId, page, false);
            r.CategoryQuestions? ==>
              forall k :: 0 <= k < |r.questions| ==> r.questions[k] in qs && r.questions[k].category == categoryId
  {
  }

  /** `category['id']` of the quiz body: None when subscripting fails (no
      quiz_category, or no 'id' key), Some(None) for a null id. */
  function QuizFilter(body: QuizBody): (f: Option<Option<int>>)
    ensures f.None? <==> body.quizCategory.None? || body.quizCategory.value.id.NoIdKey?
    ensures f == Some(None) <==> body.quizCategory.Some? && body.quizCategory.value.id.NullId?
    ensures f.Some? && f.value.Some? ==> body.quizCategory == Some(QuizCategory(IdOf(f.value.value)))
  {
    match body.quizCategory
    case None => None
    case Some(category) =>
      match category.id
      case NoIdKey => None
      case NullId => Some(None)
      case IdOf(v) => Some(Some(v))
  }

  /** POST /api/quizzes: a question not asked before (and in the requested
      category when its id is not null), chosen among the candidates; null when
      none is left, which is still a success. A body whose category cannot be
      read, or an exception from the store, gives 422. `random.choice` is a
      nondeterministic pick. */
  method QuizzesGame(qs: seq<Question>, body: QuizBody, storeRaises: bool) returns (r: Response)
    ensures r.QuizQuestion? || r == Failure(422)
    ensures r == Failure(422) <==> storeRaises || QuizFilter(body).None?
    ensures r.QuizQuestion? ==>
              var candidates := QuizCandidates(qs, QuizFilter(body).value, body.previousQuestions);
              (r.question.None? <==> candidates == []) &&
              (r.question.Some? ==> r.question.value in candidates)
    ensures r.QuizQuestion? && r.question.Some? ==>
              var q, categoryId := r.question.value, QuizFilter(body).value;
              q in qs && q.id !in body.previousQuestions &&
              (categoryId.Some? ==> q.category == categoryId.value)
  {
    var filter := QuizFilter(body);
    if storeRaises || filter.None? {
      return Failure(422);
    }
    var candidates := QuizCandidates(qs, filter.value, body.previousQuestions);
    if |candidates| > 0 {
      assert candidates[0] in candidates;
      var choice :| choice in candidates;
      r := QuizQuestion(Some(choice));
    } else {
      r := QuizQuestion(None);
    }
  }

  /** The store behind the handlers: the question and category tables in id
      order, and the next id the question table's sequence hands out. */
  class TriviaStore {
    var questions: seq<Question>
    var categories: seq<Category>
    var nextId: int

    ghost predicate Valid()
      reads this
    {
      IdsIncreasing(questions) &&
      (forall q :: q in questions ==> q.id < nextId) &&
      CategoryIdsIncreasing(categories)
    }

    constructor (qs: seq<Question>, cs: seq<Category>)
      requires IdsIncreasing(qs) && CategoryIdsIncreasing(cs)
      ensures Valid() && questions == qs && categories == cs
    {
      questions := qs;
      categories := cs;
      nextId := if qs == [] then 1 else qs[|qs| - 1].id + 1;
    }

    /** DELETE /api/questions/<id>. A missing id raises abort(404) inside the
        `try`; the bare `except` turns it into 422, and nothing changes. On
        success exactly the row with that id is removed and the reported
        `total_questions` is the count taken before the deletion. */
    method DeleteQuestion(questionId: int, storeRaises: bool) returns (r: Response)
      requires Valid()
      modifies this
      ensures Valid()
      ensures categories == old(categories) && nextId == old(nextId)
      ensures r.DeletedQuestion? || r == Failure(422)
      ensures r == Failure(422) <==> storeRaises || forall q :: q in old(questions) ==> q.id != questionId
      ensures r == Failure(422) ==> questions == old(questions)
      ensures r.DeletedQuestion? ==>
                var i := FindQuestion(old(questions), questionId).value;
                r == DeletedQuestion(questionId, |old(questions)|) &&
                questions == old(questions[..i] + questions[i + 1..]) &&
                |questions| == |old(questions)| - 1 &&
                forall q :: q in questions ==> q.id != questionId
    {
      var found := FindQuestion(questions, questionId);
      if storeRaises || found.None? {
        return Failure(422);
      }
      var i := found.value;
      var lenQuiz := |questions|;
      RemoveFoundQuestion(questions, i);
      questions := questions[..i] + questions[i + 1..];
      r := DeletedQuestion(questionId, lenQuiz);
    }

    /** POST /api/questions. On success the table grows by exactly one row,
        carrying the body's fields and a fresh id, which is returned as
        `created`; an exception from the store gives 422 and nothing changes. */
    method CreateQuestion(body: NewQuestion, storeRaises: bool) returns (r: Response)
      requires Valid()
      modifies this
      ensures Valid()
      ensures categories == old(categories)
      ensures r.CreatedQuestion? || r == Failure(422)
      ensures r == Failure(422) <==> storeRaises
      ensures r == Failure(422) ==> questions == old(questions) && nextId == old(nextId)
      ensures r.CreatedQuestion? ==>
                (forall q :: q in old(questions) ==> q.id != r.created) &&
                questions == old(questions) +
                  [Question(r.created, body.question, body.answer, body.difficulty, body.category)] &&
                nextId == old(nextId) + 1
    {
      if storeRaises {
        return Failure(422);
      }
      var inserted := Question(nextId, body.question, body.answer, body.difficulty, body.category);
      questions := questions + [inserted];
      nextId := nextId + 1;
      r := CreatedQuestion(inserted.id);
    }
  }

  /** A question appended by create is listed: it is the last item of the last page. */
  lemma CreatedQuestionIsListed(qs: seq<Question>, q: Question)
    ensures var all := qs + [q];
            var p := Paginate(all, |qs| / QuestionsPerPage + 1);
            |qs| % QuestionsPerPage < |p| && p[|qs| % QuestionsPerPage] == q &&
            Paginate(all, |qs| / QuestionsPerPage + 2) == []
  {
    PageOfIndex(qs + [q], |qs|);
    PaginateForwardPage(qs + [q], |qs| / QuestionsPerPage + 2);
  }

  /** After a delete, no page of the listing shows the deleted id. */
  lemma DeletedQuestionNotListed(qs: seq<Question>, questionId: int, page: int)
    requires forall q :: q in qs ==> q.id != questionId
    ensures forall k :: 0 <= k < |Paginate(qs, page)| ==> Paginate(qs, page)[k].id != questionId
  {
  }
}
