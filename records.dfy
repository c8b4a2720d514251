/** Records of the trivia backend: the two stored entities, the request
    bodies the POST handlers read, and the outcome every handler produces
    (a JSON payload with status 200, or an aborted request with its status). */
module Records {

  datatype Option<T> = None | Some(value: T)

  /** A row of the question table; `format()` serialises exactly these fields. */
  datatype Question = Question(id: int, question: string, answer: string, difficulty: int, category: int)

  /** A row of the category table; `categoryType` is the column named `type`. */
  datatype Category = Category(id: int, categoryType: string)

  /** The JSON body of POST /api/questions. */
  datatype NewQuestion = NewQuestion(question: string, answer: string, difficulty: int, category: int)

  /** The `id` entry of `quiz_category`: the key may be missing, null, or a number. */
  datatype CategoryIdField = NoIdKey | NullId | IdOf(value: int)

  /** The `quiz_category` object of POST /api/quizzes. */
  datatype QuizCategory = QuizCategory(id: CategoryIdField)

  /** The JSON body of POST /api/quizzes; `quizCategory` is None when the key is
      absent, null, or not an object that can be subscripted. */
  datatype QuizBody = QuizBody(previousQuestions: seq<int>, quizCategory: Option<QuizCategory>)

  /** What a handler answers: one payload shape per endpoint (all with
      `success: true`), or an abort with an HTTP status. */
  datatype Response =
    | CategoryList(categories: seq<Category>, totalCategories: nat)
    | QuestionList(totalQuestions: nat, categoryTypes: map<int, string>, questions: seq<Question>)
    | DeletedQuestion(deleted: int, totalQuestions: nat)
    | CreatedQuestion(created: int)
    | SearchResult(questions: seq<Question>, totalQuestions: nat)
    | CategoryQuestions(totalQuestions: nat, currentCategory: string, questions: seq<Question>)
    | QuizQuestion(question: Option<Question>)
    | Failure(status: int)
}
