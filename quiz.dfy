/** `get_quizzes`: the next quiz question for a category (id 0 meaning all
    categories) that was not asked before in this game. */
module Quiz {
  import opened Models

  /** The request's `quiz_category` object; its `id` key may be missing. */
  datatype CategoryRef = CategoryRef(id: Option<int>)

  /** The body of `POST /quizzes`: both keys may be absent. */
  datatype QuizRequest = QuizRequest(quizCategory: Option<CategoryRef>, previousQuestions: Option<seq<int>>)

  /** The response's `question`: a formatted question, or the empty string
      `''` when no question is left. */
  datatype QuizQuestion = Placeholder | Drawn(question: Question)

  /** The values of `quiz_dict`, cases 1 to 4 in key order: the first two
      are the "all categories" cases, the even positions the cases with
      `previous_questions`. */
  function CaseFlags(categoryId: int, previous: Option<seq<int>>): (flags: seq<bool>)
    ensures |flags| == 4
    ensures forall i :: 0 <= i < 4 ==>
      (flags[i] <==> (categoryId == 0 <==> i < 2) && (previous.Some? <==> i % 2 == 0))
  {
    [ categoryId == 0 && previous.Some?,
      categoryId == 0 && previous.None?,
      categoryId != 0 && previous.Some?,
      categoryId != 0 && previous.None? ]
  }

  /** `vals.index(True)`: the first position holding `true`, or None where
      Python raises `ValueError`. */
  function IndexOfTrue(vals: seq<bool>): (r: Option<nat>)
    ensures r.Some? ==> r.value < |vals| && vals[r.value]
    ensures r.Some? ==> forall j :: 0 <= j < r.value ==> !vals[j]
    ensures r.None? <==> forall j :: 0 <= j < |vals| ==> !vals[j]
  {
    if vals == [] then None
    else if vals[0] then Some(0)
    else match IndexOfTrue(vals[1..])
      case None => None
      case Some(i) => Some(i + 1)
  }

  /** Exactly one of the four cases holds for any input. */
  lemma ExactlyOneCase(categoryId: int, previous: Option<seq<int>>)
    ensures exists i :: 0 <= i < 4 && CaseFlags(categoryId, previous)[i]
    ensures forall i, j :: 0 <= i < j < 4 ==> !(CaseFlags(categoryId, previous)[i] && CaseFlags(categoryId, previous)[j])
  {
    var flags := CaseFlags(categoryId, previous);
    if categoryId == 0 {
      if previous.Some? { assert flags[0]; } else { assert flags[1]; }
    } else {
      if previous.Some? { assert flags[2]; } else { assert flags[3]; }
    }
  }

  /** `keys[vals.index(True)]`: the case the request falls in. The index
      always exists, so the lookup never raises. */
  function SelectedCase(categoryId: int, previous: Option<seq<int>>): (option: int)
    ensures option == 1 <==> categoryId == 0 && previous.Some?
    ensures option == 2 <==> categoryId == 0 && previous.None?
    ensures option == 3 <==> categoryId != 0 && previous.Some?
    ensures option == 4 <==> categoryId != 0 && previous.None?
  {
    var keys := [1, 2, 3, 4];
    var flags := CaseFlags(categoryId, previous);
    ExactlyOneCase(categoryId, previous);
    var idx := IndexOfTrue(flags);
    keys[idx.value]
  }

  /** `Question.id.notin_(previous_questions)`. */
  predicate NotAsked(q: Question, previous: Option<seq<int>>)
  {
    previous.None? || q.id !in previous.value
  }

  /** The filter of each entry of `results_dict`. The entry the case table
      selects agrees on every row with the single composed filter. */
  function CaseFilter(option: int, categoryId: int, previous: Option<seq<int>>): (f: Question -> bool)
    ensures option == SelectedCase(categoryId, previous) ==>
      forall q :: f(q) == Eligible(categoryId, previous)(q)
  {
    if option == 1 then (q: Question) => NotAsked(q, previous)
    else if option == 2 then (q: Question) => true
    else if option == 3 then (q: Question) => q.category == categoryId && NotAsked(q, previous)
    else (q: Question) => q.category == categoryId
  }

  /** `results_dict.get(option)`: the candidate pool of the selected case.
      Its members are exactly the rows in the category (any, for id 0) that
      were not asked before. */
  function Pool(rows: seq<Question>, categoryId: int, previous: Option<seq<int>>): (pool: seq<Question>)
    ensures forall q :: q in pool <==>
      q in rows && (categoryId == 0 || q.category == categoryId) && NotAsked(q, previous)
  {
    Where(rows, CaseFilter(SelectedCase(categoryId, previous), categoryId, previous))
  }

  /** The single filter composition the case table amounts to: an optional
      category test and an optional exclusion test. */
  function Eligible(categoryId: int, previous: Option<seq<int>>): Question -> bool
  {
    (q: Question) => (categoryId == 0 || q.category == categoryId) && NotAsked(q, previous)
  }

  /** The four-way case table selects the same pool, in the same order, as
      the single filter composition. */
  lemma CaseTableIsOneFilter(rows: seq<Question>, categoryId: int, previous: Option<seq<int>>)
    ensures Pool(rows, categoryId, previous) == Where(rows, Eligible(categoryId, previous))
  {
    var f := CaseFilter(SelectedCase(categoryId, previous), categoryId, previous);
    var g := Eligible(categoryId, previous);
    forall q | q in rows ensures f(q) == g(q) {
    }
    WhereAgrees(rows, f, g);
  }

  /** With category 0 and no `previous_questions`, every question is a candidate. */
  lemma UnfilteredPoolIsEveryQuestion(rows: seq<Question>)
    ensures Pool(rows, 0, None) == rows
  {
    var f := CaseFilter(2, 0, None);
    WhereAll(rows, f);
  }

  /** `random.choice(result) if len(result) > 0 else ''`: the placeholder
      exactly for an empty pool, otherwise some member of it. */
  ghost predicate Drawable(pool: seq<Question>, d: QuizQuestion)
  {
    if pool == [] then d == Placeholder else d.Drawn? && d.question in pool
  }

  /** The draw, with `random.choice` as an arbitrary choice of a pool index. */
  method Draw(pool: seq<Question>) returns (d: QuizQuestion)
    ensures d == Placeholder <==> pool == []
    ensures d.Drawn? ==> d.question in pool
  {
    if |pool| > 0 {
      var i :| 0 <= i < |pool|;
      d := Drawn(pool[i]);
    } else {
      d := Placeholder;
    }
  }

  /** The outcomes `get_quizzes` answers with, as written: 422 without
      `quiz_category`; 500 when it has no `id` (the `KeyError` of line 184
      escapes the empty `except()`); 500 when `previous_questions` is absent
      (building `results_dict` evaluates `notin_(None)` for entries 1 and 3,
      which the query layer rejects); otherwise a draw from the pool. */
  ghost predicate MayAnswer(rows: seq<Question>, req: QuizRequest, r: Result<QuizQuestion>)
    ensures MayAnswer(rows, req, r) && r.Err? ==> r.status == Unprocessable || r.status == InternalError
    ensures MayAnswer(rows, req, r) && r.Ok? ==> req.previousQuestions.Some?
    ensures MayAnswer(rows, req, r) && r.Ok? && r.value.Drawn? ==>
      r.value.question in rows && r.value.question.id !in req.previousQuestions.value
  {
    match req.quizCategory
    case None => r == Err(Unprocessable)
    case Some(c) =>
      match c.id
      case None => r == Err(InternalError)
      case Some(id) =>
        if req.previousQuestions.None? then r == Err(InternalError)
        else r.Ok? && Drawable(Pool(rows, id, req.previousQuestions), r.value)
  }

  /** The outcomes the four-case table is evidently meant to give: as
      written, except that a request without `previous_questions` draws from
      the pool of case 2 or 4 instead of failing. */
  ghost predicate MayAnswerIntended(rows: seq<Question>, req: QuizRequest, r: Result<QuizQuestion>)
    ensures MayAnswerIntended(rows, req, r) && r.Ok? && r.value.Drawn? ==> r.value.question in rows
  {
    match req.quizCategory
    case None => r == Err(Unprocessable)
    case Some(c) =>
      match c.id
      case None => r == Err(InternalError)
      case Some(id) => r.Ok? && Drawable(Pool(rows, id, req.previousQuestions), r.value)
  }

  /** Any question of a non-empty pool may be the one drawn. */
  lemma EveryCandidateMayBeDrawn(rows: seq<Question>, req: QuizRequest, q: Question)
    requires req.quizCategory.Some? && req.quizCategory.value.id.Some? && req.previousQuestions.Some?
    requires q in Pool(rows, req.quizCategory.value.id.value, req.previousQuestions)
    ensures MayAnswer(rows, req, Ok(Drawn(q)))
    ensures MayAnswerIntended(rows, req, Ok(Drawn(q)))
  {
  }

  /** As written, a request without `previous_questions` always fails with
      500, even for category 0 on a non-empty table, where the intended
      behaviour draws a question. */
  lemma AbsentPreviousQuestionsFails(q: Question)
    ensures forall r :: MayAnswer([q], QuizRequest(Some(CategoryRef(Some(0))), None), r) ==> r == Err(InternalError)
    ensures MayAnswerIntended([q], QuizRequest(Some(CategoryRef(Some(0))), None), Ok(Drawn(q)))
    ensures !MayAnswer([q], QuizRequest(Some(CategoryRef(Some(0))), None), Ok(Drawn(q)))
  {
    UnfilteredPoolIsEveryQuestion([q]);
  }

  /** The start of a game as the client sends it (category 0, an empty
      `previous_questions` list) can draw any question of the table. */
  lemma EmptyHistoryPoolIsEveryQuestion(rows: seq<Question>)
    ensures Pool(rows, 0, Some([])) == rows
  {
    WhereAll(rows, CaseFilter(1, 0, Some([])));
  }

  /** `get_quizzes` as written. */
  method GetQuizzes(rows: seq<Question>, req: QuizRequest) returns (r: Result<QuizQuestion>)
    ensures MayAnswer(rows, req, r)
    ensures req.quizCategory.None? ==> r == Err(Unprocessable)
    ensures req.quizCategory.Some? && req.previousQuestions.None? ==> r == Err(InternalError)
    ensures r.Ok? ==> req.quizCategory.Some? && req.quizCategory.value.id.Some? && req.previousQuestions.Some?
    ensures r.Ok? && r.value.Drawn? ==> r.value.question in rows
    ensures r.Ok? && r.value.Drawn? ==> r.value.question.id !in req.previousQuestions.value
    ensures r.Ok? && r.value.Drawn? && req.quizCategory.value.id.value != 0 ==>
      r.value.question.category == req.quizCategory.value.id.value
    ensures r.Ok? ==> (r.value == Placeholder <==>
      Pool(rows, req.quizCategory.value.id.value, req.previousQuestions) == [])
  {
    if req.quizCategory.None? {
      return Err(Unprocessable);
    }
    var categoryId := req.quizCategory.value.id;
    if categoryId.None? || req.previousQuestions.None? {
      return Err(InternalError);
    }
    var option := SelectedCase(categoryId.value, req.previousQuestions);
    var result := Where(rows, CaseFilter(option, categoryId.value, req.previousQuestions));
    var data := Draw(result);
    r := Ok(data);
  }

  /** `get_quizzes` with only the selected case's query built: every request
      with a category id gets a draw or the placeholder. */
  method GetQuizzesIntended(rows: seq<Question>, req: QuizRequest) returns (r: Result<QuizQuestion>)
    ensures MayAnswerIntended(rows, req, r)
    ensures req.quizCategory.None? ==> r == Err(Unprocessable)
    ensures r.Err? ==> req.quizCategory.None? || req.quizCategory.value.id.None?
    ensures r.Ok? && r.value.Drawn? ==> NotAsked(r.value.question, req.previousQuestions)
    ensures r.Ok? && r.value.Drawn? && req.quizCategory.value.id.value != 0 ==>
      r.value.question.category == req.quizCategory.value.id.value
    ensures req.quizCategory == Some(CategoryRef(Some(0))) && req.previousQuestions.None? && rows != [] ==>
      r.Ok? && r.value.Drawn? && r.value.question in rows
  {
    if req.quizCategory.None? {
      return Err(Unprocessable);
    }
    var categoryId := req.quizCategory.value.id;
    if categoryId.None? {
      return Err(InternalError);
    }
    var option := SelectedCase(categoryId.value, req.previousQuestions);
    var result := Where(rows, CaseFilter(option, categoryId.value, req.previousQuestions));
    UnfilteredPoolIsEveryQuestion(rows);
    var data := Draw(result);
    r := Ok(data);
  }
}
