# Trivia API — a Dafny model of its question and quiz logic

The trivia API serves trivia questions grouped by category. It lists them ten
to a page, lists the questions of one category, searches question texts,
creates and deletes questions, and runs a quiz. Each quiz call draws one
question of the chosen category (id 0 means all categories) that the game has
not asked yet.

This project models that logic over an in-memory `questions` table:

- `models.dfy` (module `Models`): the `Question` and `Category` records.
  - `Result`, which carries either a success body or the status an endpoint
    aborts with (400, 404, 422 or 500).
  - `Where`, the row filter every query uses.
  - `Lookup`, the find-by-id of `one_or_none`.
- `pagination.dfy` (module `Pagination`): `paginate_questions`, written with
  Python's slice rules. A page number of 0 or below is therefore accepted, and
  its behaviour is modelled rather than excluded.
- `endpoints.dfy` (module `Endpoints`): the read-only endpoints.
  - Listing by category and listing all questions.
  - Search.
  - The category map returned by the list endpoint.
- `quiz.dfy` (module `Quiz`): the four-case table of `get_quizzes` and the
  pool each case selects.
  - `MayAnswer`: the outcomes the endpoint may produce as written.
  - `GetQuizzes`: the endpoint itself. `random.choice` becomes an arbitrary
    choice of a pool index (`Draw`).
  - `MayAnswerIntended` and `GetQuizzesIntended`: the corrected endpoint (see
    "## Findings").
- `store.dfy` (module `Store`): the class `QuestionStore`, whose rows and next
  serial id change in place.
  - `new_question`: the append loop over the required fields, then the
    insert.
  - `delete_question`.

The store keeps its rows in ascending id order, and ids come from a serial
counter. `retrieve_questions` and `search` ask the database for id order
(`order_by(Question.id)`), so for them the store order is the order the source
requests. The category listing and the quiz queries have no `order_by`; the
model reads them in store order too, which the database does not promise (see
"## Left out"). A formatted question (`format()`) has the
same five fields as the record, so the model uses the record itself as its
JSON rendering.

In these places the model follows the code as written:

- An empty quiz pool answers with the empty string `''` (`Placeholder`), not
  with null.
- Search's `total_questions` is the length of the returned page.
- A `quiz_category` object without an `id` key raises a `KeyError`. The empty
  `except():` clause does not catch it, so the server answers 500.
- A quiz request without `previous_questions` answers 500: building
  `results_dict` evaluates `notin_(None)` for every entry before a case is
  chosen (see "## Findings").

## Model

| member | source | states |
|---|---|---|
| `Models.Where` | starter/backend/flaskr/__init__.py:73 | A query filter returns exactly the rows that pass it, each as often as in the table (multiset), and never more rows than the table holds. |
| `Models.WhereAppend` | starter/backend/flaskr/__init__.py:155 | Filtering keeps the store order: the filter of two stretches of rows, one after the other, is the two filtered stretches one after the other. |
| `Models.WhereAscending` | starter/backend/flaskr/__init__.py:155 | Filtering a table that is in id order keeps the result in id order. |
| `Models.Lookup` | starter/backend/flaskr/__init__.py:112 | The find-by-id returns nothing exactly when no row has the id. Otherwise it returns a row of the table carrying that id. |
| `Models.LookupFinds` | starter/backend/flaskr/__init__.py:112 | With unique ids, every row is found under its own id. |
| `Pagination.PySlice` | starter/backend/flaskr/__init__.py:32 | For non-negative bounds, `s[i:j]` is the clamped sub-sequence, and it holds at most `j - i` items. |
| `Pagination.Paginate` | starter/backend/flaskr/__init__.py:25-34 | Any page holds at most 10 items, all from the selection. For page ≥ 1 the page is exactly the items at `[(page-1)*10, min(L, page*10))`. It is empty exactly when `(page-1)*10 ≥ L`. |
| `Pagination.PageZeroIsEmpty` | starter/backend/flaskr/__init__.py:27-32 | Page 0 is accepted and is always empty. |
| `Pagination.NegativePage` | starter/backend/flaskr/__init__.py:27-32 | For a selection of at least 20 items, page -1 is accepted and returns the ten items that end ten before the last item. |
| `Pagination.PaginateAscending` | starter/backend/flaskr/__init__.py:27-32 | Every page, for any page number, of an id-ordered selection is itself in id order. |
| `Pagination.PagesUpToPrefix` | starter/backend/flaskr/__init__.py:25-34 | Pages 1..n together are the first `min(10n, L)` items, in order. |
| `Pagination.PagesRebuildSelection` | starter/backend/flaskr/__init__.py:25-34 | Concatenating pages 1..ceil(L/10) rebuilds the whole selection. |
| `Pagination.PagesPastTheEnd` | starter/backend/flaskr/__init__.py:28-32 | Every page after page ceil(L/10) is empty. |
| `Endpoints.CategoryMap` | starter/backend/flaskr/__init__.py:102 | The `categories` map has exactly the category ids as its keys. |
| `Endpoints.CategoryMapEntry` | starter/backend/flaskr/__init__.py:102 | A category whose id is unique maps to its own type. |
| `Endpoints.InCategory` | starter/backend/flaskr/__init__.py:73 | `filter_by(category=…)` returns exactly the rows of that category, each as often as in the table, and no other row. |
| `Endpoints.GetQuestionsByCategory` | starter/backend/flaskr/__init__.py:70-84 | For every page number, including 0 and negative ones, 404 exactly when `paginate_questions` gives an empty page of the category, and otherwise that page. It holds 1 to 10 questions, all of that category, and for page ≥ 1 it is exactly the category's items at `[(page-1)*10, min(L, page*10))`; `total_questions` is the size of the whole category; `current_category` is the requested id. |
| `Endpoints.RetrieveQuestions` | starter/backend/flaskr/__init__.py:89-106 | For every page number, including 0 and negative ones, 404 exactly when `paginate_questions` gives an empty page of the table, and otherwise that page. It holds 1 to 10 questions, and for page ≥ 1 they are the rows at that page's positions; `total_questions` is the size of the whole table; `categories` maps every category id to its type (`CategoryMap`). |
| `Endpoints.LowerChar` | starter/backend/flaskr/__init__.py:155 | ASCII case folding maps each upper-case letter to the lower-case letter at the same alphabet position and leaves every other character alone. |
| `Endpoints.Lower` | starter/backend/flaskr/__init__.py:155 | Folding a string keeps its length and folds each character. |
| `Endpoints.ILike` | starter/backend/flaskr/__init__.py:155 | `ilike('%term%')`: an empty term matches every text, and a match needs a term no longer than the text. |
| `Endpoints.Search` | starter/backend/flaskr/__init__.py:150-166 | Search never aborts. Every result is a row whose text contains the term, ignoring ASCII case. At most 10 are returned, and `total_questions` is the page length. For page ≥ 1 the page is exactly the matches at `[(page-1)*10, page*10)` (clamped), and it is empty exactly when there are at most `(page-1)*10` matches. |
| `Endpoints.AbsentTermSearchesForNone` | starter/backend/flaskr/__init__.py:154-155 | A request without `searchTerm` gives the same answer as a search for the text `None`, the way the format string renders the missing value. |
| `Endpoints.SearchInIdOrder` | starter/backend/flaskr/__init__.py:155-157 | Search results come in ascending id order. |
| `Endpoints.ILikeIgnoresTermCase` | starter/backend/flaskr/__init__.py:155 | Matching does not depend on the case of the search term. |
| `Endpoints.SearchFindsTheOnlyMatch` | starter/backend/flaskr/__init__.py:150-163 | A term found in exactly one question's text returns exactly that question, with `total_questions` 1. |
| `Endpoints.SearchWithoutMatches` | starter/backend/flaskr/__init__.py:150-163 | A term found in no question's text is a success with no questions and `total_questions` 0, not a 404. |
| `Quiz.IndexOfTrue` | starter/backend/flaskr/__init__.py:201 | `vals.index(True)` returns the first position holding true. It fails exactly when no position does. |
| `Quiz.CaseFlags` | starter/backend/flaskr/__init__.py:183-188 | `quiz_dict` has four flags; flag i is true exactly when the category id is 0 for the first two and non-zero for the last two, and `previous_questions` is present for the odd-numbered cases and absent for the even-numbered ones. |
| `Quiz.ExactlyOneCase` | starter/backend/flaskr/__init__.py:183-188 | For every category id and every presence of `previous_questions`, exactly one of the four case flags is true. |
| `Quiz.SelectedCase` | starter/backend/flaskr/__init__.py:183-201 | The case lookup never fails. Case 1, 2, 3 or 4 is chosen exactly when the category is or is not 0 and `previous_questions` is or is not present, as the table pairs them. |
| `Quiz.CaseFilter` | starter/backend/flaskr/__init__.py:190-196 | The `results_dict` entry of the selected case filters every row exactly as the composed category and exclusion test does. |
| `Quiz.Pool` | starter/backend/flaskr/__init__.py:190-202 | The chosen case's pool holds exactly the questions of the requested category whose id is not among the previous questions. With id 0, questions of any category qualify. |
| `Quiz.CaseTableIsOneFilter` | starter/backend/flaskr/__init__.py:183-202 | The four-way table selects the same pool, in the same order, as one filter: an optional category test and an optional exclusion test. |
| `Quiz.UnfilteredPoolIsEveryQuestion` | starter/backend/flaskr/__init__.py:185-192 | With category 0 and no `previous_questions`, the pool is the whole table. |
| `Quiz.EmptyHistoryPoolIsEveryQuestion` | starter/backend/flaskr/__init__.py:183-191 | With category 0 and an empty `previous_questions` list, the pool is the whole table. |
| `Quiz.Draw` | starter/backend/flaskr/__init__.py:203 | `random.choice(result) if len(result) > 0 else ''`: the placeholder exactly when the pool is empty, otherwise a member of the pool. |
| `Quiz.MayAnswer` | starter/backend/flaskr/__init__.py:171-211 | As written, every error is 422 or 500; a success needs `previous_questions` to be present; a drawn question is a row of the table whose id is not among the previous questions. |
| `Quiz.MayAnswerIntended` | starter/backend/flaskr/__init__.py:171-211 | As the case table intends, a drawn question is always a row of the table. |
| `Quiz.EveryCandidateMayBeDrawn` | starter/backend/flaskr/__init__.py:203 | When `previous_questions` is present, any question of the pool is an allowed answer of the random draw, as written and as intended. |
| `Quiz.AbsentPreviousQuestionsFails` | starter/backend/flaskr/__init__.py:190-196 | For category 0 and no `previous_questions` on a one-row table, the code as written can only answer 500, while the intended behaviour may draw that row. |
| `Quiz.GetQuizzes` | starter/backend/flaskr/__init__.py:171-211 | As written. A missing `quiz_category` gives 422; a category without `id`, or a request without `previous_questions`, gives 500. A success answers with the placeholder exactly when the pool is empty. Otherwise it answers with a pool member, which never has a previous id and has the requested category when that id is not 0. |
| `Quiz.GetQuizzesIntended` | starter/backend/flaskr/__init__.py:171-211 | Corrected. Only a missing `quiz_category` (422) or a missing `id` (500) fail. A drawn question was not asked before and has the requested category when that id is not 0. With category 0 and no `previous_questions`, a non-empty table always yields a drawn question. |
| `Store.RequiredFieldsTruthy` | starter/backend/flaskr/__init__.py:130-137 | The four values `request.json.get(item)` collects for `required` are all truthy exactly when each field is present, the texts are non-empty and the numbers are non-zero. |
| `Store.CheckRequired` | starter/backend/flaskr/__init__.py:130-138 | The append loop and `any(not x)` check pass exactly when all four fields are present and truthy (non-empty text, non-zero number). |
| `Store.Without` | starter/backend/flaskr/__init__.py:117 | Deleting an id keeps exactly the rows with other ids and leaves no row with that id. |
| `Store.DropFirstIsWithout` | starter/backend/flaskr/__init__.py:112-117 | In an id-ordered table, deleting the first row's id leaves exactly the remaining rows. |
| `Store.RemoveAtIsWithout` | starter/backend/flaskr/__init__.py:112-117 | Removing the row found at an index of an id-ordered table leaves exactly the other rows, in order. |
| `Store.WithoutRemovesOneRow` | starter/backend/flaskr/__init__.py:112-117 | Deleting an existing id removes exactly one row, and a later lookup of that id finds nothing, so a second delete of the id is a 404. |
| `Store.QuestionStore.NewQuestion` | starter/backend/flaskr/__init__.py:127-148 | 400 exactly when some field is missing or falsy, and then the table is unchanged. Otherwise one row is appended carrying exactly the four given values under a fresh id, and a lookup by that id returns it. The store invariant (ids unique, ascending, below the next serial id) is kept. |
| `Store.QuestionStore.DeleteQuestion` | starter/backend/flaskr/__init__.py:108-125 | 404 and no change for an unknown id. Otherwise exactly that row is removed, the others stay in order, and `deleted` is the id. Afterwards no row has that id, and the store invariant is kept. |

## Left out

- HTTP routing, `request`/`jsonify`, CORS and the `after_request` headers are left out. They are transport, not logic.
- The error-handler bodies are left out. They are fixed JSON maps, so each abort is modelled as its status: `BadRequest` (400), `NotFound` (404), `Unprocessable` (422) or `InternalError` (500).
- `GET /categories` is not modelled as an endpoint. Only its map comprehension is modelled, as `Endpoints.CategoryMap`, which `retrieve_questions` also uses.
- `setup_db`, the database session and `Question.update` are replaced by the in-memory `QuestionStore`.
  - Its serial counter stands for the database's id assignment.
  - Ids are unbounded integers; the 32-bit width of the `Integer` column is not modelled.
- Queries without `order_by` (`filter_by(category=…)` and `query.all()`) are modelled in store order (ascending id). The database does not promise that order.
- `random.choice` is an arbitrary choice of a pool member. The uniform distribution is not modelled.
- `Endpoints.Search`: `ilike` is modelled as case-insensitive substring matching, folding ASCII letters only.
  - Database collation beyond ASCII is not modelled.
  - A `%`, `_` or backslash inside the search term is read literally, although SQL `LIKE` treats `%` and `_` as wildcards and the backslash as its default escape character.
  - An absent `searchTerm` becomes the pattern `None`, as Python's string formatting renders it.
- `Quiz.GetQuizzes`: the query layer is not part of this model. Its rejection of `notin_(None)` is modelled only by its outcome: every request with a category id but without `previous_questions` answers 500. Cases 2 and 4 of the table are reachable only in `Quiz.GetQuizzesIntended`.
- A request with no JSON body is not modelled. `body.get` on `None` then fails and the server answers 500.
- Each JSON field is modelled at one type only. `question`, `answer` and `searchTerm` are strings; `category`, `difficulty` and the quiz category `id` are integers; `previous_questions` is a list of integer ids. Any other JSON type for these fields is not modelled, for example a string category `"0"`, which Python finds truthy and `new_question` accepts, or a list for `question`.
- The `category` column is a string column compared against integer ids. The model uses an integer key and does not model the coercion.
- The `except():` clauses catch an empty tuple, so they never fire. No exception swallowing is modelled, and every abort propagates unchanged.
- `one_or_none` raising `MultipleResultsFound` is not modelled. The store invariant keeps ids unique, so it cannot happen.

## Findings

| source | as written | input that shows it | evidently intended | confidence | as-written member | corrected member |
|---|---|---|---|---|---|---|
| starter/backend/flaskr/__init__.py:190-196 | `results_dict` builds all four queries before the case is chosen, so `Question.id.notin_(previous_questions)` runs with `None` whenever `previous_questions` is absent, and the request answers 500 | `POST /quizzes` with `{"quiz_category": {"id": 0}}` on a non-empty table | cases 2 and 4 of `quiz_dict` answer a draw from the whole table or from the category | not executed | `Quiz.GetQuizzes`, `Quiz.AbsentPreviousQuestionsFails` | `Quiz.GetQuizzesIntended` |
