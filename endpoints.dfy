/** The read-only question endpoints: list by category, list all, search,
    and the category map they return. Each takes the store's rows (ascending
    by id, as the store keeps them) and the requested page number. */
module Endpoints {
  import opened Models
  import opened Pagination

  /** Body of `GET /categories/<id>/questions`. */
  datatype CategoryPage = CategoryPage(questions: seq<Question>, totalQuestions: nat, currentCategory: int)

  /** Body of `GET /questions`; `current_category` is always null. */
  datatype QuestionsPage = QuestionsPage(categories: map<int, string>, questions: seq<Question>, totalQuestions: nat)

  /** Body of `POST /questions/search`. */
  datatype SearchPage = SearchPage(questions: seq<Question>, totalQuestions: nat)

  /** `{category.id: category.type for category in categories}`: later rows
      overwrite earlier ones with the same id. */
  function CategoryMap(categories: seq<Category>): (m: map<int, string>)
    ensures m.Keys == set c | c in categories :: c.id
  {
    if categories == [] then map[]
    else
      var last := categories[|categories| - 1];
      CategoryMap(categories[..|categories| - 1])[last.id := last.kind]
  }

  /** Every category is listed under its id; with unique ids, with its own type. */
  lemma {:induction false} CategoryMapEntry(categories: seq<Category>, i: nat)
    requires i < |categories|
    requires forall j :: 0 <= j < |categories| && j != i ==> categories[j].id != categories[i].id
    ensures categories[i].id in CategoryMap(categories)
    ensures CategoryMap(categories)[categories[i].id] == categories[i].kind
  {
    if i < |categories| - 1 {
      CategoryMapEntry(categories[..|categories| - 1], i);
    }
  }

  /** The row filter of `filter_by(category=category_id)`. */
  function CategoryIs(categoryId: int): Question -> bool
  {
    (q: Question) => q.category == categoryId
  }

  /** `Question.query.filter_by(category=category_id)`: every row of the
      category, each as often as in the table, and no other row. */
  function InCategory(rows: seq<Question>, categoryId: int): (r: seq<Question>)
    ensures forall q :: q in r <==> q in rows && q.category == categoryId
    ensures forall q :: multiset(r)[q] == if q.category == categoryId then multiset(rows)[q] else 0
  {
    Where(rows, CategoryIs(categoryId))
  }

  /** `get_questions_by_category`: 404 exactly when the requested page of the
      category's questions is empty; otherwise that page, the size of the
      whole category (not of the page) and the requested category id. */
  function GetQuestionsByCategory(rows: seq<Question>, categoryId: int, page: int): (r: Result<CategoryPage>)
    ensures r.Err? ==> r.status == NotFound
    ensures page >= 1 ==> (r.Err? <==> |InCategory(rows, categoryId)| <= (page - 1) * QUESTIONS_PER_PAGE)
    ensures r.Err? <==> Paginate(page, InCategory(rows, categoryId)) == []
    ensures r.Ok? ==> r.value.questions == Paginate(page, InCategory(rows, categoryId))
    ensures r.Ok? ==> 1 <= |r.value.questions| <= QUESTIONS_PER_PAGE
    ensures r.Ok? ==> forall q :: q in r.value.questions ==> q in rows && q.category == categoryId
    ensures r.Ok? ==> r.value.totalQuestions == |InCategory(rows, categoryId)| && r.value.currentCategory == categoryId
    ensures r.Ok? && page >= 1 ==>
      var selection := InCategory(rows, categoryId);
      r.value.questions == selection[(page - 1) * QUESTIONS_PER_PAGE..Min(page * QUESTIONS_PER_PAGE, |selection|)]
  {
    var selection := InCategory(rows, categoryId);
    var questions := Paginate(page, selection);
    if |questions| == 0 then Err(NotFound)
    else Ok(CategoryPage(questions, |selection|, categoryId))
  }

  /** `retrieve_questions`: 404 exactly when the requested page of all
      questions is empty; otherwise the category map, that page in id order,
      and the size of the whole table. */
  function RetrieveQuestions(rows: seq<Question>, categories: seq<Category>, page: int): (r: Result<QuestionsPage>)
    ensures r.Err? ==> r.status == NotFound
    ensures page >= 1 ==> (r.Err? <==> |rows| <= (page - 1) * QUESTIONS_PER_PAGE)
    ensures r.Err? <==> Paginate(page, rows) == []
    ensures r.Ok? ==> r.value.questions == Paginate(page, rows)
    ensures r.Ok? ==> r.value.categories == CategoryMap(categories)
    ensures r.Ok? ==> 1 <= |r.value.questions| <= QUESTIONS_PER_PAGE
    ensures r.Ok? ==> r.value.totalQuestions == |rows|
    ensures r.Ok? ==> r.value.categories.Keys == set c | c in categories :: c.id
    ensures r.Ok? && page >= 1 ==>
      r.value.questions == rows[(page - 1) * QUESTIONS_PER_PAGE..Min(page * QUESTIONS_PER_PAGE, |rows|)]
  {
    var questions := Paginate(page, rows);
    if |questions| == 0 then Err(NotFound)
    else Ok(QuestionsPage(CategoryMap(categories), questions, |rows|))
  }

  /** ASCII case folding, the part of `ilike`'s collation this model keeps. */
  function LowerChar(c: char): (d: char)
    ensures 'A' <= c <= 'Z' ==> 'a' <= d <= 'z' && d as int - 'a' as int == c as int - 'A' as int
    ensures !('A' <= c <= 'Z') ==> d == c
  {
    if 'A' <= c <= 'Z' then (c as int + 32) as char else c
  }

  function Lower(s: string): (t: string)
    ensures |t| == |s|
    ensures forall i :: 0 <= i < |s| ==> t[i] == LowerChar(s[i])
  {
    if s == [] then [] else [LowerChar(s[0])] + Lower(s[1..])
  }

  /** `needle` occurs in `text` starting at position `i`. */
  predicate OccursAt(text: string, needle: string, i: int)
  {
    0 <= i <= |text| - |needle| && text[i..i + |needle|] == needle
  }

  /** `needle` occurs in `text` at some position. */
  predicate Contains(text: string, needle: string)
  {
    exists i | 0 <= i <= |text| - |needle| :: OccursAt(text, needle, i)
  }

  /** `Question.question.ilike('%term%')`, with `%`, `_` and a backslash in the term
      read literally. An empty term matches every text; a match needs a term
      no longer than the text. */
  function ILike(text: string, term: string): (b: bool)
    ensures term == "" ==> b
    ensures b ==> |term| <= |text|
  {
    assert term == "" ==> OccursAt(Lower(text), Lower(term), 0);
    Contains(Lower(text), Lower(term))
  }

  /** `'%{}%'.format(search_item)`: an absent term is rendered as `None`. */
  function SearchPattern(searchTerm: Option<string>): string
  {
    match searchTerm
    case Some(t) => t
    case None => "None"
  }

  /** The row filter of `Question.question.ilike('%term%')`. */
  function TextMatches(term: string): Question -> bool
  {
    (q: Question) => ILike(q.question, term)
  }

  function Matching(rows: seq<Question>, term: string): seq<Question>
  {
    Where(rows, TextMatches(term))
  }

  /** `search`: never aborts; the requested page of the matching questions,
      with `total_questions` the length of that page, not the match count. */
  function Search(rows: seq<Question>, searchTerm: Option<string>, page: int): (r: Result<SearchPage>)
    ensures r.Ok?
    ensures r.value.totalQuestions == |r.value.questions| <= QUESTIONS_PER_PAGE
    ensures forall q :: q in r.value.questions ==> q in rows && ILike(q.question, SearchPattern(searchTerm))
    ensures page >= 1 ==>
      (r.value.questions == [] <==> |Matching(rows, SearchPattern(searchTerm))| <= (page - 1) * QUESTIONS_PER_PAGE)
    ensures page >= 1 ==>
      var matches := Matching(rows, SearchPattern(searchTerm));
      r.value.questions == matches[Min((page - 1) * QUESTIONS_PER_PAGE, |matches|)..Min(page * QUESTIONS_PER_PAGE, |matches|)]
  {
    var questions := Paginate(page, Matching(rows, SearchPattern(searchTerm)));
    Ok(SearchPage(questions, |questions|))
  }

  /** Search results come in id order (`order_by(Question.id)`). */
  lemma SearchInIdOrder(rows: seq<Question>, searchTerm: Option<string>, page: int)
    requires IdsAscending(rows)
    ensures IdsAscending(Search(rows, searchTerm, page).value.questions)
  {
    WhereAscending(rows, TextMatches(SearchPattern(searchTerm)));
    PaginateAscending(page, Matching(rows, SearchPattern(searchTerm)));
  }

  /** A request without `searchTerm` searches for the text `None`. */
  lemma AbsentTermSearchesForNone(rows: seq<Question>, page: int)
    ensures Search(rows, None, page) == Search(rows, Some("None"), page)
  {
  }

  /** Matching ignores ASCII case in the term. */
  lemma ILikeIgnoresTermCase(text: string, term: string)
    ensures ILike(text, term) == ILike(text, Lower(term))
  {
    assert Lower(Lower(term)) == Lower(term);
  }

  /** When exactly one row matches, it is the only result of the first page. */
  lemma {:induction false} WhereSingle(rows: seq<Question>, keep: Question -> bool, k: nat)
    requires k < |rows| && keep(rows[k])
    requires forall j :: 0 <= j < |rows| && keep(rows[j]) ==> j == k
    ensures Where(rows, keep) == [rows[k]]
  {
    if k == 0 {
      forall q | q in rows[1..] ensures !keep(q) {
        var j :| 0 <= j < |rows[1..]| && rows[1..][j] == q;
        assert rows[j + 1] == q;
      }
      WhereNone(rows[1..], keep);
    } else {
      WhereSingle(rows[1..], keep, k - 1);
    }
  }

  /** A term found in exactly one question's text finds exactly that question. */
  lemma SearchFindsTheOnlyMatch(rows: seq<Question>, term: string, k: nat)
    requires k < |rows| && ILike(rows[k].question, term)
    requires forall j :: 0 <= j < |rows| && ILike(rows[j].question, term) ==> j == k
    ensures Search(rows, Some(term), 1) == Ok(SearchPage([rows[k]], 1))
  {
    WhereSingle(rows, TextMatches(term), k);
    assert Matching(rows, term) == [rows[k]];
    assert Paginate(1, [rows[k]]) == [rows[k]];
  }

  /** A term found in no question is a success with no questions, not a 404. */
  lemma SearchWithoutMatches(rows: seq<Question>, term: string, page: int)
    requires forall q :: q in rows ==> !ILike(q.question, term)
    ensures Search(rows, Some(term), page) == Ok(SearchPage([], 0))
  {
    WhereNone(rows, TextMatches(term));
  }
}
