/** The `questions` table as an in-memory store, and the two endpoints that
    change it: `new_question` (insert) and `delete_question`. */
module Store {
  import opened Models

  /** A scalar of the create request's JSON body. */
  datatype Value = Text(s: string) | Number(n: int)

  /** The JSON body of `POST /questions`; each key may be absent. */
  datatype NewQuestionBody = NewQuestionBody(
    question: Option<string>, answer: Option<string>, category: Option<int>, difficulty: Option<int>)

  datatype FieldName = QuestionField | AnswerField | CategoryField | DifficultyField

  /** `required = ['question', 'answer', 'category', 'difficulty']`. */
  const Required: seq<FieldName> := [QuestionField, AnswerField, CategoryField, DifficultyField]

  /** `request.json.get(item)`. */
  function Get(body: NewQuestionBody, name: FieldName): Option<Value>
  {
    match name
    case QuestionField => if body.question.Some? then Some(Text(body.question.value)) else None
    case AnswerField => if body.answer.Some? then Some(Text(body.answer.value)) else None
    case CategoryField => if body.category.Some? then Some(Number(body.category.value)) else None
    case DifficultyField => if body.difficulty.Some? then Some(Number(body.difficulty.value)) else None
  }

  /** Python truthiness: a missing key (`None`), `''` and `0` are falsy. */
  predicate Truthy(v: Option<Value>)
  {
    match v
    case None => false
    case Some(Text(s)) => s != ""
    case Some(Number(n)) => n != 0
  }

  /** The body carries all four fields, each truthy. */
  predicate Complete(body: NewQuestionBody)
  {
    && body.question.Some? && body.question.value != ""
    && body.answer.Some? && body.answer.value != ""
    && body.category.Some? && body.category.value != 0
    && body.difficulty.Some? && body.difficulty.value != 0
  }

  /** The four values `request.json.get(item)` collects are all truthy
      exactly when the body is complete. */
  lemma RequiredFieldsTruthy(body: NewQuestionBody)
    ensures (forall j :: 0 <= j < |Required| ==> Truthy(Get(body, Required[j]))) <==> Complete(body)
  {
    assert (Truthy(Get(body, Required[0])) && Truthy(Get(body, Required[1]))
            && Truthy(Get(body, Required[2])) && Truthy(Get(body, Required[3])))
           <==> Complete(body);
  }

  /** The append loop over `required` followed by `any(not x for x in data)`:
      `ok` is false exactly when some required field is missing or falsy. */
  method CheckRequired(body: NewQuestionBody) returns (ok: bool)
    ensures ok <==> Complete(body)
  {
    var data: seq<Option<Value>> := [];
    for i := 0 to |Required|
      invariant |data| == i
      invariant forall j :: 0 <= j < i ==> data[j] == Get(body, Required[j])
    {
      data := data + [Get(body, Required[i])];
    }
    ok := forall j | 0 <= j < |data| :: Truthy(data[j]);
    assert Truthy(data[0]) && Truthy(data[1]) && Truthy(data[2]) && Truthy(data[3]) ==> ok;
  }

  /** The row filter of every row but the one with id `id`. */
  function IdIsNot(id: int): Question -> bool
  {
    (q: Question) => q.id != id
  }

  /** The table after the row with id `id` is deleted: every other row,
      as often as before, and no row with that id. */
  function Without(rows: seq<Question>, id: int): (r: seq<Question>)
    ensures forall q :: q in r <==> q in rows && q.id != id
    ensures id !in Ids(r)
  {
    Where(rows, IdIsNot(id))
  }

  /** Every id after the first row of an id-ascending table differs from the first. */
  lemma DropFirstIsWithout(rows: seq<Question>)
    requires IdsAscending(rows)
    requires 0 < |rows|
    ensures rows[1..] == Where(rows, IdIsNot(rows[0].id))
  {
    var f := IdIsNot(rows[0].id);
    forall q | q in rows[1..] ensures f(q) {
      var k :| 0 <= k < |rows[1..]| && rows[1..][k] == q;
      assert rows[k + 1] == q;
    }
    WhereAll(rows[1..], f);
  }

  /** The rows after the first of an id-ascending table are id-ascending. */
  lemma TailAscending(rows: seq<Question>)
    requires IdsAscending(rows)
    requires 0 < |rows|
    ensures IdsAscending(rows[1..])
  {
    var tail := rows[1..];
    forall a, b | 0 <= a < b < |tail| ensures tail[a].id < tail[b].id {
      assert tail[a] == rows[a + 1] && tail[b] == rows[b + 1];
    }
  }

  /** One step of the removal: a row before the removed one is kept at the front. */
  lemma RemoveAtStep(rows: seq<Question>, i: nat)
    requires 0 < i < |rows|
    requires rows[0].id != rows[i].id
    requires rows[1..][..i - 1] + rows[1..][i..] == Where(rows[1..], IdIsNot(rows[i].id))
    ensures rows[..i] + rows[i + 1..] == Where(rows, IdIsNot(rows[i].id))
  {
    WhereKeepsFirst(rows, IdIsNot(rows[i].id));
    CutBehindHead(rows, i);
  }

  /** Cutting out position `i > 0` keeps the head in front of the cut tail. */
  lemma CutBehindHead(s: seq<Question>, i: nat)
    requires 0 < i < |s|
    ensures s[..i] + s[i + 1..] == [s[0]] + (s[1..][..i - 1] + s[1..][i..])
  {
    assert s[..i] == [s[0]] + s[1..][..i - 1];
    assert s[i + 1..] == s[1..][i..];
  }

  /** Cutting out the row at `i` of an id-ascending table deletes exactly
      the row with that id and keeps the others in order. */
  lemma {:induction false} RemoveAtIsWithout(rows: seq<Question>, i: nat)
    requires IdsAscending(rows)
    requires i < |rows|
    ensures rows[..i] + rows[i + 1..] == Where(rows, IdIsNot(rows[i].id))
  {
    if i == 0 {
      DropFirstIsWithout(rows);
    } else {
      TailAscending(rows);
      RemoveAtIsWithout(rows[1..], i - 1);
      assert rows[1..][i - 1] == rows[i];
      assert rows[0].id < rows[i].id;
      RemoveAtStep(rows, i);
    }
  }

  /** Deleting an existing id removes one row, and that id is gone afterwards. */
  lemma WithoutRemovesOneRow(rows: seq<Question>, id: int)
    requires IdsAscending(rows)
    requires id in Ids(rows)
    ensures |Without(rows, id)| == |rows| - 1
    ensures Lookup(Without(rows, id), id) == None
  {
    var i :| 0 <= i < |rows| && rows[i].id == id;
    RemoveAtIsWithout(rows, i);
  }

  /** The `questions` table: its rows in id order and the next id the
      database's serial column hands out. */
  class QuestionStore {
    var rows: seq<Question>
    var nextId: int

    /** Ids are unique, ascending, positive and all below the next id. */
    ghost predicate Valid()
      reads this
    {
      && 1 <= nextId
      && IdsAscending(rows)
      && forall q :: q in rows ==> 1 <= q.id < nextId
    }

    constructor ()
      ensures Valid() && rows == [] && nextId == 1
    {
      rows := [];
      nextId := 1;
    }

    /** `new_question`: 400 unless all four fields are present and truthy;
        otherwise a new row with exactly those values under a fresh id. */
    method NewQuestion(body: NewQuestionBody) returns (r: Result<Question>)
      requires Valid()
      modifies this
      ensures Valid()
      ensures r.Err? <==> !Complete(body)
      ensures r.Err? ==> r.status == BadRequest && rows == old(rows) && nextId == old(nextId)
      ensures r.Ok? ==> r.value == Question(old(nextId), body.question.value, body.answer.value,
                                            body.category.value, body.difficulty.value)
      ensures r.Ok? ==> rows == old(rows) + [r.value] && nextId == old(nextId) + 1
      ensures r.Ok? ==> r.value.id !in Ids(old(rows)) && Lookup(rows, r.value.id) == Some(r.value)
    {
      var ok := CheckRequired(body);
      if !ok {
        return Err(BadRequest);
      }
      var entry := Question(nextId, body.question.value, body.answer.value,
                            body.category.value, body.difficulty.value);
      assert entry !in rows;
      rows := rows + [entry];
      nextId := nextId + 1;
      LookupFinds(rows, entry);
      r := Ok(entry);
    }

    /** `delete_question`: 404 for an unknown id; otherwise that row alone
        is removed and the id is reported back. */
    method DeleteQuestion(id: int) returns (r: Result<int>)
      requires Valid()
      modifies this
      ensures Valid() && nextId == old(nextId)
      ensures id !in Ids(old(rows)) ==> r == Err(NotFound) && rows == old(rows)
      ensures id in Ids(old(rows)) ==> r == Ok(id) && rows == Without(old(rows), id)
      ensures id in Ids(old(rows)) ==> |rows| == |old(rows)| - 1
      ensures Lookup(rows, id) == None
    {
      var question := Lookup(rows, id);
      if question.None? {
        return Err(NotFound);
      }
      var i :| 0 <= i < |rows| && rows[i] == question.value;
      ghost var before := rows;
      RemoveAtIsWithout(before, i);
      WithoutRemovesOneRow(before, id);
      WhereAscending(before, IdIsNot(id));
      rows := rows[..i] + rows[i + 1..];
      assert rows == Without(before, id);
      r := Ok(id);
    }
  }
}
