/** Records of the trivia store, the outcomes of its endpoints, and the
    filters the endpoints run over the `questions` table. */
module Models {

  datatype Option<+T> = None | Some(value: T)

  /** A row of the `questions` table. `format()` renders exactly these five
      fields as a JSON object, so a formatted question is this value. The
      category column is an opaque key compared against integer category ids. */
  datatype Question = Question(id: int, question: string, answer: string, category: int, difficulty: int)

  /** A row of the `categories` table (`type` in the source). */
  datatype Category = Category(id: int, kind: string)

  /** The error statuses the endpoints abort with: 400, 404, 422 and 500. */
  datatype Status = BadRequest | NotFound | Unprocessable | InternalError

  /** An endpoint either answers with a success body or aborts with a status. */
  datatype Result<+T> = Ok(value: T) | Err(status: Status)

  /** The ids present in a list of rows. */
  function Ids(rows: seq<Question>): set<int>
  {
    set q | q in rows :: q.id
  }

  /** The store's ordering invariant: ids strictly ascending (hence unique). */
  ghost predicate IdsAscending(rows: seq<Question>)
  {
    forall i, j :: 0 <= i < j < |rows| ==> rows[i].id < rows[j].id
  }

  /** `Question.query.filter(...)`: the rows satisfying `keep`, in store order. */
  function Where(rows: seq<Question>, keep: Question -> bool): (r: seq<Question>)
    ensures forall q :: q in r <==> q in rows && keep(q)
    ensures forall q {:trigger multiset(r)[q]} :: multiset(r)[q] == if keep(q) then multiset(rows)[q] else 0
    ensures |r| <= |rows|
  {
    if rows == [] then []
    else
      assert rows == [rows[0]] + rows[1..];
      if keep(rows[0]) then [rows[0]] + Where(rows[1..], keep)
      else Where(rows[1..], keep)
  }

  /** A kept first row leads the filtered rows. */
  lemma WhereKeepsFirst(rows: seq<Question>, keep: Question -> bool)
    requires 0 < |rows| && keep(rows[0])
    ensures Where(rows, keep) == [rows[0]] + Where(rows[1..], keep)
  {
  }

  /** Filtering keeps the store order: filtering two stretches of rows one
      after the other gives the filtered stretches one after the other. */
  lemma {:induction false} WhereAppend(a: seq<Question>, b: seq<Question>, keep: Question -> bool)
    ensures Where(a + b, keep) == Where(a, keep) + Where(b, keep)
  {
    if a != [] {
      assert (a + b)[0] == a[0];
      assert (a + b)[1..] == a[1..] + b;
      WhereAppend(a[1..], b, keep);
    } else {
      assert a + b == b;
    }
  }

  /** A filter no row passes selects nothing. */
  lemma {:induction false} WhereNone(rows: seq<Question>, keep: Question -> bool)
    requires forall q :: q in rows ==> !keep(q)
    ensures Where(rows, keep) == []
  {
    if rows != [] {
      assert rows[0] in rows;
      WhereNone(rows[1..], keep);
    }
  }

  /** A filter every row passes selects every row. */
  lemma {:induction false} WhereAll(rows: seq<Question>, keep: Question -> bool)
    requires forall q :: q in rows ==> keep(q)
    ensures Where(rows, keep) == rows
  {
    if rows != [] {
      assert rows[0] in rows;
      WhereAll(rows[1..], keep);
    }
  }

  /** Two filters that agree on every row select the same rows. */
  lemma {:induction false} WhereAgrees(rows: seq<Question>, f: Question -> bool, g: Question -> bool)
    requires forall q :: q in rows ==> f(q) == g(q)
    ensures Where(rows, f) == Where(rows, g)
  {
    if rows != [] {
      WhereAgrees(rows[1..], f, g);
    }
  }

  /** Filtering keeps the relative order of rows, so it keeps ids ascending. */
  lemma {:induction false} WhereAscending(rows: seq<Question>, keep: Question -> bool)
    requires IdsAscending(rows)
    ensures IdsAscending(Where(rows, keep))
  {
    if rows != [] {
      WhereAscending(rows[1..], keep);
      var rest := Where(rows[1..], keep);
      assert forall q :: q in rest ==> q in rows[1..];
      assert forall q :: q in rows[1..] ==> rows[0].id < q.id;
    }
  }

  /** `filter(Question.id == id).one_or_none()`: the row with that id, if any. */
  function Lookup(rows: seq<Question>, id: int): (r: Option<Question>)
    ensures r.None? <==> id !in Ids(rows)
    ensures r.Some? ==> r.value in rows && r.value.id == id
  {
    if rows == [] then None
    else if rows[0].id == id then Some(rows[0])
    else Lookup(rows[1..], id)
  }

  /** With unique ids, a row is found under its own id. */
  lemma {:induction false} LookupFinds(rows: seq<Question>, q: Question)
    requires IdsAscending(rows)
    requires q in rows
    ensures Lookup(rows, q.id) == Some(q)
  {
    if rows[0] != q {
      assert q in rows[1..];
      assert rows[0].id < q.id;
      LookupFinds(rows[1..], q);
    }
  }
}
