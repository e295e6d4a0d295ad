/** `paginate_questions`: the current page of a formatted selection. */
module Pagination {
  import opened Models

  const QUESTIONS_PER_PAGE: nat := 10

  function Min(a: int, b: int): int { if a < b then a else b }

  /** Python's normalisation of a slice bound `i` against a length `n`: a
      negative bound counts from the end, and both ends are clamped to `[0, n]`. */
  function SliceBound(i: int, n: nat): (b: nat)
    ensures b <= n
    ensures 0 <= i ==> b == Min(i, n)
    ensures i < 0 ==> b == if n + i < 0 then 0 else n + i
  {
    if i < 0 then (if n + i < 0 then 0 else n + i)
    else if i < n then i else n
  }

  /** Python's `s[i:j]`: empty when the normalised start is not below the
      normalised end. */
  function PySlice(s: seq<Question>, i: int, j: int): (r: seq<Question>)
    ensures 0 <= i <= j ==> r == s[Min(i, |s|)..Min(j, |s|)]
    ensures i <= j ==> |r| <= j - i
  {
    var a, b := SliceBound(i, |s|), SliceBound(j, |s|);
    if a <= b then s[a..b] else []
  }

  /** `paginate_questions(request, selection)` for the page number `page`
      (`request.args.get('page', 1, type=int)`: 1 when absent or not a number). */
  function Paginate(page: int, selection: seq<Question>): (r: seq<Question>)
    ensures |r| <= QUESTIONS_PER_PAGE
    ensures forall q :: q in r ==> q in selection
    ensures page >= 1 ==> r == selection[Min((page - 1) * QUESTIONS_PER_PAGE, |selection|)
                                         ..Min(page * QUESTIONS_PER_PAGE, |selection|)]
    ensures page >= 1 ==> (r == [] <==> |selection| <= (page - 1) * QUESTIONS_PER_PAGE)
  {
    var start := (page - 1) * QUESTIONS_PER_PAGE;
    var end := start + QUESTIONS_PER_PAGE;
    PySlice(selection, start, end)
  }

  /** Page 0 is accepted and always empty (its slice is `[-10:0]`). */
  lemma PageZeroIsEmpty(selection: seq<Question>)
    ensures Paginate(0, selection) == []
  {
  }

  /** A negative page is accepted too, and counts pages back from the end:
      page -1 is the ten items that end ten before the last one. */
  lemma NegativePage(selection: seq<Question>)
    requires |selection| >= 20
    ensures Paginate(-1, selection) == selection[|selection| - 20..|selection| - 10]
  {
  }

  /** A page of an id-ascending selection is id-ascending. */
  lemma PaginateAscending(page: int, selection: seq<Question>)
    requires IdsAscending(selection)
    ensures IdsAscending(Paginate(page, selection))
  {
    var a, b := SliceBound((page - 1) * QUESTIONS_PER_PAGE, |selection|), SliceBound(page * QUESTIONS_PER_PAGE, |selection|);
    if a <= b {
      var s := selection[a..b];
      assert Paginate(page, selection) == s;
      forall i, j | 0 <= i < j < |s| ensures s[i].id < s[j].id {
        assert s[i] == selection[a + i] && s[j] == selection[a + j];
      }
    }
  }

  /** The number of pages needed for `n` items: ceil(n / 10). */
  function PageCount(n: nat): nat
  {
    (n + QUESTIONS_PER_PAGE - 1) / QUESTIONS_PER_PAGE
  }

  /** Pages 1..n of a selection, concatenated. */
  function PagesUpTo(selection: seq<Question>, n: nat): seq<Question>
  {
    if n == 0 then [] else PagesUpTo(selection, n - 1) + Paginate(n, selection)
  }

  /** Pages 1..n together are the first 10n items (or all of them). */
  lemma {:induction false} PagesUpToPrefix(selection: seq<Question>, n: nat)
    ensures PagesUpTo(selection, n) == selection[..Min(n * QUESTIONS_PER_PAGE, |selection|)]
  {
    if n > 0 {
      PagesUpToPrefix(selection, n - 1);
      var a := Min((n - 1) * QUESTIONS_PER_PAGE, |selection|);
      var b := Min(n * QUESTIONS_PER_PAGE, |selection|);
      assert selection[..a] + selection[a..b] == selection[..b];
    }
  }

  /** Concatenating pages 1..ceil(L/10) rebuilds the whole selection. */
  lemma PagesRebuildSelection(selection: seq<Question>)
    ensures PagesUpTo(selection, PageCount(|selection|)) == selection
  {
    PagesUpToPrefix(selection, PageCount(|selection|));
    assert PageCount(|selection|) * QUESTIONS_PER_PAGE >= |selection|;
  }

  /** Every page after the last full or partial page is empty. */
  lemma PagesPastTheEnd(selection: seq<Question>, page: int)
    requires page > PageCount(|selection|)
    ensures Paginate(page, selection) == []
  {
    assert (page - 1) * QUESTIONS_PER_PAGE >= PageCount(|selection|) * QUESTIONS_PER_PAGE;
  }
}
