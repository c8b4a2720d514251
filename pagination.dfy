/** `paginate_questions`: a window of QuestionsPerPage items taken with a
    Python slice `items[start:end]`, start = (page - 1) * 10, end = start + 10.
    The slice follows Python's rules: a negative bound counts from the end
    (add the length, clamp at 0), a bound past the end is clamped to the
    length, and a window whose bounds cross is empty. */
module Pagination {
  import opened Records

  const QuestionsPerPage: nat := 10

  /** The page number `request.args.get("page", 1, type=int)` yields: the
      parsed integer, or 1 when the parameter is absent or not an integer. */
  function PageNumber(arg: Option<int>): (page: int)
    ensures arg.Some? ==> page == arg.value
    ensures arg.None? ==> page == 1
  {
    match arg
    case Some(p) => p
    case None => 1
  }

  /** Python's normalisation of one slice bound against a sequence of length n. */
  function SliceBound(i: int, n: nat): (j: nat)
    ensures j <= n
    ensures i >= 0 ==> j == Min(i, n)
    ensures i < 0 ==> j == Max0(i + n)
  {
    if i < 0 then (if i + n < 0 then 0 else i + n)
    else if i > n then n
    else i
  }

  /** `s[start:stop]` with Python semantics (step 1). */
  function PySlice<T>(s: seq<T>, start: int, stop: int): (r: seq<T>)
    ensures var lo, hi := SliceBound(start, |s|), SliceBound(stop, |s|);
            |r| == Max0(hi - lo) && forall k :: 0 <= k < |r| ==> r[k] == s[lo + k]
  {
    var lo, hi := SliceBound(start, |s|), SliceBound(stop, |s|);
    if lo < hi then s[lo..hi] else []
  }

  /** `paginate_questions` over an already ordered selection (format() is the identity). */
  function Paginate<T>(s: seq<T>, page: int): (r: seq<T>)
    ensures |r| <= QuestionsPerPage
    ensures forall k :: 0 <= k < |r| ==> r[k] in s
  {
    var start := (page - 1) * QuestionsPerPage;
    PySlice(s, start, start + QuestionsPerPage)
  }

  function Min(a: int, b: int): int { if a <= b then a else b }

  function Max0(a: int): nat { if a < 0 then 0 else a }

  /** Page 1 and later: items (page-1)*10 .. min(page*10, n)-1 in their original
      order; nothing once the page starts at or past the end. */
  lemma PaginateForwardPage<T>(s: seq<T>, page: int)
    requires page >= 1
    ensures var lo, hi := Min((page - 1) * QuestionsPerPage, |s|), Min(page * QuestionsPerPage, |s|);
            lo <= hi && Paginate(s, page) == s[lo..hi]
    ensures Paginate(s, page) == [] <==> (page - 1) * QuestionsPerPage >= |s|
  {
  }

  /** Page 0 is the slice [-10:0], which is always empty. */
  lemma PaginatePageZero<T>(s: seq<T>)
    ensures Paginate(s, 0) == []
  {
  }

  /** A negative page is a slice with two negative bounds: both are shifted by
      the length and clamped at 0, so the window need not be empty. */
  lemma PaginateNegativePage<T>(s: seq<T>, page: int)
    requires page < 0
    ensures var lo, hi := Max0(|s| + (page - 1) * QuestionsPerPage), Max0(|s| + page * QuestionsPerPage);
            lo <= hi <= |s| && Paginate(s, page) == s[lo..hi]
    ensures Paginate(s, page) != [] <==> |s| > -page * QuestionsPerPage
  {
  }

  /** Every item of the selection is listed on page i/10 + 1, at position i%10. */
  lemma PageOfIndex<T>(s: seq<T>, i: int)
    requires 0 <= i < |s|
    ensures var p := Paginate(s, i / QuestionsPerPage + 1);
            i % QuestionsPerPage < |p| && p[i % QuestionsPerPage] == s[i]
  {
    PaginateForwardPage(s, i / QuestionsPerPage + 1);
  }

  /** Pages 1..k laid end to end. */
  function Pages<T>(s: seq<T>, k: nat): seq<T>
  {
    if k == 0 then [] else Pages(s, k - 1) + Paginate(s, k)
  }

  /** Consecutive pages tile the selection: pages 1..k together are exactly its
      first min(10k, n) items, with no gap, overlap or reordering. */
  lemma {:induction false} PagesArePrefix<T>(s: seq<T>, k: nat)
    ensures Pages(s, k) == s[..Min(k * QuestionsPerPage, |s|)]
  {
    if k > 0 {
      PagesArePrefix(s, k - 1);
      PaginateForwardPage(s, k);
      var a, b := Min((k - 1) * QuestionsPerPage, |s|), Min(k * QuestionsPerPage, |s|);
      assert s[..a] + s[a..b] == s[..b];
    }
  }

  /** The ceil(n/10) pages of a selection give back the whole selection. */
  lemma AllPagesCoverSelection<T>(s: seq<T>)
    ensures Pages(s, (|s| + QuestionsPerPage - 1) / QuestionsPerPage) == s
  {
    var k := (|s| + QuestionsPerPage - 1) / QuestionsPerPage;
    PagesArePrefix(s, k);
    assert s[..|s|] == s;
  }
}
