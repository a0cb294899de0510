/** Shared vocabulary of the read model: optional values, the typed not-found
    failure, the pagination pair, de-duplication (SQL GROUP BY on one column)
    and Python's slice rule as used by every `all`/`games` pager. */
module Common {

  datatype Option<T> = None | Some(value: T)

  /** The only failure the catalogs report: the key is not in the catalog
      (the web layer turns it into HTTP 404). */
  datatype Failure = NotFound

  datatype Result<T> = Ok(value: T) | Err(error: Failure)

  /** What a pager is handed: the items of the requested page and the total
      number of items (the page-count arithmetic is not part of this model). */
  datatype Pagination<T> = Pagination(items: seq<T>, total: int)

  function Min(a: int, b: int): int { if a <= b then a else b }

  predicate NoDuplicates<T(==)>(s: seq<T>) {
    forall i, j :: 0 <= i < j < |s| ==> s[i] != s[j]
  }

  /** The distinct values of `s`, each once, in order of first occurrence. */
  function Distinct<T(==,!new)>(s: seq<T>): (d: seq<T>)
    ensures NoDuplicates(d)
    ensures forall x :: x in d <==> x in s
    ensures |d| <= |s|
  {
    if s == [] then []
    else
      var init := s[..|s| - 1];
      var d := Distinct(init);
      assert forall x :: x in s <==> x in init || x == s[|s| - 1];
      if s[|s| - 1] in d then d else d + [s[|s| - 1]]
  }

  /** A duplicate-free sequence has exactly as many elements as the set of its
      elements: the length of a GROUP BY list is the number of groups. */
  lemma {:induction false} NoDuplicatesCardinality<T>(s: seq<T>)
    requires NoDuplicates(s)
    ensures |set x | x in s| == |s|
  {
    if s != [] {
      var init := s[..|s| - 1];
      var last := s[|s| - 1];
      assert NoDuplicates(init);
      NoDuplicatesCardinality(init);
      assert (set x | x in s) == (set x | x in init) + {last};
      assert last !in (set x | x in init);
    }
  }

  /** Python's normalisation of one slice bound against a length `n`:
      negative bounds count from the end, and both ends are clamped. */
  function SliceBound(i: int, n: nat): (b: nat)
    ensures b <= n
    ensures 0 <= i <= n ==> b == i
    ensures i > n ==> b == n
    ensures i < 0 && 0 <= i + n ==> b == i + n
    ensures i + n < 0 ==> b == 0
  {
    if i < 0 then (if i + n < 0 then 0 else i + n)
    else if i > n then n else i
  }

  /** `s[start:stop]` with Python semantics: never an error, possibly empty. */
  function PySlice<T>(s: seq<T>, start: int, stop: int): seq<T> {
    var lo, hi := SliceBound(start, |s|), SliceBound(stop, |s|);
    if lo < hi then s[lo..hi] else []
  }

  /** The pager shared by every `all` and `games`: with no page size, the whole
      list; otherwise `s[page * size : page * size + size]`. */
  function Page<T>(s: seq<T>, page: int, pageSize: Option<int>): seq<T> {
    match pageSize
    case None => s
    case Some(n) => PySlice(s, page * n, page * n + n)
  }

  /** A negative page size is not rejected: on page 0, a page size of -1
      slices `s[0:-1]`, every element but the last. */
  lemma PageOfMinusOne<T>(s: seq<T>)
    requires s != []
    ensures Page(s, 0, Some(-1)) == s[..|s| - 1]
  {
  }

  /** For a non-negative page and page size, a page is the window of at most
      `n` elements starting at `page * n`; a page past the end is empty. */
  lemma PageWindow<T>(s: seq<T>, page: nat, n: nat)
    ensures page * n >= |s| ==> Page(s, page, Some(n)) == []
    ensures |Page(s, page, Some(n))| == if page * n >= |s| then 0 else Min(n, |s| - page * n)
    ensures forall k :: 0 <= k < |Page(s, page, Some(n))| ==> Page(s, page, Some(n))[k] == s[page * n + k]
  {
    var lo := page * n;
    assert lo >= 0;
    assert SliceBound(lo, |s|) == if lo > |s| then |s| else lo;
    assert SliceBound(lo + n, |s|) == if lo + n > |s| then |s| else lo + n;
  }

  /** Paging loses nothing and shows nothing twice: element `i` of the list is
      element `i % n` of page `i / n`. */
  lemma PageOfIndex<T>(s: seq<T>, i: nat, n: nat)
    requires i < |s| && n > 0
    ensures i % n < |Page(s, i / n, Some(n))|
    ensures Page(s, i / n, Some(n))[i % n] == s[i]
  {
    var p := i / n;
    assert p * n + i % n == i;
    PageWindow(s, p, n);
  }
}
