/**
 * The listing engine of utils/pagination.ts.
 *
 * The aggregation pipeline a caller passes in is abstracted as the sequence
 * `results` it produces; `paginate` appends `$skip`/`$limit` to it for the
 * page and `$count` to it for the total, and both are modelled as stages over
 * that sequence.
 */
module Pagination {
  import opened Wrappers

  datatype PaginationResult<T> = PaginationResult(
    data: seq<T>,
    total: nat,
    page: int,
    limit: int,
    totalPages: nat)

  /** The two query-string parameters `paginate` reads; None when absent. */
  datatype Query = Query(page: Option<string>, limit: Option<string>)

  // ---------------------------------------------------------------------------
  // Reading the parameters: `parseInt(url.searchParams.get(name) || fallback, 10)`

  /** `get(name) || fallback`: an absent or empty parameter gives the fallback text. */
  function ParamOr(param: Option<string>, fallback: string): (s: string)
    ensures param.None? || param.value == "" ==> s == fallback
    ensures param.Some? && param.value != "" ==> s == param.value
  {
    match param
    case None => fallback
    case Some(v) => if v == "" then fallback else v
  }

  predicate IsDigit(c: char)
  {
    '0' <= c <= '9'
  }

  function DigitValue(c: char): nat
    requires IsDigit(c)
  {
    c as int - '0' as int
  }

  function DigitChar(d: nat): (c: char)
    requires d < 10
    ensures IsDigit(c) && DigitValue(c) == d
  {
    ('0' as int + d) as char
  }

  /** The longest prefix of `s` made of decimal digits. */
  function LeadingDigits(s: string): (p: string)
    ensures |p| <= |s| && p == s[..|p|]
    ensures forall i :: 0 <= i < |p| ==> IsDigit(p[i])
    ensures |p| < |s| ==> !IsDigit(s[|p|])
  {
    if s == [] || !IsDigit(s[0]) then [] else [s[0]] + LeadingDigits(s[1..])
  }

  /** The number a string of decimal digits denotes, most significant first. */
  function DigitsValue(s: string): nat
    requires forall i :: 0 <= i < |s| ==> IsDigit(s[i])
  {
    if s == [] then 0 else DigitsValue(s[..|s| - 1]) * 10 + DigitValue(s[|s| - 1])
  }

  /**
   * `parseInt(s, 10)`: an optional sign followed by the longest run of
   * decimal digits; None stands for NaN (no digit after the sign).
   */
  function ParseInt(s: string): Option<int>
  {
    var negative := |s| > 0 && s[0] == '-';
    var body := if |s| > 0 && (s[0] == '-' || s[0] == '+') then s[1..] else s;
    var digits := LeadingDigits(body);
    if digits == [] then None
    else
      var magnitude: int := DigitsValue(digits);
      Some(if negative then -magnitude else magnitude)
  }

  /** The canonical decimal text of a natural number. */
  function Decimal(n: nat): (s: string)
    ensures |s| > 0 && forall i :: 0 <= i < |s| ==> IsDigit(s[i])
  {
    if n < 10 then [DigitChar(n)] else Decimal(n / 10) + [DigitChar(n % 10)]
  }

  lemma {:induction false} DecimalValue(n: nat)
    ensures DigitsValue(Decimal(n)) == n
  {
    if n >= 10 {
      var s := Decimal(n);
      assert s[..|s| - 1] == Decimal(n / 10);
      DecimalValue(n / 10);
    }
  }

  lemma {:induction false} LeadingDigitsOfDigits(s: string)
    requires forall i :: 0 <= i < |s| ==> IsDigit(s[i])
    ensures LeadingDigits(s) == s
  {
    if s != [] {
      LeadingDigitsOfDigits(s[1..]);
    }
  }

  /** parseInt reads back the decimal text of every natural number. */
  lemma ParseDecimal(n: nat)
    ensures ParseInt(Decimal(n)) == Some(n)
  {
    var s := Decimal(n);
    assert s[0] != '-' && s[0] != '+' by { assert IsDigit(s[0]); }
    LeadingDigitsOfDigits(s);
    DecimalValue(n);
  }

  function PageOf(q: Query): Option<int>
  {
    ParseInt(ParamOr(q.page, "1"))
  }

  function LimitOf(q: Query): Option<int>
  {
    ParseInt(ParamOr(q.limit, "10"))
  }

  /** Absent or empty parameters read as page 1 and limit 10. */
  lemma Defaults(q: Query)
    ensures q.page.None? || q.page == Some("") ==> PageOf(q) == Some(1)
    ensures q.limit.None? || q.limit == Some("") ==> LimitOf(q) == Some(10)
  {
    assert "1" == Decimal(1);
    ParseDecimal(1);
    assert "10" == Decimal(10);
    ParseDecimal(10);
  }

  // ---------------------------------------------------------------------------
  // The aggregation stages appended to the caller's pipeline

  /** `{ $skip: n }` */
  function SkipStage<T>(s: seq<T>, n: nat): (r: seq<T>)
    ensures |r| == if n <= |s| then |s| - n else 0
    ensures forall i :: 0 <= i < |r| ==> r[i] == s[n + i]
  {
    if n <= |s| then s[n..] else []
  }

  /** `{ $limit: n }` */
  function LimitStage<T>(s: seq<T>, n: nat): (r: seq<T>)
    ensures |r| == if n <= |s| then n else |s|
    ensures r == s[..|r|]
  {
    if n <= |s| then s[..n] else s
  }

  /** `{ $count: "count" }`: one document holding the count, or none for an empty input. */
  function CountStage<T>(s: seq<T>): (r: seq<nat>)
    ensures |s| == 0 ==> r == []
    ensures |s| > 0 ==> r == [|s|]
  {
    if |s| == 0 then [] else [|s|]
  }

  /** `totalResult[0]?.count || 0` */
  function TotalOf(countResult: seq<nat>): nat
  {
    if |countResult| > 0 then countResult[0] else 0
  }

  // Products as repeated addition, so that the proofs about page windows stay linear.

  /** `n * limit` */
  function Times(n: nat, limit: nat): nat
  {
    if n == 0 then 0 else Times(n - 1, limit) + limit
  }

  lemma {:induction false} TimesIsProduct(n: nat, limit: nat)
    ensures Times(n, limit) == n * limit
  {
    if n > 0 {
      TimesIsProduct(n - 1, limit);
    }
  }

  lemma {:induction false} TimesMonotone(a: nat, b: nat, limit: nat)
    requires a <= b
    ensures Times(a, limit) <= Times(b, limit)
  {
    if a < b {
      TimesMonotone(a, b - 1, limit);
    }
  }

  /** `Math.ceil(total / limit)`: the fewest pages of `limit` results that hold `total` of them. */
  function CeilDiv(total: nat, limit: nat): (r: nat)
    requires limit > 0
    ensures Times(r, limit) >= total
    ensures r == 0 || Times(r - 1, limit) < total
  {
    if total == 0 then 0
    else if total <= limit then 1
    else 1 + CeilDiv(total - limit, limit)
  }

  function Min(a: int, b: int): int
  {
    if a <= b then a else b
  }

  /** The window of result positions page `page` covers: from WindowStart up to WindowEnd. */
  function WindowStart(page: int, limit: int, n: nat): nat
    requires page >= 1 && limit >= 1
  {
    Min(Times(page - 1, limit), n)
  }

  function WindowEnd(page: int, limit: int, n: nat): nat
    requires page >= 1 && limit >= 1
  {
    Min(Times(page, limit), n)
  }

  /** `skip = (page - 1) * limit` */
  function SkipOf(page: int, limit: int): (skip: nat)
    requires page >= 1 && limit >= 1
    ensures skip == Times(page - 1, limit)
  {
    TimesIsProduct(page - 1, limit);
    (page - 1) * limit
  }

  /**
   * `paginate` once `page` and `limit` are numbers: the page window, the total over
   * the same pipeline, the echoed parameters and the page count.
   */
  function PaginateWith<T>(page: int, limit: int, results: seq<T>): (r: PaginationResult<T>)
    requires page >= 1 && limit >= 1
    ensures r.data == results[WindowStart(page, limit, |results|)..WindowEnd(page, limit, |results|)]
    ensures |r.data| <= limit
    ensures r.total == |results|
    ensures r.page == page && r.limit == limit
    ensures Times(r.totalPages, limit) >= r.total
    ensures r.totalPages == 0 || Times(r.totalPages - 1, limit) < r.total
  {
    var skip := SkipOf(page, limit);
    assert Times(page, limit) == skip + limit;
    var data := LimitStage(SkipStage(results, skip), limit);
    assert data == results[Min(skip, |results|)..Min(skip + limit, |results|)];
    var total := TotalOf(CountStage(results));
    assert total == |results|;
    var totalPages := CeilDiv(total, limit);
    PaginationResult(data, total, page, limit, totalPages)
  }

  /** The parameters `paginate` reads from a query, when they parse to page and limit of at least 1. */
  predicate ValidQuery(q: Query)
  {
    PageOf(q).Some? && PageOf(q).value >= 1 && LimitOf(q).Some? && LimitOf(q).value >= 1
  }

  function Paginate<T>(q: Query, results: seq<T>): (r: PaginationResult<T>)
    requires ValidQuery(q)
    ensures r == PaginateWith(PageOf(q).value, LimitOf(q).value, results)
    ensures r.page == PageOf(q).value && r.limit == LimitOf(q).value
    ensures r.data == results[WindowStart(r.page, r.limit, |results|)..WindowEnd(r.page, r.limit, |results|)]
    ensures |r.data| <= r.limit && r.total == |results| && r.totalPages == CeilDiv(r.total, r.limit)
    ensures q.page.None? || q.page == Some("") ==> r.page == 1
    ensures q.limit.None? || q.limit == Some("") ==> r.limit == 10
  {
    Defaults(q);
    PaginateWith(PageOf(q).value, LimitOf(q).value, results)
  }

  /** With no parameters at all, the first ten results form the page. */
  lemma DefaultPage<T>(results: seq<T>)
    ensures ValidQuery(Query(None, None))
    ensures Paginate(Query(None, None), results).data == LimitStage(results, 10)
    ensures Paginate(Query(None, None), results).page == 1
    ensures Paginate(Query(None, None), results).limit == 10
  {
    Defaults(Query(None, None));
  }

  // ---------------------------------------------------------------------------
  // Properties across pages

  function TotalPages(limit: int, n: nat): nat
    requires limit >= 1
  {
    CeilDiv(n, limit)
  }

  /** The page whose window holds result position i. */
  function PageHolding(i: nat, limit: int): (p: nat)
    requires limit >= 1
    ensures p >= 1 && Times(p - 1, limit) <= i < Times(p, limit)
  {
    if i < limit then 1 else 1 + PageHolding(i - limit, limit)
  }

  /** Of n results, position i lies in the window of page `page` exactly when that is PageHolding(i, limit). */
  lemma WindowHolds(n: nat, limit: int, page: int, i: nat)
    requires limit >= 1 && page >= 1 && i < n
    ensures WindowStart(page, limit, n) <= i < WindowEnd(page, limit, n) <==> page == PageHolding(i, limit)
  {
    var p := PageHolding(i, limit);
    if page < p {
      TimesMonotone(page, p - 1, limit);
    } else if page > p {
      TimesMonotone(p, page - 1, limit);
    }
  }

  /** Position i of the results lies in the window of exactly one page, PageHolding(i, limit). */
  lemma PageOfPosition<T>(results: seq<T>, limit: int, page: int, i: nat)
    requires limit >= 1 && page >= 1 && i < |results|
    ensures WindowStart(page, limit, |results|) <= i < WindowEnd(page, limit, |results|)
        <==> page == PageHolding(i, limit)
    ensures page == PageHolding(i, limit) ==>
      PaginateWith(page, limit, results).data[i - Times(page - 1, limit)] == results[i]
  {
    WindowHolds(|results|, limit, page, i);
    if page == PageHolding(i, limit) {
      WindowElement(results, limit, page, i);
    }
  }

  lemma WindowElement<T>(results: seq<T>, limit: int, page: int, i: nat)
    requires limit >= 1 && page >= 1
    requires WindowStart(page, limit, |results|) <= i < WindowEnd(page, limit, |results|)
    ensures PaginateWith(page, limit, results).data[i - WindowStart(page, limit, |results|)] == results[i]
  {
  }

  /** Windows of two different pages share no position. */
  lemma WindowsDisjoint<T>(results: seq<T>, limit: int, p: int, q: int, i: nat)
    requires limit >= 1 && p >= 1 && q >= 1 && p != q && i < |results|
    ensures !(WindowStart(p, limit, |results|) <= i < WindowEnd(p, limit, |results|)
              && WindowStart(q, limit, |results|) <= i < WindowEnd(q, limit, |results|))
  {
    PageOfPosition(results, limit, p, i);
    PageOfPosition(results, limit, q, i);
  }

  /** The data of pages 1..n, one after another. */
  function PagesUpTo<T>(results: seq<T>, limit: int, n: nat): seq<T>
    requires limit >= 1
  {
    if n == 0 then [] else PagesUpTo(results, limit, n - 1) + PaginateWith(n, limit, results).data
  }

  /** The width of page n's window, which PageLengthIsDataLength shows is the length of its data. */
  function PageLength<T>(results: seq<T>, limit: int, n: nat): nat
    requires limit >= 1 && n >= 1
  {
    TimesMonotone(n - 1, n, limit);
    WindowEnd(n, limit, |results|) - WindowStart(n, limit, |results|)
  }

  lemma PageLengthIsDataLength<T>(results: seq<T>, limit: int, n: nat)
    requires limit >= 1 && n >= 1
    ensures PageLength(results, limit, n) == |PaginateWith(n, limit, results).data|
  {
    TimesMonotone(n - 1, n, limit);
  }

  /** The lengths of the data of pages 1..n, summed. */
  function LengthsUpTo<T>(results: seq<T>, limit: int, n: nat): nat
    requires limit >= 1
  {
    if n == 0 then 0 else LengthsUpTo(results, limit, n - 1) + PageLength(results, limit, n)
  }

  lemma SliceConcat<T>(s: seq<T>, a: nat, b: nat)
    requires a <= b <= |s|
    ensures s[..a] + s[a..b] == s[..b]
  {
  }

  lemma {:induction false} PagesUpToIsPrefix<T>(results: seq<T>, limit: int, n: nat)
    requires limit >= 1
    ensures PagesUpTo(results, limit, n) == results[..Min(Times(n, limit), |results|)]
  {
    if n > 0 {
      PagesUpToIsPrefix(results, limit, n - 1);
      var a := Min(Times(n - 1, limit), |results|);
      var b := Min(Times(n, limit), |results|);
      assert a <= b by {
        TimesMonotone(n - 1, n, limit);
      }
      assert PagesUpTo(results, limit, n) == results[..a] + results[a..b];
      SliceConcat(results, a, b);
    }
  }

  lemma {:induction false} LengthsUpToIsPrefixLength<T>(results: seq<T>, limit: int, n: nat)
    requires limit >= 1
    ensures LengthsUpTo(results, limit, n) == Min(Times(n, limit), |results|)
  {
    if n > 0 {
      LengthsUpToIsPrefixLength(results, limit, n - 1);
    }
  }

  /** Pages 1..totalPages, concatenated, are the whole result sequence; their lengths sum to total. */
  lemma AllPagesCoverResults<T>(results: seq<T>, limit: int)
    requires limit >= 1
    ensures TotalPages(limit, |results|) == PaginateWith(1, limit, results).totalPages
    ensures PagesUpTo(results, limit, TotalPages(limit, |results|)) == results
    ensures LengthsUpTo(results, limit, TotalPages(limit, |results|)) == |results|
  {
    PagesUpToIsPrefix(results, limit, TotalPages(limit, |results|));
    LengthsUpToIsPrefixLength(results, limit, TotalPages(limit, |results|));
  }

  /** A page past the last is empty and still reports the full total. */
  lemma BeyondLastPage<T>(results: seq<T>, page: int, limit: int)
    requires page >= 1 && limit >= 1
    ensures page > PaginateWith(page, limit, results).totalPages ==>
      PaginateWith(page, limit, results).data == [] &&
      PaginateWith(page, limit, results).total == |results|
  {
    var t := TotalPages(limit, |results|);
    if page > t {
      TimesMonotone(t, page - 1, limit);
    }
  }

  /** Every page from 1 to totalPages holds at least one result. */
  lemma NoEmptyPageWithin<T>(results: seq<T>, page: int, limit: int)
    requires limit >= 1 && 1 <= page <= PaginateWith(page, limit, results).totalPages
    ensures |PaginateWith(page, limit, results).data| > 0
  {
    var t := TotalPages(limit, |results|);
    TimesMonotone(page - 1, t - 1, limit);
  }

  /** The total depends only on the results, not on which page is asked for. */
  lemma TotalIndependentOfWindow<T>(results: seq<T>, p1: int, l1: int, p2: int, l2: int)
    requires p1 >= 1 && l1 >= 1 && p2 >= 1 && l2 >= 1
    ensures PaginateWith(p1, l1, results).total == PaginateWith(p2, l2, results).total
  {
  }

  /** An empty pipeline result reports zero results on zero pages. */
  lemma EmptyResults<T>(page: int, limit: int)
    requires page >= 1 && limit >= 1
    ensures PaginateWith<T>(page, limit, []).data == []
    ensures PaginateWith<T>(page, limit, []).total == 0
    ensures PaginateWith<T>(page, limit, []).totalPages == 0
  {
  }
}
