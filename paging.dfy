/** The paging rule shared by every list operation of the providers
    (GetAllUsers, FindUsersByName, FindUsersByEmail, the profile queries and
    the personalization state queries). The rows a query returns, already in
    the query's order, are read one at a time; a running count decides which
    rows fall on the requested page, and the final count is reported as the
    total number of records. */
module Paging {
  import opened Common
  import PersonalizationProviderHelper

  datatype PageError = NegativePageIndex | NonPositivePageSize | PageTooBig

  /** One page of results and the total number of matching rows. */
  datatype Page<T> = Page(items: seq<T>, totalRecords: nat)

  /** The bounds check the membership and profile providers perform inline
      before running a paged query. */
  function CheckBounds(pageIndex: int, pageSize: int): (r: Outcome<PageError>)
    ensures r.Pass? <==> 0 <= pageIndex && 1 <= pageSize && pageIndex * pageSize + pageSize - 1 <= Int32Max
  {
    if pageIndex < 0 then Fail(NegativePageIndex)
    else if pageSize < 1 then Fail(NonPositivePageSize)
    else if pageIndex * pageSize + pageSize - 1 > Int32Max then Fail(PageTooBig)
    else Pass
  }

  /** The inline check and the shared validator accept the same arguments. */
  lemma CheckBoundsAgreesWithValidator(pageIndex: int, pageSize: int)
    requires IsInt32(pageIndex) && IsInt32(pageSize)
    ensures CheckBounds(pageIndex, pageSize).Pass?
            <==> PersonalizationProviderHelper.CheckPageIndexAndSize(pageIndex, pageSize).Pass?
  {
  }

  function Min(a: int, b: int): int
  {
    if a <= b then a else b
  }

  /** The page: the rows at zero-based positions pageIndex * pageSize up to
      pageIndex * pageSize + pageSize - 1, cut short at the end of the rows. */
  function Window<T>(rows: seq<T>, pageIndex: nat, pageSize: nat): seq<T>
  {
    rows[Min(pageIndex * pageSize, |rows|)..Min(pageIndex * pageSize + pageSize, |rows|)]
  }

  /** A row is on the page exactly when its position lies within the page's
      bounds, and the page keeps the rows' order. */
  lemma {:induction false} WindowSpec<T>(rows: seq<T>, pageIndex: nat, pageSize: nat)
    ensures |Window(rows, pageIndex, pageSize)| <= pageSize
    ensures |Window(rows, pageIndex, pageSize)|
            == Min(pageIndex * pageSize + pageSize, |rows|) - Min(pageIndex * pageSize, |rows|)
    ensures forall j :: 0 <= j < |Window(rows, pageIndex, pageSize)| ==>
              Window(rows, pageIndex, pageSize)[j] == rows[pageIndex * pageSize + j]
  {
  }

  /** Every row is on exactly one page: row k is item k % pageSize of page
      k / pageSize. */
  lemma {:induction false} EveryRowOnItsPage<T>(rows: seq<T>, pageSize: nat, k: nat)
    requires pageSize >= 1 && k < |rows|
    ensures k % pageSize < |Window(rows, k / pageSize, pageSize)|
    ensures Window(rows, k / pageSize, pageSize)[k % pageSize] == rows[k]
  {
    var p := k / pageSize;
    assert p * pageSize + k % pageSize == k;
    assert p * pageSize <= k;
  }

  /** A page beyond the last row is empty. */
  lemma {:induction false} PageBeyondEndIsEmpty<T>(rows: seq<T>, pageIndex: nat, pageSize: nat)
    requires pageIndex * pageSize >= |rows|
    ensures Window(rows, pageIndex, pageSize) == []
  {
  }

  /** The zero-based paging loop of the membership and profile providers:
      the count is incremented first and row count - 1 is kept when it lies
      within lBound..uBound. Thrown argument errors are the Err results. */
  method PageZeroBased<T>(rows: seq<T>, pageIndex: int, pageSize: int) returns (r: Result<Page<T>, PageError>)
    requires IsInt32(pageIndex) && IsInt32(pageSize)
    ensures r.Ok? <==> CheckBounds(pageIndex, pageSize).Pass?
    ensures r.Err? ==> r.error == CheckBounds(pageIndex, pageSize).error
    ensures r.Ok? ==> r.value.items == Window(rows, pageIndex, pageSize) && r.value.totalRecords == |rows|
  {
    if pageIndex < 0 {
      return Err(NegativePageIndex);
    }
    if pageSize < 1 {
      return Err(NonPositivePageSize);
    }
    var lBound := pageIndex * pageSize;
    var uBound := lBound + pageSize - 1;
    if uBound > Int32Max {
      return Err(PageTooBig);
    }
    var items: seq<T> := [];
    var recordCount := 0;
    while recordCount < |rows|
      invariant 0 <= recordCount <= |rows|
      invariant items == rows[Min(lBound, recordCount)..Min(uBound + 1, recordCount)]
    {
      recordCount := recordCount + 1;
      if recordCount - 1 < lBound || recordCount - 1 > uBound {
        continue;
      }
      items := items + [rows[recordCount - 1]];
    }
    return Ok(Page(items, recordCount));
  }

  /** The one-based paging loop of the personalization provider's state
      queries, which run only after CheckPageIndexAndSize has passed: the
      count is incremented first and row number count is kept when
      lBound < count <= lBound + pageSize. lBound is an Int32 product. */
  method PageOneBased<T>(rows: seq<T>, pageIndex: int, pageSize: int) returns (page: Page<T>)
    requires IsInt32(pageIndex) && IsInt32(pageSize)
    requires PersonalizationProviderHelper.CheckPageIndexAndSize(pageIndex, pageSize).Pass?
    ensures page.items == Window(rows, pageIndex, pageSize)
    ensures page.totalRecords == |rows|
  {
    PersonalizationProviderHelper.PageBoundsDoNotOverflow(pageIndex, pageSize);
    var lBound := Wrap32(pageIndex * pageSize);
    var uBound := lBound + pageSize;
    var items: seq<T> := [];
    var recordCount := 0;
    while recordCount < |rows|
      invariant 0 <= recordCount <= |rows|
      invariant items == rows[Min(lBound, recordCount)..Min(uBound, recordCount)]
    {
      recordCount := recordCount + 1;
      if recordCount <= lBound || recordCount > uBound {
        continue;
      }
      items := items + [rows[recordCount - 1]];
    }
    return Page(items, recordCount);
  }
}
