/** Page parameters of the two paginated listings (app/api/studio/route.ts:51-55 and
    app/api/requests/route.ts:19-23) and the inclusive row window they ask the store for.

    A query parameter is `None` when it is missing or empty (the two cases JavaScript's
    `||` replaces by the default); otherwise it holds the integer `Number(...)` reads. */
module Pagination {
  import opened Base

  /** The inclusive range of row offsets `.range(from, to)` asks for. */
  datatype Window = Window(from: int, to: int)

  /** `Math.min(50, Math.max(5, Number(pageSize || "20")))`. */
  function PageSize(param: Option<int>): (size: int)
    ensures 5 <= size <= 50
    ensures param.None? ==> size == 20
    ensures param.Some? && 5 <= param.value <= 50 ==> size == param.value
    ensures param.Some? && param.value < 5 ==> size == 5
    ensures param.Some? && param.value > 50 ==> size == 50
  {
    var n := if param.Some? then param.value else 20;
    if n < 5 then 5 else if n > 50 then 50 else n
  }

  /** The studio listing's `Number(page || "1")`: defaulted, but not clamped. */
  function StudioPage(param: Option<int>): (page: int)
    ensures param.None? ==> page == 1
    ensures param.Some? ==> page == param.value
  {
    if param.Some? then param.value else 1
  }

  /** The request listing's `Math.max(1, Number(page || "1"))`. */
  function AdminPage(param: Option<int>): (page: int)
    ensures page >= 1
    ensures param.None? ==> page == 1
    ensures param.Some? && param.value >= 1 ==> page == param.value
    ensures param.Some? && param.value < 1 ==> page == 1
  {
    var n := if param.Some? then param.value else 1;
    if n < 1 then 1 else n
  }

  /** `from = (page - 1) * pageSize; to = from + pageSize - 1`. */
  function RowWindow(page: int, size: int): (w: Window)
    ensures w.to - w.from + 1 == size
    ensures page >= 1 && size >= 0 ==> w.from >= 0
  {
    var from := (page - 1) * size;
    Window(from, from + size - 1)
  }

  /** Consecutive pages ask for adjacent windows: nothing is skipped or fetched twice. */
  lemma WindowsAreAdjacent(page: int, size: int)
    ensures RowWindow(page + 1, size).from == RowWindow(page, size).to + 1
  {
    calc {
      RowWindow(page + 1, size).from;
      page * size;
      (page - 1) * size + size;
    }
  }

  /** Every row offset lies in the window of exactly one page, page `offset / size + 1`. */
  lemma OffsetOnItsPage(offset: nat, size: int, page: int)
    requires size > 0 && page >= 1
    ensures RowWindow(page, size).from <= offset <= RowWindow(page, size).to
            <==> page == offset / size + 1
  {
    var q := offset / size;
    var p := page - 1;
    assert q * size <= offset < q * size + size;
    if p < q {
      MulMonotone(p + 1, q, size);
      assert (p + 1) * size == p * size + size;
    } else if p > q {
      MulMonotone(q + 1, p, size);
      assert (q + 1) * size == q * size + size;
    }
  }

  lemma {:induction false} MulMonotone(a: int, b: int, size: int)
    requires a <= b && size >= 0
    ensures a * size <= b * size
    decreases b - a
  {
    if a < b {
      MulMonotone(a, b - 1, size);
      assert b * size == (b - 1) * size + size;
    }
  }
}
