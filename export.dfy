/** The data export of scripts/export_lingua.mjs: every file of the audio bucket under a
    prefix (`listAllFiles`) and every row of a table, fetched page by page
    (`fetchAllRows`). The CSV rendering of what it exports is in module `Csv`.

    A table is given as its rows in the order the store returns them, together with the
    requests on which the store fails: a request for the inclusive window `w` fails with
    message `m` when `failure(w) == Some(m)`, and otherwise answers the rows of the table
    that fall inside `w`. */
module Export {
  import opened Base
  import opened Pagination
  import StorageWalk

  /** `process.env.SUPABASE_BUCKET || 'lingua-audio'`. */
  function BucketName(env: Option<string>): (bucket: string)
    ensures bucket != ""
    ensures env.Some? && env.value != "" ==> bucket == env.value
    ensures env.None? || env.value == "" ==> bucket == "lingua-audio"
  {
    Or(env, "lingua-audio")
  }

  /** `(process.env.SUPABASE_PREFIX || '').trim()`. */
  function ExportPrefix(env: Option<string>): (prefix: string)
    ensures prefix == [] || (!IsSpace(prefix[0]) && !IsSpace(prefix[|prefix| - 1]))
    ensures env.None? ==> prefix == ""
    ensures env.Some? ==> exists i :: StripsTo(env.value, prefix, i)
  {
    assert env.Some? ==> Or(env, "") == env.value;
    Trim(Or(env, ""))
  }

  /** `listAllFiles(bucket, prefix)`: the walk from the prefix, collecting into a fresh list;
      a failed listing anywhere makes the whole call fail. */
  method ListAllFiles(prefix: string, root: StorageWalk.Listing) returns (r: Result<seq<StorageWalk.Leaf>>)
    ensures r == StorageWalk.Leaves(prefix, root)
  {
    r := StorageWalk.Walk(prefix, root, []);
    StorageWalk.ThenIdentity(StorageWalk.Leaves(prefix, root));
  }

  /** The page size `fetchAllRows` uses when called without one, as `main` calls it. */
  const DefaultPageSize: nat := 1000

  /** One table of the store. */
  datatype Table<T> = Table(rows: seq<T>, failure: Window -> Option<string>)

  /** What `.select('*').range(from, to)` answers. */
  function Answer<T>(t: Table<T>, w: Window): (r: Result<seq<T>>)
    requires 0 <= w.from <= w.to + 1
    ensures r.Err? <==> t.failure(w).Some?
    ensures r.Err? ==> r.message == t.failure(w).value
    ensures r.Ok? ==> |r.value| <= w.to - w.from + 1
    ensures r.Ok? && w.from >= |t.rows| ==> r.value == []
    ensures r.Ok? && w.to < |t.rows| ==> r.value == t.rows[w.from..w.to + 1]
    ensures r.Ok? && w.from < |t.rows| <= w.to ==> r.value == t.rows[w.from..]
  {
    match t.failure(w)
    case Some(m) => Err(m)
    case None =>
      if w.from >= |t.rows| then Ok([])
      else if w.to + 1 <= |t.rows| then Ok(t.rows[w.from..w.to + 1])
      else Ok(t.rows[w.from..])
  }

  /** `rows` followed by what `r` fetched, unless `r` failed. */
  function Prepend<T>(rows: seq<T>, r: Result<seq<T>>): Result<seq<T>> {
    if r.Err? then r else Ok(rows + r.value)
  }

  /** The pagination as a reference definition: what fetching from offset `from` on yields,
      and the windows it requests. */
  function FetchFrom<T>(t: Table<T>, from: nat, pageSize: nat): (Result<seq<T>>, seq<Window>)
    requires pageSize >= 1
    decreases |t.rows| - from
  {
    var w := Window(from, from + pageSize - 1);
    match Answer(t, w)
    case Err(m) => (Err(m), [w])
    case Ok(data) =>
      if |data| == 0 then (Ok([]), [w])
      else if |data| < pageSize then (Ok(data), [w])
      else
        var rest := FetchFrom(t, from + pageSize, pageSize);
        (Prepend(data, rest.0), [w] + rest.1)
  }

  /** `fetchAllRows(table, pageSize)`: the rows of every page until a page comes back empty
      or short; the windows requested are returned alongside. A failed request aborts the
      whole fetch with its message and no partial result. */
  method FetchAllRows<T>(t: Table<T>, pageSize: nat) returns (r: Result<seq<T>>, windows: seq<Window>)
    requires pageSize >= 1
    ensures (r, windows) == FetchFrom(t, 0, pageSize)
  {
    var all: seq<T> := [];
    var from: nat := 0;
    windows := [];
    PrependNothing(FetchFrom(t, 0, pageSize).0);
    while true
      invariant Prepend(all, FetchFrom(t, from, pageSize).0) == FetchFrom(t, 0, pageSize).0
      invariant windows + FetchFrom(t, from, pageSize).1 == FetchFrom(t, 0, pageSize).1
      decreases |t.rows| - from
    {
      var to := from + pageSize - 1;
      var w := Window(from, to);
      var answer := Answer(t, w);
      FetchStep(t, from, pageSize, all, windows, FetchFrom(t, 0, pageSize));
      if answer.Err? {
        return answer, windows + [w];
      }
      var data := answer.value;
      if |data| == 0 {
        return Ok(all), windows + [w];
      }
      if |data| < pageSize {
        return Ok(all + data), windows + [w];
      }
      all := all + data;
      windows := windows + [w];
      from := from + pageSize;
    }
  }

  /** One turn of the loop: from the rows and windows gathered so far, the answer to the next
      window either ends the fetch with the reference result `goal` or leaves the loop
      invariant true one page further on. */
  lemma FetchStep<T>(t: Table<T>, from: nat, pageSize: nat, all: seq<T>, windows: seq<Window>,
                     goal: (Result<seq<T>>, seq<Window>))
    requires pageSize >= 1
    requires Prepend(all, FetchFrom(t, from, pageSize).0) == goal.0
    requires windows + FetchFrom(t, from, pageSize).1 == goal.1
    ensures var w := Window(from, from + pageSize - 1);
            var a := Answer(t, w);
            && (a.Err? ==> (a, windows + [w]) == goal)
            && (a.Ok? && |a.value| == 0 ==> (Ok(all), windows + [w]) == goal)
            && (a.Ok? && 0 < |a.value| < pageSize ==> (Ok(all + a.value), windows + [w]) == goal)
            && (a.Ok? && |a.value| >= pageSize ==>
                  && from < |t.rows|
                  && Prepend(all + a.value, FetchFrom(t, from + pageSize, pageSize).0) == goal.0
                  && (windows + [w]) + FetchFrom(t, from + pageSize, pageSize).1 == goal.1)
  {
    var w := Window(from, from + pageSize - 1);
    var a := Answer(t, w);
    FetchFromUnfold(t, from, pageSize);
    if a.Ok? && |a.value| == 0 {
      assert all + [] == all;
    }
    if a.Ok? && |a.value| >= pageSize {
      var rest := FetchFrom(t, from + pageSize, pageSize);
      PrependAssociates(all, a.value, rest.0);
      assert windows + ([w] + rest.1) == (windows + [w]) + rest.1;
    }
  }

  /** One step of the reference definition. */
  lemma FetchFromUnfold<T>(t: Table<T>, from: nat, pageSize: nat)
    requires pageSize >= 1
    ensures var w := Window(from, from + pageSize - 1);
            var f := FetchFrom(t, from, pageSize);
            && (Answer(t, w).Err? ==> f == (Answer(t, w), [w]))
            && (Answer(t, w).Ok? && |Answer(t, w).value| == 0 ==> f == (Ok([]), [w]))
            && (Answer(t, w).Ok? && 0 < |Answer(t, w).value| < pageSize ==>
                  f == (Answer(t, w), [w]))
            && (Answer(t, w).Ok? && |Answer(t, w).value| >= pageSize ==>
                  var rest := FetchFrom(t, from + pageSize, pageSize);
                  f == (Prepend(Answer(t, w).value, rest.0), [w] + rest.1))
  {
  }

  lemma PrependNothing<T>(r: Result<seq<T>>)
    ensures Prepend([], r) == r
  {
    if r.Ok? {
      assert [] + r.value == r.value;
    }
  }

  lemma PrependAssociates<T>(a: seq<T>, b: seq<T>, r: Result<seq<T>>)
    ensures Prepend(a, Prepend(b, r)) == Prepend(a + b, r)
  {
    if r.Ok? {
      assert a + (b + r.value) == (a + b) + r.value;
    }
  }

  /** A store that never fails hands over the whole table from `from` on, in order. */
  lemma {:induction false} FetchReturnsTheRest<T>(t: Table<T>, from: nat, pageSize: nat)
    requires pageSize >= 1
    requires forall w :: t.failure(w).None?
    ensures from <= |t.rows| ==> FetchFrom(t, from, pageSize).0 == Ok(t.rows[from..])
    ensures from > |t.rows| ==> FetchFrom(t, from, pageSize).0 == Ok([])
    decreases |t.rows| - from
  {
    var w := Window(from, from + pageSize - 1);
    if from >= |t.rows| {
      assert Answer(t, w) == Ok([]);
    } else if from + pageSize <= |t.rows| {
      var data := t.rows[from..from + pageSize];
      assert Answer(t, w) == Ok(data);
      FetchReturnsTheRest(t, from + pageSize, pageSize);
      assert t.rows[from..] == data + t.rows[from + pageSize..];
    } else {
      assert Answer(t, w) == Ok(t.rows[from..]);
    }
  }

  /** Without failures, `fetchAllRows` returns the table exactly. */
  lemma FetchAllRowsIsTheTable<T>(t: Table<T>, pageSize: nat)
    requires pageSize >= 1
    requires forall w :: t.failure(w).None?
    ensures FetchFrom(t, 0, pageSize).0 == Ok(t.rows)
  {
    FetchReturnsTheRest(t, 0, pageSize);
    assert t.rows[0..] == t.rows;
  }

  /** Without failures, the fetch from `from` asks for `(|rows| - from) / pageSize + 1`
      pages: one per full page and one more, short or empty, that ends it. */
  lemma {:induction false} FetchRequestCount<T>(t: Table<T>, from: nat, pageSize: nat)
    requires pageSize >= 1
    requires forall w :: t.failure(w).None?
    requires from <= |t.rows|
    ensures |FetchFrom(t, from, pageSize).1| == (|t.rows| - from) / pageSize + 1
    decreases |t.rows| - from
  {
    var n := |t.rows| - from;
    if n >= pageSize {
      FetchRequestCount(t, from + pageSize, pageSize);
      var w := Window(from, from + pageSize - 1);
      assert Answer(t, w) == Ok(t.rows[from..from + pageSize]);
      DivShift(n - pageSize, pageSize);
      assert (n - pageSize) + pageSize == n;
    } else {
      DivUnique(n, pageSize, 0, n);
    }
  }

  lemma DivShift(m: nat, d: nat)
    requires d >= 1
    ensures (m + d) / d == m / d + 1
  {
    var q := m / d;
    var r := m % d;
    assert m == q * d + r;
    assert m + d == (q + 1) * d + r;
    DivUnique(m + d, d, q + 1, r);
  }

  /** Division is determined by a quotient and a remainder below the divisor. */
  lemma DivUnique(a: int, d: int, q: int, r: int)
    requires d > 0 && 0 <= r < d && a == q * d + r
    ensures a / d == q
  {
    var q2 := a / d;
    var r2 := a % d;
    assert q2 * d - q * d == (q2 - q) * d;
    assert (q2 - q) * d == r - r2;
    if q2 > q {
      MulAtLeast(q2 - q, d);
    } else if q2 < q {
      MulAtLeast(q - q2, d);
    }
  }

  lemma {:induction false} MulAtLeast(e: int, d: int)
    requires e >= 1 && d >= 0
    ensures e * d >= d
  {
    if e > 1 {
      MulAtLeast(e - 1, d);
      assert e * d == (e - 1) * d + d;
    }
  }

  /** The requested windows tile the offsets from `from` on: the first starts at `from`,
      each holds `pageSize` offsets, and each starts right after the previous one ends, so
      the `k`-th asks for `[from + k * pageSize, from + k * pageSize + pageSize - 1]`. */
  lemma {:induction false} FetchWindowsAreConsecutive<T>(t: Table<T>, from: nat, pageSize: nat)
    requires pageSize >= 1
    ensures var ws := FetchFrom(t, from, pageSize).1;
            && |ws| >= 1 && ws[0].from == from
            && (forall k :: 0 <= k < |ws| ==> ws[k].to - ws[k].from + 1 == pageSize)
            && (forall k :: 0 <= k < |ws| - 1 ==> ws[k + 1].from == ws[k].to + 1)
            && (forall k :: 0 <= k < |ws| ==> ws[k] == Window(from + k * pageSize, from + k * pageSize + pageSize - 1))
    decreases |t.rows| - from
  {
    var w := Window(from, from + pageSize - 1);
    var ws := FetchFrom(t, from, pageSize).1;
    if ws != [w] {
      FetchWindowsAreConsecutive(t, from + pageSize, pageSize);
      var rest := FetchFrom(t, from + pageSize, pageSize).1;
      assert ws == [w] + rest;
      forall k | 0 <= k < |ws| - 1 ensures ws[k + 1].from == ws[k].to + 1 {
        if k > 0 {
          assert ws[k] == rest[k - 1] && ws[k + 1] == rest[k];
        }
      }
      forall k | 0 < k < |ws|
        ensures ws[k] == Window(from + k * pageSize, from + k * pageSize + pageSize - 1)
      {
        assert ws[k] == rest[k - 1];
        assert from + pageSize + (k - 1) * pageSize == from + k * pageSize;
      }
    }
  }

  /** A failure aborts the fetch: its error is the message of the last window requested,
      which failed, and nothing fetched before is returned. */
  lemma {:induction false} FetchFailureIsTheLastRequest<T>(t: Table<T>, from: nat, pageSize: nat)
    requires pageSize >= 1
    requires FetchFrom(t, from, pageSize).0.Err?
    ensures var ws := FetchFrom(t, from, pageSize).1;
            |ws| >= 1 && t.failure(ws[|ws| - 1]) == Some(FetchFrom(t, from, pageSize).0.message)
    decreases |t.rows| - from
  {
    var w := Window(from, from + pageSize - 1);
    if t.failure(w).None? {
      FetchFailureIsTheLastRequest(t, from + pageSize, pageSize);
    }
  }
}
