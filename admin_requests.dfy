/** The administrators' view of recorded missing requests, app/api/requests/route.ts: a
    token check, then one paginated, optionally filtered query on `missing_requests`.

    The request header and the `ADMIN_TOKEN` setting are parameters (`None` when missing);
    the store is the parameter `select`, which answers a query with a page of rows and an
    optional exact count, or an error message. */
module AdminRequests {
  import opened Base
  import opened Like
  import opened Pagination
  import MissingRequests

  /** `requireAdmin`: the `x-admin-token` header equals the configured token, and a token
      is configured at all (an empty or missing one lets nobody in). */
  function IsAdmin(header: Option<string>, adminToken: Option<string>): (ok: bool)
    ensures ok <==> adminToken.Some? && adminToken.value != "" && header == adminToken
  {
    var token := Or(header, "");
    var expected := Or(adminToken, "");
    expected != "" && token == expected
  }

  /** The two sort keys the listing asks for, in order. */
  datatype Ordering = CountDescending | LastSeenDescending

  /** The query sent to the store. `pattern` is the ILIKE pattern on `query`, if any. */
  datatype RequestQuery = RequestQuery(order: seq<Ordering>, window: Window, pattern: Option<string>)

  datatype RequestPage = RequestPage(rows: seq<MissingRequests.Row>, count: Option<int>)

  datatype Response =
    | Listing(page: int, pageSize: int, total: int, items: seq<MissingRequests.Row>)
    | Failure(status: int, message: string)

  /** The normalised search text: trimmed and lower-cased, empty when missing. */
  function SearchText(qParam: Option<string>): (q: string)
    ensures q == "" <==> forall k :: 0 <= k < |Or(qParam, "")| ==> IsSpace(Or(qParam, "")[k])
    ensures forall k :: 0 <= k < |q| ==> q[k] == LowerChar(q[k])
    ensures q == Lower(Trim(Or(qParam, "")))
  {
    var raw := Or(qParam, "");
    TrimEmptyIffBlank(raw);
    LowerIdempotent(Trim(raw));
    Lower(Trim(raw))
  }

  /** The filter the search adds: none for an empty search, otherwise `%q%`, with the
      search text's own `%`, `_` and `\` left unescaped. */
  function SearchPattern(qParam: Option<string>): (p: Option<string>)
    ensures p.None? <==> SearchText(qParam) == ""
    ensures p.Some? ==> p.value == "%" + SearchText(qParam) + "%"
  {
    var q := SearchText(qParam);
    if q == "" then None else Some("%" + q + "%")
  }

  /** The query the listing sends for the given page parameters and search. */
  function PlanRequests(qParam: Option<string>, pageParam: Option<int>, pageSizeParam: Option<int>)
    : (query: RequestQuery)
    ensures query.order == [CountDescending, LastSeenDescending]
    ensures query.window == RowWindow(AdminPage(pageParam), PageSize(pageSizeParam))
    ensures query.window.from >= 0
    ensures query.window.to - query.window.from + 1 == PageSize(pageSizeParam)
    ensures query.pattern == SearchPattern(qParam)
  {
    RequestQuery([CountDescending, LastSeenDescending],
                 RowWindow(AdminPage(pageParam), PageSize(pageSizeParam)),
                 SearchPattern(qParam))
  }

  /** `GET`: the response and the queries sent to the store. An unauthorised request is
      refused with 401 before any query; otherwise exactly one query is sent, a store error
      becomes a 500, and the listing reports the clamped page, the page size, the exact
      count (or the number of rows returned when the store gives none) and the rows. */
  function ListRequests(header: Option<string>, adminToken: Option<string>,
                        qParam: Option<string>, pageParam: Option<int>, pageSizeParam: Option<int>,
                        select: RequestQuery -> Result<RequestPage>)
    : (r: (Response, seq<RequestQuery>))
    ensures !IsAdmin(header, adminToken) ==> r == (Failure(401, "Unauthorized"), [])
    ensures IsAdmin(header, adminToken) ==>
              var query := PlanRequests(qParam, pageParam, pageSizeParam);
              && r.1 == [query]
              && (select(query).Err? ==> r.0 == Failure(500, ErrorText(select(query).message)))
              && (select(query).Ok? ==>
                    var data := select(query).value;
                    && r.0.Listing?
                    && r.0.page == AdminPage(pageParam) && r.0.page >= 1
                    && r.0.pageSize == PageSize(pageSizeParam) && 5 <= r.0.pageSize <= 50
                    && r.0.items == data.rows
                    && (data.count.Some? ==> r.0.total == data.count.value)
                    && (data.count.None? ==> r.0.total == |data.rows|))
  {
    if !IsAdmin(header, adminToken) then (Failure(401, "Unauthorized"), [])
    else
      var page := AdminPage(pageParam);
      var pageSize := PageSize(pageSizeParam);
      var query := PlanRequests(qParam, pageParam, pageSizeParam);
      match select(query)
      case Err(message) => (Failure(500, ErrorText(message)), [query])
      case Ok(data) => (Listing(page, pageSize, data.count.GetOr(|data.rows|), data.rows), [query])
  }

  /** Without a configured token nobody is an administrator. */
  lemma NoTokenNoAdmin(header: Option<string>, adminToken: Option<string>)
    requires adminToken.None? || adminToken == Some("")
    ensures !IsAdmin(header, adminToken)
  {
  }

  /** For a search free of `%`, `_`, `\` and `*`, the filter keeps exactly the requests
      whose text contains the search, ignoring case. */
  lemma {:induction false} SearchMeansSubstring(qParam: Option<string>, text: string)
    requires SearchPattern(qParam).Some?
    requires '%' !in SearchText(qParam) && '_' !in SearchText(qParam)
    requires '\\' !in SearchText(qParam) && '*' !in SearchText(qParam)
    ensures RestILike(text, SearchPattern(qParam).value) <==> ContainsIgnoringCase(text, SearchText(qParam))
    ensures RestILike(text, SearchPattern(qParam).value)
            <==> ContainsIgnoringCase(text, Trim(Or(qParam, "")))
  {
    var q := SearchText(qParam);
    LowerIdempotent(Trim(Or(qParam, "")));
    assert Escape(q) == q;
    assert LikePattern(q) == SearchPattern(qParam).value;
    PatternMeansSubstring(text, q);
  }

  /** The search is not escaped here: `_` in it matches any character, so searching "a_c"
      lists "abc", which does not contain "a_c". */
  lemma UnderscoreIsAWildcard()
    ensures SearchPattern(Some("a_c")) == Some("%a_c%")
    ensures RestILike("abc", "%a_c%")
    ensures !ContainsIgnoringCase("abc", "a_c")
  {
    SearchOfUnderscore();
    PatternOfUnderscore();
    ReplaceCharAbsent("%a_c%", '*', "%");
    AbcLacksUnderscore();
  }

  lemma AbcLacksUnderscore()
    ensures !ContainsIgnoringCase("abc", "a_c")
  {
    assert Lower("abc") == "abc";
    assert Lower("a_c") == "a_c";
    assert !OccursAt("abc", "a_c", 0) by { assert "abc"[1] != "a_c"[1]; }
  }

  lemma SearchOfUnderscore()
    ensures SearchPattern(Some("a_c")) == Some("%a_c%")
  {
    UnderscoreSearchIsPlain();
    SearchOfPlainWord("a_c");
    assert "%" + "a_c" + "%" == "%a_c%";
  }

  lemma UnderscoreSearchIsPlain()
    ensures "a_c" != [] && !IsSpace("a_c"[0]) && !IsSpace("a_c"[|"a_c"| - 1])
    ensures forall k :: 0 <= k < |"a_c"| ==> LowerChar("a_c"[k]) == "a_c"[k]
  {
    assert LowerChar('a') == 'a' && LowerChar('_') == '_' && LowerChar('c') == 'c';
  }

  /** A search with no surrounding space and no upper-case letter is used as it is. */
  lemma SearchOfPlainWord(q: string)
    requires q != [] && !IsSpace(q[0]) && !IsSpace(q[|q| - 1])
    requires forall k :: 0 <= k < |q| ==> LowerChar(q[k]) == q[k]
    ensures SearchPattern(Some(q)) == Some("%" + q + "%")
  {
    TrimOfTrimmed(q);
    assert Lower(q) == q;
  }

  lemma PatternOfUnderscore()
    ensures ILike("abc", "%a_c%")
  {
    var t := [AnyRun, Literal('a'), AnyChar, Literal('c'), AnyRun];
    assert Tokens("%") == [AnyRun] by { assert "%"[1..] == ""; }
    assert Tokens("c%") == [Literal('c'), AnyRun] by { assert "c%"[1..] == "%"; }
    assert Tokens("_c%") == [AnyChar, Literal('c'), AnyRun] by { assert "_c%"[1..] == "c%"; }
    assert Tokens("a_c%") == t[1..] by { assert "a_c%"[1..] == "_c%"; }
    assert Tokens("%a_c%") == t by { assert "%a_c%"[1..] == "a_c%"; }
    assert Matches(t[4..], "") by {
      assert t[4..][1..] == [];
      assert ""[0..] == "";
      assert Matches([], "");
    }
    assert Matches(t[3..], "c") by { assert "c"[1..] == ""; assert t[3..][1..] == t[4..]; }
    assert Matches(t[2..], "bc") by { assert "bc"[1..] == "c"; assert t[2..][1..] == t[3..]; }
    assert Matches(t[1..], "abc") by { assert "abc"[1..] == "bc"; assert t[1..][1..] == t[2..]; }
    assert "abc"[0..] == "abc";
  }
}
