/** The list of domains offered to the user, app/api/meta/domains/route.ts: the `domain`
    column of up to 10000 entries, each turned into a trimmed string, empty ones dropped,
    duplicates merged by a `Set`, and the result sorted.

    `localeCompare` is modelled as the lexicographic order on characters, `Below`. */
module DomainList {
  import opened Base

  /** The `.limit(10000)` of the query. */
  const RowLimit := 10000

  datatype Response =
    | Domains(domains: seq<string>)
    | Failure(status: int, message: string)

  // ---- The order ----

  /** `a` sorts strictly before `b`: a proper prefix, or smaller at the first difference. */
  predicate Below(a: string, b: string) {
    if a == [] then b != []
    else if b == [] then false
    else a[0] < b[0] || (a[0] == b[0] && Below(a[1..], b[1..]))
  }

  lemma {:induction false} BelowIrreflexive(a: string)
    ensures !Below(a, a)
  {
    if a != [] {
      BelowIrreflexive(a[1..]);
    }
  }

  lemma {:induction false} BelowAsymmetric(a: string, b: string)
    requires Below(a, b)
    ensures !Below(b, a)
  {
    if a != [] && b != [] && a[0] == b[0] {
      BelowAsymmetric(a[1..], b[1..]);
    }
  }

  lemma {:induction false} BelowTransitive(a: string, b: string, c: string)
    requires Below(a, b) && Below(b, c)
    ensures Below(a, c)
  {
    if a != [] && a[0] == b[0] && b[0] == c[0] {
      BelowTransitive(a[1..], b[1..], c[1..]);
    }
  }

  /** Any two different strings are ordered one way or the other. */
  lemma {:induction false} BelowTotal(a: string, b: string)
    requires a != b
    ensures Below(a, b) || Below(b, a)
  {
    if a != [] && b != [] && a[0] == b[0] {
      assert a == [a[0]] + a[1..] && b == [b[0]] + b[1..];
      BelowTotal(a[1..], b[1..]);
    }
  }

  predicate StrictlySorted(s: seq<string>) {
    forall i, j :: 0 <= i < j < |s| ==> Below(s[i], s[j])
  }

  predicate NoDuplicates(s: seq<string>) {
    forall i, j :: 0 <= i < j < |s| ==> s[i] != s[j]
  }

  lemma StrictlySortedHasNoDuplicates(s: seq<string>)
    requires StrictlySorted(s)
    ensures NoDuplicates(s)
  {
    forall i, j | 0 <= i < j < |s| ensures s[i] != s[j] {
      if s[i] == s[j] {
        BelowIrreflexive(s[i]);
      }
    }
  }

  // ---- The pipeline ----

  function Elements(s: seq<string>): set<string> {
    set d | d in s
  }

  lemma ElementsSnoc(s: seq<string>, x: string)
    ensures Elements(s + [x]) == Elements(s) + {x}
  {
    assert forall d :: d in s + [x] <==> d in s || d == x;
  }

  lemma ElementsEmpty(s: seq<string>)
    ensures Elements(s) == {} <==> s == []
  {
    if s != [] {
      assert s[0] in Elements(s);
    }
  }

  /** `String(x.domain || "").trim()` for every row. */
  function Trimmed(rows: seq<Option<string>>): (r: seq<string>)
    ensures |r| == |rows|
    ensures forall i :: 0 <= i < |rows| ==> r[i] == Trim(Or(rows[i], ""))
    ensures forall i :: 0 <= i < |rows| ==> Trim(r[i]) == r[i]
  {
    forall i | 0 <= i < |rows| ensures Trim(Trim(Or(rows[i], ""))) == Trim(Or(rows[i], "")) {
      TrimIdempotent(Or(rows[i], ""));
    }
    seq(|rows|, i requires 0 <= i < |rows| => Trim(Or(rows[i], "")))
  }

  /** `.filter(Boolean)`: the non-empty strings, in order. */
  function NonEmpty(s: seq<string>): (r: seq<string>)
    ensures forall d :: d in r <==> d in s && d != ""
  {
    if s == [] then []
    else if s[0] == "" then NonEmpty(s[1..])
    else [s[0]] + NonEmpty(s[1..])
  }

  /** The non-empty trimmed domains of the rows. */
  function InputDomains(rows: seq<Option<string>>): set<string> {
    set d | d in Trimmed(rows) && d != ""
  }

  /** The rows' domains, trimmed, with the empty ones dropped. */
  function Cleaned(rows: seq<Option<string>>): (r: seq<string>)
    ensures forall d :: d in r ==> d != "" && Trim(d) == d
    ensures Elements(r) == InputDomains(rows)
  {
    NonEmpty(Trimmed(rows))
  }

  /** `new Set(...)` read back as an array: the first occurrence of each value, in order. */
  function Distinct(s: seq<string>): (r: seq<string>)
    ensures NoDuplicates(r)
    ensures Elements(r) == Elements(s)
    ensures forall d :: d in r ==> d in s
  {
    if s == [] then []
    else
      var front := Distinct(s[..|s| - 1]);
      var last := s[|s| - 1];
      assert s == s[..|s| - 1] + [last];
      ElementsSnoc(s[..|s| - 1], last);
      ElementsSnoc(front, last);
      if last in front then front else front + [last]
  }

  /** Puts `x` into its place in a sorted list that lacks it. */
  function Insert(x: string, s: seq<string>): (r: seq<string>)
    requires StrictlySorted(s) && x !in s
    ensures StrictlySorted(r)
    ensures multiset(r) == multiset(s) + multiset{x}
  {
    if s == [] then [x]
    else if Below(x, s[0]) then
      assert forall j :: 0 < j < |s| ==> Below(x, s[j]) by {
        forall j | 0 < j < |s| ensures Below(x, s[j]) {
          BelowTransitive(x, s[0], s[j]);
        }
      }
      [x] + s
    else
      BelowTotal(x, s[0]);
      var rest := Insert(x, s[1..]);
      assert s == [s[0]] + s[1..];
      InsertedStaysAbove(s[0], x, s[1..], rest);
      [s[0]] + rest
  }

  /** A bound below `x` and below every element of `t` is below every element of a list
      holding `t`'s elements and `x`. */
  lemma InsertedStaysAbove(h: string, x: string, t: seq<string>, rest: seq<string>)
    requires Below(h, x)
    requires forall j :: 0 <= j < |t| ==> Below(h, t[j])
    requires multiset(rest) == multiset(t) + multiset{x}
    ensures forall d :: d in rest ==> Below(h, d)
  {
    forall d | d in rest ensures Below(h, d) {
      assert d in multiset(rest);
      if d != x {
        assert d in multiset(t);
        var j :| 0 <= j < |t| && t[j] == d;
      }
    }
  }

  /** `.sort(...)`, as an insertion sort of a duplicate-free list. */
  function Sort(s: seq<string>): (r: seq<string>)
    requires NoDuplicates(s)
    ensures StrictlySorted(r)
    ensures multiset(r) == multiset(s)
  {
    if s == [] then []
    else
      var front := s[..|s| - 1];
      assert s == front + [s[|s| - 1]];
      var sorted := Sort(front);
      assert s[|s| - 1] !in multiset(sorted);
      Insert(s[|s| - 1], sorted)
  }

  /** The domains the route returns for the rows the store gave it. */
  function DomainsOf(rows: seq<Option<string>>): (r: seq<string>)
  {
    Sort(Distinct(Cleaned(rows)))
  }

  /** `GET`: the store's error becomes a 500; otherwise the domains of the rows fetched with
      `limit` = 10000. The query's `.not("domain", "is", null)` is not recorded: a row without
      a domain is dropped by `DomainsOf` anyway, as `Cleaned` keeps only non-empty domains. */
  function ListDomains(select: int -> Result<seq<Option<string>>>): (r: Response)
    ensures select(RowLimit).Err? ==> r == Failure(500, ErrorText(select(RowLimit).message))
    ensures select(RowLimit).Ok? ==> r == Domains(DomainsOf(select(RowLimit).value))
  {
    match select(RowLimit)
    case Err(message) => Failure(500, ErrorText(message))
    case Ok(rows) => Domains(DomainsOf(rows))
  }

  /** What the returned list is: strictly ascending (so free of duplicates), every element
      trimmed and non-empty, and its elements are exactly the non-empty trimmed domains of
      the rows. */
  lemma {:induction false} DomainsOfMeaning(rows: seq<Option<string>>)
    ensures StrictlySorted(DomainsOf(rows))
    ensures NoDuplicates(DomainsOf(rows))
    ensures forall d :: d in DomainsOf(rows) ==> d != "" && Trim(d) == d
    ensures Elements(DomainsOf(rows)) == InputDomains(rows)
    ensures forall i :: 0 <= i < |rows| && Trim(Or(rows[i], "")) != "" ==>
              Trim(Or(rows[i], "")) in DomainsOf(rows)
  {
    var cleaned := Cleaned(rows);
    var distinct := Distinct(cleaned);
    var r := DomainsOf(rows);
    StrictlySortedHasNoDuplicates(r);
    assert Elements(r) == Elements(distinct) by {
      forall d ensures d in r <==> d in distinct {
        assert d in r <==> d in multiset(r);
        assert d in distinct <==> d in multiset(distinct);
      }
    }
    assert Elements(r) == InputDomains(rows);
    forall d | d in r ensures d != "" && Trim(d) == d {
      assert d in Elements(r);
      assert d in cleaned;
    }
    forall i | 0 <= i < |rows| && Trim(Or(rows[i], "")) != ""
      ensures Trim(Or(rows[i], "")) in r
    {
      var d := Trim(Or(rows[i], ""));
      assert Trimmed(rows)[i] == d;
      assert d in InputDomains(rows);
      assert d in Elements(r);
    }
  }

  /** A strictly ascending list is fixed by its elements: there is only one sorted listing
      of a set of domains. */
  lemma {:induction false} SortedListingIsUnique(a: seq<string>, b: seq<string>)
    requires StrictlySorted(a) && StrictlySorted(b)
    requires Elements(a) == Elements(b)
    ensures a == b
  {
    ElementsEmpty(a);
    ElementsEmpty(b);
    if a != [] && b != [] {
      assert a[0] in Elements(b);
      assert b[0] in Elements(a);
      if a[0] != b[0] {
        var i :| 0 <= i < |b| && b[i] == a[0];
        var j :| 0 <= j < |a| && a[j] == b[0];
        assert Below(b[0], a[0]) by { assert i > 0; }
        assert Below(a[0], b[0]) by { assert j > 0; }
        BelowAsymmetric(a[0], b[0]);
      }
      assert Elements(a[1..]) == Elements(b[1..]) by {
        forall d ensures d in a[1..] <==> d in b[1..] {
          if d in a[1..] {
            var k :| 1 <= k < |a| && a[k] == d;
            BelowIrreflexive(a[0]);
            assert d in Elements(a);
            assert d in b && d != b[0];
          }
          if d in b[1..] {
            var k :| 1 <= k < |b| && b[k] == d;
            BelowIrreflexive(b[0]);
            assert d in Elements(b);
            assert d in a && d != a[0];
          }
        }
      }
      SortedListingIsUnique(a[1..], b[1..]);
      assert a == [a[0]] + a[1..] && b == [b[0]] + b[1..];
    }
  }
}
