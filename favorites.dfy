/** The favourites page, app/favorites/page.tsx: the search over saved favourites
    (`filtered`) and the "Retirer" button that removes one of them.

    Favourites are kept in the browser as an object keyed by entry id; the page shows its
    values in the object's order. A field that the saved JSON lacks is `None`. */
module Favorites {
  import opened Base
  import Like

  datatype Fav = Fav(entryId: string, domain: Option<string>, intent: Option<string>,
                     textFr: Option<string>, textSrc: Option<string>, audioUrl: Option<string>)

  /** The four searched fields, in the order the filter tries them: the French text, the
      source text, the domain and the intent, a missing one as `""`. */
  function SearchedFields(f: Fav): (fields: seq<string>)
    ensures |fields| == 4
    ensures f.textFr.Some? ==> fields[0] == f.textFr.value
    ensures f.textSrc.Some? ==> fields[1] == f.textSrc.value
    ensures f.domain.Some? ==> fields[2] == f.domain.value
    ensures f.intent.Some? ==> fields[3] == f.intent.value
    ensures f.textFr.None? ==> fields[0] == ""
    ensures f.textSrc.None? ==> fields[1] == ""
    ensures f.domain.None? ==> fields[2] == ""
    ensures f.intent.None? ==> fields[3] == ""
  {
    [Or(f.textFr, ""), Or(f.textSrc, ""), Or(f.domain, ""), Or(f.intent, "")]
  }

  /** The test `filter` applies, for the already trimmed and lower-cased search `s`. */
  predicate Keeps(f: Fav, s: string) {
    || Contains(Lower(Or(f.textFr, "")), s)
    || Contains(Lower(Or(f.textSrc, "")), s)
    || Contains(Lower(Or(f.domain, "")), s)
    || Contains(Lower(Or(f.intent, "")), s)
  }

  function KeepAll(list: seq<Fav>, s: string): seq<Fav> {
    if list == [] then []
    else (if Keeps(list[0], s) then [list[0]] else []) + KeepAll(list[1..], s)
  }

  /** `a` is `b` with some elements left out, the rest in their order. */
  predicate Sublist(a: seq<Fav>, b: seq<Fav>)
    decreases |b|
  {
    if a == [] then true
    else if b == [] then false
    else (a[0] == b[0] && Sublist(a[1..], b[1..])) || Sublist(a, b[1..])
  }

  /** `filtered`: the whole list for a blank search; otherwise, in their order, the
      favourites one of whose four fields contains the trimmed search, case ignored. */
  function Filtered(list: seq<Fav>, q: string): (r: seq<Fav>)
    ensures Trim(q) == "" ==> r == list
    ensures Sublist(r, list)
    ensures Trim(q) != "" ==>
              forall f :: f in list ==>
                (f in r <==> exists k :: 0 <= k < 4 && Like.ContainsIgnoringCase(SearchedFields(f)[k], Trim(q)))
  {
    var s := Lower(Trim(q));
    if s == "" then
      SublistOfItself(list);
      list
    else
      KeepAllIsSublist(list, s);
      KeepAllKeeps(list, s);
      forall f | f in list
        ensures Keeps(f, s) <==> exists k :: 0 <= k < 4 && Like.ContainsIgnoringCase(SearchedFields(f)[k], Trim(q))
      {
        KeepsMeansSomeFieldContains(f, Trim(q));
      }
      KeepAll(list, s)
  }

  /** The four-way test of `filter` is "some searched field contains the search, case
      ignored". */
  lemma KeepsMeansSomeFieldContains(f: Fav, t: string)
    ensures Keeps(f, Lower(t)) <==> exists k :: 0 <= k < 4 && Like.ContainsIgnoringCase(SearchedFields(f)[k], t)
  {
    var s := Lower(t);
    var fields := SearchedFields(f);
    assert forall k :: 0 <= k < 4 ==>
      (Like.ContainsIgnoringCase(fields[k], t) <==> Contains(Lower(fields[k]), s));
    if Keeps(f, s) {
      if Contains(Lower(fields[0]), s) {
        assert Like.ContainsIgnoringCase(fields[0], t);
      } else if Contains(Lower(fields[1]), s) {
        assert Like.ContainsIgnoringCase(fields[1], t);
      } else if Contains(Lower(fields[2]), s) {
        assert Like.ContainsIgnoringCase(fields[2], t);
      } else {
        assert Like.ContainsIgnoringCase(fields[3], t);
      }
    }
  }

  lemma {:induction false} SublistOfItself(a: seq<Fav>)
    ensures Sublist(a, a)
  {
    if a != [] {
      SublistOfItself(a[1..]);
    }
  }

  lemma {:induction false} KeepAllIsSublist(list: seq<Fav>, s: string)
    ensures Sublist(KeepAll(list, s), list)
  {
    if list != [] {
      KeepAllIsSublist(list[1..], s);
      var rest := KeepAll(list[1..], s);
      if Keeps(list[0], s) {
        assert KeepAll(list, s) == [list[0]] + rest;
        assert ([list[0]] + rest)[1..] == rest;
      } else {
        assert KeepAll(list, s) == rest;
        if rest != [] {
          assert Sublist(rest, list[1..]);
        }
      }
    }
  }

  lemma {:induction false} KeepAllKeeps(list: seq<Fav>, s: string)
    ensures forall f :: f in KeepAll(list, s) <==> f in list && Keeps(f, s)
  {
    if list != [] {
      KeepAllKeeps(list[1..], s);
      assert list == [list[0]] + list[1..];
    }
  }

  /** Searching the result of a search again changes nothing. */
  lemma {:induction false} FilteredIsIdempotent(list: seq<Fav>, q: string)
    ensures Filtered(Filtered(list, q), q) == Filtered(list, q)
  {
    var s := Lower(Trim(q));
    if s != "" {
      KeepAllIdempotent(list, s);
    }
  }

  lemma {:induction false} KeepAllIdempotent(list: seq<Fav>, s: string)
    ensures KeepAll(KeepAll(list, s), s) == KeepAll(list, s)
  {
    if list != [] {
      KeepAllIdempotent(list[1..], s);
      var rest := KeepAll(list[1..], s);
      if Keeps(list[0], s) {
        assert KeepAll(list, s) == [list[0]] + rest;
        assert ([list[0]] + rest)[1..] == rest;
        assert KeepAll([list[0]] + rest, s) == [list[0]] + KeepAll(rest, s);
      } else {
        assert KeepAll(list, s) == [] + rest;
        assert [] + rest == rest;
      }
    }
  }

  /** "Retirer": a copy of the favourites without the key `id`. */
  function Remove(favs: map<string, Fav>, id: string): (r: map<string, Fav>)
    ensures r.Keys == favs.Keys - {id}
    ensures forall k :: k in r ==> r[k] == favs[k]
    ensures id !in favs ==> r == favs
    ensures id in favs ==> |r| == |favs| - 1
  {
    favs - {id}
  }

  /** Removing the same favourite twice is removing it once. */
  lemma RemoveIsIdempotent(favs: map<string, Fav>, id: string)
    ensures Remove(Remove(favs, id), id) == Remove(favs, id)
  {
  }
}
