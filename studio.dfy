/** The studio listing of app/api/studio/route.ts: one page of entries, newest first, each
    with every matching audio row and that row's public URL.

    As in EntryListing, the store and `getPublicUrl` are parameters and the handler returns
    the store calls it issued. `listAll` of the same file is StorageWalk.Walk. */
module Studio {
  import opened Base
  import Like
  import Pagination

  /** A row of `entries` (`select("*")`), reduced to the columns the route reads or filters
      on; `entryId` is "" when the row has none. */
  datatype Entry = Entry(entryId: string, sourceLanguage: Option<string>, domain: Option<string>,
                         sourceLemma: Option<string>, translationPrimary: Option<string>,
                         createdAt: string)

  /** A row of `audio_items`; `entryId` is "" when the row has none. */
  datatype AudioRow = AudioRow(audioId: string, entryId: string, audioType: Option<string>,
                               storagePath: Option<string>, status: Option<string>)

  /** `{ ...a, publicUrl }`. */
  datatype Audio = Audio(row: AudioRow, publicUrl: Option<string>)

  /** The order of rows a query asks for; both of the route's queries ask for the newest
      rows first (`created_at` descending). */
  datatype Order = CreatedAtDescending

  /** The entries query: in the given order, with an exact count, over one window of rows,
      with the optional search pattern and the optional language and domain equalities. */
  datatype EntryQuery = EntryQuery(order: Order, window: Pagination.Window, search: Option<string>,
                                   sourceLanguage: Option<string>, domain: Option<string>)

  /** The audio query: rows of the listed entries in the given order, optionally of one type. */
  datatype AudioQuery = AudioQuery(entryIds: seq<string>, audioType: Option<string>, order: Order)

  datatype StoreCall = SelectEntries(query: EntryQuery) | SelectAudio(audioQuery: AudioQuery)

  /** What the entries query answers: the rows and the exact count, if the store gave one. */
  datatype EntryPage = EntryPage(rows: seq<Entry>, count: Option<int>)

  datatype Item = Item(entry: Entry, audios: seq<Audio>)

  datatype Response =
    | Listing(page: int, pageSize: int, total: int, items: seq<Item>)
    | Failure(status: int, message: string)

  /** A filter value that is applied only when it is not empty. */
  function WhenSet(v: string): (r: Option<string>)
    ensures r.Some? <==> v != ""
    ensures r.Some? ==> r.value == v
  {
    if v == "" then None else Some(v)
  }

  function EntryIds(entries: seq<Entry>): (ids: seq<string>)
    ensures |ids| == |entries|
    ensures forall i :: 0 <= i < |entries| ==> ids[i] == entries[i].entryId
  {
    if entries == [] then [] else [entries[0].entryId] + EntryIds(entries[1..])
  }

  /** `publicUrl` of one audio row: `getPublicUrl` of a non-empty storage path, nothing
      otherwise (lines 103-109). */
  function Resolve(a: AudioRow, bucket: string, publicUrl: (string, string) -> Option<string>)
    : (r: Audio)
    ensures r.row == a
    ensures a.storagePath.None? || a.storagePath == Some("") ==> r.publicUrl.None?
    ensures a.storagePath.Some? && a.storagePath.value != "" ==>
              r.publicUrl == publicUrl(bucket, a.storagePath.value)
  {
    Audio(a, if a.storagePath.Some? && a.storagePath.value != ""
             then publicUrl(bucket, a.storagePath.value) else None)
  }

  /** The list an entry has so far: `byEntry[id] || []`. */
  function ListOf(m: map<string, seq<Audio>>, id: string): seq<Audio> {
    if id in m then m[id] else []
  }

  /** Reference definition of `byEntry`: each row, resolved, goes in front of the rows that
      follow it for the same entry. */
  function Group(audios: seq<AudioRow>, bucket: string,
                 publicUrl: (string, string) -> Option<string>): map<string, seq<Audio>>
  {
    if audios == [] then map[]
    else
      var rest := Group(audios[1..], bucket, publicUrl);
      var id := audios[0].entryId;
      rest[id := [Resolve(audios[0], bucket, publicUrl)] + ListOf(rest, id)]
  }

  /** The resolved rows of one entry, in fetched order. */
  function RowsOf(audios: seq<AudioRow>, id: string, bucket: string,
                  publicUrl: (string, string) -> Option<string>): seq<Audio>
  {
    if audios == [] then []
    else (if audios[0].entryId == id then [Resolve(audios[0], bucket, publicUrl)] else [])
         + RowsOf(audios[1..], id, bucket, publicUrl)
  }

  /** No list of `m` is empty, no list holds more rows than `audios`, and every row of a list
      is one of `audios` carrying that list's entry id. */
  ghost predicate ListsBelongTo(m: map<string, seq<Audio>>, audios: seq<AudioRow>) {
    forall id :: id in m ==>
      && m[id] != [] && |m[id]| <= |audios|
      && forall x :: x in m[id] ==> x.row.entryId == id && x.row in audios
  }

  /** The lists of `byEntry` belong to the fetched rows. */
  lemma {:induction false} GroupShape(audios: seq<AudioRow>, bucket: string,
                                      publicUrl: (string, string) -> Option<string>)
    ensures ListsBelongTo(Group(audios, bucket, publicUrl), audios)
  {
    if audios != [] {
      var rest := Group(audios[1..], bucket, publicUrl);
      GroupShape(audios[1..], bucket, publicUrl);
      assert ListsBelongTo(rest, audios[1..]);
      var m := Group(audios, bucket, publicUrl);
      var a, r := audios[0], Resolve(audios[0], bucket, publicUrl);
      assert m == rest[a.entryId := [r] + ListOf(rest, a.entryId)];
      assert forall y :: y in audios[1..] ==> y in audios;
      forall id | id in m
        ensures m[id] != [] && |m[id]| <= |audios|
        ensures forall x: Audio :: x in m[id] ==> x.row.entryId == id && x.row in audios
      {
        if id != a.entryId {
          assert m[id] == rest[id];
        } else {
          assert m[id] == [r] + ListOf(rest, id);
        }
      }
    }
  }

  /** Pushing one more row appends it to its entry's list. */
  lemma {:induction false} GroupSnoc(audios: seq<AudioRow>, a: AudioRow, bucket: string,
                                     publicUrl: (string, string) -> Option<string>)
    ensures var m := Group(audios, bucket, publicUrl);
            Group(audios + [a], bucket, publicUrl)
              == m[a.entryId := ListOf(m, a.entryId) + [Resolve(a, bucket, publicUrl)]]
  {
    var ra := Resolve(a, bucket, publicUrl);
    if audios == [] {
      assert [] + [a] == [a];
      assert [a][1..] == [];
      assert [ra] + [] == [] + [ra];
    } else {
      assert (audios + [a])[1..] == audios[1..] + [a];
      assert (audios + [a])[0] == audios[0];
      GroupSnoc(audios[1..], a, bucket, publicUrl);
      PushesCommute(Group(audios[1..], bucket, publicUrl), audios[0].entryId,
                    Resolve(audios[0], bucket, publicUrl), a.entryId, ra);
    }
  }

  /** Putting `x` in front of the list of `h` and `y` at the end of the list of `k` can be
      done in either order. */
  lemma PushesCommute(rest: map<string, seq<Audio>>, h: string, x: Audio, k: string, y: Audio)
    ensures var late := rest[k := ListOf(rest, k) + [y]];
            var early := rest[h := [x] + ListOf(rest, h)];
            late[h := [x] + ListOf(late, h)] == early[k := ListOf(early, k) + [y]]
  {
    if h == k {
      assert [x] + (ListOf(rest, k) + [y]) == ([x] + ListOf(rest, k)) + [y];
    }
  }

  /** Every fetched row lands in its own entry's list, in fetched order, and nowhere else:
      the list of an entry is exactly its rows, and an entry has a list exactly when some row
      names it. */
  lemma {:induction false} GroupIsRowsOf(audios: seq<AudioRow>, bucket: string,
                                         publicUrl: (string, string) -> Option<string>, id: string)
    ensures id in Group(audios, bucket, publicUrl)
            <==> exists i :: 0 <= i < |audios| && audios[i].entryId == id
    ensures id in Group(audios, bucket, publicUrl) ==>
              Group(audios, bucket, publicUrl)[id] == RowsOf(audios, id, bucket, publicUrl)
  {
    if audios != [] {
      GroupIsRowsOf(audios[1..], bucket, publicUrl, id);
      var rest := Group(audios[1..], bucket, publicUrl);
      if audios[0].entryId == id && id !in rest {
        assert RowsOf(audios[1..], id, bucket, publicUrl) == [] by {
          RowsOfEmpty(audios[1..], id, bucket, publicUrl);
        }
      }
      if exists i :: 0 <= i < |audios| && audios[i].entryId == id {
        var i :| 0 <= i < |audios| && audios[i].entryId == id;
        if i > 0 {
          assert audios[1..][i - 1] == audios[i];
        }
      }
      if exists i :: 0 <= i < |audios[1..]| && audios[1..][i].entryId == id {
        var i :| 0 <= i < |audios[1..]| && audios[1..][i].entryId == id;
        assert audios[i + 1] == audios[1..][i];
      }
    }
  }

  lemma {:induction false} RowsOfEmpty(audios: seq<AudioRow>, id: string, bucket: string,
                                       publicUrl: (string, string) -> Option<string>)
    requires forall i :: 0 <= i < |audios| ==> audios[i].entryId != id
    ensures RowsOf(audios, id, bucket, publicUrl) == []
  {
    if audios != [] {
      RowsOfEmpty(audios[1..], id, bucket, publicUrl);
    }
  }

  lemma {:induction false} RowsOfHoldsRow(audios: seq<AudioRow>, i: nat, bucket: string,
                                          publicUrl: (string, string) -> Option<string>)
    requires i < |audios|
    ensures Resolve(audios[i], bucket, publicUrl) in RowsOf(audios, audios[i].entryId, bucket, publicUrl)
  {
    if i > 0 {
      assert audios[1..][i - 1] == audios[i];
      RowsOfHoldsRow(audios[1..], i - 1, bucket, publicUrl);
    }
  }

  /** No fetched row is dropped: each one, resolved, is in its entry's list. */
  lemma EveryRowLands(audios: seq<AudioRow>, i: nat, bucket: string,
                      publicUrl: (string, string) -> Option<string>)
    requires i < |audios|
    ensures audios[i].entryId in Group(audios, bucket, publicUrl)
    ensures Resolve(audios[i], bucket, publicUrl) in Group(audios, bucket, publicUrl)[audios[i].entryId]
  {
    GroupIsRowsOf(audios, bucket, publicUrl, audios[i].entryId);
    RowsOfHoldsRow(audios, i, bucket, publicUrl);
  }

  /** `entries.map(en => ({...en, audios: byEntry[en.entry_id] || []}))`. */
  function Merge(entries: seq<Entry>, byEntry: map<string, seq<Audio>>): (items: seq<Item>)
    ensures |items| == |entries|
    ensures forall i :: 0 <= i < |entries| ==>
              && items[i].entry == entries[i]
              && items[i].audios == (if entries[i].entryId in byEntry then byEntry[entries[i].entryId]
                                     else [])
  {
    if entries == [] then []
    else
      var e := entries[0];
      [Item(e, if e.entryId in byEntry then byEntry[e.entryId] else [])] + Merge(entries[1..], byEntry)
  }

  /** The entries query the route issues for its parameters (lines 59-70): newest first,
      a window of `pageSize` rows starting at row `(page - 1) * pageSize`, a search pattern
      exactly when the trimmed text is not empty, and each equality filter exactly when its
      value is not empty. */
  function PlanEntries(q: string, sourceLang: string, domain: string, page: int, pageSize: int)
    : (r: EntryQuery)
    ensures r.order == CreatedAtDescending
    ensures r.window.from == (page - 1) * pageSize && r.window.to - r.window.from + 1 == pageSize
    ensures r.search.None? <==> Trim(q) == ""
    ensures r.search.Some? ==> r.search.value == Like.LikePattern(Trim(q))
    ensures r.sourceLanguage.Some? <==> sourceLang != ""
    ensures r.sourceLanguage.Some? ==> r.sourceLanguage.value == sourceLang
    ensures r.domain.Some? <==> domain != ""
    ensures r.domain.Some? ==> r.domain.value == domain
  {
    EntryQuery(CreatedAtDescending, Pagination.RowWindow(page, pageSize), Like.IlikeSafe(q),
               WhenSet(sourceLang), WhenSet(domain))
  }

  /** The `byEntry` loop: every audio row, with its public URL, pushed onto the list of its
      entry. */
  method GroupByEntry(audios: seq<AudioRow>, bucket: string,
                      publicUrl: (string, string) -> Option<string>)
    returns (byEntry: map<string, seq<Audio>>)
    ensures byEntry == Group(audios, bucket, publicUrl)
  {
    byEntry := map[];
    for i := 0 to |audios|
      invariant byEntry == Group(audios[..i], bucket, publicUrl)
    {
      var a := audios[i];
      assert audios[..i + 1] == audios[..i] + [a];
      GroupSnoc(audios[..i], a, bucket, publicUrl);
      var storagePath: Option<string> := if a.storagePath.Some? && a.storagePath.value != ""
                                         then a.storagePath else None;
      var url: Option<string> := None;
      if storagePath.Some? {
        url := publicUrl(bucket, storagePath.value);
      }
      var item := Audio(a, url);
      assert item == Resolve(a, bucket, publicUrl);
      ghost var before := byEntry;
      if a.entryId !in byEntry {
        byEntry := byEntry[a.entryId := []];
      }
      assert byEntry[a.entryId] == ListOf(before, a.entryId);
      byEntry := byEntry[a.entryId := byEntry[a.entryId] + [item]];
      assert byEntry == before[a.entryId := ListOf(before, a.entryId) + [item]];
    }
    assert audios[..|audios|] == audios;
  }

  /** The part of the route's `GET` after the entries query is planned (lines 72-127): run
      it, fetch the audio rows of the entries it returns, and answer one page. */
  method AnswerPage(query: EntryQuery, page: int, pageSize: int, audioType: string, bucket: string,
                    selectEntries: EntryQuery -> Result<EntryPage>,
                    selectAudio: AudioQuery -> Result<seq<AudioRow>>,
                    publicUrl: (string, string) -> Option<string>)
    returns (resp: Response, calls: seq<StoreCall>)
    ensures |calls| >= 1 && calls[0] == SelectEntries(query)
    ensures selectEntries(query).Err? ==>
              resp == Failure(500, ErrorText(selectEntries(query).message)) && calls == [calls[0]]
    ensures selectEntries(query).Ok? && selectEntries(query).value.rows == [] ==>
              resp == Listing(page, pageSize, selectEntries(query).value.count.GetOr(0), [])
              && calls == [calls[0]]
    ensures selectEntries(query).Ok? && selectEntries(query).value.rows != [] ==>
              var rows := selectEntries(query).value.rows;
              var aq := AudioQuery(EntryIds(rows), WhenSet(audioType), CreatedAtDescending);
              && calls == [calls[0], SelectAudio(aq)]
              && (selectAudio(aq).Err? ==> resp == Failure(500, ErrorText(selectAudio(aq).message)))
              && (selectAudio(aq).Ok? ==>
                    resp == Listing(page, pageSize, selectEntries(query).value.count.GetOr(|rows|),
                                    Merge(rows, Group(selectAudio(aq).value, bucket, publicUrl))))
  {
    calls := [SelectEntries(query)];
    var fetched := selectEntries(query);
    if fetched.Err? {
      return Failure(500, ErrorText(fetched.message)), calls;
    }
    var entries := fetched.value.rows;
    var count := fetched.value.count;

    var entryIds := EntryIds(entries);
    assert entryIds == [] <==> entries == [];
    if entryIds == [] {
      return Listing(page, pageSize, count.GetOr(0), []), calls;
    }

    var aq := AudioQuery(entryIds, WhenSet(audioType), CreatedAtDescending);
    calls := calls + [SelectAudio(aq)];
    var audioResult := selectAudio(aq);
    if audioResult.Err? {
      return Failure(500, ErrorText(audioResult.message)), calls;
    }
    var audios := audioResult.value;

    var byEntry := GroupByEntry(audios, bucket, publicUrl);
    var merged := Merge(entries, byEntry);
    return Listing(page, pageSize, count.GetOr(|merged|), merged), calls;
  }

  /** The route's `GET`. Query parameters are `None` when missing; `page` and `pageSize` are
      `None` when missing or empty. */
  method StudioList(qParam: Option<string>, sourceLangParam: Option<string>,
                    audioTypeParam: Option<string>, domainParam: Option<string>,
                    pageParam: Option<int>, pageSizeParam: Option<int>, bucketEnv: Option<string>,
                    selectEntries: EntryQuery -> Result<EntryPage>,
                    selectAudio: AudioQuery -> Result<seq<AudioRow>>,
                    publicUrl: (string, string) -> Option<string>)
    returns (resp: Response, calls: seq<StoreCall>)
    ensures var page := Pagination.StudioPage(pageParam);
            var pageSize := Pagination.PageSize(pageSizeParam);
            var query := PlanEntries(qParam.GetOr(""), sourceLangParam.GetOr(""),
                                     domainParam.GetOr(""), page, pageSize);
            && |calls| >= 1 && calls[0] == SelectEntries(query)
            && (selectEntries(query).Err? ==>
                  resp == Failure(500, ErrorText(selectEntries(query).message)) && calls == [calls[0]])
            && (selectEntries(query).Ok? && selectEntries(query).value.rows == [] ==>
                  resp == Listing(page, pageSize, selectEntries(query).value.count.GetOr(0), [])
                  && calls == [calls[0]])
            && (selectEntries(query).Ok? && selectEntries(query).value.rows != [] ==>
                  var rows := selectEntries(query).value.rows;
                  var aq := AudioQuery(EntryIds(rows), WhenSet(audioTypeParam.GetOr("")),
                                       CreatedAtDescending);
                  && calls == [calls[0], SelectAudio(aq)]
                  && (selectAudio(aq).Err? ==> resp == Failure(500, ErrorText(selectAudio(aq).message)))
                  && (selectAudio(aq).Ok? ==>
                        resp == Listing(page, pageSize,
                                        selectEntries(query).value.count.GetOr(|rows|),
                                        Merge(rows, Group(selectAudio(aq).value,
                                                          Or(bucketEnv, "lingua-audio"), publicUrl)))))
  {
    var bucket := Or(bucketEnv, "lingua-audio");
    var page := Pagination.StudioPage(pageParam);
    var pageSize := Pagination.PageSize(pageSizeParam);
    var query := PlanEntries(qParam.GetOr(""), sourceLangParam.GetOr(""), domainParam.GetOr(""),
                             page, pageSize);
    resp, calls := AnswerPage(query, page, pageSize, audioTypeParam.GetOr(""), bucket,
                              selectEntries, selectAudio, publicUrl);
  }

  /** Whatever the parameters, the page size the route uses and echoes lies in [5, 50], and
      the window it asks for spans exactly that many rows. */
  lemma WindowSpansPageSize(pageParam: Option<int>, pageSizeParam: Option<int>)
    ensures var size := Pagination.PageSize(pageSizeParam);
            var w := Pagination.RowWindow(Pagination.StudioPage(pageParam), size);
            5 <= size <= 50 && w.to - w.from + 1 == size
  {
  }
}
