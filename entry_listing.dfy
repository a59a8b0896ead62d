/** The entry listing of app/api/conversation/intents/route.ts (its `GET`, which despite the
    route's name returns entries): a query on `entries` with a schema-drift fallback, one
    query on `audio_items`, and the first audio URL of each entry merged onto the entries.

    The store and `getPublicUrl` are parameters: `selectEntries` answers an entries query,
    `selectAudio` answers an audio query, and `publicUrl` maps a
    bucket and a storage path to a URL or to nothing. The handler also returns the store calls
    it issued, in order, so that "no query is made" can be stated. */
module EntryListing {
  import opened Base
  import Like

  /** A row of `entries` with the columns the route selects; `entryId` is "" when the row
      has none (a falsy `entry_id`). */
  datatype Entry = Entry(entryId: string, domain: string, sourceLanguage: Option<string>,
                         sourceLemma: Option<string>, translationPrimary: Option<string>,
                         exampleSource: Option<string>, exampleTarget: Option<string>,
                         createdAt: string)

  /** A row of `audio_items` with the columns the route selects; `entryId` is "" when the row
      has none. */
  datatype AudioRow = AudioRow(audioId: string, entryId: string, language: Option<string>,
                               audioType: Option<string>, storagePath: Option<string>,
                               status: Option<string>)

  datatype Order = OrderInIntentAscending | CreatedAtDescending

  /** An entries query: domain equality, an optional ILIKE pattern tried on `source_lemma`
      and `translation_primary`, an optional intent equality, an order and a row limit. */
  datatype EntryQuery = EntryQuery(domain: string, search: Option<string>, intent: Option<string>,
                                   order: Order, limit: Option<nat>)

  /** The audio query: the rows whose `entry_id` is among the listed ids, in the given order. */
  datatype AudioQuery = AudioQuery(entryIds: seq<string>, order: Order)

  datatype StoreCall = SelectEntries(query: EntryQuery) | SelectAudio(audioQuery: AudioQuery)

  /** An entry of the response: the entry's columns and `audio_url`. */
  datatype Item = Item(entry: Entry, audioUrl: Option<string>)

  datatype Response = Items(items: seq<Item>) | Failure(status: int, message: string)

  /** The bucket: `SUPABASE_BUCKET || "lingua-audio"`. */
  function Bucket(env: Option<string>): string {
    Or(env, "lingua-audio")
  }

  /** The query the route tries first (lines 17-33): the domain's entries by their order in
      the intent, with no row limit; a search pattern exactly when there is search text, and an
      intent filter exactly when the intent is neither empty nor "general". */
  function PrimaryQuery(domain: string, intent: string, q: string): (r: EntryQuery)
    ensures r.domain == domain && r.order == OrderInIntentAscending && r.limit.None?
    ensures r.search.Some? <==> q != ""
    ensures r.search.Some? ==> r.search.value == Like.LikePattern(q)
    ensures r.intent.Some? <==> intent != "" && intent != "general"
    ensures r.intent.Some? ==> r.intent.value == intent
  {
    EntryQuery(domain,
               if q != "" then Some(Like.LikePattern(q)) else None,
               if intent != "" && intent != "general" then Some(intent) else None,
               OrderInIntentAscending, None)
  }

  /** The query tried when the first one failed on a missing column (lines 38-45): the
      domain's entries, newest first, at most 300, with neither search nor intent filter. */
  function FallbackQuery(domain: string): (r: EntryQuery)
    ensures r.domain == domain && r.search.None? && r.intent.None?
    ensures r.order == CreatedAtDescending && r.limit == Some(300)
  {
    EntryQuery(domain, None, None, CreatedAtDescending, Some(300))
  }

  /** The test on the error message that decides the fallback (lines 36-37). */
  predicate LooksLikeMissingColumn(message: string) {
    Contains(Lower(message), "does not exist") || Contains(Lower(message), "column")
  }

  /** The letter case of the store's message does not change the decision to fall back. */
  lemma MissingColumnIgnoresCase(message: string)
    ensures LooksLikeMissingColumn(message) <==> LooksLikeMissingColumn(Lower(message))
  {
    LowerIdempotent(message);
  }

  /** The entries the route goes on with, and the entries queries it issued: the first
      query's rows; on an error that looks like a missing column, the fallback's rows or
      error; on any other error, that error. */
  function FetchEntries(domain: string, intent: string, q: string,
                        selectEntries: EntryQuery -> Result<seq<Entry>>)
    : (r: (Result<seq<Entry>>, seq<StoreCall>))
    ensures 1 <= |r.1| <= 2 && r.1[0] == SelectEntries(PrimaryQuery(domain, intent, q))
    ensures var first := selectEntries(PrimaryQuery(domain, intent, q));
            && (|r.1| == 2 <==> first.Err? && LooksLikeMissingColumn(first.message))
            && (|r.1| == 1 ==> r.0 == first)
            && (|r.1| == 2 ==> r.1[1] == SelectEntries(FallbackQuery(domain))
                               && r.0 == selectEntries(FallbackQuery(domain)))
  {
    var primary := PrimaryQuery(domain, intent, q);
    var first := selectEntries(primary);
    if first.Err? && LooksLikeMissingColumn(first.message) then
      (selectEntries(FallbackQuery(domain)), [SelectEntries(primary), SelectEntries(FallbackQuery(domain))])
    else
      (first, [SelectEntries(primary)])
  }

  /** `entries.map(x => x.entry_id).filter(Boolean)`: exactly the entries' non-empty ids. */
  function EntryIds(entries: seq<Entry>): (ids: seq<string>)
    ensures forall id :: id in ids ==> id != "" && exists e :: e in entries && e.entryId == id
    ensures forall e :: e in entries && e.entryId != "" ==> e.entryId in ids
    ensures ids == [] <==> forall e :: e in entries ==> e.entryId == ""
    ensures |ids| <= |entries|
  {
    if entries == [] then []
    else (if entries[0].entryId != "" then [entries[0].entryId] else [])
         + EntryIds(entries[1..])
  }

  /** The ids keep the entries' order: the ids of two runs of entries are the ids of the
      first run followed by those of the second. */
  lemma {:induction false} EntryIdsAppend(a: seq<Entry>, b: seq<Entry>)
    ensures EntryIds(a + b) == EntryIds(a) + EntryIds(b)
  {
    if a == [] {
      assert a + b == b;
    } else {
      assert (a + b)[1..] == a[1..] + b;
      EntryIdsAppend(a[1..], b);
    }
  }

  /** The URL resolved for an audio row: `getPublicUrl` of a non-empty storage path,
      nothing otherwise (lines 70-76). */
  function AudioUrl(a: AudioRow, bucket: string, publicUrl: (string, string) -> Option<string>)
    : (url: Option<string>)
    ensures a.storagePath.None? || a.storagePath == Some("") ==> url.None?
    ensures a.storagePath.Some? && a.storagePath.value != "" ==>
              url == publicUrl(bucket, a.storagePath.value)
  {
    if a.storagePath.Some? && a.storagePath.value != "" then publicUrl(bucket, a.storagePath.value)
    else None
  }

  /** Reference definition of `firstAudioByEntry`: every row with an entry id claims that
      id's slot, and a row earlier in the list overrides any later one. */
  function FirstAudio(audios: seq<AudioRow>, bucket: string,
                      publicUrl: (string, string) -> Option<string>): map<string, Option<string>>
  {
    if audios == [] then map[]
    else
      var rest := FirstAudio(audios[1..], bucket, publicUrl);
      if audios[0].entryId == "" then rest
      else rest[audios[0].entryId := AudioUrl(audios[0], bucket, publicUrl)]
  }

  /** Reading one more row only fills a slot that is still free. */
  lemma {:induction false} FirstAudioSnoc(audios: seq<AudioRow>, a: AudioRow, bucket: string,
                                          publicUrl: (string, string) -> Option<string>)
    ensures var m := FirstAudio(audios, bucket, publicUrl);
            FirstAudio(audios + [a], bucket, publicUrl)
              == if a.entryId == "" || a.entryId in m then m
                 else m[a.entryId := AudioUrl(a, bucket, publicUrl)]
  {
    if audios == [] {
      assert [] + [a] == [a];
      assert [a][1..] == [];
    } else {
      assert (audios + [a])[1..] == audios[1..] + [a];
      FirstAudioSnoc(audios[1..], a, bucket, publicUrl);
    }
  }

  /** An entry id has a slot exactly when some row carries it. */
  lemma {:induction false} FirstAudioKeys(audios: seq<AudioRow>, bucket: string,
                                          publicUrl: (string, string) -> Option<string>, id: string)
    ensures id in FirstAudio(audios, bucket, publicUrl)
            <==> id != "" && exists i :: 0 <= i < |audios| && audios[i].entryId == id
  {
    if audios != [] {
      FirstAudioKeys(audios[1..], bucket, publicUrl, id);
      if exists i :: 0 <= i < |audios| && audios[i].entryId == id {
        var i :| 0 <= i < |audios| && audios[i].entryId == id;
        if i > 0 {
          assert audios[1..][i - 1] == audios[i];
        }
      }
      if exists i :: 0 <= i < |audios[1..]| && audios[1..][i].entryId == id {
        var i :| 0 <= i < |audios[1..]| && audios[1..][i].entryId == id;
        assert audios[i + 1] == audios[1..][i];
      }
    }
  }

  /** First wins: the slot of an entry holds the URL of the first row that names it, even
      when that row has no storage path and so no URL, whatever rows follow. */
  lemma {:induction false} FirstAudioFirstWins(audios: seq<AudioRow>, bucket: string,
                                               publicUrl: (string, string) -> Option<string>, i: nat)
    requires i < |audios| && audios[i].entryId != ""
    requires forall j :: 0 <= j < i ==> audios[j].entryId != audios[i].entryId
    ensures audios[i].entryId in FirstAudio(audios, bucket, publicUrl)
    ensures FirstAudio(audios, bucket, publicUrl)[audios[i].entryId]
            == AudioUrl(audios[i], bucket, publicUrl)
  {
    if i > 0 {
      assert audios[1..][i - 1] == audios[i];
      FirstAudioFirstWins(audios[1..], bucket, publicUrl, i - 1);
    }
  }

  /** `entries.map(en => ({...en, audio_url: firstAudioByEntry[en.entry_id]?.audio_url ?? null}))`. */
  function Merge(entries: seq<Entry>, first: map<string, Option<string>>): (items: seq<Item>)
    ensures |items| == |entries|
    ensures forall i :: 0 <= i < |entries| ==>
              && items[i].entry == entries[i]
              && items[i].audioUrl == (if entries[i].entryId in first then first[entries[i].entryId]
                                       else None)
  {
    if entries == [] then []
    else
      var e := entries[0];
      [Item(e, if e.entryId in first then first[e.entryId] else None)] + Merge(entries[1..], first)
  }

  /** The `firstAudioByEntry` loop: skips rows without an entry id and rows whose entry
      already has a slot, and gives the others the URL of their storage path. */
  method FirstAudioByEntry(audios: seq<AudioRow>, bucket: string,
                           publicUrl: (string, string) -> Option<string>)
    returns (first: map<string, Option<string>>)
    ensures first == FirstAudio(audios, bucket, publicUrl)
  {
    first := map[];
    for i := 0 to |audios|
      invariant first == FirstAudio(audios[..i], bucket, publicUrl)
    {
      var a := audios[i];
      assert audios[..i + 1] == audios[..i] + [a];
      FirstAudioSnoc(audios[..i], a, bucket, publicUrl);
      if a.entryId == "" {
        continue;
      }
      if a.entryId in first {
        continue;
      }
      var audioUrl: Option<string> := None;
      if a.storagePath.Some? && a.storagePath.value != "" {
        audioUrl := publicUrl(bucket, a.storagePath.value);
      }
      first := first[a.entryId := audioUrl];
    }
    assert audios[..|audios|] == audios;
  }

  /** The route's `GET`. */
  method ListEntries(domainParam: Option<string>, intentParam: Option<string>,
                     qParam: Option<string>, bucketEnv: Option<string>,
                     selectEntries: EntryQuery -> Result<seq<Entry>>,
                     selectAudio: AudioQuery -> Result<seq<AudioRow>>,
                     publicUrl: (string, string) -> Option<string>)
    returns (resp: Response, calls: seq<StoreCall>)
    ensures var domain := Trim(domainParam.GetOr(""));
            domain == "" ==> resp == Items([]) && calls == []
    ensures var domain := Trim(domainParam.GetOr(""));
            var intent := Trim(intentParam.GetOr(""));
            var q := Trim(qParam.GetOr(""));
            domain != "" ==>
              var (fetched, entryCalls) := FetchEntries(domain, intent, q, selectEntries);
              && (fetched.Err? ==> resp == Failure(500, fetched.message) && calls == entryCalls)
              && (fetched.Ok? && EntryIds(fetched.value) == [] ==>
                    resp == Items([]) && calls == entryCalls)
              && (fetched.Ok? && EntryIds(fetched.value) != [] ==>
                    var aq := AudioQuery(EntryIds(fetched.value), CreatedAtDescending);
                    && calls == entryCalls + [SelectAudio(aq)]
                    && (selectAudio(aq).Err? ==> resp == Failure(500, selectAudio(aq).message))
                    && (selectAudio(aq).Ok? ==>
                          resp == Items(Merge(fetched.value,
                                              FirstAudio(selectAudio(aq).value,
                                                         Bucket(bucketEnv), publicUrl)))))
  {
    var bucket := Bucket(bucketEnv);
    var domain := Trim(domainParam.GetOr(""));
    var intent := Trim(intentParam.GetOr(""));
    var q := Trim(qParam.GetOr(""));

    if domain == "" {
      return Items([]), [];
    }

    var (fetched, entryCalls) := FetchEntries(domain, intent, q, selectEntries);
    calls := entryCalls;
    if fetched.Err? {
      return Failure(500, fetched.message), calls;
    }
    var entries := fetched.value;

    var ids := EntryIds(entries);
    if ids == [] {
      return Items([]), calls;
    }

    var aq := AudioQuery(ids, CreatedAtDescending);
    calls := calls + [SelectAudio(aq)];
    var audioResult := selectAudio(aq);
    if audioResult.Err? {
      return Failure(500, audioResult.message), calls;
    }
    var audios := audioResult.value;

    var first := FirstAudioByEntry(audios, bucket, publicUrl);
    return Items(Merge(entries, first)), calls;
  }

  // ---- What the planned queries select ----

  /** A stored entry: the selected columns and the `intent` column the query filters on. */
  datatype StoredEntry = StoredEntry(entry: Entry, intent: Option<string>)

  /** Which stored rows an entries query selects, reading `.or(...)` as the disjunction of
      the two `ilike` tests (a null column matches nothing). */
  predicate Selects(query: EntryQuery, row: StoredEntry) {
    && row.entry.domain == query.domain
    && (query.intent.Some? ==> row.intent == query.intent)
    && (query.search.Some? ==>
          || (row.entry.sourceLemma.Some? && Like.RestILike(row.entry.sourceLemma.value, query.search.value))
          || (row.entry.translationPrimary.Some?
              && Like.RestILike(row.entry.translationPrimary.value, query.search.value)))
  }

  /** The first query selects the domain's entries, narrowed to the intent unless the intent
      is empty or "general", and to entries whose lemma or primary translation contains the
      search text (ignoring case) when there is one without a backslash or `*`. */
  lemma PrimaryQueryMeaning(domain: string, intent: string, q: string, row: StoredEntry)
    requires '\\' !in q && '*' !in q
    ensures Selects(PrimaryQuery(domain, intent, q), row) <==>
              && row.entry.domain == domain
              && (intent != "" && intent != "general" ==> row.intent == Some(intent))
              && (q != "" ==>
                    || (row.entry.sourceLemma.Some?
                        && Like.ContainsIgnoringCase(row.entry.sourceLemma.value, q))
                    || (row.entry.translationPrimary.Some?
                        && Like.ContainsIgnoringCase(row.entry.translationPrimary.value, q)))
  {
    if row.entry.sourceLemma.Some? {
      Like.PatternMeansSubstring(row.entry.sourceLemma.value, q);
    }
    if row.entry.translationPrimary.Some? {
      Like.PatternMeansSubstring(row.entry.translationPrimary.value, q);
    }
  }

  /** The fallback selects every entry of the domain, whatever its intent or text. */
  lemma FallbackQueryMeaning(domain: string, row: StoredEntry)
    ensures Selects(FallbackQuery(domain), row) <==> row.entry.domain == domain
  {
  }
}
