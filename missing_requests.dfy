/** The missing-request counter of app/api/missing/route.ts: `POST` normalises the request's
    four key fields, rejects an empty query, upserts the row of that key and then sets its
    count to `(count || 1) + 1`.

    The `missing_requests` table is a class holding a map from the composite key to the row
    (the upsert's `onConflict` makes the key unique); its two methods are the two store
    operations the route issues. `Record` states the effect of one `POST` on the table as a
    value, for the lemmas that relate several calls. The clock is the parameter `now`,
    `freshCount` is the count a newly inserted row gets from the table's column default, and
    `upsertError` and `updateError` are the store's answers to the two calls: `None` when the
    call succeeds, otherwise the message of the error it returns. A failed call writes
    nothing, and the route turns its error into a 500. */
module MissingRequests {
  import opened Base

  /** The JSON body; `None` for a field that is missing or null, otherwise its string form. */
  datatype Body = Body(query: Option<string>, sourceLanguage: Option<string>,
                       targetLanguage: Option<string>, domain: Option<string>)

  /** The composite key `(query, source_language, target_language, domain)`. */
  datatype Key = Key(query: string, sourceLanguage: string, targetLanguage: string, domain: string)

  datatype Row = Row(id: nat, key: Key, count: Option<int>, lastSeenAt: string)

  datatype Response =
    | Recorded(item: Row)
    | Failure(status: int, message: string)

  /** `normStr`: never null, the empty string for a missing value, otherwise trimmed. */
  function NormStr(v: Option<string>): (r: string)
    ensures v.None? ==> r == ""
    ensures v.Some? ==> exists i :: StripsTo(v.value, r, i)
    ensures r == [] || (!IsSpace(r[0]) && !IsSpace(r[|r| - 1]))
  {
    if v.None? then "" else Trim(v.value)
  }

  /** The four fields of a key are free of surrounding whitespace. */
  predicate TrimmedKey(k: Key) {
    && (k.query == [] || (!IsSpace(k.query[0]) && !IsSpace(k.query[|k.query| - 1])))
    && (k.sourceLanguage == []
        || (!IsSpace(k.sourceLanguage[0]) && !IsSpace(k.sourceLanguage[|k.sourceLanguage| - 1])))
    && (k.targetLanguage == []
        || (!IsSpace(k.targetLanguage[0]) && !IsSpace(k.targetLanguage[|k.targetLanguage| - 1])))
    && (k.domain == [] || (!IsSpace(k.domain[0]) && !IsSpace(k.domain[|k.domain| - 1])))
  }

  /** The key the route upserts (lines 16-19): the query trimmed and lower-cased, the other
      fields trimmed, the target language "fr" when missing or empty. Its fields carry no
      surrounding whitespace and the query no capital letter, and the query is empty exactly
      when the body's query is missing or blank. */
  function NormalizeKey(b: Body): (k: Key)
    ensures TrimmedKey(k)
    ensures forall i :: 0 <= i < |k.query| ==> LowerChar(k.query[i]) == k.query[i]
    ensures k.query == "" <==> b.query.None? || Blank(b.query.value)
    ensures k.query == Lower(NormStr(b.query))
    ensures k.sourceLanguage == NormStr(b.sourceLanguage) && k.domain == NormStr(b.domain)
    ensures k.targetLanguage == NormStr(Some(Or(b.targetLanguage, "fr")))
  {
    var q := NormStr(b.query);
    LowerKeepsEnds(q);
    LowerIdempotent(q);
    QueryEmptyIffBlank(b.query);
    Key(Lower(q), NormStr(b.sourceLanguage), NormStr(Some(Or(b.targetLanguage, "fr"))),
        NormStr(b.domain))
  }

  /** All of the text is whitespace. */
  predicate Blank(s: string) {
    forall i :: 0 <= i < |s| ==> IsSpace(s[i])
  }

  /** The normalised query is empty exactly when the query is missing or blank. */
  lemma QueryEmptyIffBlank(v: Option<string>)
    ensures NormStr(v) == "" <==> v.None? || Blank(v.value)
  {
    if v.Some? {
      TrimEmptyIffBlank(v.value);
    }
  }

  /** Lower-casing keeps a text free of surrounding whitespace. */
  lemma LowerKeepsEnds(q: string)
    requires q == [] || (!IsSpace(q[0]) && !IsSpace(q[|q| - 1]))
    ensures var l := Lower(q); l == [] || (!IsSpace(l[0]) && !IsSpace(l[|l| - 1]))
  {
    if q != [] {
      LowerCharKeepsNonSpace(q[0]);
      LowerCharKeepsNonSpace(q[|q| - 1]);
    }
  }

  /** The target language defaults to "fr" only when it is missing or empty; a value made of
      whitespace is kept, and trims to the empty string. */
  lemma TargetLanguageDefault(b: Body)
    ensures b.targetLanguage.None? || b.targetLanguage == Some("") ==>
              NormalizeKey(b).targetLanguage == "fr"
    ensures b.targetLanguage.Some? && b.targetLanguage.value != ""
            && (forall k :: 0 <= k < |b.targetLanguage.value| ==> IsSpace(b.targetLanguage.value[k]))
            ==> NormalizeKey(b).targetLanguage == ""
  {
    TargetIsTrimmed(b);
    DefaultTarget(b.targetLanguage);
    BlankTarget(b.targetLanguage);
  }

  lemma TargetIsTrimmed(b: Body)
    ensures NormalizeKey(b).targetLanguage == Trim(Or(b.targetLanguage, "fr"))
  {
  }

  lemma DefaultTarget(t: Option<string>)
    ensures t.None? || t == Some("") ==> Trim(Or(t, "fr")) == "fr"
  {
    if t.None? || t == Some("") {
      TrimOfTrimmed("fr");
    }
  }

  lemma BlankTarget(t: Option<string>)
    ensures t.Some? && t.value != "" && (forall k :: 0 <= k < |t.value| ==> IsSpace(t.value[k]))
            ==> Trim(Or(t, "fr")) == ""
  {
    if t.Some? {
      TrimEmptyIffBlank(t.value);
    }
  }

  /** Whitespace around the query and its letter case do not matter: " Bonjour " and
      "bonjour" are the same request. */
  lemma PaddingAndCaseShareAKey(pad1: string, q: string, pad2: string, source: Option<string>,
                                target: Option<string>, domain: Option<string>)
    requires forall k :: 0 <= k < |pad1| ==> IsSpace(pad1[k])
    requires forall k :: 0 <= k < |pad2| ==> IsSpace(pad2[k])
    requires q == [] || (!IsSpace(q[0]) && !IsSpace(q[|q| - 1]))
    ensures NormalizeKey(Body(Some(pad1 + q + pad2), source, target, domain))
         == NormalizeKey(Body(Some(Lower(q)), source, target, domain))
  {
    TrimPadded(pad1, q, pad2);
    var lq := Lower(q);
    LowerKeepsEnds(q);
    TrimPadded([], lq, []);
    assert [] + lq + [] == lq;
    LowerIdempotent(q);
    assert NormStr(Some(pad1 + q + pad2)) == q;
    assert NormStr(Some(lq)) == lq;
  }

  /** `(row?.count || 1) + 1`: a missing or zero count counts as 1. */
  function Bumped(count: Option<int>): (r: int)
    ensures count.None? ==> r == 2
    ensures count.Some? ==> r > count.value
    ensures count.Some? && count.value >= 0 ==> r == (if count.value < 1 then 1 else count.value) + 1
  {
    (if count.None? || count.value == 0 then 1 else count.value) + 1
  }

  /** The table as a value. */
  datatype Table = Table(rows: map<Key, Row>, nextId: nat)

  /** Every row sits under its own key, ids are below the next id and no two rows share one. */
  predicate ValidTable(t: Table) {
    && (forall k :: k in t.rows ==> t.rows[k].key == k && t.rows[k].id < t.nextId)
    && (forall k1, k2 :: k1 in t.rows && k2 in t.rows && t.rows[k1].id == t.rows[k2].id ==> k1 == k2)
  }

  /** The upsert on the composite key: the existing row with `last_seen_at` set to `now`, or
      a new row with a fresh id and the default count. */
  function UpsertRow(t: Table, k: Key, now: string, freshCount: Option<int>): (Table, Row) {
    if k in t.rows then
      var row := t.rows[k].(lastSeenAt := now);
      (t.(rows := t.rows[k := row]), row)
    else
      var row := Row(t.nextId, k, freshCount, now);
      (Table(t.rows[k := row], t.nextId + 1), row)
  }

  /** `update({count, last_seen_at}).eq("id", id)`: every row with that id changes. */
  function SetCountWhereId(rows: map<Key, Row>, id: nat, count: int, now: string): map<Key, Row> {
    map k | k in rows :: if rows[k].id == id then rows[k].(count := Some(count), lastSeenAt := now)
                         else rows[k]
  }

  /** The effect of recording key `k` on the table, and the response. An empty query is
      refused with 400 and writes nothing. A failed upsert writes nothing and gives a 500 with
      its message. A failed update gives a 500 too, but the upsert before it has already
      written: the key's row exists, with the new last-seen time, and a new row keeps the
      default count. Otherwise only the row of the key changes: its key fields stay, its
      last-seen time becomes `now` and its count becomes the bump of the count it had (of the
      default, for a new row), so the count strictly grows. The table stays valid. */
  function RecordKey(t: Table, k: Key, now: string, freshCount: Option<int>,
                     upsertError: Option<string>, updateError: Option<string>): (r: (Table, Response))
    requires ValidTable(t)
    ensures ValidTable(r.0)
    ensures k.query == "" ==> r == (t, Failure(400, "query is required"))
    ensures k.query != "" && upsertError.Some? ==>
              r == (t, Failure(500, ErrorText(upsertError.value)))
    ensures k.query != "" && upsertError.None? && updateError.Some? ==>
              && r.1 == Failure(500, ErrorText(updateError.value))
              && r.0.rows == t.rows[k := if k in t.rows then t.rows[k].(lastSeenAt := now)
                                         else Row(t.nextId, k, freshCount, now)]
              && r.0.nextId == (if k in t.rows then t.nextId else t.nextId + 1)
    ensures k.query != "" && upsertError.None? && updateError.None? ==>
              var before := if k in t.rows then t.rows[k].count else freshCount;
              && r.1.Recorded?
              && r.1.item.key == k
              && r.1.item.count == Some(Bumped(before))
              && r.1.item.lastSeenAt == now
              && (k in t.rows ==> r.1.item.id == t.rows[k].id && r.0.nextId == t.nextId)
              && (k !in t.rows ==> r.1.item.id == t.nextId && r.0.nextId == t.nextId + 1)
              && r.0.rows == t.rows[k := r.1.item]
  {
    if k.query == "" then (t, Failure(400, "query is required"))
    else if upsertError.Some? then (t, Failure(500, ErrorText(upsertError.value)))
    else
      var (t1, row) := UpsertRow(t, k, now, freshCount);
      UpsertRowEffect(t, k, now, freshCount);
      if updateError.Some? then (t1, Failure(500, ErrorText(updateError.value)))
      else
        SetCountOnlyTouchesKey(t1, k, Bumped(row.count), now);
        var rows := SetCountWhereId(t1.rows, row.id, Bumped(row.count), now);
        (Table(rows, t1.nextId), Recorded(rows[k]))
  }

  /** The effect of one `POST` on the table, and its response: a 400 that writes nothing
      exactly when the body's query is missing or blank. */
  function Record(t: Table, b: Body, now: string, freshCount: Option<int>,
                  upsertError: Option<string>, updateError: Option<string>): (r: (Table, Response))
    requires ValidTable(t)
    ensures ValidTable(r.0)
    ensures r.1 == Failure(400, "query is required") <==> b.query.None? || Blank(b.query.value)
    ensures b.query.None? || Blank(b.query.value) ==> r.0 == t
  {
    RecordKey(t, NormalizeKey(b), now, freshCount, upsertError, updateError)
  }

  /** The upsert leaves the table valid and puts under `k` the row it returns: the old row
      with the new time, or a new row with the next id and the default count. */
  lemma UpsertRowEffect(t: Table, k: Key, now: string, freshCount: Option<int>)
    requires ValidTable(t)
    ensures var t1 := UpsertRow(t, k, now, freshCount).0;
            var row := UpsertRow(t, k, now, freshCount).1;
            && ValidTable(t1)
            && t1.rows == t.rows[k := row]
            && row.key == k && row.lastSeenAt == now
            && row.count == (if k in t.rows then t.rows[k].count else freshCount)
            && (k in t.rows ==> row.id == t.rows[k].id && t1.nextId == t.nextId)
            && (k !in t.rows ==> row.id == t.nextId && t1.nextId == t.nextId + 1)
  {
  }

  /** The update changes no key and no id, so the table stays valid. */
  lemma SetCountKeepsIds(t: Table, id: nat, count: int, now: string)
    ensures var rows := SetCountWhereId(t.rows, id, count, now);
            && rows.Keys == t.rows.Keys
            && (forall k :: k in rows ==> rows[k].id == t.rows[k].id && rows[k].key == t.rows[k].key)
            && (ValidTable(t) ==> ValidTable(Table(rows, t.nextId)))
  {
  }

  /** In a valid table, updating the id of the row under `k` changes that row only. */
  lemma SetCountOnlyTouchesKey(t: Table, k: Key, count: int, now: string)
    requires ValidTable(t) && k in t.rows
    ensures var rows := SetCountWhereId(t.rows, t.rows[k].id, count, now);
            && rows == t.rows[k := t.rows[k].(count := Some(count), lastSeenAt := now)]
            && ValidTable(Table(rows, t.nextId))
  {
    var rows := SetCountWhereId(t.rows, t.rows[k].id, count, now);
    forall k2 | k2 in t.rows && k2 != k ensures rows[k2] == t.rows[k2] {
      assert t.rows[k2].id != t.rows[k].id;
    }
  }

  /** Because the route upserts and then increments, the first recording of a key whose new
      row gets a count of 0, null or 1 already reports 2, and the second reports 3. */
  lemma FirstTwoRecordings(t: Table, k: Key, now1: string, now2: string, freshCount: Option<int>)
    requires ValidTable(t)
    requires k.query != "" && k !in t.rows
    requires freshCount == None || freshCount == Some(0) || freshCount == Some(1)
    ensures ValidTable(RecordKey(t, k, now1, freshCount, None, None).0)
    ensures RecordKey(t, k, now1, freshCount, None, None).1 == Recorded(Row(t.nextId, k, Some(2), now1))
    ensures RecordKey(RecordKey(t, k, now1, freshCount, None, None).0, k, now2, freshCount, None, None).1
            == Recorded(Row(t.nextId, k, Some(3), now2))
  {
    var t1 := RecordKey(t, k, now1, freshCount, None, None).0;
    assert k in t1.rows && t1.rows[k].count == Some(2);
  }

  /** When the update fails after the upsert inserted a new key, the caller gets a 500 but the
      row stays with the default count, so the next successful recording of that key reports
      2 again, under the id the failed request took. */
  lemma FailedUpdateLeavesRow(t: Table, k: Key, now1: string, now2: string,
                              freshCount: Option<int>, message: string)
    requires ValidTable(t)
    requires k.query != "" && k !in t.rows
    requires freshCount == None || freshCount == Some(0) || freshCount == Some(1)
    ensures RecordKey(t, k, now1, freshCount, None, Some(message)).1
            == Failure(500, ErrorText(message))
    ensures k in RecordKey(t, k, now1, freshCount, None, Some(message)).0.rows
    ensures RecordKey(RecordKey(t, k, now1, freshCount, None, Some(message)).0, k, now2, freshCount,
                      None, None).1
            == Recorded(Row(t.nextId, k, Some(2), now2))
  {
    var t1 := RecordKey(t, k, now1, freshCount, None, Some(message)).0;
    assert k in t1.rows && t1.rows[k] == Row(t.nextId, k, freshCount, now1);
  }

  /** Two requests that normalise to the same key share one row: recording both adds at most
      one row to the table, whether or not the store calls fail. */
  lemma SameKeyOneRow(t: Table, b1: Body, b2: Body, now1: string, now2: string,
                      freshCount: Option<int>, upsertError1: Option<string>,
                      updateError1: Option<string>, upsertError2: Option<string>,
                      updateError2: Option<string>)
    requires ValidTable(t)
    requires NormalizeKey(b1) == NormalizeKey(b2)
    ensures var t1 := Record(t, b1, now1, freshCount, upsertError1, updateError1).0;
            |Record(t1, b2, now2, freshCount, upsertError2, updateError2).0.rows| <= |t.rows| + 1
  {
    var k := NormalizeKey(b1);
    var t1 := RecordKey(t, k, now1, freshCount, upsertError1, updateError1).0;
    var t2 := RecordKey(t1, k, now2, freshCount, upsertError2, updateError2).0;
    assert Record(t, b1, now1, freshCount, upsertError1, updateError1).0 == t1;
    assert Record(t1, b2, now2, freshCount, upsertError2, updateError2).0 == t2;
    RecordKeyAddsOnlyKey(t, k, now1, freshCount, upsertError1, updateError1);
    RecordKeyAddsOnlyKey(t1, k, now2, freshCount, upsertError2, updateError2);
    assert t2.rows.Keys <= t.rows.Keys + {k};
    assert |t2.rows.Keys| <= |t.rows.Keys + {k}| by {
      SubsetCard(t2.rows.Keys, t.rows.Keys + {k});
    }
  }

  /** Recording a key adds no key other than that one. */
  lemma RecordKeyAddsOnlyKey(t: Table, k: Key, now: string, freshCount: Option<int>,
                             upsertError: Option<string>, updateError: Option<string>)
    requires ValidTable(t)
    ensures RecordKey(t, k, now, freshCount, upsertError, updateError).0.rows.Keys <= t.rows.Keys + {k}
  {
  }

  lemma SubsetCard<T>(a: set<T>, b: set<T>)
    requires a <= b
    ensures |a| <= |b|
  {
    assert b == a + (b - a);
  }

  /** The `missing_requests` table of the store. */
  class MissingRequestTable {
    var rows: map<Key, Row>
    var nextId: nat
    /** The count the column default gives a newly inserted row. */
    const freshCount: Option<int>

    ghost predicate Valid()
      reads this
    {
      ValidTable(Table(rows, nextId))
    }

    ghost function Contents(): Table
      reads this
    {
      Table(rows, nextId)
    }

    constructor (freshCount: Option<int>)
      ensures Valid() && rows == map[] && this.freshCount == freshCount
    {
      rows := map[];
      nextId := 0;
      this.freshCount := freshCount;
    }

    /** `upsert({query, source_language, target_language, domain, last_seen_at},
        {onConflict: "query,source_language,target_language,domain"}).select("*").single()`;
        when the store answers with an error, the table is unchanged and the error returned. */
    method Upsert(k: Key, now: string, error: Option<string>) returns (r: Result<Row>)
      requires Valid()
      modifies this
      ensures Valid()
      ensures error.Some? ==> r == Err(error.value) && rows == old(rows) && nextId == old(nextId)
      ensures error.None? ==> r.Ok? && (Contents(), r.value) == UpsertRow(old(Contents()), k, now, freshCount)
    {
      if error.Some? {
        return Err(error.value);
      }
      var row: Row;
      if k in rows {
        row := rows[k].(lastSeenAt := now);
        rows := rows[k := row];
      } else {
        row := Row(nextId, k, freshCount, now);
        rows := rows[k := row];
        nextId := nextId + 1;
      }
      r := Ok(row);
    }

    /** `update({count, last_seen_at}).eq("id", id).select("*").single()`: the updated row;
        `.single()` answers with an error when no row has that id. When the store answers
        with an error, the table is unchanged and the error returned. */
    method SetCount(id: nat, count: int, now: string, error: Option<string>) returns (r: Result<Row>)
      requires Valid()
      modifies this
      ensures Valid()
      ensures error.Some? ==> r == Err(error.value) && rows == old(rows) && nextId == old(nextId)
      ensures error.None? ==>
                && rows == SetCountWhereId(old(rows), id, count, now) && nextId == old(nextId)
                && (r.Ok? <==> exists k :: k in rows && rows[k].id == id)
                && (r.Ok? ==> r.value in rows.Values && r.value.id == id)
                && (r.Err? ==> r.message == NotASingleRow)
      ensures error.None? && (exists k :: k in old(rows) && old(rows)[k].id == id) ==> r.Ok?
    {
      if error.Some? {
        return Err(error.value);
      }
      SetCountKeepsIds(Table(rows, nextId), id, count, now);
      rows := SetCountWhereId(rows, id, count, now);
      if exists k :: k in rows && rows[k].id == id {
        var k :| k in rows && rows[k].id == id;
        r := Ok(rows[k]);
      } else {
        r := Err(NotASingleRow);
      }
    }
  }

  /** The store's error when `.single()` finds no row. */
  const NotASingleRow := "JSON object requested, multiple (or no) rows returned"

  /** The route's `POST` against the table, with the store's answers to its two calls. */
  method Post(table: MissingRequestTable, b: Body, now: string,
              upsertError: Option<string>, updateError: Option<string>) returns (resp: Response)
    requires table.Valid()
    modifies table
    ensures table.Valid()
    ensures (table.Contents(), resp)
            == Record(old(table.Contents()), b, now, table.freshCount, upsertError, updateError)
  {
    var query := Lower(NormStr(b.query));
    var sourceLanguage := NormStr(b.sourceLanguage);
    var targetLanguage := NormStr(Some(Or(b.targetLanguage, "fr")));
    var domain := NormStr(b.domain);

    if query == "" {
      return Failure(400, "query is required");
    }

    var k := Key(query, sourceLanguage, targetLanguage, domain);
    ghost var before := table.Contents();
    var upserted := table.Upsert(k, now, upsertError);
    if upserted.Err? {
      return Failure(500, ErrorText(upserted.message));
    }
    var row := upserted.value;
    UpsertRowEffect(before, k, now, table.freshCount);
    assert k in table.rows && table.rows[k].id == row.id;
    var updated := table.SetCount(row.id, Bumped(row.count), now, updateError);
    if updated.Err? {
      return Failure(500, ErrorText(updated.message));
    }
    SetCountOnlyTouchesKey(UpsertRow(before, k, now, table.freshCount).0, k, Bumped(row.count), now);
    assert k in table.rows && table.rows[k].id == row.id;
    assert updated.value == table.rows[k];
    resp := Recorded(updated.value);
  }
}
