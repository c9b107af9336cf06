/**
 * The `smartling_translations` table (backend/main.py:61-72) as values, and
 * what the handlers that write it do, as functions: the upsert of one page
 * of fetched items, the matching-string flagger and the review-field
 * updates. The class that performs them step by step is in
 * translation_store.dfy.
 */
module Translations {
  import opened Common

  const PENDING := "pending"
  const COMPLETED := "completed"

  /** One row; nullable columns are `Option`s. `flag` only ever holds integers. */
  datatype Row = Row(
    projectId: string,
    fileUri: string,
    locale: string,
    parsed: Option<string>,          // `parsed_string_text`
    translation: Option<string>,
    status: string,
    confidence: Option<real>,
    reason: Option<string>,
    flag: int,
    hashcode: Option<string>)

  /** The table: rows by id, and the id AUTOINCREMENT hands out next. */
  datatype Table = Table(rows: map<int, Row>, nextId: int)

  /** One element of an item's `translations` list: with or without a `"translation"` key. */
  datatype TranslationEntry = WithTranslation(text: Option<string>) | WithoutTranslation

  /** One item of a page of the translations API. */
  datatype FetchedItem = FetchedItem(parsed: Option<string>, translations: seq<TranslationEntry>,
                                     hashcode: Option<string>)

  /**
   * The text stored for an item: the first entry's `"translation"` when the
   * list is non-empty and that entry has the key, and NULL otherwise.
   */
  function ItemTranslation(item: FetchedItem): (t: Option<string>)
    ensures t.Some? ==> item.translations != [] && item.translations[0] == WithTranslation(t)
    ensures item.translations != [] && item.translations[0].WithTranslation? ==> t == item.translations[0].text
    ensures item.translations == [] || item.translations[0].WithoutTranslation? ==> t == None
  {
    if item.translations != [] && item.translations[0].WithTranslation? then item.translations[0].text else None
  }

  /** The `hashcode TEXT UNIQUE` constraint: no two rows share a non-NULL hashcode. */
  predicate HashcodesUnique(rows: map<int, Row>)
  {
    forall i, j :: i in rows && j in rows && rows[i].hashcode.Some? && rows[i].hashcode == rows[j].hashcode ==> i == j
  }

  /** Ids are positive and below the next one to be handed out, and the constraint holds. */
  predicate WellFormed(t: Table)
  {
    && t.nextId >= 1
    && (forall id :: id in t.rows ==> 0 < id < t.nextId)
    && HashcodesUnique(t.rows)
  }

  /** `project_id=? AND locale=? AND hashcode=?`; a NULL hashcode matches nothing. */
  predicate IsMatch(r: Row, projectId: string, locale: string, hashcode: Option<string>)
  {
    hashcode.Some? && r.projectId == projectId && r.locale == locale && r.hashcode == hashcode
  }

  /** The row the upsert's SELECT finds, if any. */
  ghost function Existing(rows: map<int, Row>, projectId: string, locale: string, hashcode: Option<string>)
    : (r: Option<int>)
    ensures r.Some? ==> r.value in rows && IsMatch(rows[r.value], projectId, locale, hashcode)
    ensures r.None? ==> forall id :: id in rows ==> !IsMatch(rows[id], projectId, locale, hashcode)
  {
    if exists id :: id in rows && IsMatch(rows[id], projectId, locale, hashcode) then
      var id :| id in rows && IsMatch(rows[id], projectId, locale, hashcode);
      Some(id)
    else None
  }

  /** Some row, in any project or locale, already holds this non-NULL hashcode. */
  predicate HashTaken(rows: map<int, Row>, hashcode: Option<string>)
  {
    hashcode.Some? && exists id :: id in rows && rows[id].hashcode == hashcode
  }

  /** The row the upsert inserts for an item with no stored counterpart. */
  function NewRow(projectId: string, fileUri: string, locale: string, item: FetchedItem): Row
  {
    Row(projectId, fileUri, locale, item.parsed, ItemTranslation(item), PENDING, None, None, 0, item.hashcode)
  }

  /**
   * The stored row with the item's texts: the status goes back to pending
   * only when the translation changed.
   */
  function RefreshRow(cur: Row, item: FetchedItem): Row
  {
    var translation := ItemTranslation(item);
    var status := if cur.translation != translation then PENDING else cur.status;
    cur.(parsed := item.parsed, translation := translation, status := status)
  }

  /**
   * One item of the upsert: refresh the stored row's texts, or insert a
   * new row; `None` when the insert violates the hashcode constraint.
   */
  ghost function UpsertItem(t: Table, projectId: string, fileUri: string, locale: string, item: FetchedItem)
    : Option<Table>
  {
    match Existing(t.rows, projectId, locale, item.hashcode)
    case Some(id) => Some(Table(t.rows[id := RefreshRow(t.rows[id], item)], t.nextId))
    case None =>
      if HashTaken(t.rows, item.hashcode) then None
      else Some(Table(t.rows[t.nextId := NewRow(projectId, fileUri, locale, item)], t.nextId + 1))
  }

  /** The items of one page upserted in order; `None` when one of them fails. */
  ghost function UpsertAll(t: Table, projectId: string, fileUri: string, locale: string, items: seq<FetchedItem>)
    : Option<Table>
  {
    if items == [] then Some(t)
    else
      match UpsertAll(t, projectId, fileUri, locale, items[..|items| - 1])
      case None => None
      case Some(t1) => UpsertItem(t1, projectId, fileUri, locale, items[|items| - 1])
  }

  /** The upsert of the first `i + 1` items is the upsert of the first `i` followed by item `i`. */
  lemma UpsertAllPrefix(t: Table, projectId: string, fileUri: string, locale: string, items: seq<FetchedItem>, i: nat)
    requires i < |items|
    ensures UpsertAll(t, projectId, fileUri, locale, items[..i + 1])
            == match UpsertAll(t, projectId, fileUri, locale, items[..i])
               case None => None
               case Some(t1) => UpsertItem(t1, projectId, fileUri, locale, items[i])
  {
    assert items[..i + 1][..i] == items[..i];
  }

  /** The columns a resync must never touch: the review data and the row's identity. */
  predicate KeepsReviewData(before: Row, after: Row)
  {
    && after.confidence == before.confidence && after.reason == before.reason && after.flag == before.flag
    && after.fileUri == before.fileUri && after.projectId == before.projectId && after.locale == before.locale
    && after.hashcode == before.hashcode
  }

  /**
   * An item whose (project, locale, hashcode) row exists overwrites that
   * row's parsed text and translation, resets its status to pending exactly
   * when the stored translation differs, keeps everything else, and touches
   * no other row.
   */
  lemma UpsertExistingRow(t: Table, projectId: string, fileUri: string, locale: string, item: FetchedItem, id: int)
    requires WellFormed(t) && id in t.rows && IsMatch(t.rows[id], projectId, locale, item.hashcode)
    ensures var r := UpsertItem(t, projectId, fileUri, locale, item);
            && r.Some? && r.value.nextId == t.nextId && r.value.rows.Keys == t.rows.Keys
            && (var cur := t.rows[id];
                var now := r.value.rows[id];
                && now.parsed == item.parsed && now.translation == ItemTranslation(item)
                && (cur.translation != ItemTranslation(item) ==> now.status == PENDING)
                && (cur.translation == ItemTranslation(item) ==> now.status == cur.status)
                && KeepsReviewData(cur, now))
            && forall other :: other in t.rows && other != id ==> r.value.rows[other] == t.rows[other]
  {
    var found := Existing(t.rows, projectId, locale, item.hashcode);
    assert found.Some?;
    assert found.value == id;
  }

  /** The step of the upsert loop when the SELECT found row `id`: the constraint makes it the only match. */
  lemma UpsertFound(t: Table, projectId: string, fileUri: string, locale: string, item: FetchedItem, id: int)
    requires WellFormed(t) && id in t.rows && IsMatch(t.rows[id], projectId, locale, item.hashcode)
    ensures UpsertItem(t, projectId, fileUri, locale, item)
            == Some(Table(t.rows[id := RefreshRow(t.rows[id], item)], t.nextId))
  {
    assert Existing(t.rows, projectId, locale, item.hashcode) == Some(id);
  }

  /** The step of the upsert loop when nothing matched and the hashcode is free: insert at `nextId`. */
  lemma UpsertInserted(t: Table, projectId: string, fileUri: string, locale: string, item: FetchedItem)
    requires forall id :: id in t.rows ==> !IsMatch(t.rows[id], projectId, locale, item.hashcode)
    requires !HashTaken(t.rows, item.hashcode)
    ensures UpsertItem(t, projectId, fileUri, locale, item)
            == Some(Table(t.rows[t.nextId := NewRow(projectId, fileUri, locale, item)], t.nextId + 1))
  {
    assert Existing(t.rows, projectId, locale, item.hashcode).None?;
  }

  /**
   * An item with no stored counterpart and a hashcode no row holds inserts
   * exactly one pending row, with no confidence or reason and flag 0, under
   * a fresh id; no other row changes.
   */
  lemma UpsertNewRow(t: Table, projectId: string, fileUri: string, locale: string, item: FetchedItem)
    requires WellFormed(t)
    requires forall id :: id in t.rows ==> !IsMatch(t.rows[id], projectId, locale, item.hashcode)
    requires !HashTaken(t.rows, item.hashcode)
    ensures var r := UpsertItem(t, projectId, fileUri, locale, item);
            && r.Some? && t.nextId !in t.rows
            && r.value.rows == t.rows[t.nextId := r.value.rows[t.nextId]]
            && r.value.nextId == t.nextId + 1
            && var row := r.value.rows[t.nextId];
               && row.status == PENDING && row.confidence.None? && row.reason.None? && row.flag == 0
               && row.projectId == projectId && row.fileUri == fileUri && row.locale == locale
               && row.parsed == item.parsed && row.translation == ItemTranslation(item)
               && row.hashcode == item.hashcode
  {
    assert Existing(t.rows, projectId, locale, item.hashcode).None?;
  }

  /**
   * An item with no counterpart in its own project and locale whose
   * hashcode is stored elsewhere makes the insert fail: the hashcode
   * constraint is global while the lookup is per project and locale.
   */
  lemma UpsertConflict(t: Table, projectId: string, fileUri: string, locale: string, item: FetchedItem)
    requires forall id :: id in t.rows ==> !IsMatch(t.rows[id], projectId, locale, item.hashcode)
    requires HashTaken(t.rows, item.hashcode)
    ensures UpsertItem(t, projectId, fileUri, locale, item).None?
    ensures exists id :: id in t.rows && t.rows[id].hashcode == item.hashcode
                         && (t.rows[id].projectId != projectId || t.rows[id].locale != locale)
  {
    assert Existing(t.rows, projectId, locale, item.hashcode).None?;
    var id :| id in t.rows && t.rows[id].hashcode == item.hashcode;
    assert !IsMatch(t.rows[id], projectId, locale, item.hashcode);
  }

  /** A successful upsert keeps the table well formed and never removes or relabels a row. */
  lemma UpsertItemPreserves(t: Table, projectId: string, fileUri: string, locale: string, item: FetchedItem)
    requires WellFormed(t)
    ensures var r := UpsertItem(t, projectId, fileUri, locale, item);
            r.Some? ==>
              && WellFormed(r.value) && t.rows.Keys <= r.value.rows.Keys && t.nextId <= r.value.nextId
              && |r.value.rows.Keys - t.rows.Keys| <= 1
              && forall id :: id in t.rows ==>
                   && KeepsReviewData(t.rows[id], r.value.rows[id])
                   && (r.value.rows[id].status == t.rows[id].status || r.value.rows[id].status == PENDING)
  {
    var r := UpsertItem(t, projectId, fileUri, locale, item);
    if r.Some? {
      match Existing(t.rows, projectId, locale, item.hashcode)
      case Some(id) =>
        assert r.value.rows.Keys == t.rows.Keys;
      case None =>
        assert !HashTaken(t.rows, item.hashcode);
        assert r.value.rows.Keys - t.rows.Keys == {t.nextId};
    }
  }

  /**
   * A page upsert that succeeds never erases review data: every row that
   * existed keeps its confidence, reason, flag, file, project, locale and
   * hashcode, its status is either kept or reset to pending, and at most
   * one row per item is added.
   */
  lemma {:induction false} UpsertAllKeepsReviewData(t: Table, projectId: string, fileUri: string, locale: string,
                                                    items: seq<FetchedItem>)
    requires WellFormed(t)
    ensures var r := UpsertAll(t, projectId, fileUri, locale, items);
            r.Some? ==>
              && WellFormed(r.value) && t.rows.Keys <= r.value.rows.Keys
              && |r.value.rows.Keys - t.rows.Keys| <= |items|
              && forall id :: id in t.rows ==>
                   && KeepsReviewData(t.rows[id], r.value.rows[id])
                   && (r.value.rows[id].status == t.rows[id].status || r.value.rows[id].status == PENDING)
  {
    if items != [] {
      var front := items[..|items| - 1];
      UpsertAllKeepsReviewData(t, projectId, fileUri, locale, front);
      var r1 := UpsertAll(t, projectId, fileUri, locale, front);
      if r1.Some? {
        UpsertItemPreserves(r1.value, projectId, fileUri, locale, items[|items| - 1]);
        var r := UpsertAll(t, projectId, fileUri, locale, items);
        if r.Some? {
          var a, b, c := t.rows.Keys, r1.value.rows.Keys, r.value.rows.Keys;
          assert c - a <= (b - a) + (c - b);
          SubsetCard(c - a, (b - a) + (c - b));
        }
      }
    }
  }

  lemma SubsetCard<X>(a: set<X>, b: set<X>)
    requires a <= b
    ensures |a| <= |b|
  {
    assert b == a + (b - a);
  }

  /** The flagger's scope: `project_id=? AND locale=?`. */
  predicate InScope(r: Row, projectId: string, locale: string)
  {
    r.projectId == projectId && r.locale == locale
  }

  /** Both texts are non-empty and equal after `strip().lower()`. */
  predicate TextsMatch(r: Row)
  {
    Truthy(r.parsed) && Truthy(r.translation) && Normalise(r.parsed.value) == Normalise(r.translation.value)
  }

  predicate Flaggable(r: Row, projectId: string, locale: string)
  {
    InScope(r, projectId, locale) && TextsMatch(r)
  }

  /** One row after the flagger has looked at it. */
  function FlagRow(r: Row, projectId: string, locale: string): Row
  {
    if Flaggable(r, projectId, locale) then r.(flag := 1) else r
  }

  /** The table after the flagger has run over one project and locale. */
  function FlagMatches(rows: map<int, Row>, projectId: string, locale: string): (r: map<int, Row>)
    ensures r.Keys == rows.Keys
    ensures forall id :: id in rows && Flaggable(rows[id], projectId, locale) ==> r[id] == rows[id].(flag := 1)
    ensures forall id :: id in rows && !Flaggable(rows[id], projectId, locale) ==> r[id] == rows[id]
  {
    map id | id in rows :: FlagRow(rows[id], projectId, locale)
  }

  /** A table whose every row is the flagged version of the corresponding row is the flagged table. */
  lemma FlagMatchesByRow(flagged: map<int, Row>, rows: map<int, Row>, projectId: string, locale: string)
    requires flagged.Keys == rows.Keys
    requires forall id :: id in rows ==> flagged[id] == FlagRow(rows[id], projectId, locale)
    ensures flagged == FlagMatches(rows, projectId, locale)
  {
    var f := FlagMatches(rows, projectId, locale);
    forall id | id in rows
      ensures flagged[id] == f[id]
    {
      if Flaggable(rows[id], projectId, locale) {
        assert f[id] == rows[id].(flag := 1);
      }
    }
  }

  /** The ids of the rows the flagger flags. */
  function FlaggableIds(rows: map<int, Row>, projectId: string, locale: string): (ids: set<int>)
    ensures forall id :: id in ids <==> id in rows && Flaggable(rows[id], projectId, locale)
  {
    set id | id in rows && Flaggable(rows[id], projectId, locale)
  }

  /** Flags are only ever raised to 1: a row flagged before is flagged after. */
  lemma FlagNeverClears(rows: map<int, Row>, projectId: string, locale: string, id: int)
    requires id in rows
    ensures rows[id].flag != 0 ==> FlagMatches(rows, projectId, locale)[id].flag != 0
    ensures rows[id].flag == 1 ==> FlagMatches(rows, projectId, locale)[id].flag == 1
  {
  }

  /** Running the flagger twice gives the same table and the same count as running it once. */
  lemma FlagIdempotent(rows: map<int, Row>, projectId: string, locale: string)
    ensures var once := FlagMatches(rows, projectId, locale);
            FlagMatches(once, projectId, locale) == once
            && FlaggableIds(once, projectId, locale) == FlaggableIds(rows, projectId, locale)
  {
    var once := FlagMatches(rows, projectId, locale);
    forall id | id in once
      ensures Flaggable(once[id], projectId, locale) == Flaggable(rows[id], projectId, locale)
    {
      assert once[id] == rows[id].(flag := once[id].flag);
    }
  }

  /** The `ids` value of a JSON body: missing or null, one integer, or a list of integers. */
  datatype IdsField = Absent | Scalar(id: int) | List(ids: seq<int>)

  /** Python's `not ids`: None, 0 and the empty list are falsy. */
  predicate Falsy(ids: IdsField)
  {
    ids.Absent? || ids == Scalar(0) || ids == List([])
  }

  /** `executemany("UPDATE ... SET status='completed' WHERE id=?")`: listed ids that exist are completed. */
  function CompleteAll(rows: map<int, Row>, ids: seq<int>): (r: map<int, Row>)
    ensures r.Keys == rows.Keys
    ensures forall id :: id in rows && id in ids ==> r[id] == rows[id].(status := COMPLETED)
    ensures forall id :: id in rows && id !in ids ==> r[id] == rows[id]
  {
    map id | id in rows :: if id in ids then rows[id].(status := COMPLETED) else rows[id]
  }

  /** `executemany("UPDATE ... SET reason=? WHERE id=?")`. */
  function SetReasonAll(rows: map<int, Row>, ids: seq<int>, reason: Option<string>): (r: map<int, Row>)
    ensures r.Keys == rows.Keys
    ensures forall id :: id in rows && id in ids ==> r[id] == rows[id].(reason := reason)
    ensures forall id :: id in rows && id !in ids ==> r[id] == rows[id]
  {
    map id | id in rows :: if id in ids then rows[id].(reason := reason) else rows[id]
  }

  /** Bulk-completing the same ids twice gives the table completing them once gives. */
  lemma CompleteAllIdempotent(rows: map<int, Row>, ids: seq<int>)
    ensures CompleteAll(CompleteAll(rows, ids), ids) == CompleteAll(rows, ids)
  {
  }

  /** Only the last reason written to a row survives. */
  lemma SetReasonOverwrites(rows: map<int, Row>, ids: seq<int>, first: Option<string>, second: Option<string>)
    ensures SetReasonAll(SetReasonAll(rows, ids, first), ids, second) == SetReasonAll(rows, ids, second)
  {
  }

  /** Updating the ids one prefix at a time: the step a loop over `ids` takes. */
  lemma CompleteAllStep(rows: map<int, Row>, ids: seq<int>, k: nat)
    requires k < |ids|
    ensures var before := CompleteAll(rows, ids[..k]);
            CompleteAll(rows, ids[..k + 1])
            == if ids[k] in before then before[ids[k] := before[ids[k]].(status := COMPLETED)] else before
  {
    assert ids[..k + 1] == ids[..k] + [ids[k]];
  }

  lemma SetReasonAllStep(rows: map<int, Row>, ids: seq<int>, reason: Option<string>, k: nat)
    requires k < |ids|
    ensures var before := SetReasonAll(rows, ids[..k], reason);
            SetReasonAll(rows, ids[..k + 1], reason)
            == if ids[k] in before then before[ids[k] := before[ids[k]].(reason := reason)] else before
  {
    assert ids[..k + 1] == ids[..k] + [ids[k]];
  }
}
