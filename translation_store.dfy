/**
 * The `smartling_translations` table as an object whose handlers update it
 * in place: the page upsert of `fetch_and_save_translations`, the
 * matching-string flagger, the status, flag and reason updates, and the
 * filtered listing. Each method is specified by the functions of the
 * `Translations` and `Listing` modules.
 */
module TranslationStore {
  import opened Common
  import opened Credentials
  import opened Translations
  import opened Listing

  /** The text of the IntegrityError an insert with a stored hashcode raises. */
  const UNIQUE_HASHCODE_ERROR := "UNIQUE constraint failed: smartling_translations.hashcode"

  /** What one page upsert does: count the items it saved, or raise. */
  datatype SaveResult = Saved(count: nat) | Raised(message: string)

  /** The flagger's answer: how many rows matched in which project, or the 400. */
  datatype FlagResult = Flagged(count: nat, projectId: string) | NoProjectId

  /** The answer of a review-field update: success, success with `updated`, or a 400 with its message. */
  datatype Reply = Success | Counted(updated: nat) | Rejected(message: string)

  const NO_PROJECT_ID := "No project_id found in database and none provided."
  const INVALID_STATUS := "Missing id or invalid status"
  const INVALID_IDS_LIST := "Missing or invalid ids list"
  const MISSING_IDS := "Missing ids"
  const MISSING_FLAG := "Missing id or flag"

  /**
   * The project the flagger works on: the query parameter when it is
   * truthy, otherwise the latest credentials row's project, if truthy.
   */
  function ChosenProject(projectId: Option<string>, keys: seq<KeysRow>): (p: Option<string>)
    ensures p.Some? ==> p.value != ""
    ensures p.None? <==> !Truthy(projectId) && !(keys != [] && Truthy(keys[|keys| - 1].projectId))
    ensures Truthy(projectId) ==> p == projectId
  {
    if Truthy(projectId) then projectId else LatestProjectId(keys)
  }

  /** The ids an update-reason body names: a scalar is wrapped into a one-element list. */
  function ReasonIds(ids: IdsField): (list: seq<int>)
    ensures ids.Scalar? ==> list == [ids.id]
    ensures ids.List? ==> list == ids.ids
    ensures !Falsy(ids) ==> list != []
  {
    match ids
    case Absent => []
    case Scalar(id) => [id]
    case List(l) => l
  }

  class TranslationTable {
    var rows: map<int, Row>
    var nextId: int

    ghost predicate Valid()
      reads this
    {
      WellFormed(Table(rows, nextId))
    }

    function State(): Table
      reads this
    {
      Table(rows, nextId)
    }

    constructor ()
      ensures Valid() && rows == map[] && nextId == 1
    {
      rows := map[];
      nextId := 1;
    }

    /**
     * One page of fetched items, upserted inside one transaction: either
     * every item is saved and the count is the number of items, or an
     * insert hits the hashcode constraint, the transaction rolls back and
     * the table is as it was. The transaction's writes are kept in `t` and
     * reach the table only at the commit.
     */
    method UpsertBatch(projectId: string, fileUri: string, locale: string, items: seq<FetchedItem>)
      returns (result: SaveResult)
      requires Valid()
      modifies this
      ensures Valid()
      ensures var spec := UpsertAll(old(State()), projectId, fileUri, locale, items);
              && (spec.None? ==> result == Raised(UNIQUE_HASHCODE_ERROR) && State() == old(State()))
              && (spec.Some? ==> result == Saved(|items|) && State() == spec.value)
    {
      var t := State();
      var saved := 0;
      for i := 0 to |items|
        invariant WellFormed(t) && saved == i
        invariant UpsertAll(old(State()), projectId, fileUri, locale, items[..i]) == Some(t)
        invariant rows == old(rows) && nextId == old(nextId)
      {
        var item := items[i];
        UpsertAllPrefix(old(State()), projectId, fileUri, locale, items, i);
        UpsertItemPreserves(t, projectId, fileUri, locale, item);
        if exists id :: id in t.rows && IsMatch(t.rows[id], projectId, locale, item.hashcode) {
          var id :| id in t.rows && IsMatch(t.rows[id], projectId, locale, item.hashcode);
          UpsertFound(t, projectId, fileUri, locale, item, id);
          t := Table(t.rows[id := RefreshRow(t.rows[id], item)], t.nextId);
        } else if HashTaken(t.rows, item.hashcode) {
          UpsertConflict(t, projectId, fileUri, locale, item);
          UpsertAllFailureSticks(old(State()), projectId, fileUri, locale, items, i + 1);
          return Raised(UNIQUE_HASHCODE_ERROR);
        } else {
          UpsertInserted(t, projectId, fileUri, locale, item);
          t := Table(t.rows[t.nextId := NewRow(projectId, fileUri, locale, item)], t.nextId + 1);
        }
        saved := saved + 1;
      }
      assert items[..|items|] == items;
      rows, nextId := t.rows, t.nextId;
      return Saved(saved);
    }

    /**
     * `flag_matching_strings`: with no project, 400 and no change;
     * otherwise flag every row of the project and locale whose two texts
     * match, and report how many matched.
     */
    method FlagMatchingStrings(keys: CredentialStore, projectId: Option<string>, locale: string)
      returns (result: FlagResult)
      modifies this
      ensures nextId == old(nextId)
      ensures var p := ChosenProject(projectId, keys.rows);
              && (p.None? ==> result == NoProjectId && rows == old(rows))
              && (p.Some? ==> && result == Flagged(|FlaggableIds(old(rows), p.value, locale)|, p.value)
                              && rows == FlagMatches(old(rows), p.value, locale))
    {
      var chosen := ChosenProject(projectId, keys.rows);
      if chosen.None? {
        return NoProjectId;
      }
      var flagged := FlagScope(chosen.value, locale);
      return Flagged(flagged, chosen.value);
    }

    /** The scan of one project and locale: flag the matching rows and count them. */
    method FlagScope(projectId: string, locale: string) returns (flagged: nat)
      modifies this
      ensures nextId == old(nextId)
      ensures rows == FlagMatches(old(rows), projectId, locale)
      ensures flagged == |FlaggableIds(old(rows), projectId, locale)|
    {
      ghost var start := rows;
      var todo := set id | id in rows && InScope(rows[id], projectId, locale);
      flagged := 0;
      while todo != {}
        invariant Scanned(rows, start, todo, projectId, locale) && nextId == old(nextId)
        invariant flagged == |FlaggableIds(start, projectId, locale) - todo|
        decreases todo
      {
        assert (forall x :: x !in todo) ==> todo == {};
        var id :| id in todo;
        ScanStep(rows, start, todo, projectId, locale, id);
        var row := rows[id];
        if TextsMatch(row) {
          rows := rows[id := row.(flag := 1)];
          flagged := flagged + 1;
        }
        todo := todo - {id};
      }
      ScanDone(rows, start, projectId, locale);
    }

    /** `smartling_toggle_status`: set one row's status to "pending" or "completed". */
    method ToggleStatus(id: Option<int>, status: Option<string>) returns (reply: Reply)
      modifies this
      ensures nextId == old(nextId)
      ensures id.None? || (status != Some(PENDING) && status != Some(COMPLETED)) ==>
                reply == Rejected(INVALID_STATUS) && rows == old(rows)
      ensures id.Some? && (status == Some(PENDING) || status == Some(COMPLETED)) ==>
                && reply == Success
                && rows == if id.value in old(rows) then old(rows)[id.value := old(rows)[id.value].(status := status.value)]
                           else old(rows)
    {
      if id.None? || (status != Some(PENDING) && status != Some(COMPLETED)) {
        return Rejected(INVALID_STATUS);
      }
      if id.value in rows {
        rows := rows[id.value := rows[id.value].(status := status.value)];
      }
      return Success;
    }

    /**
     * `smartling_bulk_complete`: a missing, empty or non-list `ids` is
     * rejected; otherwise every listed row that exists is completed and the
     * reply counts the ids given, duplicates and unknown ids included.
     */
    method BulkComplete(ids: IdsField) returns (reply: Reply)
      modifies this
      ensures nextId == old(nextId)
      ensures Falsy(ids) || !ids.List? ==> reply == Rejected(INVALID_IDS_LIST) && rows == old(rows)
      ensures !Falsy(ids) && ids.List? ==> reply == Counted(|ids.ids|) && rows == CompleteAll(old(rows), ids.ids)
    {
      if Falsy(ids) || !ids.List? {
        return Rejected(INVALID_IDS_LIST);
      }
      var list := ids.ids;
      ghost var start := rows;
      for k := 0 to |list|
        invariant rows == CompleteAll(start, list[..k]) && nextId == old(nextId)
      {
        CompleteAllStep(start, list, k);
        if list[k] in rows {
          rows := rows[list[k] := rows[list[k]].(status := COMPLETED)];
        }
      }
      assert list[..|list|] == list;
      return Counted(|list|);
    }

    /**
     * `smartling_update_reason`: a falsy `ids` is rejected; a single id is
     * treated as a one-element list; every listed row that exists gets the
     * reason (possibly null) and the reply counts the ids given.
     */
    method UpdateReason(ids: IdsField, reason: Option<string>) returns (reply: Reply)
      modifies this
      ensures nextId == old(nextId)
      ensures Falsy(ids) ==> reply == Rejected(MISSING_IDS) && rows == old(rows)
      ensures !Falsy(ids) ==>
                reply == Counted(|ReasonIds(ids)|) && rows == SetReasonAll(old(rows), ReasonIds(ids), reason)
    {
      if Falsy(ids) {
        return Rejected(MISSING_IDS);
      }
      var list := if ids.List? then ids.ids else [ids.id];
      ghost var start := rows;
      for k := 0 to |list|
        invariant rows == SetReasonAll(start, list[..k], reason) && nextId == old(nextId)
      {
        SetReasonAllStep(start, list, reason, k);
        if list[k] in rows {
          rows := rows[list[k] := rows[list[k]].(reason := reason)];
        }
      }
      assert list[..|list|] == list;
      return Counted(|list|);
    }

    /** `smartling_toggle_flag`: set one row's flag to the given value. */
    method ToggleFlag(id: Option<int>, flag: Option<int>) returns (reply: Reply)
      modifies this
      ensures nextId == old(nextId)
      ensures id.None? || flag.None? ==> reply == Rejected(MISSING_FLAG) && rows == old(rows)
      ensures id.Some? && flag.Some? ==>
                && reply == Success
                && rows == if id.value in old(rows) then old(rows)[id.value := old(rows)[id.value].(flag := flag.value)]
                           else old(rows)
    {
      if id.None? || flag.None? {
        return Rejected(MISSING_FLAG);
      }
      if id.value in rows {
        rows := rows[id.value := rows[id.value].(flag := flag.value)];
      }
      return Success;
    }

    /**
     * `get_smartling_translations_table`: `total` counts the rows the
     * filter selects, and the page holds the same rows in id order, from
     * position `(page - 1) * per_page` on and at most `per_page` of them.
     */
    method ListPage(q: ListQuery) returns (total: nat, page: seq<(int, Row)>)
      ensures total == |SelectedIds(rows, q)|
      ensures page == PageOf(rows, q)
    {
      var clauses := BuildFilter(q);
      var table := rows;
      var matching := set id | id in table && HoldsAll(clauses, table[id]);
      assert matching == SelectedIds(table, q);
      total := |matching|;
      var ordered := SortedIds(matching);
      var ids := Window(ordered, q.perPage, PageOffset(q.page, q.perPage));
      assert forall k :: 0 <= k < |ids| ==> ids[k] in ordered;
      page := RowsOf(table, ids);
    }
  }

  /** Once an item of a page fails, the whole page fails. */
  lemma {:induction false} UpsertAllFailureSticks(t: Table, projectId: string, fileUri: string, locale: string,
                                                  items: seq<FetchedItem>, k: nat)
    requires k <= |items|
    requires UpsertAll(t, projectId, fileUri, locale, items[..k]).None?
    ensures UpsertAll(t, projectId, fileUri, locale, items).None?
    decreases |items| - k
  {
    if k < |items| {
      assert items[..k + 1][..k] == items[..k];
      UpsertAllFailureSticks(t, projectId, fileUri, locale, items, k + 1);
    } else {
      assert items[..k] == items;
    }
  }

  /**
   * The flagger's loop state: the rows still to look at are in scope and
   * untouched, the others have been through `FlagRow`.
   */
  ghost predicate Scanned(rows: map<int, Row>, start: map<int, Row>, todo: set<int>, projectId: string, locale: string)
  {
    && todo <= start.Keys && rows.Keys == start.Keys
    && (forall id :: id in todo ==> InScope(start[id], projectId, locale))
    && (forall id :: id in rows ==> rows[id] == if id in todo then start[id] else FlagRow(start[id], projectId, locale))
  }

  lemma ScanStep(rows: map<int, Row>, start: map<int, Row>, todo: set<int>, projectId: string, locale: string, id: int)
    requires Scanned(rows, start, todo, projectId, locale) && id in todo
    ensures id in rows
    ensures TextsMatch(rows[id]) <==> id in FlaggableIds(start, projectId, locale)
    ensures var next := if TextsMatch(rows[id]) then rows[id := rows[id].(flag := 1)] else rows;
            Scanned(next, start, todo - {id}, projectId, locale)
    ensures var matching := FlaggableIds(start, projectId, locale);
            && (id in matching ==> |matching - (todo - {id})| == |matching - todo| + 1)
            && (id !in matching ==> |matching - (todo - {id})| == |matching - todo|)
  {
    var matching := FlaggableIds(start, projectId, locale);
    if id in matching {
      assert matching - (todo - {id}) == (matching - todo) + {id};
    } else {
      assert matching - (todo - {id}) == matching - todo;
    }
  }

  lemma ScanDone(rows: map<int, Row>, start: map<int, Row>, projectId: string, locale: string)
    requires Scanned(rows, start, {}, projectId, locale)
    ensures rows == FlagMatches(start, projectId, locale)
    ensures FlaggableIds(start, projectId, locale) - {} == FlaggableIds(start, projectId, locale)
  {
    FlagMatchesByRow(rows, start, projectId, locale);
  }
}
