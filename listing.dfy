/**
 * The filter and the page of `get_smartling_translations_table`
 * (backend/main.py:673-724): a WHERE clause built by appending conditions,
 * used once for the `COUNT(*)` and once for the page, and SQLite's
 * `ORDER BY id LIMIT ? OFFSET ?`.
 */
module Listing {
  import opened Common
  import opened Translations

  /** The query parameters of the listing endpoint. */
  datatype ListQuery = ListQuery(
    projectId: string,
    locale: string,
    page: int,
    perPage: int,
    flag: Option<int>,
    status: Option<string>,
    searchType: Option<string>,
    searchText: Option<string>)

  /** One `AND` condition of the WHERE clause, with its bound parameter. */
  datatype Clause =
    | ProjectIs(projectId: string)
    | LocaleIs(locale: string)
    | FlagIs(flag: int)
    | StatusIs(status: string)
    | ParsedLike(pattern: string)
    | TranslationLike(pattern: string)

  /**
   * `column LIKE '%text%'`: SQLite's LIKE is case-insensitive for ASCII
   * letters, and a NULL column matches nothing.
   */
  predicate Like(column: Option<string>, text: string)
  {
    column.Some? && Contains(Lower(column.value), Lower(text))
  }

  predicate Holds(c: Clause, r: Row)
  {
    match c
    case ProjectIs(p) => r.projectId == p
    case LocaleIs(l) => r.locale == l
    case FlagIs(f) => r.flag == f
    case StatusIs(s) => r.status == s
    case ParsedLike(t) => Like(r.parsed, t)
    case TranslationLike(t) => Like(r.translation, t)
  }

  predicate HoldsAll(clauses: seq<Clause>, r: Row)
  {
    forall k :: 0 <= k < |clauses| ==> Holds(clauses[k], r)
  }

  /**
   * Which rows the listing is about: the project and locale, the flag when
   * one is given, the status only when it is "completed" or "pending", and
   * the search only when both its type and its text are truthy (an
   * unknown type adds no condition).
   */
  predicate Selected(q: ListQuery, r: Row)
  {
    && r.projectId == q.projectId && r.locale == q.locale
    && (q.flag.Some? ==> r.flag == q.flag.value)
    && (q.status == Some(COMPLETED) || q.status == Some(PENDING) ==> r.status == q.status.value)
    && (Truthy(q.searchType) && Truthy(q.searchText) ==>
          && (q.searchType.value == "source" ==> Like(r.parsed, q.searchText.value))
          && (q.searchType.value == "translation" ==> Like(r.translation, q.searchText.value)))
  }

  /** The WHERE clause, built by appending one condition at a time as the handler does. */
  method BuildFilter(q: ListQuery) returns (clauses: seq<Clause>)
    ensures forall r :: HoldsAll(clauses, r) <==> Selected(q, r)
  {
    clauses := [ProjectIs(q.projectId), LocaleIs(q.locale)];
    if q.flag.Some? {
      clauses := clauses + [FlagIs(q.flag.value)];
    }
    if q.status == Some(COMPLETED) || q.status == Some(PENDING) {
      clauses := clauses + [StatusIs(q.status.value)];
    }
    if Truthy(q.searchType) && Truthy(q.searchText) {
      if q.searchType.value == "source" {
        clauses := clauses + [ParsedLike(q.searchText.value)];
      } else if q.searchType.value == "translation" {
        clauses := clauses + [TranslationLike(q.searchText.value)];
      }
    }
    forall r ensures HoldsAll(clauses, r) <==> Selected(q, r) {
      if Selected(q, r) {
        assert forall k :: 0 <= k < |clauses| ==> Holds(clauses[k], r);
      } else {
        FirstFailing(q, clauses, r);
      }
    }
  }

  /** A row the query does not select fails one of the clauses the handler appends. */
  lemma FirstFailing(q: ListQuery, clauses: seq<Clause>, r: Row)
    requires !Selected(q, r)
    requires |clauses| >= 2 && clauses[0] == ProjectIs(q.projectId) && clauses[1] == LocaleIs(q.locale)
    requires q.flag.Some? ==> FlagIs(q.flag.value) in clauses
    requires q.status == Some(COMPLETED) || q.status == Some(PENDING) ==> StatusIs(q.status.value) in clauses
    requires Truthy(q.searchType) && Truthy(q.searchText) && q.searchType.value == "source" ==>
               ParsedLike(q.searchText.value) in clauses
    requires Truthy(q.searchType) && Truthy(q.searchText) && q.searchType.value == "translation" ==>
               TranslationLike(q.searchText.value) in clauses
    ensures !HoldsAll(clauses, r)
  {
  }

  /** The ids of the rows the query selects. */
  function SelectedIds(rows: map<int, Row>, q: ListQuery): (ids: set<int>)
    ensures forall id :: id in ids <==> id in rows && Selected(q, rows[id])
  {
    set id | id in rows && Selected(q, rows[id])
  }

  /** Every non-empty finite set of integers has a least element. */
  lemma {:induction false} MinExists(s: set<int>)
    requires s != {}
    ensures exists m :: m in s && forall x :: x in s ==> m <= x
    decreases |s|
  {
    var y := PickOne(s);
    if s != {y} {
      MinExists(s - {y});
      var m :| m in s - {y} && forall x :: x in s - {y} ==> m <= x;
      var least := if y < m then y else m;
      forall x | x in s ensures least <= x {
        if x != y { assert x in s - {y}; }
      }
    } else {
      forall x | x in s ensures y <= x {
        assert x in {y};
      }
    }
  }

  ghost function PickOne(s: set<int>): (y: int)
    requires s != {}
    ensures y in s
  {
    assert (forall x :: x !in s) ==> s == {};
    var y :| y in s; y
  }

  function MinOf(s: set<int>): (m: int)
    requires s != {}
    ensures m in s && forall x :: x in s ==> m <= x
  {
    MinExists(s);
    var m :| m in s && forall x :: x in s ==> m <= x;
    m
  }

  predicate StrictlyIncreasing(ids: seq<int>)
  {
    forall i, j :: 0 <= i < j < |ids| ==> ids[i] < ids[j]
  }

  /** `ORDER BY id`: the set's elements in increasing order, each once. */
  function SortedIds(s: set<int>): (ids: seq<int>)
    ensures StrictlyIncreasing(ids) && |ids| == |s|
    ensures forall x :: x in s <==> x in ids
    decreases |s|
  {
    if s == {} then []
    else
      var m := MinOf(s);
      var rest := SortedIds(s - {m});
      [m] + rest
  }

  /** SQLite's starting position for `OFFSET o`: a negative offset counts as 0. */
  function Start(length: nat, offset: int): (start: nat)
    ensures start <= length
    ensures 0 <= offset <= length ==> start == offset
    ensures offset < 0 ==> start == 0
    ensures offset > length ==> start == length
  {
    if offset < 0 then 0 else if offset > length then length else offset
  }

  /**
   * `LIMIT limit OFFSET offset` on an ordered result: the elements from the
   * offset on, at most `limit` of them; a negative limit means no limit.
   */
  function Window<X>(s: seq<X>, limit: int, offset: int): (w: seq<X>)
    ensures var start := Start(|s|, offset);
            && start + |w| <= |s| && w == s[start..start + |w|]
            && (limit < 0 ==> |w| == |s| - start)
            && (limit >= 0 ==> |w| == if limit < |s| - start then limit else |s| - start)
  {
    var start := Start(|s|, offset);
    if limit < 0 || limit >= |s| - start then s[start..] else s[start..start + limit]
  }

  /**
   * The page the listing returns: the selected rows in id order, from
   * position `(page - 1) * per_page` on and at most `per_page` of them.
   */
  function PageOf(rows: map<int, Row>, q: ListQuery): (page: seq<(int, Row)>)
  {
    var ordered := SortedIds(SelectedIds(rows, q));
    var ids := Window(ordered, q.perPage, PageOffset(q.page, q.perPage));
    assert forall k :: 0 <= k < |ids| ==> ids[k] in ordered;
    RowsOf(rows, ids)
  }

  /**
   * The page is the run of the ordered selected ids from the page's offset,
   * `per_page` long or up to the end (all of it for a negative `per_page`).
   */
  lemma PageOfPosition(rows: map<int, Row>, q: ListQuery)
    ensures var page := PageOf(rows, q);
            var ordered := SortedIds(SelectedIds(rows, q));
            var start := Start(|ordered|, PageOffset(q.page, q.perPage));
            && start + |page| <= |ordered|
            && (forall k :: 0 <= k < |page| ==> page[k].0 == ordered[start + k])
            && (q.perPage >= 0 ==> |page| == if q.perPage < |ordered| - start then q.perPage else |ordered| - start)
            && (q.perPage < 0 ==> |page| == |ordered| - start)
  {
    var ordered := SortedIds(SelectedIds(rows, q));
    var ids := Window(ordered, q.perPage, PageOffset(q.page, q.perPage));
    assert forall k :: 0 <= k < |ids| ==> ids[k] in ordered;
    assert PageOf(rows, q) == RowsOf(rows, ids);
  }

  /** Every entry of the page is a stored row, under its own id, that the filter selects. */
  lemma PageOfSelected(rows: map<int, Row>, q: ListQuery)
    ensures var page := PageOf(rows, q);
            forall k :: 0 <= k < |page| ==> page[k].0 in rows && page[k].1 == rows[page[k].0] && Selected(q, page[k].1)
  {
    var ordered := SortedIds(SelectedIds(rows, q));
    var ids := Window(ordered, q.perPage, PageOffset(q.page, q.perPage));
    assert forall k :: 0 <= k < |ids| ==> ids[k] in ordered;
    assert PageOf(rows, q) == RowsOf(rows, ids);
  }

  /** The page lists its ids in strictly increasing order, so no row appears twice. */
  lemma PageOfIncreasing(rows: map<int, Row>, q: ListQuery)
    ensures var page := PageOf(rows, q);
            forall i, j :: 0 <= i < j < |page| ==> page[i].0 < page[j].0
  {
    var ordered := SortedIds(SelectedIds(rows, q));
    var ids := Window(ordered, q.perPage, PageOffset(q.page, q.perPage));
    WindowIncreasing(ordered, q.perPage, PageOffset(q.page, q.perPage));
    assert forall k :: 0 <= k < |ids| ==> ids[k] in ordered;
    var page := RowsOf(rows, ids);
    assert PageOf(rows, q) == page;
    forall i, j | 0 <= i < j < |page| ensures page[i].0 < page[j].0 {
      assert page[i].0 == ids[i] && page[j].0 == ids[j];
    }
  }

  /** A window of a strictly increasing sequence is strictly increasing. */
  lemma WindowIncreasing(s: seq<int>, limit: int, offset: int)
    requires StrictlyIncreasing(s)
    ensures StrictlyIncreasing(Window(s, limit, offset))
  {
    var w := Window(s, limit, offset);
    var start := Start(|s|, offset);
    forall i, j | 0 <= i < j < |w| ensures w[i] < w[j] {
      assert w[i] == s[start + i] && w[j] == s[start + j];
    }
  }

  /** The rows with the given ids, paired with their ids, in the same order. */
  function RowsOf(rows: map<int, Row>, ids: seq<int>): (r: seq<(int, Row)>)
    requires forall k :: 0 <= k < |ids| ==> ids[k] in rows
    ensures |r| == |ids| && forall k :: 0 <= k < |r| ==> r[k] == (ids[k], rows[ids[k]])
  {
    seq(|ids|, k requires 0 <= k < |ids| => (ids[k], rows[ids[k]]))
  }

  /** Two consecutive pages of the same size make up the page twice as large. */
  lemma AdjacentWindows<X>(s: seq<X>, size: nat, offset: nat)
    ensures Window(s, size, offset) + Window(s, size, offset + size) == Window(s, 2 * size, offset)
  {
    var a, b, c := Window(s, size, offset), Window(s, size, offset + size), Window(s, 2 * size, offset);
    var start := Start(|s|, offset);
    assert start + |a| == Start(|s|, offset + size);
    assert a + b == s[start..start + |c|];
  }

  /** The offset the handler computes for a page: pages are numbered from 1. */
  function PageOffset(page: int, perPage: int): int
  {
    (page - 1) * perPage
  }

  /** Page `p + 1` starts where page `p` ends, so consecutive pages neither overlap nor leave a gap. */
  lemma PagesTile<X>(s: seq<X>, page: nat, perPage: nat)
    requires page >= 1
    ensures Window(s, perPage, PageOffset(page, perPage)) + Window(s, perPage, PageOffset(page + 1, perPage))
            == Window(s, 2 * perPage, PageOffset(page, perPage))
  {
    assert PageOffset(page + 1, perPage) == PageOffset(page, perPage) + perPage;
    AdjacentWindows(s, perPage, PageOffset(page, perPage));
  }
}
