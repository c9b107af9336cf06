/**
 * The `smartling_keys` table (backend/main.py:34-45): the stored identity,
 * account and project of the localization platform, and the access/refresh
 * token pair with its expiry. Every handler reads the row with the largest
 * id; `set_smartling_keys` edits that row in place, and a token refresh
 * rewrites the tokens of every row with the same identity and secret.
 */
module Credentials {
  import opened Common

  /** One row of `smartling_keys`; nullable columns are `Option`s. */
  datatype KeysRow = KeysRow(
    userId: string,
    secret: string,
    projectId: Option<string>,
    jobId: Option<string>,
    accessToken: Option<string>,
    refreshToken: Option<string>,
    tokenExpires: Option<int>,
    accountId: Option<string>,
    locale: Option<string>)

  /** One key of a JSON body: left out, present as `null`, or present as a string. */
  datatype JsonField = Absent | Null | Str(s: string)

  /** The JSON body of `POST /admin/smartling-keys`. */
  datatype KeysPayload = KeysPayload(
    userId: JsonField,
    secret: JsonField,
    projectId: JsonField,
    accountId: JsonField,
    jobId: JsonField,
    locale: JsonField)

  const DEFAULT_LOCALE := "ja-JP"

  /** The IntegrityError SQLite raises when `user_id` or `secret` (both `NOT NULL`) would be NULL. */
  const USER_ID_NOT_NULL_ERROR := "NOT NULL constraint failed: smartling_keys.user_id"
  const SECRET_NOT_NULL_ERROR := "NOT NULL constraint failed: smartling_keys.secret"

  /**
   * `data.get(key, default)` as the value bound into the SQL statement: the
   * default when the key is left out, NULL for a JSON `null`, and the
   * string otherwise.
   */
  function GetOr(field: JsonField, default: string): (v: Option<string>)
    ensures v.None? <==> field.Null?
    ensures field.Absent? ==> v == Some(default)
    ensures field.Str? ==> v == Some(field.s)
  {
    match field
    case Absent => Some(default)
    case Null => None
    case Str(s) => Some(s)
  }

  /** The row with the largest id, the one `ORDER BY id DESC LIMIT 1` reads. */
  function Latest(rows: seq<KeysRow>): (r: Option<KeysRow>)
    ensures r.None? <==> rows == []
    ensures r.Some? ==> r.value == rows[|rows| - 1]
  {
    if rows == [] then None else Some(rows[|rows| - 1])
  }

  /**
   * The project the flagger falls back to: the latest row's `project_id`
   * when there is a row and that column is truthy (`row and row[0]`).
   */
  function LatestProjectId(rows: seq<KeysRow>): (p: Option<string>)
    ensures p.Some? <==> rows != [] && Truthy(rows[|rows| - 1].projectId)
    ensures p.Some? ==> p == rows[|rows| - 1].projectId && p.value != ""
  {
    match Latest(rows)
    case Some(row) => if Truthy(row.projectId) then row.projectId else None
    case None => None
  }

  /**
   * The expiry test every protected handler applies before its retry loop:
   * the stored token is usable when it is truthy and either no truthy
   * expiry is stored or the clock is still before it.
   */
  function UsableToken(accessToken: Option<string>, tokenExpires: Option<int>, now: int): (token: Option<string>)
    ensures Truthy(token) <==>
              Truthy(accessToken) && (tokenExpires.None? || tokenExpires.value == 0 || now < tokenExpires.value)
    ensures Truthy(token) ==> token == accessToken
    ensures !Truthy(token) ==> token == None
  {
    if !Truthy(accessToken) || (tokenExpires.Some? && tokenExpires.value != 0 && now >= tokenExpires.value) then None
    else accessToken
  }

  /** Once a token is treated as absent, it stays absent at every later time. */
  lemma ExpiredStaysExpired(accessToken: Option<string>, tokenExpires: Option<int>, now: int, later: int)
    requires now <= later
    requires !Truthy(UsableToken(accessToken, tokenExpires, now))
    ensures !Truthy(UsableToken(accessToken, tokenExpires, later))
  {
  }

  /**
   * The absolute expiry a refresh stores: `now + expiresIn` when the
   * platform returned a truthy `expiresIn`, and NULL (never expires) when it
   * is missing or 0.
   */
  function RefreshedExpiry(clock: int, expiresIn: Option<int>): (e: Option<int>)
    ensures e.Some? <==> expiresIn.Some? && expiresIn.value != 0
    ensures e.Some? ==> e.value - clock == expiresIn.value
  {
    if expiresIn.Some? && expiresIn.value != 0 then Some(clock + expiresIn.value) else None
  }

  /**
   * A token refreshed at a non-negative epoch time `clock` with a positive
   * lifetime is usable exactly until `clock + expiresIn`; one refreshed
   * without a lifetime never expires.
   */
  lemma RefreshedTokenLifetime(token: string, clock: int, expiresIn: Option<int>, t: int)
    requires token != "" && clock >= 0
    requires expiresIn.Some? ==> expiresIn.value >= 0
    ensures Truthy(UsableToken(Some(token), RefreshedExpiry(clock, expiresIn), t)) <==>
              (expiresIn.None? || expiresIn.value == 0 || t < clock + expiresIn.value)
  {
    var e := RefreshedExpiry(clock, expiresIn);
    if expiresIn.Some? && expiresIn.value != 0 {
      assert e == Some(clock + expiresIn.value);
    } else {
      assert e == None;
    }
  }

  /** The credentials table, rows in id order (the row with id `k + 1` is `rows[k]`). */
  class CredentialStore {
    var rows: seq<KeysRow>

    constructor ()
      ensures rows == []
    {
      rows := [];
    }

    /**
     * `set_smartling_keys`: overwrite the identity, project, account, job
     * and locale of the latest row and keep its tokens; insert a row
     * without tokens when the table is empty. Missing fields default to ""
     * and the locale to "ja-JP"; a JSON `null` is stored as NULL, which
     * the `NOT NULL` columns `user_id` and `secret` refuse: the statement
     * raises and nothing is written. The table never grows past one row here.
     */
    method SetKeys(data: KeysPayload) returns (error: Option<string>)
      modifies this
      ensures error.Some? <==> data.userId.Null? || data.secret.Null?
      ensures data.userId.Null? ==> error == Some(USER_ID_NOT_NULL_ERROR)
      ensures !data.userId.Null? && data.secret.Null? ==> error == Some(SECRET_NOT_NULL_ERROR)
      ensures error.Some? ==> rows == old(rows)
      ensures error.None? ==> |rows| == if old(rows) == [] then 1 else |old(rows)|
      ensures error.None? ==> rows[..|rows| - 1] == old(rows)[..|rows| - 1]
      ensures error.None? ==>
                var last := rows[|rows| - 1];
                && Some(last.userId) == GetOr(data.userId, "")
                && Some(last.secret) == GetOr(data.secret, "")
                && last.projectId == GetOr(data.projectId, "")
                && last.accountId == GetOr(data.accountId, "")
                && last.jobId == GetOr(data.jobId, "")
                && last.locale == GetOr(data.locale, DEFAULT_LOCALE)
      ensures error.None? && old(rows) != [] ==>
                var was := old(rows)[|old(rows)| - 1];
                var last := rows[|rows| - 1];
                last.accessToken == was.accessToken && last.refreshToken == was.refreshToken
                && last.tokenExpires == was.tokenExpires
      ensures error.None? && old(rows) == [] ==>
                rows[0].accessToken == None && rows[0].refreshToken == None && rows[0].tokenExpires == None
    {
      var userId := GetOr(data.userId, "");
      var secret := GetOr(data.secret, "");
      var projectId := GetOr(data.projectId, "");
      var accountId := GetOr(data.accountId, "");
      var jobId := GetOr(data.jobId, "");
      var locale := GetOr(data.locale, DEFAULT_LOCALE);
      if userId.None? {
        return Some(USER_ID_NOT_NULL_ERROR);
      }
      if secret.None? {
        return Some(SECRET_NOT_NULL_ERROR);
      }
      if |rows| > 0 {
        var last := rows[|rows| - 1];
        rows := rows[|rows| - 1 := last.(userId := userId.value, secret := secret.value, projectId := projectId,
                                         accountId := accountId, jobId := jobId, locale := locale)];
      } else {
        rows := rows + [KeysRow(userId.value, secret.value, projectId, jobId, None, None, None, accountId, locale)];
      }
      error := None;
    }

    /**
     * The write a successful refresh makes: the new access token, refresh
     * token and expiry go to every row whose identity and secret match;
     * no row is added or removed and nothing else changes.
     */
    method StoreRefreshedTokens(userId: string, secret: string, accessToken: Option<string>,
                                refreshToken: Option<string>, tokenExpires: Option<int>)
      modifies this
      ensures |rows| == |old(rows)|
      ensures forall k :: 0 <= k < |rows| ==>
                rows[k] == if old(rows)[k].userId == userId && old(rows)[k].secret == secret
                           then old(rows)[k].(accessToken := accessToken, refreshToken := refreshToken,
                                              tokenExpires := tokenExpires)
                           else old(rows)[k]
    {
      var was := rows;
      rows := seq(|was|, k requires 0 <= k < |was| =>
                if was[k].userId == userId && was[k].secret == secret
                then was[k].(accessToken := accessToken, refreshToken := refreshToken, tokenExpires := tokenExpires)
                else was[k]);
    }
  }
}
