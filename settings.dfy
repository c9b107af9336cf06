/**
 * The `settings` table (backend/main.py:71-74): a key-value store whose key
 * is the primary key. `get_setting` reads a key with a default,
 * `set_setting` writes with `INSERT OR REPLACE`, and the model-download
 * flag is stored under "download_model" as the text "true" or "false".
 */
module Settings {
  import opened Common

  const DOWNLOAD_MODEL_KEY := "download_model"

  /**
   * The value a client sends as `download_model` in the JSON body: absent,
   * null, a boolean, an integer, a float, a string, a list or an object.
   * Only its Python truthiness decides what is stored, so a list or an
   * object is represented by its length.
   */
  datatype FlagValue =
    | Missing | Null | Bool(b: bool) | Number(n: int) | Float(x: real) | Text(s: string)
    | List(items: nat) | Object(members: nat)

  /** `data.get("download_model", False)`, tested with `if flag`. */
  predicate FlagTruthy(f: FlagValue)
  {
    match f
    case Missing => false
    case Null => false
    case Bool(b) => b
    case Number(n) => n != 0
    case Float(x) => x != 0.0
    case Text(s) => s != ""
    case List(items) => items != 0
    case Object(members) => members != 0
  }

  /** The text `set_model_download_flag` stores for a flag value. */
  function FlagText(f: FlagValue): (text: string)
    ensures text == "true" || text == "false"
    ensures text == "true" <==> FlagTruthy(f)
  {
    if FlagTruthy(f) then "true" else "false"
  }

  /** `get_setting(key, default)`: the stored value, or the default when the key has no row. */
  function Lookup(values: map<string, string>, key: string, default: Option<string>): (r: Option<string>)
  {
    if key in values then Some(values[key]) else default
  }

  /** The flag `get_model_download_flag` reports: the stored text, defaulting to "false", compared with "true". */
  function DownloadFlag(values: map<string, string>): (flag: bool)
    ensures flag <==> DOWNLOAD_MODEL_KEY in values && values[DOWNLOAD_MODEL_KEY] == "true"
  {
    Lookup(values, DOWNLOAD_MODEL_KEY, Some("false")) == Some("true")
  }

  /** A written key reads back as written, whatever default is given. */
  lemma LookupAfterStore(values: map<string, string>, key: string, value: string, default: Option<string>)
    ensures Lookup(values[key := value], key, default) == Some(value)
  {
  }

  /** Writing one key leaves the answer for every other key, with any default, unchanged. */
  lemma LookupOtherKey(values: map<string, string>, key: string, value: string, other: string, default: Option<string>)
    requires other != key
    ensures Lookup(values[key := value], other, default) == Lookup(values, other, default)
  {
  }

  /** A key that was never written reads as the caller's default. */
  lemma LookupDefault(values: map<string, string>, key: string, default: Option<string>)
    requires key !in values
    ensures Lookup(values, key, default) == default
  {
  }

  /** Setting the flag and reading it back gives the flag's truthiness; before any write it reads false. */
  lemma DownloadFlagRoundTrip(values: map<string, string>, f: FlagValue)
    ensures DownloadFlag(values[DOWNLOAD_MODEL_KEY := FlagText(f)]) == FlagTruthy(f)
    ensures DOWNLOAD_MODEL_KEY !in values ==> !DownloadFlag(values)
  {
  }

  /** The `settings` table, one value per key. */
  class SettingsStore {
    var values: map<string, string>

    constructor ()
      ensures values == map[]
    {
      values := map[];
    }

    /** `get_setting`. */
    method Get(key: string, default: Option<string>) returns (r: Option<string>)
      ensures key in values ==> r == Some(values[key])
      ensures key !in values ==> r == default
    {
      if key in values {
        r := Some(values[key]);
      } else {
        r := default;
      }
    }

    /** `set_setting`: `INSERT OR REPLACE` keeps one row per key and overwrites its value. */
    method Set(key: string, value: string)
      modifies this
      ensures values == old(values)[key := value]
    {
      values := values[key := value];
    }

    /**
     * `set_model_download_flag`: store "true" or "false" by the flag's
     * truthiness and echo the flag back, `false` when it was absent.
     */
    method SetDownloadFlag(f: FlagValue) returns (echo: FlagValue)
      modifies this
      ensures values == old(values)[DOWNLOAD_MODEL_KEY := FlagText(f)]
      ensures echo == if f.Missing? then Bool(false) else f
    {
      Set(DOWNLOAD_MODEL_KEY, if FlagTruthy(f) then "true" else "false");
      echo := if f.Missing? then Bool(false) else f;
    }

    /** `get_model_download_flag`. */
    method GetDownloadFlag() returns (flag: bool)
      ensures flag <==> DOWNLOAD_MODEL_KEY in values && values[DOWNLOAD_MODEL_KEY] == "true"
    {
      var stored := Get(DOWNLOAD_MODEL_KEY, Some("false"));
      flag := stored == Some("true");
    }
  }
}
