/**
 * `update_env_var` of the prototype backend
 * (pendosmart/backend/smartling_config.py:12-27): rewrite the lines of a
 * `.env` file so that `key` is set to `value`. The first line starting with
 * `key=` is replaced; when there is none, a line is appended. Reading and
 * writing the file are modelled by `ReadLines` and `Join` on its text.
 */
module EnvFile {
  import opened Common

  /** The line the update writes: `key=value` and a newline. */
  function EntryLine(key: string, value: string): (line: string)
    ensures |line| == |key| + |value| + 2 && line[|line| - 1] == '\n'
    ensures StartsWith(line, key + "=")
  {
    assert (key + "=" + value + "\n")[..|key| + 1] == key + "=";
    key + "=" + value + "\n"
  }

  /** `line.startswith(f'{key}=')`. */
  predicate IsKeyLine(line: string, key: string)
  {
    StartsWith(line, key + "=")
  }

  /** The index of the first line that starts with `key=`, if any. */
  function FirstKeyLine(lines: seq<string>, key: string): (r: Option<nat>)
    ensures r.Some? ==> r.value < |lines| && IsKeyLine(lines[r.value], key)
                        && forall j :: 0 <= j < r.value ==> !IsKeyLine(lines[j], key)
    ensures r.None? ==> forall j :: 0 <= j < |lines| ==> !IsKeyLine(lines[j], key)
  {
    if lines == [] then None
    else if IsKeyLine(lines[0], key) then Some(0)
    else match FirstKeyLine(lines[1..], key)
         case None => None
         case Some(i) => Some(i + 1)
  }

  /** The lines the update writes back, given the lines it read. */
  function Updated(lines: seq<string>, key: string, value: string): seq<string>
  {
    match FirstKeyLine(lines, key)
    case Some(i) => lines[i := EntryLine(key, value)]
    case None => lines + [EntryLine(key, value)]
  }

  /** A missing file is read as no lines at all. */
  function LinesRead(existing: Option<seq<string>>): seq<string>
  {
    if existing.Some? then existing.value else []
  }

  /**
   * The update's loop: scan for the first `key=` line, overwrite it and
   * stop; append the entry when the scan found none.
   */
  method UpdateEnvVar(existing: Option<seq<string>>, key: string, value: string) returns (lines: seq<string>)
    ensures lines == Updated(LinesRead(existing), key, value)
  {
    lines := [];
    if existing.Some? {
      lines := existing.value;
    }
    ghost var read := lines;
    var found := false;
    for i := 0 to |lines|
      invariant !found && lines == read
      invariant forall j :: 0 <= j < i ==> !IsKeyLine(lines[j], key)
    {
      if StartsWith(lines[i], key + "=") {
        assert FirstKeyLine(read, key) == Some(i);
        lines := lines[i := key + "=" + value + "\n"];
        found := true;
        break;
      }
    }
    if !found {
      lines := lines + [key + "=" + value + "\n"];
    }
  }

  /**
   * When some line starts with `key=`, the first such line becomes the
   * entry, every other line (later `key=` lines included) stays, and the
   * number of lines is unchanged.
   */
  lemma UpdatedReplacesFirst(lines: seq<string>, key: string, value: string, i: nat)
    requires i < |lines| && IsKeyLine(lines[i], key)
    requires forall j :: 0 <= j < i ==> !IsKeyLine(lines[j], key)
    ensures var r := Updated(lines, key, value);
            && |r| == |lines| && r[i] == EntryLine(key, value)
            && forall j :: 0 <= j < |lines| && j != i ==> r[j] == lines[j]
  {
    var f := FirstKeyLine(lines, key);
    assert f == Some(i);
  }

  /** When no line starts with `key=`, the entry is appended after all the lines, in their order. */
  lemma UpdatedAppends(lines: seq<string>, key: string, value: string)
    requires forall j :: 0 <= j < |lines| ==> !IsKeyLine(lines[j], key)
    ensures var r := Updated(lines, key, value);
            && |r| == |lines| + 1 && r[..|lines|] == lines && r[|lines|] == EntryLine(key, value)
  {
    assert FirstKeyLine(lines, key) == None;
  }

  /** A missing file becomes the single entry line. */
  lemma MissingFileGivesEntry(key: string, value: string)
    ensures Updated(LinesRead(None), key, value) == [EntryLine(key, value)]
  {
    assert FirstKeyLine([], key) == None;
  }

  /** Afterwards the first line starting with `key=` is exactly the entry. */
  lemma UpdatedFirstKeyLine(lines: seq<string>, key: string, value: string)
    ensures var r := Updated(lines, key, value);
            var f := FirstKeyLine(r, key);
            f.Some? && r[f.value] == EntryLine(key, value)
  {
    var r := Updated(lines, key, value);
    match FirstKeyLine(lines, key)
    case Some(i) =>
      UpdatedReplacesFirst(lines, key, value, i);
      UpdatedReplacesFirst(r, key, value, i);
    case None =>
      UpdatedAppends(lines, key, value);
      assert forall j :: 0 <= j < |lines| ==> r[j] == lines[j];
      UpdatedReplacesFirst(r, key, value, |lines|);
  }

  /** Applying the same key and value twice gives the lines of applying it once. */
  lemma UpdatedIdempotent(lines: seq<string>, key: string, value: string)
    ensures Updated(Updated(lines, key, value), key, value) == Updated(lines, key, value)
  {
    var r := Updated(lines, key, value);
    UpdatedFirstKeyLine(lines, key, value);
    var i := FirstKeyLine(r, key).value;
    assert r[i := EntryLine(key, value)] == r;
  }

  // ---------------------------------------------------------------------
  // The file's text: `readlines()` and `writelines()`.
  // ---------------------------------------------------------------------

  /** The length of the first line of a text: through its first newline, or the whole text. */
  function LineLength(text: string): (n: nat)
    requires text != []
    ensures 0 < n <= |text|
    ensures forall k :: 0 <= k < n - 1 ==> text[k] != '\n'
    ensures n < |text| ==> text[n - 1] == '\n'
    decreases |text|
  {
    if text[0] == '\n' || |text| == 1 then 1
    else
      var n := LineLength(text[1..]);
      assert forall k :: 1 <= k < n ==> text[k] == text[1..][k - 1];
      n + 1
  }

  /**
   * `f.readlines()` on the text after newline translation: cut after every
   * newline; a last line without one is kept as it is.
   */
  function ReadLines(text: string): seq<string>
    decreases |text|
  {
    if text == [] then []
    else
      var n := LineLength(text);
      [text[..n]] + ReadLines(text[n..])
  }

  /** `f.writelines(lines)`: the lines written one after another, with nothing added between them. */
  function Join(lines: seq<string>): string
  {
    if lines == [] then [] else lines[0] + Join(lines[1..])
  }

  /** Writing back the lines read gives the same text. */
  lemma {:induction false} JoinReadLines(text: string)
    ensures Join(ReadLines(text)) == text
    decreases |text|
  {
    if text != [] {
      var n := LineLength(text);
      JoinReadLines(text[n..]);
      assert text[..n] + text[n..] == text;
    }
  }

  /** No newline inside `s`. */
  predicate OneLine(s: string)
  {
    forall k :: 0 <= k < |s| ==> s[k] != '\n'
  }

  /**
   * The shape of what `readlines()` returns: no line is empty, a newline
   * can only be a line's last character, and every line but the last ends
   * with one.
   */
  predicate LinesShape(lines: seq<string>)
  {
    forall k :: 0 <= k < |lines| ==>
      && lines[k] != []
      && OneLine(lines[k][..|lines[k]| - 1])
      && (k < |lines| - 1 ==> lines[k][|lines[k]| - 1] == '\n')
  }

  lemma {:induction false} ReadLinesShape(text: string)
    ensures LinesShape(ReadLines(text))
    decreases |text|
  {
    if text != [] {
      var n := LineLength(text);
      ReadLinesShape(text[n..]);
      var r := ReadLines(text);
      assert r[0] == text[..n];
      assert forall k :: 1 <= k < |r| ==> r[k] == ReadLines(text[n..])[k - 1];
    }
  }

  /** The first line of a text that starts with a well-shaped line is that line. */
  lemma {:induction false} LineLengthOfLine(line: string, rest: string)
    requires line != [] && OneLine(line[..|line| - 1])
    requires line[|line| - 1] == '\n' || rest == []
    ensures LineLength(line + rest) == |line|
    decreases |line|
  {
    var text := line + rest;
    if |line| > 1 {
      assert line[0] == line[..|line| - 1][0];
      assert text[1..] == line[1..] + rest;
      assert line[1..][..|line[1..]| - 1] == line[..|line| - 1][1..];
      LineLengthOfLine(line[1..], rest);
    }
  }

  /** Reading back lines of the `readlines()` shape that were written gives the same lines. */
  lemma {:induction false} ReadLinesJoin(lines: seq<string>)
    requires LinesShape(lines)
    ensures ReadLines(Join(lines)) == lines
    decreases |lines|
  {
    if lines != [] {
      var rest := Join(lines[1..]);
      assert forall k :: 0 <= k < |lines[1..]| ==> lines[1..][k] == lines[k + 1];
      if |lines| == 1 {
        assert lines[1..] == [];
      }
      LineLengthOfLine(lines[0], rest);
      var text := Join(lines);
      assert text[..|lines[0]|] == lines[0];
      assert text[|lines[0]|..] == rest;
      ReadLinesJoin(lines[1..]);
    }
  }

  /** The update as it acts on the file's text, as written: the entry follows the last line directly. */
  function UpdateText(text: string, key: string, value: string): string
  {
    Join(Updated(ReadLines(text), key, value))
  }

  /**
   * A file whose last line has no newline: the entry is glued onto that
   * line, so reading the result back finds no `K=` line at all, and a
   * second update appends the entry again.
   */
  lemma GluedEntry()
    ensures UpdateText("A=1", "K", "v") == "A=1K=v\n"
    ensures FirstKeyLine(ReadLines(UpdateText("A=1", "K", "v")), "K") == None
    ensures UpdateText(UpdateText("A=1", "K", "v"), "K", "v") != UpdateText("A=1", "K", "v")
  {
    var once := "A=1K=v\n";
    assert LineLength("A=1") == 3;
    assert "A=1"[..3] == "A=1" && "A=1"[3..] == [];
    assert ReadLines("A=1") == ["A=1"];
    assert EntryLine("K", "v") == "K=v\n";
    assert !IsKeyLine("A=1", "K");
    assert FirstKeyLine(["A=1"], "K") == None;
    assert Updated(["A=1"], "K", "v") == ["A=1", "K=v\n"];
    assert Join(["A=1", "K=v\n"]) == once by {
      assert Join(["K=v\n"]) == "K=v\n";
    }
    LineLengthOfLine(once, []);
    assert ReadLines(once) == [once] by {
      assert once[..7] == once && once[7..] == [];
    }
    assert !IsKeyLine(once, "K");
    assert FirstKeyLine([once], "K") == None;
    assert |UpdateText(once, "K", "v")| == |Join([once, "K=v\n"])|;
    assert |Join([once, "K=v\n"])| == 11 by {
      assert Join(["K=v\n"]) == "K=v\n";
    }
  }

  /** The line list with a newline added to a last line that lacks one. */
  function Terminated(lines: seq<string>): (r: seq<string>)
    ensures |r| == |lines| && r[..|r|] == r
  {
    if lines != [] && lines[|lines| - 1] != [] && lines[|lines| - 1][|lines[|lines| - 1]| - 1] != '\n'
    then lines[|lines| - 1 := lines[|lines| - 1] + "\n"]
    else lines
  }

  /** The update with the entry always starting a line of its own. */
  function UpdatedOnOwnLine(lines: seq<string>, key: string, value: string): seq<string>
  {
    match FirstKeyLine(lines, key)
    case Some(i) => lines[i := EntryLine(key, value)]
    case None => Terminated(lines) + [EntryLine(key, value)]
  }

  function UpdateTextOnOwnLine(text: string, key: string, value: string): string
  {
    Join(UpdatedOnOwnLine(ReadLines(text), key, value))
  }

  /** Terminating the last line keeps the `readlines()` shape and adds no `key=` line. */
  lemma TerminatedShape(lines: seq<string>, key: string)
    requires LinesShape(lines)
    requires forall j :: 0 <= j < |lines| ==> !IsKeyLine(lines[j], key)
    ensures var t := Terminated(lines);
            && (forall k :: 0 <= k < |t| ==> t[k] != [] && OneLine(t[k][..|t[k]| - 1]) && t[k][|t[k]| - 1] == '\n')
            && (forall j :: 0 <= j < |t| ==> !IsKeyLine(t[j], key))
  {
    var t := Terminated(lines);
    if t != lines {
      var last := lines[|lines| - 1];
      assert (last + "\n")[..|last|] == last;
      assert |key| + 1 <= |last| ==> (last + "\n")[..|key| + 1] == last[..|key| + 1];
      assert (last + "\n")[|last|] == '\n' && (key + "=")[|key|] == '=';
    }
  }

  /**
   * With a key and value free of newlines, the text written by the
   * corrected update reads back as the lines it meant to write: the first
   * `key=` line is the entry, on a line of its own.
   */
  lemma OwnLineReadsBack(text: string, key: string, value: string)
    requires OneLine(key) && OneLine(value)
    ensures ReadLines(UpdateTextOnOwnLine(text, key, value)) == UpdatedOnOwnLine(ReadLines(text), key, value)
    ensures var r := ReadLines(UpdateTextOnOwnLine(text, key, value));
            var f := FirstKeyLine(r, key);
            f.Some? && r[f.value] == EntryLine(key, value)
  {
    var lines := ReadLines(text);
    ReadLinesShape(text);
    var entry := EntryLine(key, value);
    assert OneLine(entry[..|entry| - 1]) by {
      assert entry[..|entry| - 1] == key + "=" + value;
    }
    var u := UpdatedOnOwnLine(lines, key, value);
    match FirstKeyLine(lines, key)
    case Some(i) =>
      assert LinesShape(u);
      UpdatedReplacesFirst(lines, key, value, i);
      assert u == Updated(lines, key, value);
      UpdatedFirstKeyLine(lines, key, value);
      ReadLinesJoin(u);
    case None =>
      TerminatedShape(lines, key);
      var t := Terminated(lines);
      assert LinesShape(u) by {
        assert forall k :: 0 <= k < |t| ==> u[k] == t[k];
      }
      UpdatedAppends(t, key, value);
      assert u == Updated(t, key, value);
      UpdatedFirstKeyLine(t, key, value);
      ReadLinesJoin(u);
  }

  /** At the level of the file's text, the corrected update applied twice equals applying it once. */
  lemma OwnLineIdempotent(text: string, key: string, value: string)
    requires OneLine(key) && OneLine(value)
    ensures UpdateTextOnOwnLine(UpdateTextOnOwnLine(text, key, value), key, value)
            == UpdateTextOnOwnLine(text, key, value)
  {
    var once := UpdateTextOnOwnLine(text, key, value);
    OwnLineReadsBack(text, key, value);
    var r := ReadLines(once);
    var i := FirstKeyLine(r, key).value;
    assert UpdatedOnOwnLine(r, key, value) == r[i := EntryLine(key, value)] == r;
    JoinReadLines(once);
  }
}
