/**
 * `load_env`: read `KEY=VALUE` lines from the project's `.env` file into the
 * process environment, never replacing a variable that is already set.
 */
module DotEnv {
  import opened Wrappers
  import opened Text

  /** A line as `load_env` reads it: nothing, or a key and a value. */
  type Entry = Option<(string, string)>

  /**
   * How `load_env` reads one line: after stripping, a blank line, a line
   * starting with `#` and a line without `=` are skipped (`None`); any other
   * line is split at its first `=` into a stripped key and a stripped value.
   */
  function ParseLine(raw: string): Entry {
    var line := Strip(raw);
    if line == [] || line[0] == '#' then None
    else match FirstIndexOf(line, '=')
      case None => None
      case Some(i) => Some((Strip(line[..i]), Strip(line[i + 1..])))
  }

  /** The lines of a file, read one by one. */
  function ParseLines(lines: seq<string>): (entries: seq<Entry>)
    ensures |entries| == |lines|
  {
    seq(|lines|, i requires 0 <= i < |lines| => ParseLine(lines[i]))
  }

  /** One entry: a new, non-empty key is added; an existing key keeps its value. */
  function Merge(env: map<string, string>, entry: Entry): map<string, string> {
    match entry
    case None => env
    case Some((key, value)) => if key != [] && key !in env then env[key := value] else env
  }

  /** The environment after the entries, merged in file order. */
  function MergeAll(env: map<string, string>, entries: seq<Entry>): map<string, string> {
    if entries == [] then env
    else Merge(MergeAll(env, entries[..|entries| - 1]), entries[|entries| - 1])
  }

  /** The entry defines the variable `key`, which is not empty. */
  predicate Defines(entry: Entry, key: string) {
    key != [] && entry.Some? && entry.value.0 == key
  }

  /** The process environment, `os.environ`. */
  class Environment {
    var vars: map<string, string>

    constructor (vars: map<string, string>)
      ensures this.vars == vars
    {
      this.vars := vars;
    }

    /**
     * `load_env`, given the lines of the `.env` file, or `None` when the file
     * does not exist.
     */
    method LoadEnv(envFile: Option<seq<string>>)
      modifies this
      ensures envFile.None? ==> vars == old(vars)
      ensures envFile.Some? ==> vars == MergeAll(old(vars), ParseLines(envFile.value))
    {
      if envFile.None? {
        return;
      }
      var lines := envFile.value;
      ghost var initial := vars;
      ghost var entries := ParseLines(lines);
      for i := 0 to |lines|
        invariant vars == MergeAll(initial, entries[..i])
      {
        MergeAllStep(initial, entries, i);
        assert entries[i] == ParseLine(lines[i]);
        var line := Strip(lines[i]);
        if line == [] || line[0] == '#' || '=' !in line {
          SkippedLine(lines[i], line);
          continue;
        }
        var eq := FirstIndexOf(line, '=').value;
        var key := Strip(line[..eq]);
        var value := Strip(line[eq + 1..]);
        ParseStrippedLine(lines[i], line, eq);
        if key != [] && key !in vars {
          vars := vars[key := value];
        }
      }
      assert entries[..|lines|] == entries;
    }
  }

  /** Merging one more entry. */
  lemma MergeAllStep(env: map<string, string>, entries: seq<Entry>, i: nat)
    requires i < |entries|
    ensures MergeAll(env, entries[..i + 1]) == Merge(MergeAll(env, entries[..i]), entries[i])
  {
    assert entries[..i + 1][..i] == entries[..i];
  }

  /**
   * A line that survives the skip tests is split at its FIRST `=`: the key is
   * the stripped text before it and the value the stripped text after it,
   * which may itself contain `=`.
   */
  lemma ParseLineSplitsAtFirstEquals(raw: string, i: nat)
    requires var line := Strip(raw);
      line != [] && line[0] != '#' && i < |line| && line[i] == '=' && '=' !in line[..i]
    ensures var line := Strip(raw);
      ParseLine(raw) == Some((Strip(line[..i]), Strip(line[i + 1..])))
  {
    ParseStrippedLine(raw, Strip(raw), i);
  }

  /** `ParseLineSplitsAtFirstEquals`, with the stripped line named. */
  lemma ParseStrippedLine(raw: string, line: string, i: nat)
    requires line == Strip(raw)
    requires line != [] && line[0] != '#' && i < |line| && line[i] == '=' && '=' !in line[..i]
    ensures ParseLine(raw) == Some((Strip(line[..i]), Strip(line[i + 1..])))
  {
    FirstIndexOfUnique(line, '=', i);
  }

  /** The lines `load_env` skips: blank after stripping, a `#` comment, or no `=`. */
  lemma ParseLineSkips(raw: string)
    ensures var line := Strip(raw);
      ParseLine(raw).None? <==> (line == [] || line[0] == '#' || '=' !in line)
  {
    SkippedLine(raw, Strip(raw));
  }

  /** `ParseLineSkips`, with the stripped line named. */
  lemma SkippedLine(raw: string, line: string)
    requires line == Strip(raw)
    ensures ParseLine(raw).None? <==> (line == [] || line[0] == '#' || '=' !in line)
  {
  }

  /** A key read from a line has no `=` and no surrounding whitespace. */
  lemma ParsedKeyIsClean(raw: string)
    requires ParseLine(raw).Some?
    ensures var key := ParseLine(raw).value.0;
      && '=' !in key
      && (key == [] || (!IsSpace(key[0]) && !IsSpace(key[|key| - 1])))
  {
    var line := Strip(raw);
    var i := FirstIndexOf(line, '=').value;
    ParseStrippedLine(raw, line, i);
    StripKeepsAbsent(line[..i], '=');
  }

  /** Loading never changes or removes a variable that was already set. */
  lemma {:induction false} MergeAllKeepsExisting(env: map<string, string>, entries: seq<Entry>)
    ensures forall key :: key in env ==> key in MergeAll(env, entries) && MergeAll(env, entries)[key] == env[key]
  {
    if entries != [] {
      MergeAllKeepsExisting(env, entries[..|entries| - 1]);
    }
  }

  /**
   * A variable is set after loading exactly when it was set before or some
   * entry defines it; in particular an empty key is never added.
   */
  lemma {:induction false} MergeAllKeys(env: map<string, string>, entries: seq<Entry>, key: string)
    ensures key in MergeAll(env, entries) <==> key in env || exists i :: 0 <= i < |entries| && Defines(entries[i], key)
  {
    if entries != [] {
      var n := |entries| - 1;
      MergeAllKeys(env, entries[..n], key);
      assert forall i :: 0 <= i < n ==> entries[..n][i] == entries[i];
    }
  }

  /** For a variable not set before, the first entry that defines it decides its value. */
  lemma {:induction false} FirstDefinitionWins(env: map<string, string>, entries: seq<Entry>, i: nat)
    requires i < |entries| && entries[i].Some?
    requires var key := entries[i].value.0;
      && key != [] && key !in env
      && forall j :: 0 <= j < i ==> !Defines(entries[j], key)
    ensures var (key, value) := entries[i].value;
      key in MergeAll(env, entries) && MergeAll(env, entries)[key] == value
  {
    var n := |entries| - 1;
    var key := entries[i].value.0;
    if i == n {
      MergeAllKeys(env, entries[..n], key);
      assert forall j :: 0 <= j < n ==> entries[..n][j] == entries[j];
    } else {
      assert forall j :: 0 <= j < i ==> entries[..n][j] == entries[j];
      FirstDefinitionWins(env, entries[..n], i);
    }
  }
}
