/**
 * The `.env` reader of `load-env.js`: the text is split into lines on '\n';
 * each line is trimmed, and a line that is empty or starts with '#' is
 * skipped. Otherwise the line is split on '='; the first part is the key and
 * the remaining parts, joined again with '=' and trimmed, are the value. The
 * pair is stored, overwriting an earlier one, only when both are non-empty.
 * Then the required keys that are absent or still hold a "your_" placeholder
 * are listed; the script goes on only when there are none.
 *
 * The variables are collected in a plain object, so assigning to the key
 * "__proto__" runs the prototype setter, which ignores a string: that key is
 * never stored.
 */
module EnvFile {
  import opened JsText

  /** The entry a line contributes, if any. */
  function ParseLine(raw: string): Option<(string, string)> {
    var line := Trim(raw);
    if line == [] || StartsWith(line, "#") then None
    else
      var parts := Split(line, '=');
      var key := parts[0];
      var value := Trim(Join(parts[1..], '='));
      if key != [] && value != [] then Some((key, value)) else None
  }

  /** Splitting on '=': the key part and the rejoined value part. */
  lemma SplitAtFirstEquals(line: string)
    ensures '=' in line ==>
      Split(line, '=')[0] == line[..IndexOf(line, '=')] && Join(Split(line, '=')[1..], '=') == line[IndexOf(line, '=') + 1..]
    ensures '=' !in line ==> Split(line, '=')[0] == line && Join(Split(line, '=')[1..], '=') == []
  {
    SplitHead(line, '=');
    if '=' in line {
      var i := IndexOf(line, '=');
      JoinSplit(line[i + 1..], '=');
      assert Split(line, '=')[1..] == Split(line[i + 1..], '=');
    } else {
      assert Split(line, '=')[1..] == [];
    }
  }

  /** With a '=' in the trimmed line, the entry is the text around the first '='. */
  lemma ParseLineAtEquals(raw: string)
    requires var line := Trim(raw); line != [] && line[0] != '#' && '=' in line
    ensures var line := Trim(raw); var i := IndexOf(line, '=');
      ParseLine(raw) == if i > 0 && Trim(line[i + 1..]) != [] then Some((line[..i], Trim(line[i + 1..]))) else None
  {
    var line := Trim(raw);
    SplitAtFirstEquals(line);
    assert !StartsWith(line, "#");
  }

  /** Without a '=' in the trimmed line there is no value, so no entry. */
  lemma ParseLineNoEquals(raw: string)
    requires '=' !in Trim(raw)
    ensures ParseLine(raw) == None
  {
    SplitAtFirstEquals(Trim(raw));
    assert Trim([]) == [];
  }

  /** A trimmed line that is empty or starts with '#' gives no entry. */
  lemma ParseLineComment(raw: string)
    requires Trim(raw) == [] || Trim(raw)[0] == '#'
    ensures ParseLine(raw) == None
  {
    var line := Trim(raw);
    if line != [] {
      assert StartsWith(line, "#");
    }
  }

  /**
   * A line yields an entry exactly when, once trimmed, it does not start with
   * '#', holds a '=' after at least one character, and has something other
   * than whitespace after that first '='; the key is the text before the
   * first '=' and the value the trimmed text after it, '=' characters included.
   */
  lemma ParseLineSpec(raw: string)
    ensures var line := Trim(raw);
      ParseLine(raw).Some? <==>
        (line != [] && line[0] != '#' && '=' in line && IndexOf(line, '=') > 0
         && Trim(line[IndexOf(line, '=') + 1..]) != [])
    ensures var line := Trim(raw);
      ParseLine(raw).Some? ==>
        ParseLine(raw).value == (line[..IndexOf(line, '=')], Trim(line[IndexOf(line, '=') + 1..]))
  {
    var line := Trim(raw);
    if line == [] || line[0] == '#' {
      ParseLineComment(raw);
    } else if '=' !in line {
      ParseLineNoEquals(raw);
    } else {
      ParseLineAtEquals(raw);
    }
  }

  /** A blank line or a comment contributes nothing. */
  lemma SkippedLines(raw: string)
    requires Trim(raw) == [] || Trim(raw)[0] == '#'
    ensures ParseLine(raw) == None
  {
    ParseLineComment(raw);
  }

  /** Text ending in a non-whitespace character does not trim to nothing. */
  lemma TrimKeepsLast(s: string)
    requires s != [] && !IsWhiteSpace(s[|s| - 1])
    ensures Trim(s) != []
  {
    var t := TrimStart(s);
    assert t != [];
    assert t[|t| - 1] == s[|s| - 1];
  }

  /** The first '=' of `key + "=" + value` is the one after the key. */
  lemma FirstEqualsAfterKey(key: string, value: string)
    requires '=' !in key
    ensures var line := key + "=" + value;
      '=' in line && IndexOf(line, '=') == |key| && line[..|key|] == key && line[|key| + 1..] == value
  {
    var line := key + "=" + value;
    assert line[|key|] == '=';
  }

  /** `KEY=VALUE`: the value keeps its own '=' characters. */
  lemma KeyValueLine(key: string, value: string)
    requires key != [] && key[0] != '#' && !IsWhiteSpace(key[0]) && '=' !in key
    requires value != [] && !IsWhiteSpace(value[|value| - 1])
    ensures ParseLine(key + "=" + value) == Some((key, Trim(value)))
  {
    var line := key + "=" + value;
    assert line[0] == key[0] && line[|line| - 1] == value[|value| - 1];
    assert Trim(line) == line;
    FirstEqualsAfterKey(key, value);
    TrimKeepsLast(value);
    ParseLineSpec(line);
  }

  /** The key the prototype setter swallows. */
  const ProtoKey := "__proto__"

  /** The entry stores `key`: it is present and its key is not the swallowed one. */
  predicate Stores(entry: Option<(string, string)>, key: string) {
    entry.Some? && entry.value.0 == key && key != ProtoKey
  }

  /** The line stores `key`. */
  predicate Defines(raw: string, key: string) {
    Stores(ParseLine(raw), key)
  }

  /** `envVars[key] = value` for one entry. */
  function Store(env: map<string, string>, entry: Option<(string, string)>): map<string, string> {
    match entry
    case Some((key, value)) => if key != ProtoKey then env[key := value] else env
    case None => env
  }

  /** One line applied to the variables collected so far. */
  function Apply(env: map<string, string>, raw: string): map<string, string> {
    Store(env, ParseLine(raw))
  }

  /** The variables after the lines, in order. */
  function EnvOf(lines: seq<string>): map<string, string> {
    if lines == [] then map[] else Apply(EnvOf(lines[..|lines| - 1]), lines[|lines| - 1])
  }

  /** The loop over the lines of the file. */
  method ParseEnv(content: string) returns (env: map<string, string>)
    ensures env == EnvOf(Split(content, '\n'))
  {
    var lines := Split(content, '\n');
    env := map[];
    for i := 0 to |lines|
      invariant env == EnvOf(lines[..i])
    {
      assert lines[..i + 1][..i] == lines[..i];
      assert EnvOf(lines[..i + 1]) == Apply(env, lines[i]);
      var entry := ParseLine(lines[i]);
      if entry.Some? {
        var key, value := entry.value.0, entry.value.1;
        if key != ProtoKey {
          env := env[key := value];
        }
      }
    }
    assert lines[..|lines|] == lines;
  }

  /** The variables after the entries, in order. */
  function Collect(entries: seq<Option<(string, string)>>): map<string, string> {
    if entries == [] then map[] else Store(Collect(entries[..|entries| - 1]), entries[|entries| - 1])
  }

  /** The entry of every line. */
  function Parsed(lines: seq<string>): (r: seq<Option<(string, string)>>)
    ensures |r| == |lines| && forall k :: 0 <= k < |lines| ==> r[k] == ParseLine(lines[k])
  {
    seq(|lines|, k requires 0 <= k < |lines| => ParseLine(lines[k]))
  }

  /** Folding the lines is folding their entries. */
  lemma {:induction false} EnvOfIsCollect(lines: seq<string>)
    ensures EnvOf(lines) == Collect(Parsed(lines))
    decreases |lines|
  {
    if lines != [] {
      var init := lines[..|lines| - 1];
      EnvOfIsCollect(init);
      assert Parsed(lines)[..|lines| - 1] == Parsed(init);
    }
  }

  /** What one entry does to one key. */
  lemma StoreAt(env: map<string, string>, entry: Option<(string, string)>, key: string)
    ensures key in Store(env, entry) <==> Stores(entry, key) || key in env
    ensures Stores(entry, key) ==> Store(env, entry)[key] == entry.value.1
    ensures !Stores(entry, key) && key in env ==> Store(env, entry)[key] == env[key]
  {
  }

  /** A key is collected exactly when some entry stores it. */
  lemma {:induction false} CollectHas(entries: seq<Option<(string, string)>>, key: string)
    ensures key in Collect(entries) <==> exists j :: 0 <= j < |entries| && Stores(entries[j], key)
    decreases |entries|
  {
    if entries != [] {
      var init, last := entries[..|entries| - 1], entries[|entries| - 1];
      CollectHas(init, key);
      StoreAt(Collect(init), last, key);
      if exists j :: 0 <= j < |entries| && Stores(entries[j], key) {
        var j :| 0 <= j < |entries| && Stores(entries[j], key);
        if j < |init| {
          assert Stores(init[j], key);
        }
      }
      if exists j :: 0 <= j < |init| && Stores(init[j], key) {
        var j :| 0 <= j < |init| && Stores(init[j], key);
        assert Stores(entries[j], key);
      }
    }
  }

  /** A key's collected value is the one of the last entry storing it. */
  lemma {:induction false} CollectLookup(entries: seq<Option<(string, string)>>, key: string, j: nat)
    requires j < |entries| && Stores(entries[j], key)
    requires forall j' :: j < j' < |entries| ==> !Stores(entries[j'], key)
    ensures key in Collect(entries) && Collect(entries)[key] == entries[j].value.1
    decreases |entries|
  {
    var init, last := entries[..|entries| - 1], entries[|entries| - 1];
    StoreAt(Collect(init), last, key);
    if j < |init| {
      assert Stores(init[j], key);
      forall j' | j < j' < |init| ensures !Stores(init[j'], key) {
        assert init[j'] == entries[j'];
      }
      CollectLookup(init, key, j);
    }
  }

  /** A key is present exactly when some line defines it. */
  lemma EnvHas(lines: seq<string>, key: string)
    ensures key in EnvOf(lines) <==> exists j :: 0 <= j < |lines| && Defines(lines[j], key)
  {
    EnvOfIsCollect(lines);
    CollectHas(Parsed(lines), key);
  }

  /** A key's value is the one given by the last line that defines it. */
  lemma EnvLookup(lines: seq<string>, key: string, j: nat)
    requires j < |lines| && Defines(lines[j], key)
    requires forall j' :: j < j' < |lines| ==> !Defines(lines[j'], key)
    ensures key in EnvOf(lines) && EnvOf(lines)[key] == ParseLine(lines[j]).value.1
  {
    EnvOfIsCollect(lines);
    CollectLookup(Parsed(lines), key, j);
  }

  /** A later line for the same key overwrites its value and leaves every other key as it was. */
  lemma LaterLineOverrides(lines: seq<string>, raw: string, key: string, other: string)
    requires Defines(raw, key) && other != key
    ensures EnvOf(lines + [raw])[key] == ParseLine(raw).value.1
    ensures other in EnvOf(lines + [raw]) <==> other in EnvOf(lines)
    ensures other in EnvOf(lines) ==> EnvOf(lines + [raw])[other] == EnvOf(lines)[other]
  {
    assert (lines + [raw])[..|lines|] == lines;
  }

  /** What `if (key && value)` lets through: a non-empty key without '=' and a non-empty, trimmed value. */
  predicate WellFormedEntry(key: string, value: string) {
    key != [] && '=' !in key && value != [] && !IsWhiteSpace(value[0]) && !IsWhiteSpace(value[|value| - 1])
  }

  /** Every entry a line yields is well formed. */
  lemma ParseLineShape(raw: string)
    ensures ParseLine(raw).Some? ==> WellFormedEntry(ParseLine(raw).value.0, ParseLine(raw).value.1)
  {
  }

  /** Every stored variable has a well-formed key and value, and none is "__proto__". */
  lemma {:induction false} StoredEntriesWellFormed(lines: seq<string>)
    ensures forall k :: k in EnvOf(lines) ==> k != ProtoKey && WellFormedEntry(k, EnvOf(lines)[k])
    decreases |lines|
  {
    if lines != [] {
      var init := lines[..|lines| - 1];
      var entry := ParseLine(lines[|lines| - 1]);
      StoredEntriesWellFormed(init);
      ParseLineShape(lines[|lines| - 1]);
      assert EnvOf(lines) == Store(EnvOf(init), entry);
      forall k | k in EnvOf(lines)
        ensures k != ProtoKey && WellFormedEntry(k, EnvOf(lines)[k])
      {
        StoreAt(EnvOf(init), entry, k);
      }
    }
  }

  /** A line that stores nothing leaves the variables as they are. */
  lemma InertLine(lines: seq<string>, raw: string)
    requires ParseLine(raw).None?
    ensures EnvOf(lines + [raw]) == EnvOf(lines)
  {
    assert (lines + [raw])[..|lines|] == lines;
    assert EnvOf(lines + [raw]) == Apply(EnvOf(lines), raw);
  }

  const RequiredKeys: seq<string> := ["OPENAI_API_KEY", "GOOGLE_API_KEY", "GOOGLE_CSE_ID"]

  /** `!envVars[key] || envVars[key].includes('your_')` */
  predicate IsMissing(env: map<string, string>, key: string) {
    key !in env || env[key] == [] || Contains(env[key], "your_")
  }

  /** `keys.filter(key => IsMissing(env, key))` */
  function MissingAmong(keys: seq<string>, env: map<string, string>): (r: seq<string>)
    ensures forall k :: k in r <==> k in keys && IsMissing(env, k)
    ensures SubsequenceOf(r, keys)
  {
    if keys == [] then []
    else if IsMissing(env, keys[0]) then [keys[0]] + MissingAmong(keys[1..], env)
    else MissingAmong(keys[1..], env)
  }

  /** The required keys that are missing, in required-list order. */
  function MissingKeys(env: map<string, string>): (r: seq<string>)
    ensures forall k :: k in r <==> k in RequiredKeys && IsMissing(env, k)
    ensures SubsequenceOf(r, RequiredKeys)
  {
    MissingAmong(RequiredKeys, env)
  }

  /** The script goes on exactly when every required key holds a real value. */
  lemma ProceedsIffAllPresent(env: map<string, string>)
    ensures MissingKeys(env) == [] <==>
      forall k :: k in RequiredKeys ==> k in env && env[k] != [] && !Contains(env[k], "your_")
  {
    var m := MissingKeys(env);
    if m != [] {
      assert m[0] in m;
    }
  }

  /** Reading the file and checking the keys. */
  method LoadEnv(content: string) returns (env: map<string, string>, missing: seq<string>)
    ensures env == EnvOf(Split(content, '\n'))
    ensures forall k :: k in missing <==> k in RequiredKeys && IsMissing(env, k)
    ensures SubsequenceOf(missing, RequiredKeys)
  {
    env := ParseEnv(content);
    missing := MissingKeys(env);
  }
}
