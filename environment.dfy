/**
 * The `Environment` store itself: the environment table it reads and writes
 * through `getenv` and `putenv`, and the operations that change it — `set`,
 * the `.env` loader `load`, and the loop of `loadYaml`/`loadJson` — together
 * with `all`, each proved against the functions of the modules it imports.
 */
module NitierEnvironment {
  import opened PhpValues
  import opened Cast
  import opened EnvTable
  import opened DotEnv

  class Environment {
    /** The PHP library functions the store calls. */
    const rt: Runtime
    /** The process environment. */
    var table: Table

    constructor (rt: Runtime, table: Table)
      ensures this.rt == rt && this.table == table
    {
      this.rt := rt;
      this.table := table;
    }

    /** `get($key, $default)`. */
    function Get(key: string, default: Value): (r: Result<Value>)
      reads this
      ensures key !in table ==> r == Ok(default)
      ensures key in table ==> r == CastValue(rt, Str(table[key]))
    {
      Lookup(rt, table, key, default)
    }

    /**
     * `set($key, $value)`: nothing for an empty key; `putenv($key)` for
     * `null`; otherwise serialize objects, JSON-encode arrays and
     * `putenv("$key=$value")`. An exception leaves the table as it was.
     */
    method Set(key: string, value: Value) returns (r: Outcome)
      modifies this
      ensures Assign(rt, old(table), key, value).Ok? ==>
        r == Pass && table == Assign(rt, old(table), key, value).value
      ensures Assign(rt, old(table), key, value).Err? ==>
        r == Fail(Assign(rt, old(table), key, value).error) && table == old(table)
    {
      if IsEmptyKey(key) {
        return Pass;
      }
      var setting := key;
      if !value.Null? {
        var text := EnvString(rt, value);
        if text.Err? {
          return Fail(text.error);
        }
        setting := key + "=" + text.value;
      }
      var put := PutEnv(table, setting);
      if put.Err? {
        return Fail(put.error);
      }
      table := put.value;
      r := Pass;
    }

    /**
     * One pass of the line loop in `load`: skip comments and empty keys, warn
     * before overwriting a key, cast the value and `set` it.
     */
    method LoadOneLine(line: string, warnings: seq<string>) returns (r: Outcome, warnings': seq<string>)
      modifies this
      ensures var l := LoadLine(rt, Loaded(old(table), warnings, None), line);
        table == l.table && warnings' == l.warnings &&
        r == (if l.failure.Some? then Fail(l.failure.value) else Pass)
    {
      warnings' := warnings;
      var parsed := ParseLine(line);
      if parsed.None? {
        return Pass, warnings';
      }
      var key := parsed.value.0;
      if key in table {
        warnings' := warnings' + [OverwriteWarning(key)];
      }
      var cast := CastValue(rt, Str(parsed.value.1));
      if cast.Err? {
        return Fail(cast.error), warnings';
      }
      r := Set(key, cast.value);
    }

    /**
     * `load($filePaths)` on the lines of each file in turn (`None` for a file
     * that is missing or unreadable). Returns how the load ended and the
     * warnings raised for keys it overwrote.
     */
    method Load(files: seq<Option<seq<string>>>) returns (r: Outcome, warnings: seq<string>)
      modifies this
      ensures var l := LoadFiles(rt, Loaded(old(table), [], None), files);
        table == l.table && warnings == l.warnings &&
        r == (if l.failure.Some? then Fail(l.failure.value) else Pass)
    {
      ghost var start := Loaded(table, [], None);
      warnings := [];
      var f := 0;
      while f < |files|
        invariant 0 <= f <= |files|
        invariant LoadFiles(rt, start, files[..f]) == Loaded(table, warnings, None)
      {
        FoldLast(FileStep(LineStep(rt)), start, files, f);
        if files[f].None? {
          FileStepStops(LineStep(rt));
          FoldStopsAt(FileStep(LineStep(rt)), start, files, f + 1);
          return Fail(RuntimeException), warnings;
        }
        var lines := files[f].value;
        ghost var before := Loaded(table, warnings, None);
        var i := 0;
        while i < |lines|
          invariant 0 <= i <= |lines|
          invariant LoadLines(rt, before, lines[..i]) == Loaded(table, warnings, None)
        {
          FoldLast(LineStep(rt), before, lines, i);
          r, warnings := LoadOneLine(lines[i], warnings);
          if r.Fail? {
            StopsAtFailedLine(rt, start, files, f, i + 1);
            return;
          }
          i := i + 1;
        }
        assert lines[..i] == lines;
        f := f + 1;
      }
      assert files[..f] == files;
      r := Pass;
    }

    /**
     * The loop of `loadYaml` and `loadJson` over the parsed data: `set` each
     * key to its cast value, stopping at the first exception.
     */
    method LoadParsed(data: seq<(Key, Value)>) returns (r: Outcome)
      modifies this
      ensures var p := AssignPairs(rt, old(table), data);
        table == p.0 && r == (if p.1.Some? then Fail(p.1.value) else Pass)
    {
      ghost var start := table;
      var i := 0;
      while i < |data|
        invariant 0 <= i <= |data|
        invariant AssignPairs(rt, start, data[..i]) == (table, None)
      {
        var (key, value) := data[i];
        assert data[..i + 1] == data[..i] + [(key, value)];
        PairsStepFails(rt, start, data[..i], key, value);
        var cast := CastValue(rt, value);
        if cast.Err? {
          PairsStopAtFailure(rt, start, data, i + 1);
          return Fail(cast.error);
        }
        if key.IntKey? {
          PairsStopAtFailure(rt, start, data, i + 1);
          return Fail(TypeError);
        }
        var outcome := Set(key.s, cast.value);
        if outcome.Fail? {
          PairsStopAtFailure(rt, start, data, i + 1);
          return outcome;
        }
        PairsStep(rt, start, data[..i], key.s, value);
        i := i + 1;
      }
      assert data[..i] == data;
      r := Pass;
    }

    /** `all()`: every variable with its cast value, in whatever order the environment lists them. */
    method All() returns (r: Result<map<string, Value>>)
      ensures r == Snapshot(rt, table)
    {
      var variables := map[];
      var rest := table.Keys;
      while rest != {}
        invariant rest <= table.Keys
        invariant variables.Keys == table.Keys - rest
        invariant forall k :: k in variables ==> Lookup(rt, table, k, Null) == Ok(variables[k])
        decreases |rest|
      {
        var key :| key in rest;
        var cast := CastValue(rt, Str(table[key]));
        if cast.Err? {
          SnapshotFails(rt, table, key);
          return Err(cast.error);
        }
        variables := variables[key := cast.value];
        rest := rest - {key};
      }
      SnapshotOf(rt, table, variables);
      r := Ok(variables);
    }
  }
}
