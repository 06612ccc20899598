/**
 * The process environment as the store sees it — a table from names to
 * strings — and what `set`, `get` and `all` do to it, as functions of the
 * table. `putenv` and `getenv` are the only ways the store touches it.
 */
module EnvTable {
  import opened PhpValues
  import opened PhpStrings
  import opened PhpNumeric
  import opened ObjectPattern
  import opened Cast

  type Table = map<string, string>

  /** PHP `empty()` on a string: true for "" and "0". */
  predicate IsEmptyKey(key: string) {
    key == "" || key == "0"
  }

  /** The variable a `putenv` setting names: everything before its first `=`. */
  function SettingName(setting: string): (name: string)
    ensures |name| <= |setting| && '=' !in name
    ensures '=' !in setting ==> name == setting
  {
    setting[..FirstIndex(setting, '=')]
  }

  /**
   * PHP `putenv($setting)`: a setting that is empty or starts with `=` is a
   * ValueError; `name=value` sets `name` (the value may be empty or hold more
   * `=`); a setting without `=` removes the variable.
   */
  function PutEnv(table: Table, setting: string): (r: Result<Table>)
    ensures r.Err? <==> setting == [] || setting[0] == '='
    ensures r.Err? ==> r.error == ValueError
    ensures r.Ok? ==> forall k :: k != SettingName(setting) ==>
      (k in r.value <==> k in table) && (k in table ==> r.value[k] == table[k])
    ensures r.Ok? && '=' !in setting ==> SettingName(setting) !in r.value
    ensures r.Ok? && '=' in setting ==>
      SettingName(setting) in r.value &&
      setting == SettingName(setting) + "=" + r.value[SettingName(setting)]
  {
    if setting == [] || setting[0] == '=' then Err(ValueError)
    else
      var i := FirstIndex(setting, '=');
      if i == |setting| then Ok(table - {setting})
      else
        assert setting == setting[..i] + "=" + setting[i + 1..];
        Ok(table[setting[..i] := setting[i + 1..]])
  }

  /**
   * The string `set` writes for a non-null value, as `"$key=$value"` renders
   * it after objects are serialized and arrays JSON-encoded: `true` is "1",
   * `false` is "", ints in decimal.
   */
  function EnvString(rt: Runtime, v: Value): (r: Result<string>)
    requires !v.Null?
    ensures r.Err? <==> v.Arr? && rt.jsonEncode(v).None?
    ensures r.Err? ==> r.error == JsonException
  {
    match v
    case Obj(_, _) => Ok(rt.serialize(v))
    case Arr(_) => if rt.jsonEncode(v).Some? then Ok(rt.jsonEncode(v).value) else Err(JsonException)
    case Str(s) => Ok(s)
    case Int(i) => Ok(IntToString(i))
    case Float(f) => Ok(rt.floatToString(f))
    case Bool(b) => Ok(if b then "1" else "")
  }

  /** `set($key, $value)` on the table; an empty key changes nothing, `null` removes. */
  function Assign(rt: Runtime, table: Table, key: string, value: Value): (r: Result<Table>)
    ensures IsEmptyKey(key) ==> r == Ok(table)
    ensures r.Err? ==>
      (r.error == ValueError && key[0] == '=') || (r.error == JsonException && value.Arr?)
  {
    if IsEmptyKey(key) then Ok(table)
    else if value.Null? then PutEnv(table, key)
    else
      match EnvString(rt, value)
      case Err(e) => Err(e)
      case Ok(text) => PutEnv(table, key + "=" + text)
  }

  /** `get($key, $default)`: the default for an unset variable, else its cast value. */
  function Lookup(rt: Runtime, table: Table, key: string, default: Value): (r: Result<Value>)
    ensures key !in table ==> r == Ok(default)
    ensures key in table ==> r == CastValue(rt, Str(table[key]))
    ensures r.Err? ==> key in table && r.error == TypeError
  {
    if key in table then CastValue(rt, Str(table[key])) else Ok(default)
  }

  /** `all()`: every variable's cast value, or the error of a variable that does not cast. */
  function Snapshot(rt: Runtime, table: Table): (r: Result<map<string, Value>>)
    ensures r.Ok? <==> forall k :: k in table ==> Lookup(rt, table, k, Null).Ok?
    ensures r.Ok? ==> r.value.Keys == table.Keys
    ensures r.Ok? ==> forall k :: k in table ==> Lookup(rt, table, k, Null) == Ok(r.value[k])
    ensures r.Err? ==> r.error == TypeError
  {
    if forall k :: k in table ==> CastValue(rt, Str(table[k])).Ok? then
      Ok(map k | k in table :: CastValue(rt, Str(table[k])).value)
    else Err(TypeError)
  }

  /** A map giving every variable its cast value is what `all()` returns. */
  lemma SnapshotOf(rt: Runtime, table: Table, m: map<string, Value>)
    requires m.Keys == table.Keys
    requires forall k :: k in m ==> Lookup(rt, table, k, Null) == Ok(m[k])
    ensures Snapshot(rt, table) == Ok(m)
  {
    assert Snapshot(rt, table).Ok?;
    assert Snapshot(rt, table).value == m;
  }

  /** One variable that does not cast makes `all()` fail. */
  lemma SnapshotFails(rt: Runtime, table: Table, key: string)
    requires key in table && Lookup(rt, table, key, Null).Err?
    ensures Snapshot(rt, table) == Err(TypeError)
  {
  }

  /** The first `=` of `key=text` is the first `=` of the key, or the one `set` adds. */
  lemma SettingNameOfAssign(key: string, text: string)
    ensures SettingName(key + "=" + text) == SettingName(key)
  {
    var s := key + "=" + text;
    var i := FirstIndex(key, '=');
    var j := FirstIndex(s, '=');
    assert forall k :: 0 <= k < |key| ==> s[k] == key[k];
    assert s[|key|] == '=';
    if i < |key| {
      assert s[i] == '=';
    }
    assert i == j;
    assert s[..j] == key[..i];
  }

  /** Which calls of `set` fail: a key opening with `=`, or an array JSON cannot encode. */
  lemma AssignFails(rt: Runtime, table: Table, key: string, value: Value)
    ensures Assign(rt, table, key, value).Err? <==>
      !IsEmptyKey(key) && (key[0] == '=' || (value.Arr? && rt.jsonEncode(value).None?))
  {
  }

  /** `set` changes at most the variable the key names; a failed `set` changes nothing. */
  lemma AssignFrame(rt: Runtime, table: Table, key: string, value: Value, other: string)
    requires Assign(rt, table, key, value).Ok?
    requires IsEmptyKey(key) || other != SettingName(key)
    ensures var t := Assign(rt, table, key, value).value;
      (other in t <==> other in table) && (other in table ==> t[other] == table[other])
  {
    if !IsEmptyKey(key) && !value.Null? {
      SettingNameOfAssign(key, EnvString(rt, value).value);
    }
  }

  /** For a key without `=`, a non-null value is stored as the string `set` renders. */
  lemma AssignStores(rt: Runtime, table: Table, key: string, value: Value)
    requires !IsEmptyKey(key) && '=' !in key && !value.Null?
    requires EnvString(rt, value).Ok?
    ensures Assign(rt, table, key, value) == Ok(table[key := EnvString(rt, value).value])
  {
    var text := EnvString(rt, value).value;
    SettingNameOfAssign(key, text);
    var t := Assign(rt, table, key, value).value;
    assert key + "=" + text == key + "=" + t[key];
    assert t[key] == text by {
      assert (key + "=" + text)[|key| + 1..] == text;
      assert (key + "=" + t[key])[|key| + 1..] == t[key];
    }
  }

  /** Setting a key to `null` removes it, so `get` then gives the default. */
  lemma GetAfterRemove(rt: Runtime, table: Table, key: string, default: Value)
    requires !IsEmptyKey(key) && '=' !in key
    ensures Assign(rt, table, key, Null) == Ok(table - {key})
    ensures Lookup(rt, table - {key}, key, default) == Ok(default)
  {
  }

  /** Reading a key back after setting it to a string casts that string. */
  lemma GetAfterSetString(rt: Runtime, table: Table, key: string, s: string, default: Value)
    requires !IsEmptyKey(key) && '=' !in key
    ensures Assign(rt, table, key, Str(s)).Ok?
    ensures Lookup(rt, Assign(rt, table, key, Str(s)).value, key, default) == CastValue(rt, Str(s))
  {
    AssignStores(rt, table, key, Str(s));
  }

  /** An int survives `set` then `get`: it is written in decimal and cast back. */
  lemma GetAfterSetInt(rt: Runtime, table: Table, key: string, i: int, default: Value)
    requires !IsEmptyKey(key) && '=' !in key && IsPhpInt(i)
    ensures Assign(rt, table, key, Int(i)).Ok?
    ensures Lookup(rt, Assign(rt, table, key, Int(i)).value, key, default) == Ok(Int(i))
  {
    AssignStores(rt, table, key, Int(i));
    CastIntRoundTrip(rt, i);
  }

  /** `true` does not survive `set` then `get`: it is written as "1" and read back as the int 1. */
  lemma GetAfterSetTrue(rt: Runtime, table: Table, key: string, default: Value)
    requires !IsEmptyKey(key) && '=' !in key
    ensures Assign(rt, table, key, Bool(true)) == Ok(table[key := "1"])
    ensures Lookup(rt, table[key := "1"], key, default) == Ok(Int(1))
  {
    AssignStores(rt, table, key, Bool(true));
    assert IntToString(1) == "1";
    CastIntRoundTrip(rt, 1);
  }

  /** `false` is written as "" and, since "" is not JSON, read back as "". */
  lemma GetAfterSetFalse(rt: Runtime, table: Table, key: string, default: Value)
    requires !IsEmptyKey(key) && '=' !in key
    requires rt.jsonDecode("").None?
    ensures Assign(rt, table, key, Bool(false)) == Ok(table[key := ""])
    ensures Lookup(rt, table[key := ""], key, default) == Ok(Str(""))
  {
    AssignStores(rt, table, key, Bool(false));
    assert !IsNumeric("");
    assert !IsSerialized("");
  }

  /** For a key without `=`, `set` stores the rendered value, removes on `null`, or fails as rendering does. */
  lemma AssignPlainKey(rt: Runtime, table: Table, key: string, value: Value)
    requires !IsEmptyKey(key) && '=' !in key
    ensures Assign(rt, table, key, value) ==
      if value.Null? then Ok(table - {key})
      else if EnvString(rt, value).Ok? then Ok(table[key := EnvString(rt, value).value])
      else Err(JsonException)
  {
    if !value.Null? && EnvString(rt, value).Ok? {
      AssignStores(rt, table, key, value);
    }
  }

  /** A second `set` of the same key undoes the first: the table ends as if only the second had run. */
  lemma AssignOverwrites(rt: Runtime, table: Table, key: string, a: Value, b: Value)
    requires !IsEmptyKey(key) && '=' !in key
    requires Assign(rt, table, key, a).Ok?
    ensures Assign(rt, Assign(rt, table, key, a).value, key, b).Ok? == Assign(rt, table, key, b).Ok?
    ensures Assign(rt, table, key, b).Ok? ==>
      Assign(rt, Assign(rt, table, key, a).value, key, b) == Assign(rt, table, key, b)
  {
    var t := Assign(rt, table, key, a).value;
    AssignPlainKey(rt, table, key, a);
    AssignPlainKey(rt, table, key, b);
    AssignPlainKey(rt, t, key, b);
    if a.Null? {
      assert t - {key} == table - {key};
    } else {
      assert t - {key} == table - {key} by {
        RemoveAfterStore(table, key, EnvString(rt, a).value);
      }
    }
    if !b.Null? && EnvString(rt, b).Ok? {
      SameBesideKey(t, table, key, EnvString(rt, b).value);
    }
  }

  /** Removing a key just stored leaves the table as it was without it. */
  lemma RemoveAfterStore(table: Table, key: string, x: string)
    ensures table[key := x] - {key} == table - {key}
  {
  }

  /** Two tables that agree everywhere but at `key` agree once `key` is given one value in both. */
  lemma SameBesideKey(t: Table, u: Table, key: string, x: string)
    requires t - {key} == u - {key}
    ensures t[key := x] == u[key := x]
  {
    forall k | k != key
      ensures (k in t[key := x] <==> k in u[key := x]) && (k in t ==> k in u && t[k] == u[k])
    {
      assert (k in t <==> k in t - {key}) && (k in u <==> k in u - {key});
      if k in t { assert t[k] == (t - {key})[k] == (u - {key})[k] == u[k]; }
    }
  }

  /** `get` of any other variable is unaffected by `set`. */
  lemma GetOtherKey(rt: Runtime, table: Table, key: string, value: Value, other: string, default: Value)
    requires Assign(rt, table, key, value).Ok?
    requires IsEmptyKey(key) || other != SettingName(key)
    ensures Lookup(rt, Assign(rt, table, key, value).value, other, default) == Lookup(rt, table, other, default)
  {
    AssignFrame(rt, table, key, value, other);
  }

  /**
   * `loadYaml` and `loadJson` once the file is parsed: `set` each key to its
   * cast value, in order. The cast runs first; an int key then fails the
   * `string` parameter of `set` under strict types. The first error stops the
   * loop, keeping what earlier pairs set.
   */
  function AssignPairs(rt: Runtime, table: Table, data: seq<(Key, Value)>): (r: (Table, Option<Error>))
    ensures data == [] ==> r == (table, None)
    ensures r.1.Some? ==> r.1.value in {TypeError, ValueError, JsonException}
    decreases |data|
  {
    if data == [] then (table, None)
    else
      var p := AssignPairs(rt, table, data[..|data| - 1]);
      if p.1.Some? then p
      else
        var (key, value) := data[|data| - 1];
        match CastValue(rt, value)
        case Err(e) => (p.0, Some(e))
        case Ok(v) =>
          if key.IntKey? then (p.0, Some(TypeError))
          else
            match Assign(rt, p.0, key.s, v)
            case Err(e) => (p.0, Some(e))
            case Ok(t) => (t, None)
  }

  /** Data with an int key (a list, or a decimal string key that PHP turned into an int) always fails. */
  lemma {:induction false} IntKeyFails(rt: Runtime, table: Table, data: seq<(Key, Value)>, i: nat)
    requires i < |data| && data[i].0.IntKey?
    ensures AssignPairs(rt, table, data).1.Some?
    decreases |data|
  {
    if i < |data| - 1 {
      IntKeyFails(rt, table, data[..|data| - 1], i);
    }
  }

  /** Loading parsed data changes no variable that none of its string keys names. */
  lemma {:induction false} AssignPairsFrame(rt: Runtime, table: Table, data: seq<(Key, Value)>, other: string)
    requires forall i :: 0 <= i < |data| && data[i].0.StrKey? ==>
      IsEmptyKey(data[i].0.s) || other != SettingName(data[i].0.s)
    ensures var t := AssignPairs(rt, table, data).0;
      (other in t <==> other in table) && (other in table ==> t[other] == table[other])
    decreases |data|
  {
    if data != [] {
      var init := data[..|data| - 1];
      assert forall i :: 0 <= i < |init| ==> init[i] == data[i];
      AssignPairsFrame(rt, table, init, other);
      var p := AssignPairs(rt, table, init);
      var (key, value) := data[|data| - 1];
      if p.1.None? && key.StrKey? && CastValue(rt, value).Ok? &&
         Assign(rt, p.0, key.s, CastValue(rt, value).value).Ok? {
        AssignFrame(rt, p.0, key.s, CastValue(rt, value).value, other);
      }
    }
  }

  /** A string-keyed pair after data that loaded cleanly is `set` to its cast value. */
  lemma PairsStep(rt: Runtime, table: Table, data: seq<(Key, Value)>, key: string, value: Value)
    requires AssignPairs(rt, table, data).1.None?
    requires CastValue(rt, value).Ok?
    requires Assign(rt, AssignPairs(rt, table, data).0, key, CastValue(rt, value).value).Ok?
    ensures AssignPairs(rt, table, data + [(StrKey(key), value)]) ==
      (Assign(rt, AssignPairs(rt, table, data).0, key, CastValue(rt, value).value).value, None)
  {
    assert (data + [(StrKey(key), value)])[..|data|] == data;
  }

  /** A pair whose cast or `set` throws ends the loading of parsed data with that exception, keeping the table. */
  lemma PairsStepFails(rt: Runtime, table: Table, data: seq<(Key, Value)>, key: Key, value: Value)
    requires AssignPairs(rt, table, data).1.None?
    ensures var t := AssignPairs(rt, table, data).0;
      var c := CastValue(rt, value);
      var r := AssignPairs(rt, table, data + [(key, value)]);
      (c.Err? ==> r == (t, Some(c.error))) &&
      (c.Ok? && key.IntKey? ==> r == (t, Some(TypeError))) &&
      (c.Ok? && key.StrKey? && Assign(rt, t, key.s, c.value).Err? ==>
        r == (t, Some(Assign(rt, t, key.s, c.value).error)))
  {
    assert (data + [(key, value)])[..|data|] == data;
  }

  /** Loading parsed data that failed part-way ends as it stood when it failed. */
  lemma {:induction false} PairsStopAtFailure(rt: Runtime, table: Table, data: seq<(Key, Value)>, i: nat)
    requires i <= |data| && AssignPairs(rt, table, data[..i]).1.Some?
    ensures AssignPairs(rt, table, data) == AssignPairs(rt, table, data[..i])
    decreases |data| - i
  {
    if i < |data| {
      assert data[..i + 1][..i] == data[..i];
      PairsStopAtFailure(rt, table, data, i + 1);
    } else {
      assert data[..i] == data;
    }
  }
}
