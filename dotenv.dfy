/**
 * The `.env` reader behind `load`: how one line becomes a key and a value
 * (`cleanValue` and the line loop), and what loading a sequence of lines or
 * files does to the environment table, as functions the loader is proved
 * against.
 */
module DotEnv {
  import opened PhpValues
  import opened PhpStrings
  import opened PhpNumeric
  import opened ObjectPattern
  import opened Cast
  import opened EnvTable

  /**
   * `cleanValue`: no value stays no value; otherwise trim it, then drop one
   * pair of matching double or single quotes around it.
   */
  function CleanValue(value: Option<string>): (r: Option<string>)
    ensures r.Some? <==> value.Some?
    ensures r.Some? ==> |r.value| <= |value.value|
  {
    match value
    case None => None
    case Some(v) =>
      var t := Trim(v);
      if (StartsWith(t, "\"") && EndsWith(t, "\"")) || (StartsWith(t, "'") && EndsWith(t, "'")) then
        Some(if |t| >= 2 then t[1..|t| - 1] else "")
      else Some(t)
  }

  predicate IsQuote(q: char) {
    q == '"' || q == '\''
  }

  /** Whitespace around a quoted value and the one pair of quotes are removed; the inside is kept as written. */
  lemma CleanUnquotes(pre: string, q: char, body: string, post: string)
    requires AllTrimChars(pre) && AllTrimChars(post) && IsQuote(q)
    ensures CleanValue(Some(pre + ([q] + body + [q]) + post)) == Some(body)
  {
    var mid := [q] + body + [q];
    TrimExact(pre, mid, post);
    assert mid[..1] == [q] && mid[|mid| - 1..] == [q];
    assert mid[1..|mid| - 1] == body;
    assert StartsWith(mid, [q]) && EndsWith(mid, [q]);
  }

  /** A value whose trimmed ends are not a matching pair of quotes is only trimmed. */
  lemma CleanKeepsUnquoted(v: string)
    requires var t := Trim(v); t != [] && !(IsQuote(t[0]) && t[|t| - 1] == t[0])
    ensures CleanValue(Some(v)) == Some(Trim(v))
  {
    var t := Trim(v);
    if StartsWith(t, "\"") { assert t[0] == '"'; }
    if StartsWith(t, "'") { assert t[0] == '\''; }
    if EndsWith(t, "\"") { assert t[|t| - 1] == '"'; }
    if EndsWith(t, "'") { assert t[|t| - 1] == '\''; }
  }

  /** A lone quote counts as both ends of a pair and leaves nothing. */
  lemma CleanLoneQuote(q: char)
    requires IsQuote(q)
    ensures CleanValue(Some([q])) == Some("")
  {
    TrimExact([], [q], []);
    assert [] + [q] + [] == [q];
  }

  /** Cleaning an already cleaned value changes it no further, unless it is still quoted. */
  lemma CleanTwiceOnUnquoted(v: string)
    requires var t := Trim(v); t != [] && !(IsQuote(t[0]) && t[|t| - 1] == t[0])
    ensures CleanValue(CleanValue(Some(v))) == CleanValue(Some(v))
  {
    CleanKeepsUnquoted(v);
    TrimIdempotent(v);
    CleanKeepsUnquoted(Trim(v));
  }

  /**
   * One line of a `.env` file: a line whose trimmed text starts with `#` is a
   * comment; otherwise the key is the trimmed text before the first `=` and
   * the value the cleaned text after it ("" when there is no `=`). A line
   * whose key is empty or "0" is skipped.
   */
  function ParseLine(line: string): (r: Option<(string, string)>)
    ensures r.Some? ==> !IsEmptyKey(r.value.0) && '=' !in r.value.0
    ensures r.Some? ==> r.value.0 == Trim(line[..FirstIndex(line, '=')])
    ensures StartsWith(Trim(line), "#") ==> r.None?
  {
    if StartsWith(Trim(line), "#") then None
    else
      var i := FirstIndex(line, '=');
      var key := Trim(line[..i]);
      var value := CleanValue(if i < |line| then Some(line[i + 1..]) else None);
      if IsEmptyKey(key) then None
      else
        assert '=' !in line[..i];
        Some((key, value.GetOr("")))
  }

  /** `KEY=VALUE`: only the first `=` splits, so the value may hold more `=`. */
  lemma ParseSplitsAtFirstEquals(key: string, value: string)
    requires '=' !in key && !IsEmptyKey(Trim(key))
    requires !StartsWith(Trim(key + "=" + value), "#")
    ensures ParseLine(key + "=" + value) == Some((Trim(key), CleanValue(Some(value)).value))
  {
    var line := key + "=" + value;
    var i := FirstIndex(line, '=');
    assert forall k :: 0 <= k < |key| ==> line[k] == key[k];
    assert line[|key|] == '=';
    assert i == |key|;
    assert line[..i] == key;
    assert line[i + 1..] == value;
  }

  /** A line without `=` sets its trimmed text to "". */
  lemma ParseWithoutEquals(line: string)
    requires '=' !in line && !IsEmptyKey(Trim(line)) && !StartsWith(Trim(line), "#")
    ensures ParseLine(line) == Some((Trim(line), ""))
  {
    assert line[..|line|] == line;
  }

  /** The message `trigger_error` raises before a loaded key overwrites an existing one. */
  function OverwriteWarning(key: string): string {
    "Warning: The key '" + key + "' already exists and will be overwritten."
  }

  /** Where a load stands: the table so far, the warnings raised, and the error that ended it, if any. */
  datatype Loaded = Loaded(table: Table, warnings: seq<string>, failure: Option<Error>)

  /**
   * One line of the loop in `load`: warn when the key is already set, cast
   * the value, and `set` it. An error stops the load with the table as it was.
   */
  function LoadLine(rt: Runtime, s: Loaded, line: string): (r: Loaded)
    ensures s.failure.Some? ==> r == s
    ensures r.failure.Some? ==> r.table == s.table
    ensures |s.warnings| <= |r.warnings| <= |s.warnings| + 1 && r.warnings[..|s.warnings|] == s.warnings
  {
    if s.failure.Some? then s
    else
      match ParseLine(line)
      case None => s
      case Some((key, value)) =>
        var warnings := if key in s.table then s.warnings + [OverwriteWarning(key)] else s.warnings;
        match StoreLine(rt, s.table, key, value)
        case Err(e) => Loaded(s.table, warnings, Some(e))
        case Ok(t) => Loaded(t, warnings, None)
  }

  /** `set($key, castValue($value))` for one parsed line: the cast's error, or what `set` makes of the table. */
  function StoreLine(rt: Runtime, table: Table, key: string, value: string): (r: Result<Table>)
    ensures CastValue(rt, Str(value)).Err? ==> r == Err(TypeError)
    ensures CastValue(rt, Str(value)).Ok? ==> r == Assign(rt, table, key, CastValue(rt, Str(value)).value)
  {
    match CastValue(rt, Str(value))
    case Err(e) => Err(e)
    case Ok(v) => Assign(rt, table, key, v)
  }

  /** A step of a load: one input applied to where the load stands. */
  type Step<!T> = (Loaded, T) -> Loaded

  /** A step that leaves a failed load as it is. */
  ghost predicate StopsOnFailure<T(!new)>(step: Step<T>) {
    forall s: Loaded, x: T :: s.failure.Some? ==> step(s, x) == s
  }

  /** The inputs applied one after the other, first to last. */
  function Fold<T>(step: Step<T>, s: Loaded, xs: seq<T>): Loaded
    decreases |xs|
  {
    if xs == [] then s else step(Fold(step, s, xs[..|xs| - 1]), xs[|xs| - 1])
  }

  /** A prefix one input longer is the shorter prefix followed by that input. */
  lemma FoldLast<T>(step: Step<T>, s: Loaded, xs: seq<T>, i: nat)
    requires i < |xs|
    ensures Fold(step, s, xs[..i + 1]) == step(Fold(step, s, xs[..i]), xs[i])
  {
    assert xs[..i + 1][..i] == xs[..i];
  }

  /** The line loop of `load` as a step. */
  function LineStep(rt: Runtime): Step<string> {
    (s: Loaded, line: string) => LoadLine(rt, s, line)
  }

  /** The line loop over one file's lines, in order. */
  function LoadLines(rt: Runtime, s: Loaded, lines: seq<string>): (r: Loaded)
    ensures lines == [] ==> r == s
    ensures s.failure.Some? ==> r == s
  {
    LineStepStops(rt);
    FoldKeepsFailure(LineStep(rt), s, lines);
    Fold(LineStep(rt), s, lines)
  }

  /**
   * One pass of the file loop of `load`, for a given line step: a file that
   * is missing or unreadable (`None`) raises a RuntimeException, keeping what
   * earlier files set; otherwise its lines are loaded.
   */
  function FileStep<T>(step: Step<T>): Step<Option<seq<T>>> {
    (s: Loaded, file: Option<seq<T>>) =>
      if s.failure.Some? then s
      else match file
        case None => s.(failure := Some(RuntimeException))
        case Some(xs) => Fold(step, s, xs)
  }

  /** The file loop of `load`: each file's lines in turn. */
  function LoadFiles(rt: Runtime, s: Loaded, files: seq<Option<seq<string>>>): (r: Loaded)
    ensures files == [] ==> r == s
    ensures s.failure.Some? ==> r == s
  {
    FileStepStops(LineStep(rt));
    FoldKeepsFailure(FileStep(LineStep(rt)), s, files);
    Fold(FileStep(LineStep(rt)), s, files)
  }

  /** The line step leaves a failed load alone. */
  lemma LineStepStops(rt: Runtime)
    ensures StopsOnFailure(LineStep(rt))
  {
    forall s: Loaded, line: string | s.failure.Some?
      ensures LineStep(rt)(s, line) == s
    {
      assert LoadLine(rt, s, line) == s;
    }
  }

  /** Comment lines, blank lines and lines with an empty key change nothing and warn of nothing. */
  lemma SkippedLine(rt: Runtime, s: Loaded, line: string)
    requires StartsWith(Trim(line), "#") || IsEmptyKey(Trim(line[..FirstIndex(line, '=')]))
    ensures LoadLine(rt, s, line) == s
  {
  }

  /** A line warns exactly when its key is already in the environment. */
  lemma LineWarnsIffPresent(rt: Runtime, s: Loaded, line: string)
    requires s.failure.None? && ParseLine(line).Some?
    ensures |LoadLine(rt, s, line).warnings| == |s.warnings| + 1 <==> ParseLine(line).value.0 in s.table
    ensures ParseLine(line).value.0 in s.table ==>
      LoadLine(rt, s, line).warnings == s.warnings + [OverwriteWarning(ParseLine(line).value.0)]
  {
  }

  /**
   * A line ends the load with the exception its cast or its `set` throws, and
   * otherwise succeeds; either way its warning is raised first.
   */
  lemma LineFails(rt: Runtime, s: Loaded, line: string)
    requires s.failure.None? && ParseLine(line).Some?
    ensures var (key, value) := ParseLine(line).value;
      var stored := StoreLine(rt, s.table, key, value);
      LoadLine(rt, s, line).failure == (if stored.Err? then Some(stored.error) else None)
  {
  }

  /** A line changes no variable but its own key. */
  lemma LineFrame(rt: Runtime, s: Loaded, line: string, other: string)
    requires ParseLine(line).Some? ==> other != ParseLine(line).value.0
    ensures var t := LoadLine(rt, s, line).table;
      (other in t <==> other in s.table) && (other in s.table ==> t[other] == s.table[other])
  {
    if s.failure.None? && ParseLine(line).Some? {
      var (key, value) := ParseLine(line).value;
      var c := CastValue(rt, Str(value));
      if c.Ok? && Assign(rt, s.table, key, c.value).Ok? {
        assert SettingName(key) == key;
        AssignFrame(rt, s.table, key, c.value, other);
      }
    }
  }

  /** A line whose value casts and sets without error leaves the table as `set` makes it. */
  lemma LineSets(rt: Runtime, s: Loaded, line: string, v: Value)
    requires s.failure.None? && ParseLine(line).Some?
    requires CastValue(rt, Str(ParseLine(line).value.1)) == Ok(v)
    requires Assign(rt, s.table, ParseLine(line).value.0, v).Ok?
    ensures LoadLine(rt, s, line).failure.None?
    ensures LoadLine(rt, s, line).table == Assign(rt, s.table, ParseLine(line).value.0, v).value
  {
  }

  /** After a line with a plain-string value, its key holds that string. */
  lemma LineStoresString(rt: Runtime, s: Loaded, line: string)
    requires s.failure.None? && ParseLine(line).Some?
    requires CastValue(rt, Str(ParseLine(line).value.1)) == Ok(Str(ParseLine(line).value.1))
    ensures LoadLine(rt, s, line).failure.None?
    ensures LoadLine(rt, s, line).table == s.table[ParseLine(line).value.0 := ParseLine(line).value.1]
  {
    var (key, value) := ParseLine(line).value;
    AssignStores(rt, s.table, key, Str(value));
    LineSets(rt, s, line, Str(value));
  }

  /** A line whose value is `null` in any case removes its key. */
  lemma LineRemovesOnNull(rt: Runtime, s: Loaded, line: string)
    requires s.failure.None? && ParseLine(line).Some?
    requires Lower(ParseLine(line).value.1) == "null"
    ensures LoadLine(rt, s, line).failure.None?
    ensures LoadLine(rt, s, line).table == s.table - {ParseLine(line).value.0}
  {
    var (key, value) := ParseLine(line).value;
    CastKeyword(rt, rt, value);
    GetAfterRemove(rt, s.table, key, Null);
    LineSets(rt, s, line, Null);
  }

  /** A line whose value is `true` stores "1", since `set` writes a bool as PHP renders it in a string. */
  lemma LineStoresTrueAsOne(rt: Runtime, s: Loaded, line: string)
    requires s.failure.None? && ParseLine(line).Some?
    requires Lower(ParseLine(line).value.1) == "true"
    ensures LoadLine(rt, s, line).table == s.table[ParseLine(line).value.0 := "1"]
  {
    var (key, value) := ParseLine(line).value;
    CastKeyword(rt, rt, value);
    AssignStores(rt, s.table, key, Bool(true));
    LineSets(rt, s, line, Bool(true));
  }

  /** A value with no whitespace at its ends and no opening quote is left as it is. */
  lemma CleanKeepsPlain(v: string)
    requires v != [] && !IsTrimChar(v[0]) && !IsTrimChar(v[|v| - 1]) && !IsQuote(v[0])
    ensures CleanValue(Some(v)) == Some(v)
  {
    TrimExact([], v, []);
    assert [] + v + [] == v;
    CleanKeepsUnquoted(v);
  }

  /** A line whose value is an integer numeral stores that integer's decimal text. */
  lemma LineStoresInt(rt: Runtime, s: Loaded, key: string, i: int)
    requires s.failure.None? && IsPhpInt(i)
    requires '=' !in key && !IsEmptyKey(Trim(key)) && !StartsWith(Trim(key + "=" + IntToString(i)), "#")
    ensures LoadLine(rt, s, key + "=" + IntToString(i)).table == s.table[Trim(key) := IntToString(i)]
  {
    var v := IntToString(i);
    IntLineParses(key, i);
    CastIntRoundTrip(rt, i);
    AssignStores(rt, s.table, Trim(key), Int(i));
    LineSets(rt, s, key + "=" + v, Int(i));
  }

  /** The decimal text of an integer needs no cleaning: the line parses to the key and that text. */
  lemma IntLineParses(key: string, i: int)
    requires '=' !in key && !IsEmptyKey(Trim(key)) && !StartsWith(Trim(key + "=" + IntToString(i)), "#")
    ensures ParseLine(key + "=" + IntToString(i)) == Some((Trim(key), IntToString(i)))
  {
    var v := IntToString(i);
    var digits := NatToDigits(if i < 0 then -i else i);
    assert v[|v| - 1] == digits[|digits| - 1];
    CleanKeepsPlain(v);
    ParseSplitsAtFirstEquals(key, v);
  }

  /** Once a load has failed, no further input changes anything. */
  lemma {:induction false} FoldAbsorbs<T(!new)>(step: Step<T>, s: Loaded, xs: seq<T>)
    requires StopsOnFailure(step) && s.failure.Some?
    ensures Fold(step, s, xs) == s
    decreases |xs|
  {
    if xs != [] {
      FoldAbsorbs(step, s, xs[..|xs| - 1]);
    }
  }

  /** A load that has already failed stays as it is. */
  lemma FoldKeepsFailure<T(!new)>(step: Step<T>, s: Loaded, xs: seq<T>)
    requires StopsOnFailure(step)
    ensures s.failure.Some? ==> Fold(step, s, xs) == s
  {
    if s.failure.Some? {
      FoldAbsorbs(step, s, xs);
    }
  }

  /** Loading `a` then `b` is loading `a + b`. */
  lemma {:induction false} FoldAppend<T>(step: Step<T>, s: Loaded, a: seq<T>, b: seq<T>)
    ensures Fold(step, s, a + b) == Fold(step, Fold(step, s, a), b)
    decreases |b|
  {
    if b == [] {
      assert a + b == a;
    } else {
      assert (a + b)[..|a + b| - 1] == a + b[..|b| - 1];
      assert (a + b)[|a + b| - 1] == b[|b| - 1];
      FoldAppend(step, s, a, b[..|b| - 1]);
    }
  }

  /** A load that failed part-way ends as it stood when it failed. */
  lemma FoldStopsAt<T(!new)>(step: Step<T>, s: Loaded, xs: seq<T>, i: nat)
    requires StopsOnFailure(step)
    requires i <= |xs| && Fold(step, s, xs[..i]).failure.Some?
    ensures Fold(step, s, xs) == Fold(step, s, xs[..i])
  {
    FoldAppend(step, s, xs[..i], xs[i..]);
    assert xs[..i] + xs[i..] == xs;
    FoldAbsorbs(step, Fold(step, s, xs[..i]), xs[i..]);
  }

  /** The file step leaves a failed load alone. */
  lemma FileStepStops<T(!new)>(step: Step<T>)
    ensures StopsOnFailure(FileStep(step))
  {
  }

  /** A failed line ends the load of its file and of every later file. */
  lemma StopsAtFailedLine(rt: Runtime, start: Loaded, files: seq<Option<seq<string>>>, f: nat, i: nat)
    requires f < |files| && files[f].Some? && i <= |files[f].value|
    requires LoadFiles(rt, start, files[..f]).failure.None?
    requires LoadLines(rt, LoadFiles(rt, start, files[..f]), files[f].value[..i]).failure.Some?
    ensures LoadFiles(rt, start, files) ==
      LoadLines(rt, LoadFiles(rt, start, files[..f]), files[f].value[..i])
  {
    var before := LoadFiles(rt, start, files[..f]);
    LineStepStops(rt);
    FoldStopsAt(LineStep(rt), before, files[f].value, i);
    assert files[..f + 1][..f] == files[..f];
    assert LoadFiles(rt, start, files[..f + 1]) == LoadLines(rt, before, files[f].value);
    FileStepStops(LineStep(rt));
    FoldStopsAt(FileStep(LineStep(rt)), start, files, f + 1);
  }

  /** The inputs of several groups, one group after the other. */
  function Concat<T>(xss: seq<seq<T>>): (r: seq<T>)
    ensures xss == [] ==> r == []
  {
    if xss == [] then [] else Concat(xss[..|xss| - 1]) + xss[|xss| - 1]
  }

  /** When every file is there, loading the files is loading all their lines in order. */
  lemma {:induction false} FoldFilesIsConcat<T(!new)>(step: Step<T>, s: Loaded, xss: seq<seq<T>>)
    requires StopsOnFailure(step)
    ensures Fold(FileStep(step), s, seq(|xss|, i requires 0 <= i < |xss| => Some(xss[i]))) ==
      Fold(step, s, Concat(xss))
    decreases |xss|
  {
    var opt := seq(|xss|, i requires 0 <= i < |xss| => Some(xss[i]));
    if xss != [] {
      var init := xss[..|xss| - 1];
      var optInit := seq(|init|, i requires 0 <= i < |init| => Some(init[i]));
      assert opt[..|opt| - 1] == optInit;
      FoldFilesIsConcat(step, s, init);
      var p := Fold(step, s, Concat(init));
      FoldAppend(step, s, Concat(init), xss[|xss| - 1]);
      if p.failure.Some? {
        FoldAbsorbs(step, p, xss[|xss| - 1]);
      }
    }
  }

  /** When every file is there, `load` reads all their lines as one sequence. */
  lemma LoadFilesIsConcat(rt: Runtime, s: Loaded, files: seq<seq<string>>)
    ensures LoadFiles(rt, s, seq(|files|, i requires 0 <= i < |files| => Some(files[i]))) ==
      LoadLines(rt, s, Concat(files))
  {
    LineStepStops(rt);
    FoldFilesIsConcat(LineStep(rt), s, files);
  }

  /** Two lines are loaded one after the other. */
  lemma LoadTwoLines(rt: Runtime, s: Loaded, first: string, second: string)
    ensures LoadLines(rt, s, [first, second]) == LoadLine(rt, LoadLine(rt, s, first), second)
  {
    FoldTwo(LineStep(rt), s, first, second);
  }

  /** Two inputs are applied first to last. */
  lemma FoldTwo<T>(step: Step<T>, s: Loaded, first: T, second: T)
    ensures Fold(step, s, [first, second]) == step(step(s, first), second)
  {
    assert [first, second][..1] == [first];
    assert [first][..0] == [];
    assert Fold(step, s, [first]) == step(Fold(step, s, []), first);
  }

  /**
   * Of two lines with the same key, the later one wins: whatever the first
   * one stored, the table ends as if only the second had been loaded.
   */
  lemma LaterLineWins(rt: Runtime, s: Loaded, first: string, second: string)
    requires s.failure.None? && ParseLine(first).Some? && ParseLine(second).Some?
    requires ParseLine(first).value.0 == ParseLine(second).value.0
    requires LoadLine(rt, s, first).failure.None?
    ensures LoadLine(rt, LoadLine(rt, s, first), second).failure == LoadLine(rt, s, second).failure
    ensures LoadLine(rt, s, second).failure.None? ==>
      LoadLine(rt, LoadLine(rt, s, first), second).table == LoadLine(rt, s, second).table
  {
    var key := ParseLine(first).value.0;
    var c1 := CastValue(rt, Str(ParseLine(first).value.1));
    var c2 := CastValue(rt, Str(ParseLine(second).value.1));
    assert c1.Ok? && Assign(rt, s.table, key, c1.value).Ok?;
    LineSets(rt, s, first, c1.value);
    var s1 := LoadLine(rt, s, first);
    assert s1.table == Assign(rt, s.table, key, c1.value).value;
    if c2.Ok? {
      AssignOverwrites(rt, s.table, key, c1.value, c2.value);
    }
  }

  /** No line of `lines` sets `key`. */
  predicate NoLineFor(lines: seq<string>, key: string) {
    forall i :: 0 <= i < |lines| && ParseLine(lines[i]).Some? ==> ParseLine(lines[i]).value.0 != key
  }

  /** Lines that do not name `other` leave it as it was. */
  lemma {:induction false} LinesFrame(rt: Runtime, s: Loaded, lines: seq<string>, other: string)
    requires NoLineFor(lines, other)
    ensures var t := LoadLines(rt, s, lines).table;
      (other in t <==> other in s.table) && (other in s.table ==> t[other] == s.table[other])
    decreases |lines|
  {
    if lines != [] {
      var n := |lines| - 1;
      assert NoLineFor(lines[..n], other) by {
        forall i | 0 <= i < n ensures lines[..n][i] == lines[i] { }
      }
      LinesFrame(rt, s, lines[..n], other);
      FoldLast(LineStep(rt), s, lines, n);
      assert lines[..n + 1] == lines;
      LineFrame(rt, LoadLines(rt, s, lines[..n]), lines[n], other);
    }
  }

  /**
   * The last line for a key decides it, however many lines came before: the
   * load ends as the line alone would end on any other table `u`, and the
   * key holds what the line alone would store there.
   */
  lemma LastLineDecides(rt: Runtime, s: Loaded, lines: seq<string>, line: string, u: Table)
    requires LoadLines(rt, s, lines).failure.None? && ParseLine(line).Some?
    ensures var key := ParseLine(line).value.0;
      var r := LoadLines(rt, s, lines + [line]);
      var alone := LoadLine(rt, Loaded(u, [], None), line);
      r.failure == alone.failure &&
      (r.failure.None? ==>
        (key in r.table <==> key in alone.table) &&
        (key in r.table ==> r.table[key] == alone.table[key]))
  {
    var (key, value) := ParseLine(line).value;
    var p := LoadLines(rt, s, lines);
    FoldLast(LineStep(rt), s, lines + [line], |lines|);
    assert (lines + [line])[..|lines|] == lines;
    assert (lines + [line])[..|lines| + 1] == lines + [line];
    var c := CastValue(rt, Str(value));
    LineFails(rt, p, line);
    LineFails(rt, Loaded(u, [], None), line);
    if c.Ok? {
      AssignPlainKey(rt, p.table, key, c.value);
      AssignPlainKey(rt, u, key, c.value);
      if Assign(rt, u, key, c.value).Ok? {
        LineSets(rt, p, line, c.value);
        LineSets(rt, Loaded(u, [], None), line, c.value);
      }
    }
  }
  /**
   * A later line for a key wins over everything before it, whatever lines for
   * other keys follow it: in a load that succeeds, the key ends as the line
   * alone would leave it on any table `u`.
   */
  lemma LaterWins(rt: Runtime, s: Loaded, before: seq<string>, line: string, after: seq<string>, u: Table)
    requires ParseLine(line).Some? && NoLineFor(after, ParseLine(line).value.0)
    requires LoadLines(rt, s, before + [line] + after).failure.None?
    ensures var key := ParseLine(line).value.0;
      var r := LoadLines(rt, s, before + [line] + after);
      var alone := LoadLine(rt, Loaded(u, [], None), line);
      alone.failure.None? &&
      (key in r.table <==> key in alone.table) &&
      (key in r.table ==> r.table[key] == alone.table[key])
  {
    var key := ParseLine(line).value.0;
    LineStepStops(rt);
    var step := LineStep(rt);
    var p := LoadLines(rt, s, before);
    var mid := LoadLines(rt, s, before + [line]);
    FoldAppend(step, s, before + [line], after);
    if mid.failure.Some? {
      FoldAbsorbs(step, mid, after);
      assert false;
    }
    FoldAppend(step, s, before, [line]);
    if p.failure.Some? {
      FoldAbsorbs(step, p, [line]);
      assert false;
    }
    LastLineDecides(rt, s, before, line, u);
    LinesFrame(rt, mid, after, key);
  }

}
