# Nitier\Environment in Dafny

A model of `Nitier\Environment` (`src/Environment.php`). This is a PHP store for
configuration held in the process environment. It covers:

- `load`, which reads `.env` files line by line;
- the loops of `loadYaml` and `loadJson` over already-parsed data;
- `set`, which writes a value through `putenv`;
- `get` and `all`, which read variables back through `getenv` and turn each
  string into a typed value with `castValue`;
- the helpers `cleanValue`, `jsonParse` and `isSerialized`.

The environment is a table from names to strings. The store changes it in
place, so the model keeps it as a field of the class
`NitierEnvironment.Environment`. `Load`, `LoadParsed` and `All` are methods
with loops and `Set` is a method that updates the table; each is proved
against a function of the table. Those functions are:

- `EnvTable.Assign` for `set`;
- `EnvTable.Lookup` for `get`;
- `EnvTable.Snapshot` for `all`;
- `DotEnv.LoadLine`, `DotEnv.LoadLines` and `DotEnv.LoadFiles` for `load`;
- `EnvTable.AssignPairs` for the YAML and JSON loops.

The pure parts are functions:

- `DotEnv.CleanValue` and `DotEnv.ParseLine` for the line parser;
- `Cast.CastValue`, `Cast.JsonParse` and `ObjectPattern.IsSerialized`;
- the PHP built-ins they rest on, written out: `trim`, `strtolower`, PHP 8's
  `is_numeric` grammar (`PhpNumeric`), the `isSerialized` regular expression
  (`ObjectPattern`), integer-to-string conversion and `putenv`'s parsing of
  its argument (`EnvTable.PutEnv`).

Some PHP functions the store calls are not defined here: `json_decode`,
`json_encode`, `serialize`, `unserialize`, float-to-string, and `(int)` of a
number that PHP reads as a double. They are the fields of a `Runtime` value
that every operation takes as a parameter.

## Exceptions

Exceptions are values. A `Result` or `Outcome` carries one of:

- `TypeError`: `strict_types` rejects a value at a typed boundary;
- `ValueError`: `putenv` refuses its argument;
- `JsonException`: `json_encode` fails;
- `RuntimeException`: a file is missing or unreadable.

The warning `load` raises before it overwrites a key is appended to a list of
warnings that `Load` returns.

## Booleans do not round-trip

The store is described as giving back typed values: a value loaded as `true`
would be read back as `true`. The code does otherwise, and the model follows
the code.

- `set` writes its value into the string `"$key=$value"`.
- So `true` is stored as `"1"`, and `get` then casts it to the int `1`
  (`EnvTable.GetAfterSetTrue`, `DotEnv.LineStoresTrueAsOne`).
- `false` is stored as `""` and read back as `""` (`EnvTable.GetAfterSetFalse`).
- `null` removes the variable.

## Model

| member | source | states |
|---|---|---|
| `PhpStrings.Trim` | src/Environment.php:58 | `trim` leaves no trim character (space, NUL, `\t`, `\n`, `\v`, `\r`) at either end of its result and never lengthens the string |
| `PhpStrings.TrimExact` | src/Environment.php:169 | what `trim` removes is exactly the runs of trim characters around a core that neither starts nor ends with one |
| `PhpStrings.TrimIdempotent` | src/Environment.php:63 | trimming twice is trimming once |
| `PhpStrings.FirstIndex` | src/Environment.php:62 | the position `explode('=', $line, 2)` splits at: no `=` before it, an `=` at it unless it is the end |
| `PhpStrings.Lower` | src/Environment.php:191-199 | `strtolower` keeps the length and maps each character on its own through the ASCII lower-case mapping; `LowerMatches` says what that means for a word |
| `PhpStrings.LowerMatches` | src/Environment.php:191-199 | `strtolower` gives a lower-case word if and only if the input is that word with each letter in either case |
| `PhpStrings.NatDigitsRoundTrip` | src/Environment.php:141 | the decimal digits PHP writes for a natural number read back as that number |
| `DotEnv.CleanValue` | src/Environment.php:163-179 | a missing value stays missing, otherwise a value comes back, never longer than the input |
| `DotEnv.CleanUnquotes` | src/Environment.php:169-176 | a value made of whitespace, one pair of matching quotes and whitespace cleans to exactly what lies between the quotes |
| `DotEnv.CleanKeepsUnquoted` | src/Environment.php:169-178 | a value whose trimmed ends are not a matching quote pair is only trimmed |
| `DotEnv.CleanLoneQuote` | src/Environment.php:171-175 | a single quote character is both ends of a pair and cleans to "" |
| `DotEnv.CleanTwiceOnUnquoted` | src/Environment.php:163-179 | cleaning is idempotent on values whose trimmed ends are not a matching quote pair |
| `DotEnv.CleanKeepsPlain` | src/Environment.php:163-179 | a value with no whitespace at its ends and no opening quote is left exactly as it is |
| `DotEnv.ParseLine` | src/Environment.php:58-66 | a parsed line has a key that is the trimmed text before the first `=`, is neither "" nor "0" and holds no `=`; a line whose trimmed text starts with `#` gives nothing |
| `DotEnv.ParseSplitsAtFirstEquals` | src/Environment.php:62-64 | `KEY=VALUE` splits at the first `=` only: the key is `trim(KEY)` and the value is `VALUE` cleaned, whatever further `=` it holds |
| `DotEnv.ParseWithoutEquals` | src/Environment.php:62-64 | a line without `=` gives its trimmed text as the key and "" as the value |
| `DotEnv.StoreLine` | src/Environment.php:70 | a value that does not cast fails the line with TypeError; one that casts is handed to `set` unchanged; `LineFails` and `LineSets` give what this means for the load |
| `DotEnv.LoadLine` | src/Environment.php:57-72 | one line never changes a failed load, keeps the table when it fails, and adds at most one warning after the earlier ones |
| `DotEnv.SkippedLine` | src/Environment.php:58-60 | comment lines and lines whose key is "" or "0" change nothing and raise no warning |
| `DotEnv.LineWarnsIffPresent` | src/Environment.php:67-69 | a line warns if and only if its key is already set, and the warning names the key |
| `DotEnv.LineFrame` | src/Environment.php:57-72 | a line changes no variable other than its own key |
| `DotEnv.LineFails` | src/Environment.php:70 | a parsed line of a live load fails exactly with the exception its cast or `set` throws, and does not fail otherwise |
| `DotEnv.LineSets` | src/Environment.php:70 | a line whose value casts and sets without error leaves the table as `set` of the cast value makes it |
| `DotEnv.LineStoresString` | src/Environment.php:70 | a line whose value casts to itself stores that string under its key |
| `DotEnv.LineRemovesOnNull` | src/Environment.php:70 | a line whose value is `null` in any letter case removes its key |
| `DotEnv.LineStoresTrueAsOne` | src/Environment.php:70 | a line whose value is `true` in any letter case stores "1" |
| `DotEnv.IntLineParses` | src/Environment.php:62-64 | a line holding an integer's decimal text parses to the trimmed key and that text unchanged |
| `DotEnv.LineStoresInt` | src/Environment.php:57-72 | a line holding an integer's decimal text stores that text under the trimmed key |
| `DotEnv.LoadLines` | src/Environment.php:57-72 | the line loop leaves the load as it was on no lines or after an earlier exception |
| `DotEnv.LoadFiles` | src/Environment.php:50-72 | the file loop leaves the load as it was on no files or after an earlier exception |
| `DotEnv.LineStepStops` | src/Environment.php:57-72 | after an exception, further lines change nothing |
| `DotEnv.FileStepStops` | src/Environment.php:50-53 | after an exception, further files change nothing |
| `DotEnv.FoldAbsorbs` | src/Environment.php:50-72 | a failed load stays as it is whatever input follows |
| `DotEnv.FoldAppend` | src/Environment.php:50-72 | loading one input sequence and then another is loading them joined |
| `DotEnv.FoldStopsAt` | src/Environment.php:50-72 | a load that fails part-way ends as it stood when it failed |
| `DotEnv.StopsAtFailedLine` | src/Environment.php:50-72 | a line that fails ends the whole load of every file, keeping what earlier lines set |
| `DotEnv.FoldFilesIsConcat` | src/Environment.php:50-72 | when every file is present, the file loop over their lines is one loop over all lines in order |
| `DotEnv.LoadFilesIsConcat` | src/Environment.php:43-74 | when every file is present, `load` reads all their lines as one sequence |
| `DotEnv.LoadTwoLines` | src/Environment.php:57-72 | two lines are loaded one after the other |
| `DotEnv.LaterLineWins` | src/Environment.php:57-72 | of two lines with the same key the later wins: the pair fails exactly as the later line alone would, and when it succeeds the table is the one the later line alone gives |
| `DotEnv.LastLineDecides` | src/Environment.php:57-72 | after any earlier lines, the last line of the load ends it as that line would alone on any table, and its key holds what that line alone stores |
| `DotEnv.LinesFrame` | src/Environment.php:57-72 | lines none of which names a key leave that key as it was |
| `DotEnv.LaterWins` | src/Environment.php:50-72 | in a load that succeeds, a line for a key followed only by lines for other keys decides it: the key ends as that line alone leaves it on any table |
| `PhpNumeric.SplitSpace` | src/Environment.php:203 | cutting off the leading whitespace of a number loses nothing and stops at the first other character |
| `PhpNumeric.SplitDigits` | src/Environment.php:203 | cutting off a run of digits loses nothing and stops at the first non-digit |
| `PhpNumeric.SplitExponent` | src/Environment.php:203 | the exponent cut from a string is valid and nothing is lost |
| `PhpNumeric.ScanMantissa` | src/Environment.php:203 | what the scanner accepts has digits in its whole and fraction parts, at least one digit, a valid exponent and only whitespace after it |
| `PhpNumeric.ScanSound` | src/Environment.php:203 | every string `is_numeric` accepts is a well-formed numeral and its parts spell the string |
| `PhpNumeric.ScanComplete` | src/Environment.php:203 | every well-formed numeral is accepted and read back part for part |
| `PhpNumeric.NumericGrammar` | src/Environment.php:203 | `is_numeric` holds of a string if and only if it is the text of a well-formed numeral |
| `PhpNumeric.DotIsDecimalPoint` | src/Environment.php:204 | in a numeric string a `.` appears if and only if it has a decimal point, so `str_contains` tells floats from ints |
| `PhpNumeric.NumericStartsWithNoLetter` | src/Environment.php:203 | a numeric string is non-empty and does not start with a letter |
| `PhpNumeric.IntToStringIsNumeral` | src/Environment.php:203-204 | PHP's string form of an integer is numeric, has no `.`, and its digits and sign give back the integer |
| `ObjectPattern.SplitClassName` | src/Environment.php:237 | the `[\w\\]+` run is cut off whole and nothing is lost |
| `ObjectPattern.ScanObject` | src/Environment.php:237 | every header the object pattern matches has well-formed parts: digit lengths and counts, a `[\w\\]+` class name and a body without a newline |
| `ObjectPattern.ScanObjectSound` | src/Environment.php:235-238 | what the pattern matches is `O:<digits>:"<name>":<digits>:{<body>}` with an optional final newline and no newline in the body |
| `ObjectPattern.ScanObjectComplete` | src/Environment.php:235-238 | every such string is matched and its parts are read back |
| `ObjectPattern.SerializedPattern` | src/Environment.php:235-238 | `isSerialized` holds of a string if and only if it is written from well-formed parts |
| `Cast.Keyword` | src/Environment.php:191-201 | only `null` and the booleans come from the keyword check |
| `Cast.JsonParse` | src/Environment.php:222-229 | a decode error gives `false`; an array or a bool comes back as decoded; any other decoded value is a TypeError, since the declared result is an array or a bool; `CastTruthyJson`, `CastFalsyJson` and `CastOrigins` give what this means for the cast |
| `Cast.CastValue` | src/Environment.php:185-216 | a non-string passes through unchanged, and the only exception is a TypeError |
| `Cast.KeywordCases` | src/Environment.php:191-201 | the keywords are `null`, `true` and `false` with each letter in either case, and nothing else |
| `Cast.NumericIsNotKeyword` | src/Environment.php:191-203 | no numeric string is a keyword |
| `Cast.CastKeyword` | src/Environment.php:191-201 | `null`, `true` and `false` in any letter case become null, true and false, whatever the JSON and serialize functions do, and are not numeric |
| `Cast.CastNumeric` | src/Environment.php:203-205 | a numeric string becomes a float when it holds a `.` and an int otherwise, never reaching JSON or `unserialize` |
| `Cast.CastIntRoundTrip` | src/Environment.php:203-205 | the decimal text of any 64-bit integer casts back to that integer |
| `Cast.CastExponent` | src/Environment.php:204 | a numeral with an exponent and no point is an int, computed through a double |
| `Cast.CastOrigins` | src/Environment.php:185-216 | the cast fails exactly when JSON decodes to something that is neither an array nor a bool; each kind of result comes only from its own branch |
| `Cast.CastFalsyJson` | src/Environment.php:207-215 | JSON that fails or decodes to something falsy does not stop the cast: a string that is not a serialized object stays the string |
| `Cast.NumericToInt` | src/Environment.php:204 | `(int)` of an integer numeral without exponent that fits in 64 bits is its exact value; any other is read through a double; `CastIntRoundTrip` and `CastExponent` give what this means for the cast |
| `Cast.CastTruthyJson` | src/Environment.php:207-209 | a string that is neither a keyword nor numeric, whose JSON decodes to a non-empty array or `true`, casts to the decoded value |
| `Cast.CastSerialized` | src/Environment.php:207-213 | a string matching the object pattern, whose JSON fails or decodes to `false` or `[]`, casts to what `unserialize` gives |
| `Cast.CastIdempotent` | src/Environment.php:185-216 | casting a cast value changes nothing, given that `unserialize` never yields a string |
| `EnvTable.SettingName` | src/Environment.php:131-141 | the variable `putenv` sets is named by the text before the first `=`, which holds no `=` |
| `EnvTable.PutEnv` | src/Environment.php:131-141 | `putenv` fails with ValueError on "" or a leading `=` (its refusal of NUL bytes is left out); it changes only the named variable, removing it for a setting without `=` and otherwise storing the text after the first `=` |
| `EnvTable.EnvString` | src/Environment.php:135-141 | rendering a value for `putenv` fails, with JsonException, exactly for an array that JSON cannot encode |
| `EnvTable.Assign` | src/Environment.php:125-145 | `set` of the key "" or "0" changes nothing, and its only failures are ValueError for a key starting with `=` and JsonException for an array |
| `EnvTable.Lookup` | src/Environment.php:115-119 | `get` of an absent variable gives the default, of a present one the cast of its string; its only failure is a TypeError of a present variable |
| `EnvTable.Snapshot` | src/Environment.php:150-157 | `all` succeeds if and only if every variable casts; it then has exactly the variables' names, each mapped to what `get` gives; its only error is a TypeError |
| `EnvTable.SnapshotOf` | src/Environment.php:150-157 | a map that gives every variable its cast value is what `all` returns |
| `EnvTable.SnapshotFails` | src/Environment.php:150-157 | one variable that does not cast makes `all` fail |
| `EnvTable.SettingNameOfAssign` | src/Environment.php:141 | `"$key=$value"` names the same variable as `$key` alone |
| `EnvTable.AssignFails` | src/Environment.php:125-145 | `set` fails if and only if the key is neither "" nor "0" and either starts with `=` or the value is an array JSON cannot encode |
| `EnvTable.AssignFrame` | src/Environment.php:125-145 | `set` changes no variable other than the one its key names |
| `EnvTable.AssignStores` | src/Environment.php:135-143 | for a key without `=`, a non-null value is stored as its rendered string |
| `EnvTable.AssignPlainKey` | src/Environment.php:125-145 | for a key without `=`, `set` stores the rendered value, removes on `null`, or fails with JsonException |
| `EnvTable.AssignOverwrites` | src/Environment.php:125-145 | a second `set` of the same key succeeds, or fails, exactly when it would have alone, and leaves the table as it would have alone |
| `EnvTable.GetAfterRemove` | src/Environment.php:115-133 | setting `null` removes the key, after which `get` gives the default |
| `EnvTable.GetAfterSetString` | src/Environment.php:115-141 | `get` after setting a string gives that string's cast |
| `EnvTable.GetAfterSetInt` | src/Environment.php:115-141 | a 64-bit int survives `set` then `get` |
| `EnvTable.GetAfterSetTrue` | src/Environment.php:115-141 | `true` is stored as "1" and read back as the int 1 |
| `EnvTable.GetAfterSetFalse` | src/Environment.php:115-141 | `false` is stored as "" and read back as "" |
| `EnvTable.GetOtherKey` | src/Environment.php:115-145 | `get` of another variable is unaffected by `set` |
| `EnvTable.IntKeyFails` | src/Environment.php:89-91 | data holding an int key, such as a list, always fails: `set` takes a string key |
| `EnvTable.AssignPairsFrame` | src/Environment.php:89-91 | loading parsed data changes no variable that none of its string keys names |
| `EnvTable.AssignPairs` | src/Environment.php:89-91 | loading no pairs changes nothing, and a failure is a TypeError, ValueError or JsonException |
| `EnvTable.PairsStep` | src/Environment.php:89-91 | a string-keyed pair whose value casts and sets leaves the table as `set` of the cast value makes it and the load goes on |
| `EnvTable.PairsStepFails` | src/Environment.php:89-91 | a pair whose cast fails, whose key is an int, or whose `set` fails ends the load with that exception and the table as it stood |
| `EnvTable.PairsStopAtFailure` | src/Environment.php:89-91 | loading parsed data that fails part-way ends as it stood when it failed |
| `NitierEnvironment.Environment.constructor` | src/Environment.php:13-19 | the store starts from a given environment and runtime |
| `NitierEnvironment.Environment.Get` | src/Environment.php:115-119 | `get` gives the default for an absent variable and the cast of the stored string for a present one |
| `NitierEnvironment.Environment.Set` | src/Environment.php:125-145 | the table becomes what `Assign` gives, or is left unchanged when `set` throws, and the exception is reported |
| `NitierEnvironment.Environment.LoadOneLine` | src/Environment.php:57-72 | one pass of the line loop leaves the table, warnings and outcome that `LoadLine` gives |
| `NitierEnvironment.Environment.Load` | src/Environment.php:43-74 | after the nested file and line loops, the table, warnings and outcome are those of `LoadFiles` on the starting table |
| `NitierEnvironment.Environment.LoadParsed` | src/Environment.php:89-91 | after the loop of `loadYaml` (and the identical one of `loadJson`, lines 105-107) over parsed data, the table and outcome are those of `AssignPairs` on the starting table |
| `NitierEnvironment.Environment.All` | src/Environment.php:150-157 | the loop over the variables returns exactly `Snapshot` of the table |

## Left out

- File access is left out: `file_exists`, `is_readable`, `file()` with its
  line splitting, and the reading of YAML and JSON files. `Load` receives each
  file as its lines, or `None` for a file that is missing or unreadable, which
  raises RuntimeException. `LoadParsed` receives the parsed data.
- The YAML parser and the class check for `symfony/yaml` (src/Environment.php:84-87) are left out.
- `json_decode` with `JSON_THROW_ON_ERROR` on a whole file (src/Environment.php:103) is left out.
- Decoded data comes as a sequence of key/value pairs. Keys are already
  normalised the way PHP arrays do it, with decimal-integer strings turned into
  ints.
- The project root (`setRoot`, `getRoot`, src/Environment.php:24-38) and the
  default `.env` path (src/Environment.php:45-47) are left out. They are
  filesystem paths only.
- The copies in `$_ENV` and `$_SERVER` (src/Environment.php:133, 142-143) are
  left out. Nothing in the store reads them.
- `getenv` is a lookup in the table. The C library's handling of names that
  contain `=` is left out.
- EnvTable.PutEnv: PHP 8's `putenv` also throws a ValueError for a setting
  that holds a NUL byte. That refusal is not modelled; such a setting is
  stored like any other.
- `trigger_error` is left out: the warning is recorded, but no error handler
  runs. A handler that throws would end the load there.
- `json_decode`, `json_encode`, `serialize`, `unserialize` and float-to-string
  are uninterpreted functions of the runtime. Float values are kept as the
  literal they came from, `Float(literal)`.
- `Cast.NumericToInt`: `(int)` is exact only for integer numerals without an
  exponent that fit in 64 bits. A numeral with an exponent, or one outside the
  64-bit range, is read through a double. Its value, including PHP's
  saturation and its handling of infinity, is the runtime's `doubleToInt`.
- `all()` returns its variables as a map. Both the order `getenv()` lists them
  in and PHP's turning of decimal names into int array keys are left out.
- `serialize` and `unserialize` throwing for objects that refuse serialization
  is left out. Objects are opaque values (`Obj`).
- `Cast.CastIdempotent` assumes that `unserialize` never returns a string for
  a string matching the object pattern. The real function returns an object
  or `false`.
- `strtolower` is the ASCII mapping of PHP 8.2 and later. Earlier versions
  followed the locale.
