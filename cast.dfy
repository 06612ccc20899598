/**
 * `castValue`: how the store turns a string back into a typed PHP value —
 * keywords first, then numbers, then JSON, then serialized objects, and
 * otherwise the string itself — together with `jsonParse`.
 */
module Cast {
  import opened PhpValues
  import opened PhpStrings
  import opened PhpNumeric
  import opened ObjectPattern

  /** The value a case-insensitive `null`, `true` or `false` stands for. */
  function Keyword(s: string): (r: Option<Value>)
    ensures r.Some? ==> r.value == Null || r.value.Bool?
  {
    var l := Lower(s);
    if l == "null" then Some(Null)
    else if l == "true" then Some(Bool(true))
    else if l == "false" then Some(Bool(false))
    else None
  }

  /** The keywords are `null`, `true` and `false` with each letter in either case, and nothing else. */
  lemma KeywordCases(s: string)
    ensures Keyword(s) == Some(Null) <==> SpellsInAnyCase(s, "null")
    ensures Keyword(s) == Some(Bool(true)) <==> SpellsInAnyCase(s, "true")
    ensures Keyword(s) == Some(Bool(false)) <==> SpellsInAnyCase(s, "false")
  {
    LowerMatches(s, "null");
    LowerMatches(s, "true");
    LowerMatches(s, "false");
  }

  /**
   * `(int)` of a numeric string without a decimal point: exact when PHP reads
   * it as an integer that fits 64 bits, otherwise through a double.
   */
  function NumericToInt(rt: Runtime, s: string): (r: int)
    requires IsNumeric(s) && '.' !in s
    ensures var n := ScanNumeral(s).value;
      n.exponent == "" && IsPhpInt(SignedWhole(n)) ==> r == SignedWhole(n)
    ensures var n := ScanNumeral(s).value;
      !(n.exponent == "" && IsPhpInt(SignedWhole(n))) ==> r == rt.doubleToInt(s)
  {
    var n := ScanNumeral(s).value;
    if n.exponent == "" && IsPhpInt(SignedWhole(n)) then SignedWhole(n) else rt.doubleToInt(s)
  }

  /**
   * `jsonParse`: the decoded value when `json_decode` reports no error, `false`
   * otherwise. Its declared `array|bool` result type, under strict types, turns
   * any other decoded value (null, a number, a string) into a TypeError.
   */
  function JsonParse(rt: Runtime, s: string): (r: Result<Value>)
    ensures r.Ok? ==> r.value.Arr? || r.value.Bool?
    ensures rt.jsonDecode(s).None? ==> r == Ok(Bool(false))
    ensures rt.jsonDecode(s).Some? ==>
      (r.Ok? <==> rt.jsonDecode(s).value.Arr? || rt.jsonDecode(s).value.Bool?)
    ensures rt.jsonDecode(s).Some? && r.Ok? ==> r.value == rt.jsonDecode(s).value
    ensures r.Err? ==> r.error == TypeError
  {
    match rt.jsonDecode(s)
    case None => Ok(Bool(false))
    case Some(v) => if v.Arr? || v.Bool? then Ok(v) else Err(TypeError)
  }

  /** `castValue`: non-strings pass through; a string is tried against each reading in turn. */
  function CastValue(rt: Runtime, v: Value): (r: Result<Value>)
    ensures !v.Str? ==> r == Ok(v)
    ensures r.Err? ==> r.error == TypeError
  {
    if !v.Str? then Ok(v)
    else
      var s := v.s;
      match Keyword(s)
      case Some(k) => Ok(k)
      case None =>
        if IsNumeric(s) then
          if '.' in s then Ok(Float(s)) else Ok(Int(NumericToInt(rt, s)))
        else
          match JsonParse(rt, s)
          case Err(e) => Err(e)
          case Ok(json) =>
            if Truthy(json) then Ok(json)
            else if IsSerialized(s) then Ok(rt.unserialize(s))
            else Ok(v)
  }

  /** No numeric string is a keyword: a keyword starts with a letter, a number never does. */
  lemma NumericIsNotKeyword(s: string)
    requires IsNumeric(s)
    ensures Keyword(s) == None
  {
    NumericStartsWithNoLetter(s);
    NoLetterIsNotKeyword(s);
  }

  /** A string that does not open with a letter is no keyword. */
  lemma NoLetterIsNotKeyword(s: string)
    requires s != [] && !IsAsciiLetter(s[0])
    ensures Keyword(s) == None
  {
    if Lower(s) in ["null", "true", "false"] {
      LowerWordStartsWithLetter(s, Lower(s));
    }
  }

  /**
   * `null`, `true` and `false` in any letter case are read as keywords, before
   * any other reading and whatever the JSON or serialization functions do.
   */
  lemma CastKeyword(rt: Runtime, rt': Runtime, s: string)
    requires Lower(s) == "null" || Lower(s) == "true" || Lower(s) == "false"
    ensures CastValue(rt, Str(s)) == CastValue(rt', Str(s))
    ensures Lower(s) == "null" ==> CastValue(rt, Str(s)) == Ok(Null)
    ensures Lower(s) == "true" ==> CastValue(rt, Str(s)) == Ok(Bool(true))
    ensures Lower(s) == "false" ==> CastValue(rt, Str(s)) == Ok(Bool(false))
    ensures !IsNumeric(s)
  {
    if IsNumeric(s) {
      NumericIsNotKeyword(s);
    }
  }

  /**
   * A numeric string never fails and never reaches JSON or unserialize: with a
   * `.` it becomes a float, without one an int.
   */
  lemma CastNumeric(rt: Runtime, rt': Runtime, s: string)
    requires IsNumeric(s)
    ensures '.' in s ==> CastValue(rt, Str(s)) == Ok(Float(s))
    ensures '.' !in s ==> CastValue(rt, Str(s)) == Ok(Int(NumericToInt(rt, s)))
    ensures rt.doubleToInt == rt'.doubleToInt ==> CastValue(rt, Str(s)) == CastValue(rt', Str(s))
  {
    NumericIsNotKeyword(s);
  }

  /** The decimal text of any 64-bit integer casts back to that integer. */
  lemma CastIntRoundTrip(rt: Runtime, i: int)
    requires IsPhpInt(i)
    ensures CastValue(rt, Str(IntToString(i))) == Ok(Int(i))
  {
    IntToStringIsNumeral(i);
    NumericIsNotKeyword(IntToString(i));
  }

  /**
   * A numeral with an exponent but no point (`1e3`) is an int, but PHP reads
   * it through a double: its value is what `(int)` gives for that double.
   */
  lemma CastExponent(rt: Runtime, s: string)
    requires IsNumeric(s) && '.' !in s && ScanNumeral(s).value.exponent != ""
    ensures CastValue(rt, Str(s)) == Ok(Int(rt.doubleToInt(s)))
  {
    CastNumeric(rt, rt, s);
  }

  /**
   * Where each kind of result comes from. Apart from what `unserialize` gives
   * for a serialized object: null and bools only from keywords or a JSON
   * `true`, floats and ints only from numeric strings (split on the `.`),
   * arrays only from JSON that decodes to a non-empty array, strings only as
   * the input itself — and an error exactly when JSON decodes to something
   * other than an array or a bool.
   */
  lemma CastOrigins(rt: Runtime, s: string)
    ensures var r := CastValue(rt, Str(s));
      r.Err? <==>
        Keyword(s) == None && !IsNumeric(s) && rt.jsonDecode(s).Some? &&
        !(rt.jsonDecode(s).value.Arr? || rt.jsonDecode(s).value.Bool?)
    ensures var r := CastValue(rt, Str(s));
      r.Ok? && !(IsSerialized(s) && r.value == rt.unserialize(s)) ==>
        match r.value
        case Null => Keyword(s) == Some(Null)
        case Bool(b) => Keyword(s) == Some(Bool(b)) || (b && rt.jsonDecode(s) == Some(Bool(true)))
        case Int(_) => IsNumeric(s) && '.' !in s
        case Float(t) => IsNumeric(s) && '.' in s && t == s
        case Str(t) => t == s
        case Arr(e) => e != [] && rt.jsonDecode(s) == Some(r.value)
        case Obj(_, _) => false
  {
    if Keyword(s).None? {
      if IsNumeric(s) {
        CastNumeric(rt, rt, s);
      } else if rt.jsonDecode(s).Some? {
        var d := rt.jsonDecode(s).value;
        assert JsonParse(rt, s) == (if d.Arr? || d.Bool? then Ok(d) else Err(TypeError));
      }
    }
  }

  /**
   * A string that is neither a keyword nor numeric, whose JSON decodes to a
   * non-empty array or to `true`, casts to the decoded value.
   */
  lemma CastTruthyJson(rt: Runtime, s: string)
    requires Keyword(s) == None && !IsNumeric(s) && rt.jsonDecode(s).Some?
    requires var d := rt.jsonDecode(s).value; (d.Arr? || d.Bool?) && Truthy(d)
    ensures CastValue(rt, Str(s)) == Ok(rt.jsonDecode(s).value)
  {
  }

  /**
   * A string matching the object pattern, whose JSON fails or decodes to
   * something falsy, is handed to `unserialize`.
   */
  lemma CastSerialized(rt: Runtime, s: string)
    requires Keyword(s) == None && !IsNumeric(s) && IsSerialized(s)
    requires rt.jsonDecode(s) in {None, Some(Bool(false)), Some(Arr([]))}
    ensures CastValue(rt, Str(s)) == Ok(rt.unserialize(s))
  {
  }

  /**
   * JSON that decodes to something falsy (`{}`, `[]`, `false`) or fails to
   * decode does not stop the cast: the string stays a string unless it is a
   * serialized object.
   */
  lemma CastFalsyJson(rt: Runtime, s: string)
    requires Keyword(s) == None && !IsNumeric(s) && !IsSerialized(s)
    requires rt.jsonDecode(s) in {None, Some(Bool(false)), Some(Arr([]))}
    ensures CastValue(rt, Str(s)) == Ok(Str(s))
  {
  }

  /**
   * Casting is idempotent, given that `unserialize` never yields a string for
   * an object pattern (it yields an object or `false`).
   */
  lemma CastIdempotent(rt: Runtime, v: Value)
    requires forall t :: IsSerialized(t) ==> !rt.unserialize(t).Str?
    requires CastValue(rt, v).Ok?
    ensures CastValue(rt, CastValue(rt, v).value) == CastValue(rt, v)
  {
    var r := CastValue(rt, v).value;
    if r.Str? {
      assert v.Str? && r == v;
    }
  }
}
