/**
 * The pattern `isSerialized` tests before a string is handed to `unserialize`:
 * the PCRE expression `^O:\d+:"[\w\\]+":\d+:{.*}$`, without modifiers.
 *
 * Without modifiers `\w` is an ASCII letter, a digit or `_`, `.` is any
 * character but a newline, and `$` matches at the very end or just before a
 * final newline.
 */
module ObjectPattern {
  import opened PhpStrings
  import opened PhpValues
  import opened PhpNumeric

  /** A character of the class-name part: `\w` or a backslash. */
  predicate IsClassChar(c: char) {
    IsDigit(c) || IsAsciiLetter(c) || c == '_' || c == '\\'
  }

  predicate AllClassChars(s: string) {
    forall i :: 0 <= i < |s| ==> IsClassChar(s[i])
  }

  /** `s` cut after its opening run of class-name characters. */
  function SplitClassName(s: string): (r: (string, string))
    ensures r.0 + r.1 == s
    ensures AllClassChars(r.0)
    ensures r.1 == [] || !IsClassChar(r.1[0])
  {
    if s != [] && IsClassChar(s[0]) then
      var t := SplitClassName(s[1..]);
      var run := [s[0]] + t.0;
      assert s == [s[0]] + s[1..];
      assert forall i :: 1 <= i < |run| ==> run[i] == t.0[i - 1];
      (run, t.1)
    else ([], s)
  }

  /** The run of class-name characters is found exactly where it ends. */
  lemma {:induction false} SplitClassNameOf(x: string, y: string)
    requires AllClassChars(x)
    requires y == [] || !IsClassChar(y[0])
    ensures SplitClassName(x + y) == (x, y)
  {
    if x == [] {
      assert x + y == y;
    } else {
      assert (x + y)[0] == x[0];
      assert (x + y)[1..] == x[1..] + y;
      SplitClassNameOf(x[1..], y);
      assert [x[0]] + x[1..] == x;
    }
  }

  /** The variable parts of a string the pattern matches, left to right. */
  datatype ObjectHeader = ObjectHeader(
    length: string,     // the digits after `O:`
    className: string,  // the name between the quotes
    count: string,      // the digits after the name
    body: string,       // what lies between the braces
    newline: bool)      // whether a final newline follows the closing brace

  predicate WellFormedHeader(h: ObjectHeader) {
    h.length != [] && AllDigits(h.length) &&
    h.className != [] && AllClassChars(h.className) &&
    h.count != [] && AllDigits(h.count) &&
    '\n' !in h.body
  }

  function Closing(newline: bool): string {
    if newline then "}\n" else "}"
  }

  /** The string written from the parts. */
  function HeaderText(h: ObjectHeader): string {
    "O:" + (h.length + (":\"" + (h.className + ("\":" + (h.count + (":{" + (h.body + Closing(h.newline))))))))
  }

  /** The matcher: the literal `O:`, then the stages below in turn. */
  function ScanObject(s: string): (r: Option<ObjectHeader>)
    ensures r.Some? ==> WellFormedHeader(r.value)
  {
    if StartsWith(s, "O:") then ScanLength(s[2..]) else None
  }

  /** `\d+` followed by `:"`. */
  function ScanLength(r: string): Option<ObjectHeader> {
    var d := SplitDigits(r);
    if d.0 != [] && StartsWith(d.1, ":\"") then ScanClassName(d.0, d.1[2..]) else None
  }

  /** `[\w\\]+` followed by `":`. */
  function ScanClassName(length: string, r: string): Option<ObjectHeader> {
    var c := SplitClassName(r);
    if c.0 != [] && StartsWith(c.1, "\":") then ScanCount(length, c.0, c.1[2..]) else None
  }

  /** `\d+` followed by `:{`. */
  function ScanCount(length: string, className: string, r: string): Option<ObjectHeader> {
    var d := SplitDigits(r);
    if d.0 != [] && StartsWith(d.1, ":{") then ScanBody(length, className, d.0, d.1[2..]) else None
  }

  /** `.*}` at the end of the string, or just before a final newline. */
  function ScanBody(length: string, className: string, count: string, r: string): Option<ObjectHeader> {
    if r != [] && r[|r| - 1] == '}' && '\n' !in r[..|r| - 1] then
      Some(ObjectHeader(length, className, count, r[..|r| - 1], false))
    else if |r| >= 2 && r[|r| - 2..] == "}\n" && '\n' !in r[..|r| - 2] then
      Some(ObjectHeader(length, className, count, r[..|r| - 2], true))
    else None
  }

  /** PHP `isSerialized`: whether the pattern matches. */
  predicate IsSerialized(s: string) {
    ScanObject(s).Some?
  }

  /** What the matcher accepts has well-formed parts that spell the input. */
  lemma ScanObjectSound(s: string)
    requires IsSerialized(s)
    ensures WellFormedHeader(ScanObject(s).value) && HeaderText(ScanObject(s).value) == s
  {
    var h := ScanObject(s).value;
    var r1 := s[2..];
    assert s == "O:" + r1;
    var d1 := SplitDigits(r1);
    var r3 := d1.1[2..];
    assert d1.1 == ":\"" + r3;
    var c := SplitClassName(r3);
    var r5 := c.1[2..];
    assert c.1 == "\":" + r5;
    var d2 := SplitDigits(r5);
    var r7 := d2.1[2..];
    assert d2.1 == ":{" + r7;
    assert r7 == h.body + Closing(h.newline);
  }

  /** The body stage reads back the body and the optional newline. */
  lemma ScanBodyOf(h: ObjectHeader)
    requires '\n' !in h.body
    ensures ScanBody(h.length, h.className, h.count, h.body + Closing(h.newline)) == Some(h)
  {
    var r := h.body + Closing(h.newline);
    if h.newline {
      assert r[..|r| - 2] == h.body && r[|r| - 2..] == "}\n";
    } else {
      assert r[..|r| - 1] == h.body;
    }
  }

  /** The count stage reads back the count, then the body. */
  lemma ScanCountOf(h: ObjectHeader)
    requires h.count != [] && AllDigits(h.count) && '\n' !in h.body
    ensures ScanCount(h.length, h.className, h.count + (":{" + (h.body + Closing(h.newline)))) == Some(h)
  {
    var r := ":{" + (h.body + Closing(h.newline));
    SplitDigitsOf(h.count, r);
    assert r[..2] == ":{" && r[2..] == h.body + Closing(h.newline);
    ScanBodyOf(h);
  }

  /** The class-name stage reads back the name, then the rest. */
  lemma ScanClassNameOf(h: ObjectHeader)
    requires h.className != [] && AllClassChars(h.className)
    requires h.count != [] && AllDigits(h.count) && '\n' !in h.body
    ensures ScanClassName(h.length, h.className + ("\":" + (h.count + (":{" + (h.body + Closing(h.newline)))))) == Some(h)
  {
    var rest := h.count + (":{" + (h.body + Closing(h.newline)));
    var r := "\":" + rest;
    SplitClassNameOf(h.className, r);
    assert r[..2] == "\":" && r[2..] == rest;
    ScanCountOf(h);
  }

  /** Every string written from well-formed parts matches, and the matcher gives back those parts. */
  lemma ScanObjectComplete(h: ObjectHeader)
    requires WellFormedHeader(h)
    ensures ScanObject(HeaderText(h)) == Some(h)
  {
    var r3 := h.className + ("\":" + (h.count + (":{" + (h.body + Closing(h.newline)))));
    var r2 := ":\"" + r3;
    var r1 := h.length + r2;
    var s := "O:" + r1;
    assert s[..2] == "O:" && s[2..] == r1;
    SplitDigitsOf(h.length, r2);
    assert r2[..2] == ":\"" && r2[2..] == r3;
    ScanClassNameOf(h);
  }

  /** The matched strings are exactly the texts of well-formed parts. */
  lemma SerializedPattern(s: string)
    ensures IsSerialized(s) <==> exists h :: WellFormedHeader(h) && HeaderText(h) == s
  {
    if IsSerialized(s) {
      ScanObjectSound(s);
    }
    if exists h :: WellFormedHeader(h) && HeaderText(h) == s {
      var h :| WellFormedHeader(h) && HeaderText(h) == s;
      ScanObjectComplete(h);
    }
  }
}
