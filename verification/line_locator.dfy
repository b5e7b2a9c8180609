/**
  The line locator shared by the hard-coded key comparer
  (src/CompareHardcode.tsx) and the cleaner (src/Cleaner.tsx): escape every
  regular-expression metacharacter of a key, build the pattern `"key"`, and
  report the 1-based number of the first line of the source text the pattern
  matches, or 0 when no line does (`lines.findIndex(...) + 1 || 0`).

  Because the escape set covers every metacharacter, the pattern denotes
  exactly the quoted key as a literal, and matching is a substring test.
 */
module LineLocator {
  import opened Text
  import opened JsonTree

  /** The characters the tool escapes: `[-\\^$*+?.()|[\]{}]`. */
  predicate IsMeta(c: char) {
    c in "-\\^$*+?.()|[]{}"
  }

  /** `key.replace(/[-\\^$*+?.()|[\]{}]/g, "\\$&")` */
  function Escape(key: string): (r: string)
    ensures |r| >= |key|
  {
    if |key| == 0 then []
    else (if IsMeta(key[0]) then ['\\', key[0]] else [key[0]]) + Escape(key[1..])
  }

  /** The string a regular-expression source denotes when it is made only of
      ordinary characters and backslash-escaped metacharacters; `None` for any
      source holding an unescaped metacharacter or another escape, i.e. one
      that is not a plain literal. */
  function LiteralOf(pattern: string): Option<string>
  {
    if |pattern| == 0 then Some([])
    else if pattern[0] == '\\' then
      if |pattern| >= 2 && IsMeta(pattern[1]) then Prepend(pattern[1], LiteralOf(pattern[2..]))
      else None
    else if IsMeta(pattern[0]) then None
    else Prepend(pattern[0], LiteralOf(pattern[1..]))
  }

  function Prepend(c: char, o: Option<string>): Option<string> {
    match o
    case None => None
    case Some(s) => Some([c] + s)
  }

  /** An escaped metacharacter denotes itself. */
  lemma LiteralEscaped(c: char, rest: string)
    requires IsMeta(c)
    ensures LiteralOf(['\\', c] + rest) == Prepend(c, LiteralOf(rest))
  {
    var p := ['\\', c] + rest;
    assert p[0] == '\\' && p[1] == c && p[2..] == rest;
  }

  /** An ordinary character denotes itself. */
  lemma LiteralPlain(c: char, rest: string)
    requires !IsMeta(c)
    ensures LiteralOf([c] + rest) == Prepend(c, LiteralOf(rest))
  {
    var p := [c] + rest;
    assert p[0] == c && p[1..] == rest;
  }

  lemma ConsTail(key: string, t: string)
    requires |key| > 0
    ensures [key[0]] + (key[1..] + t) == key + t
  {
    assert key == [key[0]] + key[1..];
  }

  /** The escaped first character of the key denotes itself. */
  lemma EscapeCons(key: string, tail: string)
    requires |key| > 0
    ensures LiteralOf(Escape(key) + tail) == Prepend(key[0], LiteralOf(Escape(key[1..]) + tail))
  {
    var c := key[0];
    var rest := Escape(key[1..]) + tail;
    var head := if IsMeta(c) then ['\\', c] else [c];
    assert Escape(key) + tail == head + rest;
    if IsMeta(c) {
      LiteralEscaped(c, rest);
    } else {
      LiteralPlain(c, rest);
    }
  }

  lemma {:induction false} EscapeThenTail(key: string, tail: string)
    ensures LiteralOf(Escape(key) + tail)
            == match LiteralOf(tail) case None => None case Some(t) => Some(key + t)
    decreases |key|
  {
    if |key| > 0 {
      EscapeCons(key, tail);
      EscapeThenTail(key[1..], tail);
      match LiteralOf(tail)
      case None =>
      case Some(t) =>
        ConsTail(key, t);
    } else {
      assert Escape(key) + tail == tail;
      match LiteralOf(tail)
      case None =>
      case Some(t) =>
        assert key + t == t;
    }
  }

  /** The regular expression the tool builds for a key. */
  function QuotedPattern(key: string): string {
    "\"" + Escape(key) + "\""
  }

  /** The pattern built for any key is a plain literal: the quoted key itself. */
  lemma PatternIsLiteral(key: string)
    ensures LiteralOf(QuotedPattern(key)) == Some("\"" + key + "\"")
  {
    var quote := "\"";
    assert !IsMeta(quote[0]) && quote[0] != '\\' && quote[1..] == [];
    assert LiteralOf(quote[1..]) == Some([]);
    assert [quote[0]] + [] == quote;
    assert LiteralOf(quote) == Some(quote);
    EscapeThenTail(key, quote);
    var q := QuotedPattern(key);
    assert q == ['"'] + (Escape(key) + "\"");
    assert q[0] == '"' && !IsMeta(q[0]);
    assert q[1..] == Escape(key) + "\"";
    assert LiteralOf(q[1..]) == Some(key + "\"");
    assert LiteralOf(q) == Some(['"'] + (key + "\""));
    assert ['"'] + (key + "\"") == "\"" + key + "\"";
  }

  /** The text the pattern for `key` matches literally. */
  function Needle(key: string): string {
    "\"" + key + "\""
  }

  /** The 1-based number of the first line containing `pat`, or 0. */
  function FirstLineWith(lines: seq<string>, pat: string): (r: nat)
    ensures r <= |lines|
    ensures r == 0 <==> forall i :: 0 <= i < |lines| ==> !Contains(lines[i], pat)
    ensures r > 0 ==> Contains(lines[r - 1], pat)
    ensures r > 0 ==> forall i :: 0 <= i < r - 1 ==> !Contains(lines[i], pat)
  {
    if |lines| == 0 then 0
    else if Contains(lines[0], pat) then 1
    else
      var r := FirstLineWith(lines[1..], pat);
      assert forall i :: 1 <= i < |lines| ==> lines[i] == lines[1..][i - 1];
      if r == 0 then 0 else r + 1
  }

  /** The line reported for `key`: first line holding `"key"`, or 0. */
  function Locate(lines: seq<string>, key: string): nat {
    FirstLineWith(lines, Needle(key))
  }

  /** `lines.findIndex((line) => regex.test(line))`, then `lineIndex + 1 || 0`. */
  method LocateLine(lines: seq<string>, key: string) returns (line: nat)
    ensures line <= |lines|
    ensures line == 0 <==> forall i :: 0 <= i < |lines| ==> !Contains(lines[i], Needle(key))
    ensures line > 0 ==> Contains(lines[line - 1], Needle(key))
    ensures line > 0 ==> forall i :: 0 <= i < line - 1 ==> !Contains(lines[i], Needle(key))
    ensures line == Locate(lines, key)
  {
    var pat := Needle(key);
    var lineIndex := -1;
    var i := 0;
    while i < |lines|
      invariant 0 <= i <= |lines|
      invariant forall j :: 0 <= j < i ==> !Contains(lines[j], pat)
    {
      if ScanFrom(lines[i], pat, 0) {
        lineIndex := i;
        break;
      }
      i := i + 1;
    }
    line := lineIndex + 1;
  }

  /** A pattern holding a character the text lacks does not occur in it. */
  lemma AbsentCharNoMatch(s: string, pat: string, c: char)
    requires c in pat && c !in s
    ensures !Contains(s, pat)
  {
    var j :| 0 <= j < |pat| && pat[j] == c;
    forall i: nat | i + |pat| <= |s|
      ensures !OccursAt(s, pat, i)
    {
      assert s[i..i + |pat|][j] == s[i + j];
    }
  }

  /** The sample file `{`, `  "foo": "bar",`, `  "baz": "qux"`, `}`. */
  function SampleLines(): seq<string> {
    ["{", "  \"foo\": \"bar\",", "  \"baz\": \"qux\"", "}"]
  }

  /** The two sample lookups: in the sample file the key `baz` is on line 3
      and `missing` on no line. */
  lemma ExampleLookups()
    ensures Locate(SampleLines(), "baz") == 3
    ensures Locate(SampleLines(), "missing") == 0
  {
    ExampleFound();
    ExampleMissing();
  }

  lemma ExampleFound()
    ensures Locate(SampleLines(), "baz") == 3
  {
    var lines := SampleLines();
    assert OccursAt(lines[2], Needle("baz"), 2);
    AbsentCharNoMatch(lines[0], Needle("baz"), 'b');
    AbsentCharNoMatch(lines[1], Needle("baz"), 'z');
  }

  lemma ExampleMissing()
    ensures Locate(SampleLines(), "missing") == 0
  {
    var lines := SampleLines();
    var pat := Needle("missing");
    assert pat[1] == 'm';
    AbsentCharNoMatch(lines[0], pat, 'm');
    AbsentCharNoMatch(lines[1], pat, 'm');
    AbsentCharNoMatch(lines[2], pat, 'm');
    AbsentCharNoMatch(lines[3], pat, 'm');
  }
}
