/** The string cleanup at the end of `convert_docx_to_html` (conversion/googleDocToHTMLBulk.py):
    carriage returns become spaces, line feeds are deleted, and an optional "disruptive" string
    is deleted wherever `str.replace` finds it. */
module Cleanup {
  import opened Wrappers
  import opened Text

  /** What a single character turns into: '\r' into a space, '\n' into nothing, anything else
      into itself. */
  function CleanChar(c: char): string
  {
    if c == '\r' then " " else if c == '\n' then "" else [c]
  }

  /** Character-by-character reference for the line-break cleanup. */
  function CleanChars(s: string): string
    decreases |s|
  {
    if |s| == 0 then "" else CleanChar(s[0]) + CleanChars(s[1..])
  }

  /** How often `c` occurs in `s`. */
  function Count(s: string, c: char): nat
    decreases |s|
  {
    if |s| == 0 then 0 else (if s[0] == c then 1 else 0) + Count(s[1..], c)
  }

  /** The line-break cleanup: three replacements in a row, carriage returns by spaces, line
      feeds by nothing, and line-break tags by themselves. The result is the
      character-by-character rewrite, it holds no line break of either kind, and it is shorter
      than the input by exactly the number of line feeds. */
  function CleanLineBreaks(s: string): (r: string)
    ensures r == CleanChars(s)
    ensures forall i | 0 <= i < |r| :: r[i] != '\r' && r[i] != '\n'
    ensures |r| == |s| - Count(s, '\n')
  {
    var r := ReplaceAll(ReplaceAll(ReplaceAll(s, "\r", " "), "\n", ""), "<br>", "<br>");
    ReplaceAllIdentity(ReplaceAll(ReplaceAll(s, "\r", " "), "\n", ""), "<br>");
    CleanLineBreaksIsCharwise(s);
    CleanCharsProperties(s);
    r
  }

  lemma {:induction false} CleanLineBreaksIsCharwise(s: string)
    ensures ReplaceAll(ReplaceAll(s, "\r", " "), "\n", "") == CleanChars(s)
    decreases |s|
  {
    if |s| > 0 {
      var x := s[0];
      var t := s[1..];
      assert s == [x] + t;
      ReplaceCharCons(x, t, '\r', " ");
      var head := if x == '\r' then " " else [x];
      var rest := ReplaceAll(t, "\r", " ");
      assert ReplaceAll(s, "\r", " ") == head + rest;
      assert |head| == 1 && head == [head[0]];
      ReplaceCharCons(head[0], rest, '\n', "");
      CleanLineBreaksIsCharwise(t);
    }
  }

  lemma {:induction false} CleanCharsProperties(s: string)
    ensures forall i | 0 <= i < |CleanChars(s)| :: CleanChars(s)[i] != '\r' && CleanChars(s)[i] != '\n'
    ensures |CleanChars(s)| == |s| - Count(s, '\n')
    decreases |s|
  {
    if |s| > 0 {
      CleanCharsProperties(s[1..]);
    }
  }

  /** Text without line breaks is left as it is. */
  lemma {:induction false} CleanCharsWithoutLineBreaks(s: string)
    requires forall i | 0 <= i < |s| :: s[i] != '\r' && s[i] != '\n'
    ensures CleanChars(s) == s
    decreases |s|
  {
    if |s| > 0 {
      CleanCharsWithoutLineBreaks(s[1..]);
    }
  }

  /** Cleaning twice is cleaning once. */
  lemma CleanLineBreaksIdempotent(s: string)
    ensures CleanLineBreaks(CleanLineBreaks(s)) == CleanLineBreaks(s)
  {
    var r := CleanLineBreaks(s);
    CleanCharsWithoutLineBreaks(r);
  }

  /** Removal of the disruptive string: skipped when the string is None or empty; otherwise
      every occurrence is deleted, scanning left to right as `str.replace` does. Deleting never
      lengthens the text nor brings in a character that was not there, and text without an
      occurrence of the string comes back unchanged. */
  function RemoveDisruptive(s: string, disruptive: Option<string>): (r: string)
    ensures disruptive.None? || disruptive == Some("") ==> r == s
    ensures disruptive.Some? && !Occurs(s, disruptive.value) ==> r == s
    ensures |r| <= |s|
    ensures forall c | c in r :: c in s
  {
    match disruptive
    case None => s
    case Some(d) =>
      if |d| == 0 then s
      else
        DeleteAllKeepsCharacters(s, d);
        assert !Occurs(s, d) ==> ReplaceAll(s, d, "") == s by {
          if !Occurs(s, d) {
            ReplaceAllWithoutOccurrence(s, d, "");
          }
        }
        ReplaceAll(s, d, "")
  }

  /** The first occurrence found scanning from the left is deleted and the scan resumes behind
      it, so occurrences never overlap. */
  lemma RemoveDisruptiveLeftmost(s: string, d: string, i: nat)
    requires |d| > 0
    requires OccursAt(s, d, i)
    requires forall j | 0 <= j < i :: !OccursAt(s, d, j)
    ensures RemoveDisruptive(s, Some(d)) == s[..i] + RemoveDisruptive(s[i + |d|..], Some(d))
  {
    ReplaceAllLeftmost(s, d, "", i);
  }

  /** An occurrence preceded by text that holds no first character of the disruptive string
      is the next one deleted. */
  lemma RemoveBehindCleanPrefix(a: string, d: string, rest: string)
    requires |d| > 0 && d[0] !in a
    ensures RemoveDisruptive(a + d + rest, Some(d)) == a + RemoveDisruptive(rest, Some(d))
  {
    var s := a + d + rest;
    assert s[..|a|] == a;
    NoOccurrenceBefore(s, d, |a|);
    assert s[|a|..|a| + |d|] == d;
    assert s[|a| + |d|..] == rest;
    RemoveDisruptiveLeftmost(s, d, |a|);
  }

  /** Three occurrences separated by text free of the disruptive string's first character are
      all deleted, and nothing else is. */
  lemma RemoveThreeOccurrences(a: string, b: string, c: string, d: string)
    requires |d| > 0 && d[0] !in a && d[0] !in b && d[0] !in c
    ensures RemoveDisruptive(a + d + b + d + c + d, Some(d)) == a + b + c
  {
    var dd := Some(d);
    var s3 := c + d;
    var s2 := b + d + s3;
    assert a + d + b + d + c + d == a + d + s2;
    RemoveBehindCleanPrefix(a, d, s2);
    RemoveBehindCleanPrefix(b, d, s3);
    assert s3 == c + d + [];
    RemoveBehindCleanPrefix(c, d, []);
    assert RemoveDisruptive([], dd) == [];
    var r3 := RemoveDisruptive(s3, dd);
    assert r3 == c;
    var r2 := RemoveDisruptive(s2, dd);
    assert r2 == b + c;
    assert RemoveDisruptive(a + d + s2, dd) == a + (b + c);
  }

  /** A single left-to-right pass does not delete occurrences that the deletion itself
      creates: "ab" deleted from "aabb" leaves "ab". */
  lemma RemovalIsSinglePass()
    ensures RemoveDisruptive("aabb", Some("ab")) == "ab"
    ensures Occurs(RemoveDisruptive("aabb", Some("ab")), "ab")
  {
    assert OccursAt("aabb", "ab", 1);
    assert !OccursAt("aabb", "ab", 0) by {
      assert "aabb"[0..2][1] == 'a';
    }
    RemoveDisruptiveLeftmost("aabb", "ab", 1);
    assert !Occurs("b", "ab");
    assert OccursAt("ab", "ab", 0);
  }

  /** No occurrence of `p` starts before position `i` when its first character does not. */
  lemma NoOccurrenceBefore(s: string, p: string, i: nat)
    requires |p| > 0 && i <= |s|
    requires forall j | 0 <= j < i :: s[j] != p[0]
    ensures forall j | 0 <= j < i :: !OccursAt(s, p, j)
    ensures i == |s| ==> !Occurs(s, p)
  {
    forall j | 0 <= j < i
      ensures !OccursAt(s, p, j)
    {
      if j + |p| <= |s| {
        assert s[j..j + |p|][0] == s[j];
      }
    }
  }
}
