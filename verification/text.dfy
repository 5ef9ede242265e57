/** Character classes and string operations of Python's `str` that the post-processing layer
    relies on: whitespace and digits as the `re` module and `str.strip` see them, ASCII lowering,
    prefix/suffix/substring tests, first and last index of a character, and `str.replace`. */
module Text {
  import opened Wrappers

  /** Whitespace as `str.isspace()` and the `\s` class of a `str` regular expression define it. */
  predicate IsSpace(c: char)
  {
    || c == ' '
    || ('\t' <= c <= '\r')
    || ('\U{1C}' <= c <= '\U{1F}')
    || c == '\U{85}' || c == '\U{A0}' || c == '\U{1680}'
    || ('\U{2000}' <= c <= '\U{200A}')
    || c == '\U{2028}' || c == '\U{2029}' || c == '\U{202F}' || c == '\U{205F}' || c == '\U{3000}'
  }

  /** An ASCII decimal digit. */
  predicate IsDigit(c: char)
  {
    '0' <= c <= '9'
  }

  predicate AllSpace(s: string)
  {
    forall i | 0 <= i < |s| :: IsSpace(s[i])
  }

  function AsciiLower(c: char): char
  {
    if 'A' <= c <= 'Z' then (c as int - 'A' as int + 'a' as int) as char else c
  }

  /** `str.lower()` restricted to ASCII letters; every other character is kept. */
  function Lower(s: string): (r: string)
    ensures |r| == |s|
    ensures forall i | 0 <= i < |s| :: r[i] == AsciiLower(s[i])
  {
    seq(|s|, i requires 0 <= i < |s| => AsciiLower(s[i]))
  }

  /** Lower-casing commutes with taking a suffix. */
  lemma LowerSuffix(s: string, a: nat)
    requires a <= |s|
    ensures Lower(s)[a..] == Lower(s[a..])
  {
  }

  /** Lower-casing works character by character from the front. */
  lemma LowerCons(c: char, t: string)
    ensures Lower([c] + t) == [AsciiLower(c)] + Lower(t)
  {
  }

  predicate StartsWith(s: string, prefix: string)
  {
    |prefix| <= |s| && s[..|prefix|] == prefix
  }

  predicate EndsWith(s: string, suffix: string)
  {
    |suffix| <= |s| && s[|s| - |suffix|..] == suffix
  }

  predicate OccursAt(s: string, p: string, i: int)
  {
    0 <= i && i + |p| <= |s| && s[i..i + |p|] == p
  }

  /** Python's `p in s` for strings. */
  predicate Occurs(s: string, p: string)
  {
    exists i | 0 <= i <= |s| - |p| :: OccursAt(s, p, i)
  }

  /** Neither starts nor ends with whitespace. */
  predicate Trimmed(s: string)
  {
    |s| == 0 || (!IsSpace(s[0]) && !IsSpace(s[|s| - 1]))
  }

  /** Two trimmed texts joined are trimmed. */
  lemma TrimmedConcat(a: string, b: string)
    requires Trimmed(a) && Trimmed(b)
    ensures Trimmed(a + b)
  {
    if |a| > 0 && |b| > 0 {
      assert (a + b)[0] == a[0] && (a + b)[|a + b| - 1] == b[|b| - 1];
    } else if |a| == 0 {
      assert a + b == b;
    } else {
      assert a + b == a;
    }
  }

  /** Number of leading whitespace characters. */
  function LeadingSpaces(s: string): (n: nat)
    ensures n <= |s|
    ensures AllSpace(s[..n])
    ensures n < |s| ==> !IsSpace(s[n])
    decreases |s|
  {
    if |s| == 0 || !IsSpace(s[0]) then 0
    else
      var n := 1 + LeadingSpaces(s[1..]);
      assert forall i | 1 <= i < n :: s[i] == s[1..][i - 1];
      n
  }

  /** Number of trailing whitespace characters. */
  function TrailingSpaces(s: string): (n: nat)
    ensures n <= |s|
    ensures AllSpace(s[|s| - n..])
    ensures n < |s| ==> !IsSpace(s[|s| - n - 1])
    decreases |s|
  {
    if |s| == 0 || !IsSpace(s[|s| - 1]) then 0
    else
      var init := s[..|s| - 1];
      var n := 1 + TrailingSpaces(init);
      assert forall i | |s| - n <= i < |s| - 1 :: s[i] == init[i];
      n
  }

  /** `str.strip()` with no argument: the result is the unique infix of `s` that neither starts
      nor ends with whitespace and is surrounded by whitespace only. */
  function Strip(s: string): (r: string)
    ensures Trimmed(r)
    ensures exists i | 0 <= i <= |s| - |r| :: s[i..i + |r|] == r && AllSpace(s[..i]) && AllSpace(s[i + |r|..])
  {
    var a := LeadingSpaces(s);
    var t := s[a..];
    var b := TrailingSpaces(t);
    var r := t[..|t| - b];
    assert s[a..a + |r|] == r;
    assert s[a + |r|..] == t[|t| - b..];
    r
  }

  /** Whitespace in front of a non-space character is exactly what LeadingSpaces counts. */
  lemma {:induction false} LeadingSpacesOf(a: string, rest: string)
    requires AllSpace(a) && |rest| > 0 && !IsSpace(rest[0])
    ensures LeadingSpaces(a + rest) == |a|
    decreases |a|
  {
    if |a| == 0 {
      assert a + rest == rest;
    } else {
      assert (a + rest)[1..] == a[1..] + rest;
      LeadingSpacesOf(a[1..], rest);
    }
  }

  /** Whitespace behind a non-space character is exactly what TrailingSpaces counts. */
  lemma {:induction false} TrailingSpacesOf(rest: string, b: string)
    requires AllSpace(b) && |rest| > 0 && !IsSpace(rest[|rest| - 1])
    ensures TrailingSpaces(rest + b) == |b|
    decreases |b|
  {
    if |b| == 0 {
      assert rest + b == rest;
    } else {
      var s := rest + b;
      assert s[..|s| - 1] == rest + b[..|b| - 1];
      TrailingSpacesOf(rest, b[..|b| - 1]);
    }
  }

  /** Strip is the inverse of surrounding a text with whitespace, for a text that neither
      starts nor ends with whitespace. */
  lemma StripSurrounded(a: string, core: string, b: string)
    requires AllSpace(a) && AllSpace(b)
    requires Trimmed(core)
    ensures Strip(a + core + b) == core
  {
    if |core| == 0 {
      assert a + core + b == a + b;
      AllSpaceConcat(a, b);
      AllSpaceStrips(a + b);
    } else {
      StripSurroundedText(a, core, b);
    }
  }

  lemma StripSurroundedText(a: string, core: string, b: string)
    requires AllSpace(a) && AllSpace(b)
    requires |core| > 0 && !IsSpace(core[0]) && !IsSpace(core[|core| - 1])
    ensures Strip(a + core + b) == core
  {
    var s := a + core + b;
    assert s == a + (core + b);
    LeadingSpacesOf(a, core + b);
    var t := s[|a|..];
    assert t == core + b;
    TrailingSpacesOf(core, b);
    assert t[..|t| - |b|] == core;
  }

  lemma AllSpaceConcat(a: string, b: string)
    requires AllSpace(a) && AllSpace(b)
    ensures AllSpace(a + b)
  {
    var s := a + b;
    forall i | 0 <= i < |s|
      ensures IsSpace(s[i])
    {
      if i >= |a| {
        assert s[i] == b[i - |a|];
      }
    }
  }

  /** Text made of whitespace only strips to nothing. */
  lemma {:induction false} AllSpaceStrips(s: string)
    requires AllSpace(s)
    ensures LeadingSpaces(s) == |s|
    ensures Strip(s) == ""
    decreases |s|
  {
    if |s| > 0 {
      AllSpaceStrips(s[1..]);
    }
  }

  /** `s.find(c)` for a single character, as an option. */
  function FirstIndex(s: string, c: char): (r: Option<nat>)
    ensures r.None? <==> c !in s
    ensures r.Some? ==> r.value < |s| && s[r.value] == c && c !in s[..r.value]
    decreases |s|
  {
    if |s| == 0 then None
    else if s[0] == c then Some(0)
    else match FirstIndex(s[1..], c)
      case None => None
      case Some(k) =>
        assert s[..k + 1] == [s[0]] + s[1..][..k];
        Some(k + 1)
  }

  /** The first `c` in `a + [c] + b` is the one right behind `a` when `a` holds none. */
  lemma FirstIndexBehind(a: string, c: char, b: string)
    requires c !in a
    ensures FirstIndex(a + [c] + b, c) == Some(|a|)
  {
    var s := a + [c] + b;
    assert s[|a|] == c;
    assert s[..|a|] == a;
  }

  /** `s.rfind(c)` for a single character, as an option. */
  function LastIndex(s: string, c: char): (r: Option<nat>)
    ensures r.None? <==> c !in s
    ensures r.Some? ==> r.value < |s| && s[r.value] == c && c !in s[r.value + 1..]
    decreases |s|
  {
    if |s| == 0 then None
    else if s[|s| - 1] == c then Some(|s| - 1)
    else
      var init := s[..|s| - 1];
      assert s == init + [s[|s| - 1]];
      match LastIndex(init, c)
      case None => None
      case Some(k) =>
        assert s[k + 1..] == init[k + 1..] + [s[|s| - 1]];
        Some(k)
  }

  /** A `c` with none behind it is the last one. */
  lemma {:induction false} LastIndexAt(s: string, c: char, i: nat)
    requires i < |s| && s[i] == c && c !in s[i + 1..]
    ensures LastIndex(s, c) == Some(i)
    decreases |s|
  {
    if i < |s| - 1 {
      assert s[|s| - 1] == s[i + 1..][|s| - 2 - i];
      var init := s[..|s| - 1];
      assert init[i + 1..] == s[i + 1..|s| - 1];
      LastIndexAt(init, c, i);
    }
  }

  /** The last `c` in `a + [c] + b` is the one right after `a` when `b` holds none. */
  lemma LastIndexBefore(a: string, c: char, b: string)
    requires c !in b
    ensures LastIndex(a + [c] + b, c) == Some(|a|)
  {
    var s := a + [c] + b;
    assert s[|a|] == c;
    assert s[|a| + 1..] == b;
  }

  /** `s.replace(p, r)` for a non-empty `p`: occurrences are found scanning left to right and
      never overlap; after a replacement the scan resumes behind the replaced occurrence. */
  function ReplaceAll(s: string, p: string, r: string): string
    requires |p| > 0
    decreases |s|
  {
    if |s| < |p| then s
    else if s[..|p|] == p then r + ReplaceAll(s[|p|..], p, r)
    else [s[0]] + ReplaceAll(s[1..], p, r)
  }

  /** Text without an occurrence of `p` comes back unchanged. */
  lemma {:induction false} ReplaceAllWithoutOccurrence(s: string, p: string, r: string)
    requires |p| > 0
    requires !Occurs(s, p)
    ensures ReplaceAll(s, p, r) == s
    decreases |s|
  {
    if |s| >= |p| {
      assert !OccursAt(s, p, 0);
      forall i | 0 <= i <= |s[1..]| - |p|
        ensures !OccursAt(s[1..], p, i)
      {
        OccursAtTail(s, p, i);
      }
      ReplaceAllWithoutOccurrence(s[1..], p, r);
    }
  }

  /** The leftmost occurrence is the one replaced, and the scan goes on behind it. Together
      with ReplaceAllWithoutOccurrence this determines `str.replace` completely. */
  lemma ReplaceAllLeftmost(s: string, p: string, r: string, i: nat)
    requires |p| > 0
    requires OccursAt(s, p, i)
    requires forall j | 0 <= j < i :: !OccursAt(s, p, j)
    ensures ReplaceAll(s, p, r) == s[..i] + r + ReplaceAll(s[i + |p|..], p, r)
  {
    FirstOccurrenceOfLeftmost(s, p, i);
    ReplaceAllAtFirstOccurrence(s, p, r, i);
  }

  /** Position of the first occurrence of `p` in `s`, scanning as `str.replace` does. */
  function FirstOccurrence(s: string, p: string): (r: Option<nat>)
    requires |p| > 0
    ensures r.Some? ==> r.value + |p| <= |s|
    decreases |s|
  {
    if |s| < |p| then None
    else if s[..|p|] == p then Some(0)
    else match FirstOccurrence(s[1..], p)
      case None => None
      case Some(k) => Some(k + 1)
  }

  /** The leftmost occurrence is the one FirstOccurrence reports. */
  lemma FirstOccurrenceOfLeftmost(s: string, p: string, i: nat)
    requires |p| > 0
    requires OccursAt(s, p, i)
    requires forall j | 0 <= j < i :: !OccursAt(s, p, j)
    ensures FirstOccurrence(s, p) == Some(i)
  {
    FirstOccurrenceNotMissed(s, p, i);
    var k := FirstOccurrence(s, p).value;
    FirstOccurrenceFound(s, p, k);
  }

  /** What FirstOccurrence reports is an occurrence, and none starts before it. */
  lemma {:induction false} FirstOccurrenceFound(s: string, p: string, i: nat)
    requires |p| > 0
    requires FirstOccurrence(s, p) == Some(i)
    ensures OccursAt(s, p, i)
    ensures forall j | 0 <= j < i :: !OccursAt(s, p, j)
    decreases i
  {
    if i == 0 {
      assert s[0..|p|] == s[..|p|];
    } else {
      FirstOccurrenceInTail(s, p, i);
      FirstOccurrenceFound(s[1..], p, i - 1);
      OccursAtTail(s, p, i - 1);
      forall j | 0 < j < i
        ensures !OccursAt(s, p, j)
      {
        OccursAtTail(s, p, j - 1);
      }
    }
  }

  /** No occurrence is skipped: FirstOccurrence reports one at or before any occurrence. */
  lemma {:induction false} FirstOccurrenceNotMissed(s: string, p: string, j: nat)
    requires |p| > 0
    requires OccursAt(s, p, j)
    ensures FirstOccurrence(s, p).Some? && FirstOccurrence(s, p).value <= j
    decreases j
  {
    assert s[0..|p|] == s[..|p|];
    if s[..|p|] != p {
      OccursAtTail(s, p, j - 1);
      FirstOccurrenceNotMissed(s[1..], p, j - 1);
    }
  }

  /** `str.replace` copies everything before the first occurrence, replaces it, and goes on
      behind it. */
  lemma {:induction false} ReplaceAllAtFirstOccurrence(s: string, p: string, r: string, i: nat)
    requires |p| > 0
    requires FirstOccurrence(s, p) == Some(i)
    ensures ReplaceAll(s, p, r) == s[..i] + r + ReplaceAll(s[i + |p|..], p, r)
    decreases i
  {
    if i == 0 {
      ReplaceAllAtStart(s, p, r);
    } else {
      var t, j := s[1..], i - 1;
      FirstOccurrenceInTail(s, p, i);
      ReplaceAllAtFirstOccurrence(t, p, r, j);
      ReplaceAllSkipStep(s, p, r, i, t, j);
    }
  }

  /** A first occurrence further on than the start is one position earlier in the tail. */
  lemma FirstOccurrenceInTail(s: string, p: string, i: nat)
    requires |p| > 0 && 0 < i
    requires FirstOccurrence(s, p) == Some(i)
    ensures !OccursAt(s, p, 0)
    ensures FirstOccurrence(s[1..], p) == Some(i - 1)
  {
    assert s[..|p|] != p;
    assert s[0..|p|] == s[..|p|];
  }

  /** An occurrence at the very start is replaced first. */
  lemma ReplaceAllAtStart(s: string, p: string, r: string)
    requires |p| > 0
    requires OccursAt(s, p, 0)
    ensures ReplaceAll(s, p, r) == s[..0] + r + ReplaceAll(s[|p|..], p, r)
  {
    assert s[..|p|] == p;
    assert s[..0] + r == r;
  }

  /** An occurrence in the tail is an occurrence one position further on in the whole. */
  lemma OccursAtTail(s: string, p: string, j: nat)
    requires |s| > 0
    ensures OccursAt(s[1..], p, j) <==> OccursAt(s, p, j + 1)
  {
    if j + 1 + |p| <= |s| {
      assert s[1..][j..j + |p|] == s[j + 1..j + 1 + |p|];
    }
  }

  /** One step of ReplaceAllAtFirstOccurrence: a first character that starts no occurrence
      is kept in front of the tail's replacement. */
  lemma ReplaceAllSkipStep(s: string, p: string, r: string, i: nat, t: string, j: nat)
    requires |p| > 0
    requires |s| > 0 && t == s[1..] && i == j + 1 && j + |p| <= |t|
    requires !OccursAt(s, p, 0)
    requires ReplaceAll(t, p, r) == t[..j] + r + ReplaceAll(t[j + |p|..], p, r)
    ensures ReplaceAll(s, p, r) == s[..i] + r + ReplaceAll(s[i + |p|..], p, r)
  {
    assert t[j + |p|..] == s[i + |p|..];
    ReplaceAllKeepsFirst(s, p, r);
    PrependFirst(s, i, r, ReplaceAll(s[i + |p|..], p, r), ReplaceAll(t, p, r));
  }

  /** A first character that starts no occurrence is copied through. */
  lemma ReplaceAllKeepsFirst(s: string, p: string, r: string)
    requires |p| > 0
    requires |p| <= |s| && !OccursAt(s, p, 0)
    ensures ReplaceAll(s, p, r) == [s[0]] + ReplaceAll(s[1..], p, r)
  {
  }

  /** Putting the first character of `s` back in front of a text that starts with the rest of
      `s`'s first `i` characters. */
  lemma PrependFirst(s: string, i: nat, r: string, tail: string, x: string)
    requires 0 < i <= |s|
    requires x == s[1..][..i - 1] + r + tail
    ensures [s[0]] + x == s[..i] + r + tail
  {
    assert [s[0]] + s[1..][..i - 1] == s[..i];
  }

  /** Replacing a string by itself changes nothing. */
  lemma {:induction false} ReplaceAllIdentity(s: string, p: string)
    requires |p| > 0
    ensures ReplaceAll(s, p, p) == s
    decreases |s|
  {
    if |s| >= |p| {
      if s[..|p|] == p {
        ReplaceAllIdentity(s[|p|..], p);
        assert s == s[..|p|] + s[|p|..];
      } else {
        ReplaceAllIdentity(s[1..], p);
        assert s == [s[0]] + s[1..];
      }
    }
  }

  /** Deleting occurrences never adds a character: the result is no longer than the input and
      every character in it was already in the input. */
  lemma {:induction false} DeleteAllKeepsCharacters(s: string, p: string)
    requires |p| > 0
    ensures |ReplaceAll(s, p, "")| <= |s|
    ensures forall c | c in ReplaceAll(s, p, "") :: c in s
    decreases |s|
  {
    if |s| >= |p| {
      if s[..|p|] == p {
        DeleteAllKeepsCharacters(s[|p|..], p);
        assert forall c | c in s[|p|..] :: c in s;
      } else {
        DeleteAllKeepsCharacters(s[1..], p);
        assert forall c | c in s[1..] :: c in s;
      }
    }
  }

  /** Replacing a one-character pattern works character by character. */
  lemma ReplaceCharCons(x: char, t: string, c: char, r: string)
    ensures ReplaceAll([x] + t, [c], r) == (if x == c then r else [x]) + ReplaceAll(t, [c], r)
  {
    var s := [x] + t;
    assert s[..1] == [x];
    assert s[1..] == t;
  }
}
