/** String helpers with the meaning Kotlin's `String` gives them. */
module Text {

  /** `p` is a prefix of `s`. */
  predicate IsPrefix(p: string, s: string) {
    |p| <= |s| && s[..|p|] == p
  }

  /** Kotlin's `s.contains(pat)`: `pat` occurs somewhere in `s`. */
  predicate Contains(s: string, pat: string)
    decreases |s|
  {
    IsPrefix(pat, s) || (|s| > 0 && Contains(s[1..], pat))
  }

  /** A copy of `pat` starts at index `i` of `s`. */
  predicate OccursAt(s: string, pat: string, i: int) {
    0 <= i <= |s| - |pat| && s[i..i + |pat|] == pat
  }

  /** `pat` occurs in `s` exactly when some index of `s` starts a copy of it. */
  lemma {:induction false} ContainsAt(s: string, pat: string)
    ensures Contains(s, pat) <==> exists i :: OccursAt(s, pat, i)
    decreases |s|
  {
    if IsPrefix(pat, s) {
      assert OccursAt(s, pat, 0);
    } else if |s| == 0 {
    } else {
      ContainsAt(s[1..], pat);
      if exists i :: OccursAt(s, pat, i) {
        var i :| OccursAt(s, pat, i);
        assert i != 0;
        assert OccursAt(s[1..], pat, i - 1);
      }
      if exists i :: OccursAt(s[1..], pat, i) {
        var i :| OccursAt(s[1..], pat, i);
        assert OccursAt(s, pat, i + 1);
      }
    }
  }

  /** A string none of whose characters is `c` never contains a pattern that has `c`. */
  lemma {:induction false} NotContainsWithoutChar(s: string, pat: string, c: char)
    requires c in pat
    requires c !in s
    ensures !Contains(s, pat)
    decreases |s|
  {
    if |s| > 0 {
      NotContainsWithoutChar(s[1..], pat, c);
    }
  }

  /** The parts joined with `sep` between each neighbouring pair. */
  function Join(parts: seq<string>, sep: string): string
    decreases |parts|
  {
    if |parts| == 0 then ""
    else if |parts| == 1 then parts[0]
    else parts[0] + sep + Join(parts[1..], sep)
  }

  /** Kotlin's `CharSequence.length`: the number of UTF-16 code units, so a
      character outside the Basic Multilingual Plane counts twice. */
  function Utf16Length(s: string): (n: nat)
    ensures |s| <= n <= 2 * |s|
    ensures n == 0 <==> s == ""
    ensures n == |s| <==> forall i :: 0 <= i < |s| ==> s[i] as int < 0x1_0000
    decreases |s|
  {
    if s == "" then 0
    else (if s[0] as int < 0x1_0000 then 1 else 2) + Utf16Length(s[1..])
  }

  /** The first character of `pat` occurs nowhere else in it, so no copy of
      `pat` can start inside another. */
  predicate OpensOnce(pat: string) {
    pat != "" && forall k :: 0 < k < |pat| ==> pat[k] != pat[0]
  }

  /** Kotlin's `s.replace(pat, replacement)` for a non-empty `pat`: scans left to
      right, replaces each occurrence and resumes after it. */
  function Replace(s: string, pat: string, replacement: string): (r: string)
    requires pat != ""
    ensures !Contains(s, pat) ==> r == s
    decreases |s|
  {
    if s == "" then ""
    else if IsPrefix(pat, s) then
      replacement + Replace(s[|pat|..], pat, replacement)
    else [s[0]] + Replace(s[1..], pat, replacement)
  }

  /** Text that does not start with `pat` is copied one character. */
  lemma ReplaceCopies(s: string, pat: string, replacement: string)
    requires pat != ""
    requires s != "" && !IsPrefix(pat, s)
    ensures Replace(s, pat, replacement) == [s[0]] + Replace(s[1..], pat, replacement)
  {
  }

  /** An occurrence at the front is replaced, and the scan resumes after it. */
  lemma ReplaceAtFront(t: string, pat: string, replacement: string)
    requires pat != ""
    ensures Replace(pat + t, pat, replacement) == replacement + Replace(t, pat, replacement)
  {
    var s := pat + t;
    assert IsPrefix(pat, s);
    assert s[|pat|..] == t;
  }

  /** No copy of `pat` starts inside a `pat`-free text and runs on into text
      that opens like `pat`. */
  lemma NoOccurrenceAcrossBoundary(a: string, u: string, pat: string)
    requires OpensOnce(pat)
    requires a != "" && !Contains(a, pat)
    requires |u| > 0 && u[0] == pat[0]
    ensures !IsPrefix(pat, a + u)
  {
    if |a| >= |pat| {
      assert (a + u)[..|pat|] == a[..|pat|];
      assert !IsPrefix(pat, a);
    } else {
      assert (a + u)[|a|] == pat[0];
      assert pat[|a|] != pat[0];
    }
  }

  /** The scan copies a `pat`-free text and then replaces the occurrence that
      follows it. */
  lemma {:induction false} ReplaceAfterPlainText(a: string, t: string, pat: string, replacement: string)
    requires OpensOnce(pat)
    requires !Contains(a, pat)
    ensures Replace(a + pat + t, pat, replacement) == a + replacement + Replace(t, pat, replacement)
    decreases |a|
  {
    if a == "" {
      assert a + pat + t == pat + t;
      ReplaceAtFront(t, pat, replacement);
    } else {
      ReplacePlainStep(a, t, pat, replacement);
      ReplaceAfterPlainText(a[1..], t, pat, replacement);
      PrependChar(a, replacement, Replace(t, pat, replacement));
    }
  }

  /** One step of the scan over a `pat`-free text followed by `pat`: its first
      character is copied. */
  lemma ReplacePlainStep(a: string, t: string, pat: string, replacement: string)
    requires OpensOnce(pat)
    requires a != "" && !Contains(a, pat)
    ensures !Contains(a[1..], pat)
    ensures Replace(a + pat + t, pat, replacement) == [a[0]] + Replace(a[1..] + pat + t, pat, replacement)
  {
    var s := a + pat + t;
    NoOccurrenceAcrossBoundary(a, pat + t, pat);
    assert s == a + (pat + t);
    ReplaceCopies(s, pat, replacement);
    assert s[1..] == a[1..] + pat + t;
  }

  lemma PrependChar(a: string, x: string, y: string)
    requires a != ""
    ensures [a[0]] + (a[1..] + x + y) == a + x + y
  {
    assert a == [a[0]] + a[1..];
  }

  /** The first part of a join starts the joined text. */
  lemma JoinStartsWithFirst(parts: seq<string>, sep: string)
    requires |parts| > 0
    ensures IsPrefix(parts[0], Join(parts, sep))
  {
    if |parts| > 1 {
      assert Join(parts, sep) == parts[0] + (sep + Join(parts[1..], sep));
    }
  }

  lemma JoinCons(head: string, tail: seq<string>, sep: string)
    ensures Join([head] + tail, sep) == if tail == [] then head else head + sep + Join(tail, sep)
  {
    assert ([head] + tail)[1..] == tail;
  }

  /** Putting a character in front of the first part puts it in front of the join. */
  lemma JoinExtendFirst(c: char, head: string, tail: seq<string>, sep: string)
    ensures Join([[c] + head] + tail, sep) == [c] + Join([head] + tail, sep)
  {
    JoinCons([c] + head, tail, sep);
    JoinCons(head, tail, sep);
  }

  /** The first character of a text that does not start with `pat`, followed by
      a `pat`-free text that starts the rest, is `pat`-free. */
  lemma FirstPartIsFree(s: string, head: string, tail: string, pat: string)
    requires s != "" && !IsPrefix(pat, s)
    requires tail == s[1..] && IsPrefix(head, tail)
    requires !Contains(head, pat)
    ensures !Contains([s[0]] + head, pat)
  {
    var first := [s[0]] + head;
    assert first == s[..|first|];
    if |first| >= |pat| {
      assert first[..|pat|] == s[..|pat|];
    }
    assert first[1..] == head;
  }

  lemma SplitFirstPart(s: string, rest: seq<string>, pat: string)
    requires s != "" && !IsPrefix(pat, s)
    requires |rest| > 0 && Join(rest, pat) == s[1..]
    requires forall i :: 0 <= i < |rest| ==> !Contains(rest[i], pat)
    ensures var parts := [[s[0]] + rest[0]] + rest[1..];
      && Join(parts, pat) == s
      && forall i :: 0 <= i < |parts| ==> !Contains(parts[i], pat)
  {
    var first := [s[0]] + rest[0];
    var parts := [first] + rest[1..];
    JoinStartsWithFirst(rest, pat);
    FirstPartIsFree(s, rest[0], Join(rest, pat), pat);
    assert rest == [rest[0]] + rest[1..];
    JoinCons(rest[0], rest[1..], pat);
    JoinCons(first, rest[1..], pat);
    JoinExtendFirst(s[0], rest[0], rest[1..], pat);
    assert s == [s[0]] + s[1..];
    forall i | 0 <= i < |parts|
      ensures !Contains(parts[i], pat)
    {
      if i > 0 {
        assert parts[i] == rest[i];
      }
    }
  }

  /** Splitting a text at the occurrences of `pat` the scan finds. */
  function SplitAt(s: string, pat: string): (parts: seq<string>)
    requires pat != ""
    ensures |parts| > 0
    ensures Join(parts, pat) == s
    ensures forall i :: 0 <= i < |parts| ==> !Contains(parts[i], pat)
    decreases |s|
  {
    if s == "" then [""]
    else if IsPrefix(pat, s) then
      var rest := SplitAt(s[|pat|..], pat);
      assert s == pat + s[|pat|..];
      [""] + rest
    else
      var rest := SplitAt(s[1..], pat);
      SplitFirstPart(s, rest, pat);
      [[s[0]] + rest[0]] + rest[1..]
  }

  /** Every occurrence is replaced: for any split of the text into `pat`-free
      parts, the result joins those parts with the replacement. */
  lemma {:induction false} ReplaceJoin(parts: seq<string>, pat: string, replacement: string)
    requires OpensOnce(pat)
    requires |parts| > 0
    requires forall i :: 0 <= i < |parts| ==> !Contains(parts[i], pat)
    ensures Replace(Join(parts, pat), pat, replacement) == Join(parts, replacement)
    decreases |parts|
  {
    if |parts| > 1 {
      ReplaceAfterPlainText(parts[0], Join(parts[1..], pat), pat, replacement);
      ReplaceJoin(parts[1..], pat, replacement);
    }
  }

  /** The replaced text is the text's `pat`-free pieces joined with the
      replacement, and `pat` occurs exactly when there is more than one piece. */
  lemma ReplaceEveryOccurrence(s: string, pat: string, replacement: string)
    requires OpensOnce(pat)
    ensures Replace(s, pat, replacement) == Join(SplitAt(s, pat), replacement)
    ensures Contains(s, pat) <==> |SplitAt(s, pat)| > 1
  {
    var parts := SplitAt(s, pat);
    ReplaceJoin(parts, pat, replacement);
    if |parts| > 1 {
      assert s == parts[0] + pat + Join(parts[1..], pat);
      ContainsAt(s, pat);
      assert OccursAt(s, pat, |parts[0]|);
    }
  }
}
