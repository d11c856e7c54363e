/**
 * The handful of Python string operations the monitor relies on:
 * `str.isspace`, `str.lower`, `str.strip`, `str.split(sep)`,
 * `str.startswith` and the substring test `sub in s`.
 */
module Text {

  /** Python's `str.isspace()` for one character. */
  predicate IsSpace(c: char) {
    || c == ' '
    || ('\t' <= c <= '\r')
    || ('\U{1C}' <= c <= '\U{1F}')
    || c == '\U{85}' || c == '\U{A0}' || c == '\U{1680}'
    || ('\U{2000}' <= c <= '\U{200A}')
    || c == '\U{2028}' || c == '\U{2029}' || c == '\U{202F}' || c == '\U{205F}' || c == '\U{3000}'
  }

  predicate IsUpper(c: char) {
    'A' <= c <= 'Z'
  }

  /** Lower-cases one ASCII letter; every other character is left alone. */
  function LowerChar(c: char): (d: char)
    ensures !IsUpper(d)
    ensures !IsUpper(c) ==> d == c
    ensures IsUpper(c) ==> 'a' <= d <= 'z' && d as int == c as int + 32
    ensures IsSpace(d) <==> IsSpace(c)
  {
    if IsUpper(c) then (c as int + 32) as char else c
  }

  /** A string with no upper-case letter: a fixed point of `Lower`. */
  predicate IsLowerCase(s: string) {
    forall i :: 0 <= i < |s| ==> !IsUpper(s[i])
  }

  /** `r` is `s` with every character passed through `LowerChar`. */
  predicate LowersEach(s: string, r: string) {
    |r| == |s| && forall i :: 0 <= i < |s| ==> r[i] == LowerChar(s[i])
  }

  /** `s.lower()`, character by character. */
  function Lower(s: string): (r: string)
    ensures |r| == |s|
    ensures IsLowerCase(r)
  {
    seq(|s|, i requires 0 <= i < |s| => LowerChar(s[i]))
  }

  /** `Lower` lower-cases position by position: each character becomes its `LowerChar` image. */
  lemma LowerEach(s: string)
    ensures LowersEach(s, Lower(s))
  {
  }

  /** Two characters that are the same letter up to ASCII case, or simply equal. */
  predicate SameIgnoringCase(c: char, d: char) {
    || c == d
    || (IsUpper(c) && d as int == c as int + 32)
    || (IsUpper(d) && c as int == d as int + 32)
  }

  /** Two strings agree when compared without regard to ASCII case. */
  predicate EqualIgnoringCase(a: string, b: string) {
    |a| == |b| && forall i :: 0 <= i < |a| ==> SameIgnoringCase(a[i], b[i])
  }

  /** Lower-casing identifies two strings exactly when they agree up to ASCII case. */
  lemma {:induction false} LowerEqualIff(a: string, b: string)
    ensures Lower(a) == Lower(b) <==> EqualIgnoringCase(a, b)
  {
    LowerEach(a);
    LowerEach(b);
    if Lower(a) == Lower(b) {
      forall i | 0 <= i < |a|
        ensures SameIgnoringCase(a[i], b[i])
      {
        assert Lower(a)[i] == Lower(b)[i];
      }
    }
    if EqualIgnoringCase(a, b) {
      forall i | 0 <= i < |a|
        ensures Lower(a)[i] == Lower(b)[i]
      {
        assert SameIgnoringCase(a[i], b[i]);
      }
    }
  }

  lemma LowerIdempotent(s: string)
    ensures Lower(Lower(s)) == Lower(s)
    ensures IsLowerCase(s) ==> Lower(s) == s
  {
  }

  /** Neither end of the string is whitespace (the empty string qualifies). */
  predicate IsStripped(s: string) {
    s == [] || (!IsSpace(s[0]) && !IsSpace(s[|s| - 1]))
  }

  /** `s.lstrip()`: drops the leading whitespace. */
  function TrimStart(s: string): (r: string)
    ensures |r| <= |s| && r == s[|s| - |r|..]
    ensures forall k :: 0 <= k < |s| - |r| ==> IsSpace(s[k])
    ensures r != [] ==> !IsSpace(r[0])
  {
    if |s| > 0 && IsSpace(s[0]) then TrimStart(s[1..]) else s
  }

  /** `s.rstrip()`: drops the trailing whitespace. */
  function TrimEnd(s: string): (r: string)
    ensures |r| <= |s| && r == s[..|r|]
    ensures forall k :: |r| <= k < |s| ==> IsSpace(s[k])
    ensures r != [] ==> !IsSpace(r[|r| - 1])
  {
    if |s| > 0 && IsSpace(s[|s| - 1]) then TrimEnd(s[..|s| - 1]) else s
  }

  /**
   * `r` is the slice `s[i..j]` and everything outside it is whitespace.
   */
  predicate StripsTo(s: string, r: string, i: int, j: int) {
    && 0 <= i <= j <= |s|
    && r == s[i..j]
    && (forall k :: 0 <= k < i ==> IsSpace(s[k]))
    && (forall k :: j <= k < |s| ==> IsSpace(s[k]))
  }

  /**
   * `s.strip()`: the slice of `s` left once all leading and trailing
   * whitespace is gone. The two ensures together pin the result down.
   */
  function Strip(s: string): (r: string)
    ensures exists i, j :: StripsTo(s, r, i, j)
    ensures IsStripped(r)
  {
    var t := TrimStart(s);
    var r := TrimEnd(t);
    TrimBothEnds(s, t, r);
    r
  }

  /** Trimming the front and then the back leaves a slice with whitespace on both sides. */
  lemma TrimBothEnds(s: string, t: string, r: string)
    requires |t| <= |s| && t == s[|s| - |t|..]
    requires forall k :: 0 <= k < |s| - |t| ==> IsSpace(s[k])
    requires |r| <= |t| && r == t[..|r|]
    requires forall k :: |r| <= k < |t| ==> IsSpace(t[k])
    ensures StripsTo(s, r, |s| - |t|, |s| - |t| + |r|)
  {
    var i := |s| - |t|;
    assert t == s[i..];
    assert r == t[..|r|];
    assert r == s[i..i + |r|] by {
      forall k | 0 <= k < |r|
        ensures r[k] == s[i + k]
      {
        assert r[k] == t[k];
      }
    }
    forall k | i + |r| <= k < |s|
      ensures IsSpace(s[k])
    {
      assert s[k] == t[k - i];
    }
  }

  /** `s.strip()` is empty exactly when `s` consists of whitespace only. */
  lemma StripEmptyIffBlank(s: string)
    ensures Strip(s) == [] <==> forall k :: 0 <= k < |s| ==> IsSpace(s[k])
  {
    var r := Strip(s);
    var i, j :| StripsTo(s, r, i, j);
    if r == [] {
      assert i == j;
      forall k | 0 <= k < |s|
        ensures IsSpace(s[k])
      {
        if k >= i {
          assert j <= k;
        }
      }
    } else {
      assert s[i] == r[0];
    }
  }

  /** Lower-casing keeps a stripped string stripped (whitespace has no case). */
  lemma LowerKeepsStripped(s: string)
    requires IsStripped(s)
    ensures IsStripped(Lower(s))
  {
  }

  /** Joins pieces with the separator between consecutive pieces: `sep.join(parts)`. */
  function Join(parts: seq<string>, sep: char): string
    requires |parts| >= 1
    decreases |parts|
  {
    if |parts| == 1 then parts[0] else parts[0] + [sep] + Join(parts[1..], sep)
  }

  /** `s.split(sep)` for a one-character separator: empty pieces are kept and `"".split(sep) == [""]`. */
  function Split(s: string, sep: char): (r: seq<string>)
    ensures |r| >= 1
    ensures forall i :: 0 <= i < |r| ==> sep !in r[i]
  {
    if |s| == 0 then [""]
    else
      var rest := Split(s[1..], sep);
      if s[0] == sep then [""] + rest
      else [[s[0]] + rest[0]] + rest[1..]
  }

  /** Splitting and re-joining gives back the original string. */
  lemma {:induction false} JoinSplit(s: string, sep: char)
    ensures Join(Split(s, sep), sep) == s
  {
    if |s| > 0 {
      var rest := Split(s[1..], sep);
      var r := Split(s, sep);
      JoinSplit(s[1..], sep);
      assert s == [s[0]] + s[1..];
      if s[0] == sep {
        assert r == [""] + rest;
        assert r[1..] == rest;
        assert Join(r, sep) == "" + [sep] + Join(rest, sep);
      } else {
        assert r == [[s[0]] + rest[0]] + rest[1..];
        if |rest| > 1 {
          var more := Join(rest[1..], sep);
          assert r[1..] == rest[1..];
          assert Join(rest, sep) == rest[0] + [sep] + more;
          assert Join(r, sep) == ([s[0]] + rest[0]) + [sep] + more;
          assert Join(r, sep) == [s[0]] + (rest[0] + [sep] + more);
        }
      }
    }
  }

  /** Splitting a piece free of the separator, followed by more text, extends the first piece. */
  lemma {:induction false} SplitPrefix(p: string, t: string, sep: char)
    requires sep !in p
    ensures Split(p + t, sep) == [p + Split(t, sep)[0]] + Split(t, sep)[1..]
  {
    var tail := Split(t, sep);
    if |p| > 0 {
      var s := p + t;
      assert s[1..] == p[1..] + t;
      assert s[0] == p[0] && p[0] != sep;
      SplitPrefix(p[1..], t, sep);
      var rest := Split(s[1..], sep);
      assert rest == [p[1..] + tail[0]] + tail[1..];
      assert Split(s, sep) == [[p[0]] + rest[0]] + rest[1..];
      assert [p[0]] + (p[1..] + tail[0]) == p + tail[0];
    } else {
      assert p + t == t;
      assert p + tail[0] == tail[0];
      assert tail == [tail[0]] + tail[1..];
    }
  }

  /** Joining pieces that do not contain the separator and splitting again gives back the pieces. */
  lemma {:induction false} SplitJoin(parts: seq<string>, sep: char)
    requires |parts| >= 1
    requires forall i :: 0 <= i < |parts| ==> sep !in parts[i]
    ensures Split(Join(parts, sep), sep) == parts
    decreases |parts|
  {
    if |parts| == 1 {
      SplitPrefix(parts[0], "", sep);
      assert parts[0] + "" == parts[0];
    } else {
      var tail := Join(parts[1..], sep);
      SplitJoin(parts[1..], sep);
      SplitPrefix(parts[0], [sep] + tail, sep);
      assert parts[0] + [sep] + tail == parts[0] + ([sep] + tail);
      assert ([sep] + tail)[1..] == tail;
      var s := Split([sep] + tail, sep);
      assert ([sep] + tail)[0] == sep;
      assert s == [""] + parts[1..];
      assert s[0] == "" && s[1..] == parts[1..];
      assert parts[0] + s[0] == parts[0];
      assert Join(parts, sep) == parts[0] + ([sep] + tail);
      assert parts == [parts[0]] + parts[1..];
    }
  }

  /** `s.startswith(prefix)`. */
  predicate StartsWith(s: string, prefix: string) {
    |prefix| <= |s| && s[..|prefix|] == prefix
  }

  /** Python's substring test `sub in s`; the empty string is in every string. */
  predicate Contains(s: string, sub: string) {
    exists i | 0 <= i <= |s| - |sub| :: OccursAt(s, sub, i)
  }

  /** `sub` occurs in `s` starting at index `i`. */
  predicate OccursAt(s: string, sub: string, i: int)
    requires 0 <= i <= |s| - |sub|
  {
    s[i..i + |sub|] == sub
  }
}
