/**
 * The string operations the reply parser relies on, with Python's semantics:
 * `str.split(sep)` with a one-character separator, `str.startswith`,
 * `str.replace(marker, '')` and `str.strip()` with no argument.
 */
module Text {

  /** The characters for which Python's `str.isspace()` holds, listed one by
      one: the ASCII controls TAB to CR, the information separators 0x1C-0x1F,
      SPACE, NEL, NO-BREAK SPACE and the Unicode space and line separators. */
  const PythonWhitespace: set<char> := {
    '\t', '\n', '\U{0B}', '\U{0C}', '\r',
    '\U{1C}', '\U{1D}', '\U{1E}', '\U{1F}', ' ',
    '\U{85}', '\U{A0}', '\U{1680}',
    '\U{2000}', '\U{2001}', '\U{2002}', '\U{2003}', '\U{2004}', '\U{2005}',
    '\U{2006}', '\U{2007}', '\U{2008}', '\U{2009}', '\U{200A}',
    '\U{2028}', '\U{2029}', '\U{202F}', '\U{205F}', '\U{3000}'
  }

  /** Python's `str.isspace()` for one character, as range tests. */
  predicate IsSpace(c: char) {
    c == ' ' || ('\t' <= c <= '\r') || ('\U{1C}' <= c <= '\U{1F}') ||
    c == '\U{85}' || c == '\U{A0}' || c == '\U{1680}' ||
    ('\U{2000}' <= c <= '\U{200A}') || c == '\U{2028}' || c == '\U{2029}' ||
    c == '\U{202F}' || c == '\U{205F}' || c == '\U{3000}'
  }

  /** The range tests of `IsSpace` accept exactly the listed whitespace characters. */
  lemma IsSpaceIsPythonWhitespace(c: char)
    ensures IsSpace(c) <==> c in PythonWhitespace
  {
  }

  /** Every character of `s` is whitespace (true of the empty string). */
  predicate IsBlank(s: string) {
    forall k :: 0 <= k < |s| ==> IsSpace(s[k])
  }

  /** Neither the first nor the last character of `s` is whitespace. */
  predicate HasTrimmedEdges(s: string) {
    s == [] || (!IsSpace(s[0]) && !IsSpace(s[|s| - 1]))
  }

  /** `str.startswith(prefix)` */
  predicate StartsWith(s: string, prefix: string) {
    |prefix| <= |s| && s[..|prefix|] == prefix
  }

  /** `s.startswith(prefix)` holds exactly when `s` agrees with `prefix`
      character by character over the whole length of `prefix`. */
  lemma StartsWithCharwise(s: string, prefix: string)
    ensures StartsWith(s, prefix) <==>
              |prefix| <= |s| && forall k :: 0 <= k < |prefix| ==> s[k] == prefix[k]
  {
  }

  /** `pattern` occurs in `s` starting at index `i`. */
  predicate OccursAt(s: string, pattern: string, i: nat) {
    i + |pattern| <= |s| && s[i..i + |pattern|] == pattern
  }

  /** `pattern in s` */
  ghost predicate Contains(s: string, pattern: string) {
    exists i: nat :: OccursAt(s, pattern, i)
  }

  // ---------------------------------------------------------------------------
  // str.split(sep)

  /** `s.split(sep)`: the pieces between separators, always at least one;
      `"".split(sep) == [""]` and a trailing separator gives a trailing `""`. */
  function Split(s: string, sep: char): (pieces: seq<string>)
    ensures |pieces| >= 1
    ensures forall k :: 0 <= k < |pieces| ==> sep !in pieces[k]
  {
    if s == [] then [[]]
    else
      var rest := Split(s[1..], sep);
      if s[0] == sep then [[]] + rest
      else [[s[0]] + rest[0]] + rest[1..]
  }

  /** `sep.join(pieces)`, the inverse of `Split`. */
  function Join(pieces: seq<string>, sep: char): string
    requires |pieces| >= 1
  {
    if |pieces| == 1 then pieces[0]
    else pieces[0] + [sep] + Join(pieces[1..], sep)
  }

  /** Joining the pieces of a split gives back the original text. */
  lemma {:induction false} JoinSplit(s: string, sep: char)
    ensures Join(Split(s, sep), sep) == s
  {
    if s != [] {
      var rest := Split(s[1..], sep);
      JoinSplit(s[1..], sep);
      if s[0] == sep {
        assert Split(s, sep) == [[]] + rest;
      } else {
        var pieces := Split(s, sep);
        assert pieces == [[s[0]] + rest[0]] + rest[1..];
        if |rest| == 1 {
          assert Join(pieces, sep) == [s[0]] + rest[0];
        } else {
          assert pieces[1..] == rest[1..];
          assert Join(rest, sep) == rest[0] + [sep] + Join(rest[1..], sep);
          assert Join(pieces, sep) == [s[0]] + rest[0] + [sep] + Join(rest[1..], sep);
        }
      }
    }
  }

  /** A separator-free prefix is glued onto the first piece. */
  lemma {:induction false} SplitPlainPrefix(a: string, s: string, sep: char)
    requires sep !in a
    ensures Split(a + s, sep) == [a + Split(s, sep)[0]] + Split(s, sep)[1..]
  {
    if a != [] {
      var t := Split(s, sep);
      SplitPlainPrefix(a[1..], s, sep);
      assert (a + s)[0] == a[0] && (a + s)[1..] == a[1..] + s;
      var rest := Split(a[1..] + s, sep);
      assert rest[0] == a[1..] + t[0] && rest[1..] == t[1..];
      assert Split(a + s, sep) == [[a[0]] + rest[0]] + rest[1..];
      ConsAppend(a[0], a[1..], t[0]);
      assert [a[0]] + a[1..] == a;
    } else {
      var pieces := Split(s, sep);
      assert a + s == s;
      assert a + pieces[0] == pieces[0];
      assert pieces == [pieces[0]] + pieces[1..];
    }
  }

  /** Two separator-free lines joined by the separator split back into those two lines. */
  lemma SplitTwoLines(a: string, b: string, sep: char)
    requires sep !in a && sep !in b
    ensures Split(a + [sep] + b, sep) == [a, b]
  {
    SplitJoin([a, b], sep);
    assert Join([b], sep) == b;
    assert Join([a, b], sep) == a + [sep] + b;
  }

  /** Splitting the join of separator-free pieces gives back the pieces. */
  lemma {:induction false} SplitJoin(pieces: seq<string>, sep: char)
    requires |pieces| >= 1
    requires forall k :: 0 <= k < |pieces| ==> sep !in pieces[k]
    ensures Split(Join(pieces, sep), sep) == pieces
  {
    if |pieces| == 1 {
      SplitPlainPrefix(pieces[0], [], sep);
      assert pieces[0] + [] == pieces[0];
    } else {
      var tail := Join(pieces[1..], sep);
      SplitJoin(pieces[1..], sep);
      assert ([sep] + tail)[1..] == tail;
      assert Split([sep] + tail, sep) == [[]] + pieces[1..];
      SplitPlainPrefix(pieces[0], [sep] + tail, sep);
      assert pieces[0] + [sep] + tail == pieces[0] + ([sep] + tail);
      assert pieces[0] + [] == pieces[0];
    }
  }

  // ---------------------------------------------------------------------------
  // str.replace(marker, '')

  /** A string that does not start with `pattern` contains it exactly when its tail does. */
  lemma ContainsTail(s: string, pattern: string)
    requires |s| >= 1 && !StartsWith(s, pattern)
    ensures Contains(s, pattern) <==> Contains(s[1..], pattern)
  {
    if Contains(s, pattern) {
      var i: nat :| OccursAt(s, pattern, i);
      assert i > 0;
      assert s[1..][i - 1..i - 1 + |pattern|] == s[i..i + |pattern|];
      assert OccursAt(s[1..], pattern, i - 1);
    }
    if Contains(s[1..], pattern) {
      var j: nat :| OccursAt(s[1..], pattern, j);
      assert s[1..][j..j + |pattern|] == s[j + 1..j + 1 + |pattern|];
      assert OccursAt(s, pattern, j + 1);
    }
  }

  /** `s.replace(marker, '')`: one left-to-right pass that deletes every
      non-overlapping occurrence of `marker`; it never lengthens the text. */
  function RemoveAll(s: string, marker: string): (r: string)
    requires marker != []
    ensures |r| <= |s|
    decreases |s|
  {
    if |s| < |marker| then s
    else if StartsWith(s, marker) then RemoveAll(s[|marker|..], marker)
    else [s[0]] + RemoveAll(s[1..], marker)
  }

  /** The text is returned unchanged exactly when `marker` does not occur in
      it; otherwise it comes back strictly shorter. */
  lemma {:induction false} RemoveAllUnchangedIff(s: string, marker: string)
    requires marker != []
    ensures !Contains(s, marker) ==> RemoveAll(s, marker) == s
    ensures Contains(s, marker) ==> |RemoveAll(s, marker)| < |s|
    decreases |s|
  {
    if |s| < |marker| {
      assert !Contains(s, marker) by {
        forall i: nat ensures !OccursAt(s, marker, i) { }
      }
    } else if StartsWith(s, marker) {
      assert OccursAt(s, marker, 0);
    } else {
      ContainsTail(s, marker);
      RemoveAllUnchangedIff(s[1..], marker);
      assert [s[0]] + s[1..] == s;
    }
  }

  /** Text without the first character of `pattern` cannot contain `pattern`. */
  lemma MissingFirstCharNotContained(s: string, pattern: string)
    requires pattern != [] && pattern[0] !in s
    ensures !Contains(s, pattern)
  {
  }

  /** A stretch that cannot start an occurrence of `marker` is copied as it is. */
  lemma {:induction false} RemoveAllKeepsPlainPrefix(a: string, s: string, marker: string)
    requires marker != [] && marker[0] !in a
    ensures RemoveAll(a + s, marker) == a + RemoveAll(s, marker)
  {
    if a != [] {
      assert !StartsWith(a + s, marker) by {
        assert (a + s)[0] == a[0];
      }
      assert (a + s)[1..] == a[1..] + s;
      RemoveAllKeepsPlainPrefix(a[1..], s, marker);
      assert [a[0]] + a[1..] == a;
    } else {
      assert a + s == s;
    }
  }

  /** The first character of `marker` occurs nowhere else in it, so two
      occurrences of `marker` can never overlap. */
  predicate HeadUnique(marker: string) {
    marker != [] && forall k :: 0 < k < |marker| ==> marker[k] != marker[0]
  }

  /** Text that begins inside an occurrence of such a marker cannot start with it. */
  lemma NoOverlap(a: string, marker: string, b: string)
    requires HeadUnique(marker) && 0 < |a| < |marker|
    ensures !StartsWith(a + marker + b, marker)
  {
    var s := a + marker + b;
    assert s[|a|] == marker[0];
    assert s[..|marker|][|a|] != marker[|a|];
  }

  /** When `a` starts with the marker, the replacement of `a + marker + b`
      deletes that occurrence first, exactly as the replacement of `a` does. */
  lemma RemoveAllSkipsLeading(a: string, marker: string, b: string)
    requires HeadUnique(marker) && StartsWith(a, marker)
    ensures RemoveAll(a + marker + b, marker) == RemoveAll(a[|marker|..] + marker + b, marker)
    ensures RemoveAll(a, marker) == RemoveAll(a[|marker|..], marker)
  {
    var s := a + marker + b;
    assert s[..|marker|] == a[..|marker|];
    assert s[|marker|..] == a[|marker|..] + marker + b;
  }

  /** When `a` does not start with the marker, the replacement of
      `a + marker + b` keeps the first character of `a`, exactly as the
      replacement of `a` does. */
  lemma RemoveAllKeepsLeading(a: string, marker: string, b: string)
    requires HeadUnique(marker) && a != [] && !StartsWith(a, marker)
    ensures RemoveAll(a + marker + b, marker) == [a[0]] + RemoveAll(a[1..] + marker + b, marker)
    ensures RemoveAll(a, marker) == [a[0]] + RemoveAll(a[1..], marker)
  {
    var s := a + marker + b;
    if |a| < |marker| {
      NoOverlap(a, marker, b);
      assert [a[0]] + a[1..] == a;
    } else {
      assert s[..|marker|] == a[..|marker|];
    }
    assert s[1..] == a[1..] + marker + b;
  }

  /** Regrouping a concatenation that starts with one character. */
  lemma ConsAppend(c: char, x: string, y: string)
    ensures [c] + (x + y) == ([c] + x) + y
  {
  }

  /** Every occurrence of such a marker is deleted, wherever it stands: the
      replacement of `a + marker + b` is the replacement of `a` followed by
      the replacement of `b`. */
  lemma {:induction false} RemoveAllAtOccurrence(a: string, marker: string, b: string)
    requires HeadUnique(marker)
    ensures RemoveAll(a + marker + b, marker) == RemoveAll(a, marker) + RemoveAll(b, marker)
    decreases |a|
  {
    if a == [] {
      var s := a + marker + b;
      assert s == marker + b;
      assert s[..|marker|] == marker && s[|marker|..] == b;
    } else if StartsWith(a, marker) {
      RemoveAllSkipsLeading(a, marker, b);
      RemoveAllAtOccurrence(a[|marker|..], marker, b);
    } else {
      RemoveAllKeepsLeading(a, marker, b);
      RemoveAllAtOccurrence(a[1..], marker, b);
      ConsAppend(a[0], RemoveAll(a[1..], marker), RemoveAll(b, marker));
    }
  }

  // ---------------------------------------------------------------------------
  // str.strip()

  /** `s.lstrip()`: drops the leading whitespace, keeping a suffix of `s`. */
  function TrimLeft(s: string): (r: string)
    ensures |r| <= |s| && r == s[|s| - |r|..]
    ensures IsBlank(s[..|s| - |r|])
    ensures r == [] || !IsSpace(r[0])
  {
    if s != [] && IsSpace(s[0]) then
      var r := TrimLeft(s[1..]);
      var n := |s| - |r|;
      assert s[n..] == s[1..][n - 1..];
      assert forall k :: 0 < k < n ==> s[..n][k] == s[1..][..n - 1][k - 1];
      r
    else s
  }

  /** `s.rstrip()`: drops the trailing whitespace, keeping a prefix of `s`. */
  function TrimRight(s: string): (r: string)
    ensures |r| <= |s| && r == s[..|r|]
    ensures IsBlank(s[|r|..])
    ensures r == [] || !IsSpace(r[|r| - 1])
  {
    if s != [] && IsSpace(s[|s| - 1]) then
      var init := s[..|s| - 1];
      var r := TrimRight(init);
      assert s[..|r|] == init[..|r|];
      assert s[|r|..] == init[|r|..] + [s[|s| - 1]];
      r
    else s
  }

  /** `s` is `r` with blank padding `s[..i]` before it and blank padding after it. */
  predicate PaddedAt(s: string, i: nat, r: string) {
    i + |r| <= |s| && s[i..i + |r|] == r && IsBlank(s[..i]) && IsBlank(s[i + |r|..])
  }

  /** `s.strip()`: the text between the leading and the trailing whitespace. */
  function Strip(s: string): (r: string)
    ensures HasTrimmedEdges(r)
    ensures exists i: nat :: PaddedAt(s, i, r)
  {
    var t := TrimLeft(s);
    var r := TrimRight(t);
    PaddingOfTrims(s, t, r);
    r
  }

  /** What `lstrip` then `rstrip` leave is padded by the blanks they dropped. */
  lemma PaddingOfTrims(s: string, t: string, r: string)
    requires |t| <= |s| && t == s[|s| - |t|..] && IsBlank(s[..|s| - |t|])
    requires t == [] || !IsSpace(t[0])
    requires |r| <= |t| && r == t[..|r|] && IsBlank(t[|r|..])
    requires r == [] || !IsSpace(r[|r| - 1])
    ensures HasTrimmedEdges(r)
    ensures PaddedAt(s, |s| - |t|, r)
  {
    var i := |s| - |t|;
    assert s[i..i + |r|] == t[..|r|];
    assert s[i + |r|..] == t[|r|..];
  }

  /** Leading blanks in front of a string that starts with a non-blank are all dropped. */
  lemma {:induction false} TrimLeftBlankPrefix(a: string, r: string)
    requires IsBlank(a) && (r == [] || !IsSpace(r[0]))
    ensures TrimLeft(a + r) == r
  {
    if a != [] {
      assert (a + r)[0] == a[0];
      assert (a + r)[1..] == a[1..] + r;
      TrimLeftBlankPrefix(a[1..], r);
    } else {
      assert a + r == r;
    }
  }

  /** Trailing blanks after a string that ends with a non-blank are all dropped. */
  lemma {:induction false} TrimRightBlankSuffix(r: string, b: string)
    requires IsBlank(b) && (r == [] || !IsSpace(r[|r| - 1]))
    ensures TrimRight(r + b) == r
  {
    if b != [] {
      var rb := r + b;
      assert rb[|rb| - 1] == b[|b| - 1];
      assert rb[..|rb| - 1] == r + b[..|b| - 1];
      TrimRightBlankSuffix(r, b[..|b| - 1]);
    } else {
      assert r + b == r;
    }
  }

  /** `Strip` is characterised by its two ensures: whatever text with trimmed
      edges is padded by blanks on both sides, stripping returns that text. */
  lemma StripPadded(a: string, r: string, b: string)
    requires IsBlank(a) && IsBlank(b) && HasTrimmedEdges(r)
    ensures Strip(a + r + b) == r
  {
    assert a + r + b == a + (r + b);
    if r == [] {
      assert IsBlank(a + b);
      TrimLeftBlankPrefix(a + b, []);
      assert a + r + b == (a + b) + [];
    } else {
      assert (r + b)[0] == r[0];
      TrimLeftBlankPrefix(a, r + b);
      TrimRightBlankSuffix(r, b);
    }
  }

  /** Stripping twice is stripping once. */
  lemma StripIdempotent(s: string)
    ensures Strip(Strip(s)) == Strip(s)
  {
  }
}
